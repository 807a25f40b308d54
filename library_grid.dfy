/**
 * The game grid of the game library: 16 cells, the game model it extends
 * (held here as `model`), and the start time of the open play period. A
 * move walks each line of the move and, at each cell, pulls values toward
 * it with the recursive MoveFill and then merges it with its neighbour.
 */
module LibraryGrid {
  import opened Wrappers
  import opened GameCell
  import opened GameMoves
  import opened LineRules
  import opened LineSteps
  import opened Board
  import opened Clock
  import opened GameModels
  import opened CellArray

  /** A cell with no neighbour for the move is the last of its line: packing from it changes nothing. */
  lemma FillStepLast(b: seq<int>, d: GameMove, k: CellIndex)
    requires |b| == Count && d.Valid() && NeighborForMove(d, k).None?
    ensures PackFrom(b, d, LineOf(d, k), PosOf(d, k)) == b
  {
    NeighborIsNext(d, k);
    PackFromLast(b, d, LineOf(d, k));
  }

  /** The neighbour of a cell is the next cell of the same line. */
  lemma FillStepNext(d: GameMove, k: CellIndex, n: CellIndex)
    requires d.Valid() && NeighborForMove(d, k) == Some(n)
    ensures LineOf(d, n) == LineOf(d, k) && PosOf(d, n) == PosOf(d, k) + 1
  {
    NeighborIsNext(d, k);
    SliceCellLocated(d, LineOf(d, k), PosOf(d, k) + 1);
  }

  /** A cell holding a value stays: packing from its neighbour is packing from it. */
  lemma FillStepKeep(b0: seq<int>, b1: seq<int>, d: GameMove, k: CellIndex, n: CellIndex)
    requires |b0| == Count && d.Valid() && NeighborForMove(d, k) == Some(n) && b0[k] != 0
    requires b1 == PackFrom(b0, d, LineOf(d, n), PosOf(d, n))
    ensures b1 == PackFrom(b0, d, LineOf(d, k), PosOf(d, k))
  {
    var i, p := LineOf(d, k), PosOf(d, k);
    NeighborIsNext(d, k);
    SliceCellLocated(d, i, p + 1);
    assert k == SliceCell(d, i, p) && n == SliceCell(d, i, p + 1);
    PackFromKeep(b0, d, i, p);
  }

  /**
   * An empty cell whose neighbour stays empty, once the cells behind it are
   * packed (b1), has nothing behind it: the line is already packed from it.
   */
  lemma FillStepZeroHead(b0: seq<int>, b1: seq<int>, d: GameMove, k: CellIndex, n: CellIndex)
    requires |b0| == Count && d.Valid() && NeighborForMove(d, k) == Some(n) && b0[k] == 0
    requires b1 == if b0[n] == 0 then PackFrom(b0, d, LineOf(d, n), PosOf(d, n)) else b0
    requires b1[n] == 0
    ensures b1 == b0 && PackFrom(b0, d, LineOf(d, k), PosOf(d, k)) == b0
  {
    var i, p := LineOf(d, k), PosOf(d, k);
    NeighborIsNext(d, k);
    SliceCellLocated(d, i, p + 1);
    assert k == SliceCell(d, i, p) && n == SliceCell(d, i, p + 1);
    PackFromZeroHead(b0, d, i, p);
  }

  /**
   * An empty cell whose neighbour holds a value, once the cells behind it
   * are packed (b1), takes that value, and the cells behind are packed
   * again (b2): the line is packed from the cell, and it changed.
   */
  lemma FillStepPull(b0: seq<int>, b1: seq<int>, b2: seq<int>, d: GameMove, k: CellIndex, n: CellIndex)
    requires |b0| == Count && d.Valid() && NeighborForMove(d, k) == Some(n) && b0[k] == 0
    requires b1 == if b0[n] == 0 then PackFrom(b0, d, LineOf(d, n), PosOf(d, n)) else b0
    requires b1[n] != 0
    requires b2 == PackFrom(b1[k := b1[n]][n := 0], d, LineOf(d, n), PosOf(d, n))
    ensures b2 == PackFrom(b0, d, LineOf(d, k), PosOf(d, k)) && b2 != b0
  {
    var i, p := LineOf(d, k), PosOf(d, k);
    NeighborIsNext(d, k);
    SliceCellLocated(d, i, p + 1);
    assert k == SliceCell(d, i, p) && n == SliceCell(d, i, p + 1);
    assert LineOf(d, n) == i && PosOf(d, n) == p + 1;
    assert b1 == if b0[SliceCell(d, i, p + 1)] == 0 then PackFrom(b0, d, i, p + 1) else b0;
    PackFromPullCase(b0, b1, d, i, p);
  }

  /**
   * Pulls values toward `cell` along its line for the move: when the cell is
   * 0 it takes the next value other than 0 behind it, and the cells behind
   * are treated the same way, so afterwards the line is packed from the
   * cell on. Reports whether a value moved.
   */
  method MoveFill(cells: array<int>, cell: Option<CellIndex>, d: GameMove) returns (moved: bool)
    requires cells.Length == Count && d.Valid()
    modifies cells
    ensures cell.None? ==> cells[..] == old(cells[..])
    ensures cell.Some? ==> cells[..] == PackFrom(old(cells[..]), d, LineOf(d, cell.value), PosOf(d, cell.value))
    ensures moved <==> cells[..] != old(cells[..])
    decreases if cell.Some? then Size - PosOf(d, cell.value) else 0
  {
    moved := false;
    if cell.Some? {
      var k := cell.value;
      ghost var b0 := cells[..];
      var neighbor := NeighborForMove(d, k);
      if neighbor.None? {
        FillStepLast(b0, d, k);
      } else {
        var n := neighbor.value;
        FillStepNext(d, k, n);
        if cells[k] == 0 {
          if cells[n] == 0 {
            var _ := MoveFill(cells, neighbor, d);
          }
          ghost var b1 := cells[..];
          if cells[n] != 0 {
            cells[k] := cells[n];
            cells[n] := 0;
            moved := true;
            var _ := MoveFill(cells, neighbor, d);
            FillStepPull(b0, b1, cells[..], d, k, n);
          } else {
            FillStepZeroHead(b0, b1, d, k, n);
          }
        } else {
          moved := MoveFill(cells, neighbor, d);
          FillStepKeep(b0, cells[..], d, k, n);
        }
      }
    }
  }

  /** Why a call of the grid fails instead of returning. */
  datatype GridError =
    | NotImplemented   // the move is GameMove.None
    | OutOfRange       // an index past the cells there are

  /**
   * A game grid: the game model it extends, its 16 cells in row-major order
   * and the start time of the open play period (0 when none is open).
   * `hasCells` is false from `End` until the grid is initialized again:
   * the grid then has no cells at all.
   */
  class GameGrid {
    const model: GameModel
    const cells: array<int>
    var hasCells: bool
    var StartTime: nat

    predicate Valid()
      reads this, model
    {
      cells.Length == Count && model.Values.Length == Count && model.Values != cells
    }

    /** The model's values repeat the cells, as after every sync. */
    predicate Synced()
      requires Valid()
      reads this, model, cells, model.Values
    {
      hasCells ==> model.Values[..] == cells[..]
    }

    /** The counters and the clock of a new game. */
    predicate HasDefaults()
      reads this, model
    {
      model.Goal == 2048 && model.Moves == 0 && model.Score == 0 && !model.IsWon && model.GameTime == 0 && StartTime == 0
    }

    /**
     * The clock after a step that stopped it at `now` (when `stopped`) or
     * left it alone, from game time `gameTime` and start time `startTime`.
     */
    predicate Timed(gameTime: int, startTime: nat, now: nat, stopped: bool)
      reads this, model
    {
      ClockAfter(gameTime, startTime, now, stopped, model.GameTime, StartTime)
    }

    constructor()
      ensures Valid() && Synced() && hasCells && HasDefaults()
      ensures cells[..] == Zeros(Count)
      ensures fresh(model) && fresh(model.Values) && fresh(cells)
    {
      model := new GameModel();
      cells := new int[Count];
      hasCells := true;
      StartTime := 0;
      new;
      Initialize();
    }

    /** Empty cells, empty values and the counters of a new game. */
    method Initialize()
      requires Valid()
      modifies this, cells, model, model.Values
      ensures Valid() && Synced() && hasCells && HasDefaults()
      ensures cells[..] == Zeros(Count) && model.Values[..] == Zeros(Count)
      ensures model.Values == old(model.Values)
    {
      var k := 0;
      while k < Count
        invariant 0 <= k <= Count
        invariant forall j :: 0 <= j < k ==> cells[j] == 0
        modifies cells
      {
        cells[k] := 0;
        k := k + 1;
      }
      hasCells := true;
      model.EmptyValues();
      model.Goal := 2048;
      model.Moves := 0;
      model.Score := 0;
      model.IsWon := false;
      model.GameTime := 0;
      StartTime := 0;
    }

    /** Starts a game: two empty cells get a 2 or a 4; a grid without cells is initialized first. */
    method Start()
      requires Valid()
      modifies this, cells, model, model.Values
      ensures Valid() && Synced() && hasCells && model.Values == old(model.Values)
      ensures old(hasCells) ==> FilledFrom(old(cells[..]), cells[..], 2)
      ensures old(hasCells) ==> (model.Goal == old(model.Goal) && model.Moves == old(model.Moves) &&
        model.Score == old(model.Score) && model.IsWon == old(model.IsWon) &&
        model.GameTime == old(model.GameTime) && StartTime == old(StartTime))
      ensures !old(hasCells) ==> FilledFrom(Zeros(Count), cells[..], 2) && HasDefaults()
    {
      if !hasCells {
        Initialize();
      }
      Fill(2);
    }

    /**
     * Fills `count` random empty cells (fewer when fewer are empty) with 2
     * or 4 and syncs the values. A grid without cells has nothing to fill.
     */
    method Fill(count: nat)
      requires Valid()
      modifies cells, model.Values
      ensures hasCells ==> FilledFrom(old(cells[..]), cells[..], count) && Synced()
      ensures !hasCells ==> cells[..] == old(cells[..]) && model.Values[..] == old(model.Values[..])
    {
      if hasCells {
        FillCells(cells, count);
      }
      SyncValues();
    }

    /** Copies the cell values into the model's values; a grid without cells copies nothing. */
    method SyncValues()
      requires Valid()
      modifies model.Values
      ensures Synced()
      ensures !hasCells ==> model.Values[..] == old(model.Values[..])
    {
      if hasCells {
        CopyValues(cells, model.Values);
      }
    }

    /** The cell at a row and a column: absent once the grid has no cells, an error off the grid. */
    function GetGameCell(row: int, column: int): (r: Result<Option<CellIndex>, GridError>)
      reads this
    {
      if !(0 <= row < Size && 0 <= column < Size) then Failure(OutOfRange)
      else if hasCells then Success(Some(At(row, column)))
      else Success(Option.None)
    }

    /**
     * What loading `values` and the counters did: the values as they were
     * when read (the grid's own values read back as 0 when the grid had to
     * be initialized first) are copied into the cells and the model's
     * values; on fewer than 16 values the copy stops with an error after
     * the values there are, and the counters are not set.
     */
    twostate predicate LoadedFrom(values: array<int>, goal: int, moves: int, score: int, isWon: bool, gameTime: int,
                                  new r: Result<(), GridError>)
      requires old(Valid()) && Valid()
      reads this, cells, model, model.Values, values
    {
      var src := if !old(hasCells) && values == old(model.Values) then Zeros(Count) else old(values[..]);
      var cellsBefore := if old(hasCells) then old(cells[..]) else Zeros(Count);
      var valuesBefore := if old(hasCells) then old(model.Values[..]) else Zeros(Count);
      hasCells &&
      if |src| >= Count then
        r == Success(()) && cells[..] == src[..Count] && model.Values[..] == src[..Count] &&
        model.Goal == goal && model.Moves == moves && model.Score == score &&
        model.IsWon == isWon && model.GameTime == gameTime &&
        StartTime == (if old(hasCells) then old(StartTime) else 0)
      else
        r == Failure(OutOfRange) &&
        cells[..] == src + cellsBefore[|src|..] && model.Values[..] == src + valuesBefore[|src|..] &&
        (old(hasCells) ==> (model.Goal == old(model.Goal) && model.Moves == old(model.Moves) &&
          model.Score == old(model.Score) && model.IsWon == old(model.IsWon) &&
          model.GameTime == old(model.GameTime) && StartTime == old(StartTime))) &&
        (!old(hasCells) ==> HasDefaults())
    }

    /** Loads a game from its row-major values and its counters. */
    method Load(values: array<int>, goal: int, moves: int, score: int, isWon: bool, gameTime: int)
      returns (r: Result<(), GridError>)
      requires Valid() && values != cells
      modifies this, cells, model, model.Values
      ensures Valid() && model.Values == old(model.Values)
      ensures LoadedFrom(values, goal, moves, score, isWon, gameTime, r)
      ensures r.Success? ==> Synced()
    {
      if !hasCells {
        Initialize();
      }
      ghost var src := values[..];
      ghost var cellsBefore, valuesBefore := cells[..], model.Values[..];
      var k := 0;
      while k < Count
        invariant 0 <= k <= Count && Valid() && hasCells
        invariant values[..] == src && k <= |src|
        invariant cells[..] == src[..k] + cellsBefore[k..]
        invariant model.Values[..] == src[..k] + valuesBefore[k..]
        modifies cells, model.Values
      {
        if k >= values.Length {
          assert src[..k] == src;
          return Failure(OutOfRange);
        }
        var value := values[k];
        CopiedOneMore(cells[..], src, cellsBefore, k);
        CopiedOneMore(model.Values[..], src, valuesBefore, k);
        cells[k] := value;
        model.Values[k] := value;
        k := k + 1;
      }
      model.Goal := goal;
      model.Moves := moves;
      model.Score := score;
      model.IsWon := isWon;
      model.GameTime := gameTime;
      r := Success(());
    }

    /** Loads a game from a game model. */
    method LoadModel(data: GameModel) returns (r: Result<(), GridError>)
      requires Valid() && data.Values != cells
      modifies this, cells, model, model.Values
      ensures Valid() && model.Values == old(model.Values)
      ensures LoadedFrom(old(data.Values), old(data.Goal), old(data.Moves), old(data.Score), old(data.IsWon), old(data.GameTime), r)
      ensures r.Success? ==> Synced()
    {
      r := Load(data.Values, data.Goal, data.Moves, data.Score, data.IsWon, data.GameTime);
    }

    /** A won game goes on toward twice the goal. */
    method Continue()
      modifies model
      ensures old(model.IsWon) ==> model.Goal == 2 * old(model.Goal) && !model.IsWon
      ensures !old(model.IsWon) ==> model.Goal == old(model.Goal) && !model.IsWon
      ensures model.Values == old(model.Values) && model.Moves == old(model.Moves) &&
        model.Score == old(model.Score) && model.GameTime == old(model.GameTime)
    {
      if model.IsWon {
        model.Goal := model.Goal * 2;
        model.IsWon := false;
      }
    }

    /** Stops the clock at `now`: the open period, in whole seconds, joins the game time. */
    method CalculateGameTime(now: nat)
      modifies this, model
      ensures Timed(old(model.GameTime), old(StartTime), now, true)
      ensures hasCells == old(hasCells)
      ensures model.Values == old(model.Values) && model.Goal == old(model.Goal) && model.Moves == old(model.Moves) &&
        model.Score == old(model.Score) && model.IsWon == old(model.IsWon)
    {
      var startTime := StartTime;
      if startTime != 0 {
        model.GameTime := model.GameTime + (TruncateToSecond(now) - TruncateToSecond(startTime));
      }
      StartTime := 0;
    }

    /**
     * Whether the game is over: every cell holds a value and no two
     * neighbours are equal; a grid without cells is over. When it is over
     * the clock is stopped.
     */
    method GameOver(now: nat) returns (over: bool)
      requires Valid()
      modifies this, model
      ensures over == (!old(hasCells) || IsGameOver(old(cells[..])))
      ensures Timed(old(model.GameTime), old(StartTime), now, over)
      ensures hasCells == old(hasCells)
      ensures model.Values == old(model.Values) && model.Goal == old(model.Goal) && model.Moves == old(model.Moves) &&
        model.Score == old(model.Score) && model.IsWon == old(model.IsWon)
    {
      over := true;
      if hasCells {
        over := ScanGameOver(cells);
      }
      if over {
        CalculateGameTime(now);
      }
    }

    /** Ends the game: the values are emptied and the grid no longer has cells. */
    method End()
      requires Valid()
      modifies this, model.Values
      ensures Valid() && !hasCells
      ensures model.Values[..] == Zeros(Count)
      ensures StartTime == old(StartTime)
    {
      model.EmptyValues();
      hasCells := false;
    }

    /**
     * Merges `source` into `target` when both are there, the target is not
     * 0 and they are equal: the target doubles, the score grows by the new
     * value, and reaching the goal wins and stops the clock; the source
     * becomes 0. Reports whether it merged.
     */
    method MoveMerge(target: Option<CellIndex>, source: Option<CellIndex>, now: nat) returns (moved: bool)
      requires Valid()
      modifies this, cells, model
      ensures moved <==> (target.Some? && source.Some? &&
        old(cells[target.value]) != 0 && old(cells[target.value]) == old(cells[source.value]))
      ensures moved ==> (
        var t, s, v := target.value, source.value, old(cells[target.value]);
        cells[..] == old(cells[..])[t := v + v][s := 0] &&
        model.Score == old(model.Score) + (v + v) &&
        model.IsWon == (old(model.IsWon) || v + v == model.Goal) &&
        Timed(old(model.GameTime), old(StartTime), now, v + v == model.Goal))
      ensures !moved ==> (cells[..] == old(cells[..]) && model.Score == old(model.Score) &&
        model.IsWon == old(model.IsWon) && Timed(old(model.GameTime), old(StartTime), now, false))
      ensures hasCells == old(hasCells) && model.Values == old(model.Values) &&
        model.Goal == old(model.Goal) && model.Moves == old(model.Moves)
    {
      moved := false;
      if target.Some? && source.Some? {
        var t := cells[target.value];
        if t != 0 {
          var s := cells[source.value];
          if t == s {
            cells[target.value] := cells[target.value] + s;
            model.Score := model.Score + cells[target.value];
            if cells[target.value] == model.Goal {
              model.IsWon := true;
              CalculateGameTime(now);
            }
            cells[source.value] := 0;
            moved := true;
          }
        }
      }
    }

    /**
     * One cell of a line of a move: pull values toward the cell, then merge
     * it with its neighbour. The line is packed from the cell on and the
     * cell merged with the next one when they are equal and not 0.
     */
    method MoveCell(i: nat, d: GameMove, p: nat, now: nat) returns (moved: bool)
      requires Valid() && d.Valid() && i < Size && p < Size
      modifies this, cells, model
      ensures var st := StepAt(LineView(old(cells[..]), d, i), p, old(model.Goal));
        cells[..] == WithLine(old(cells[..]), d, i, st.line) &&
        model.Score == old(model.Score) + st.gain &&
        model.IsWon == (old(model.IsWon) || st.won) &&
        Timed(old(model.GameTime), old(StartTime), now, st.won) &&
        moved == st.moved
      ensures hasCells == old(hasCells) && model.Values == old(model.Values) &&
        model.Goal == old(model.Goal) && model.Moves == old(model.Moves)
    {
      ghost var b0 := cells[..];
      ghost var gameTime, startTime, goal := model.GameTime, StartTime, model.Goal;
      var cell := SliceCell(d, i, p);
      SliceCellLocated(d, i, p);
      var pulled := MoveFill(cells, Some(cell), d);
      ghost var filled := cells[..];
      var neighbor := NeighborForMove(d, cell);
      NeighborIsNext(d, cell);
      assert neighbor == if p < Size - 1 then Some(SliceCell(d, i, p + 1)) else Option.None;
      var merged := MoveMerge(Some(cell), neighbor, now);
      ghost var stopped := merged && filled[cell] + filled[cell] == goal;
      assert Timed(gameTime, startTime, now, stopped);
      CellStepOnGrid(b0, d, i, p, goal, filled, cells[..], pulled, merged);
      ghost var st := StepAt(LineView(b0, d, i), p, goal);
      assert st.won == stopped && st.gain == (if merged then filled[cell] + filled[cell] else 0);
      moved := pulled || merged;
    }

    /**
     * One line of a move, cell by cell from the edge the move slides to.
     * The line ends up as the line algorithm makes it, with its score, win
     * and change; the other lines stay.
     */
    method MoveSlice(i: nat, d: GameMove, now: nat) returns (moved: bool)
      requires Valid() && d.Valid() && i < Size
      modifies this, cells, model
      ensures var sw := Sweep(LineView(old(cells[..]), d, i), old(model.Goal));
        cells[..] == WithLine(old(cells[..]), d, i, sw.line) &&
        model.Score == old(model.Score) + sw.gain &&
        model.IsWon == (old(model.IsWon) || sw.won) &&
        Timed(old(model.GameTime), old(StartTime), now, sw.won) &&
        moved == sw.moved
      ensures hasCells == old(hasCells) && model.Values == old(model.Values) &&
        model.Goal == old(model.Goal) && model.Moves == old(model.Moves)
    {
      ghost var b0 := cells[..];
      ghost var line := LineView(b0, d, i);
      ghost var goal := model.Goal;
      ghost var x := line;
      ghost var gained, won := 0, false;
      WithLineSame(b0, d, i, line);
      moved := false;
      var p := 0;
      while p < Size
        invariant 0 <= p <= Size && |x| == Size && Valid()
        invariant cells[..] == WithLine(b0, d, i, x)
        invariant SweptSoFar(line, goal, x, p, gained, won, moved)
        invariant model.Score == old(model.Score) + gained && model.IsWon == (old(model.IsWon) || won)
        invariant Timed(old(model.GameTime), old(StartTime), now, won)
        invariant hasCells == old(hasCells) && model.Values == old(model.Values) &&
          model.Goal == goal && model.Moves == old(model.Moves)
      {
        WithLineView(b0, d, i, x, i);
        ghost var st := StepAt(x, p, goal);
        ghost var gameTime, startTime := model.GameTime, StartTime;
        SweptOneMore(line, goal, x, p, gained, won, moved);
        var m := MoveCell(i, d, p, now);
        ClockAfterTwice(old(model.GameTime), old(StartTime), now, won, gameTime, startTime, st.won, model.GameTime, StartTime);
        WithLineTwice(b0, d, i, x, st.line);
        gained := gained + st.gain;
        won := won || st.won;
        moved := moved || m;
        x := st.line;
        p := p + 1;
      }
      SweptAll(line, goal, x, gained, won, moved);
    }

    /**
     * The slide and merge phase of a move: each line in turn, as the line
     * algorithm makes it. The grid ends up as the reference rule moves it,
     * with the reference score and win; it reports whether a line changed.
     */
    method MoveLines(d: GameMove, now: nat) returns (moved: bool)
      requires Valid() && d.Valid()
      modifies this, cells, model
      ensures var b0, goal := old(cells[..]), old(model.Goal);
        var rs := LineResults(b0, d, goal);
        cells[..] == MoveBoard(b0, d, goal) &&
        (moved <==> MoveBoard(b0, d, goal) != b0) &&
        model.Score == old(model.Score) + GainUpTo(rs, Size) &&
        model.IsWon == (old(model.IsWon) || WonUpTo(rs, Size)) &&
        Timed(old(model.GameTime), old(StartTime), now, WonUpTo(rs, Size)) &&
        (!moved ==> GainUpTo(rs, Size) == 0 && !WonUpTo(rs, Size))
      ensures !moved ==> (cells[..] == old(cells[..]) && model.Score == old(model.Score) &&
        model.IsWon == old(model.IsWon) && model.GameTime == old(model.GameTime) && StartTime == old(StartTime))
      ensures hasCells == old(hasCells) && model.Values == old(model.Values) &&
        model.Goal == old(model.Goal) && model.Moves == old(model.Moves)
    {
      ghost var b0 := cells[..];
      ghost var goal := model.Goal;
      ghost var rs, flags := LineResults(b0, d, goal), LineChanges(b0, d, goal);
      MovedUpToEnds(b0, d, goal);
      moved := false;
      var i := 0;
      while i < Size
        invariant 0 <= i <= Size && Valid()
        invariant cells[..] == MovedUpTo(b0, d, goal, i)
        invariant model.Score == old(model.Score) + GainUpTo(rs, i)
        invariant model.IsWon == (old(model.IsWon) || WonUpTo(rs, i))
        invariant Timed(old(model.GameTime), old(StartTime), now, WonUpTo(rs, i))
        invariant moved == AnyUpTo(flags, i)
        invariant hasCells == old(hasCells) && model.Values == old(model.Values)
        invariant model.Goal == goal && model.Moves == old(model.Moves)
      {
        ghost var before := cells[..];
        ghost var sw := Sweep(LineView(before, d, i), goal);
        ghost var gameTime, startTime := model.GameTime, StartTime;
        SweptLineReplaces(b0, d, goal, i, before);
        var m := MoveSlice(i, d, now);
        assert cells[..] == MovedUpTo(b0, d, goal, i + 1);
        assert m == flags[i] && sw.gain == rs[i].gain && sw.won == rs[i].won;
        ClockAfterTwice(old(model.GameTime), old(StartTime), now, WonUpTo(rs, i), gameTime, startTime, sw.won, model.GameTime, StartTime);
        if m {
          moved := true;
        }
        i := i + 1;
      }
      MoveBoardChanged(b0, d, goal);
      if !moved {
        UnchangedMoveScoresNothing(b0, d, goal);
      }
    }

    /**
     * A move: the lines slide and merge toward the edge of the move; if
     * anything moved, the move is counted and one more empty cell is
     * filled. GameMove.None fails before touching anything, and so does a
     * grid without cells.
     */
    method Move(d: GameMove, now: nat) returns (r: Result<bool, GridError>)
      requires Valid()
      modifies this, cells, model, model.Values
      ensures Valid() && hasCells == old(hasCells) && model.Values == old(model.Values) && model.Goal == old(model.Goal)
      ensures d.None? ==> r == Failure(NotImplemented)
      ensures d.Valid() && !old(hasCells) ==> r == Failure(OutOfRange)
      ensures r.Failure? || (r.Success? && !r.value) ==>
        (cells[..] == old(cells[..]) && model.Values[..] == old(model.Values[..]) &&
         model.Moves == old(model.Moves) && model.Score == old(model.Score) && model.IsWon == old(model.IsWon) &&
         model.GameTime == old(model.GameTime) && StartTime == old(StartTime))
      ensures d.Valid() && old(hasCells) ==> (r.Success? && (
        var b0, goal := old(cells[..]), old(model.Goal);
        var rs := LineResults(b0, d, goal);
        (r.value <==> MoveBoard(b0, d, goal) != b0) &&
        (r.value ==>
          FilledFrom(MoveBoard(b0, d, goal), cells[..], 1) && Synced() &&
          model.Moves == old(model.Moves) + 1 &&
          model.Score == old(model.Score) + GainUpTo(rs, Size) &&
          model.IsWon == (old(model.IsWon) || WonUpTo(rs, Size)) &&
          Timed(old(model.GameTime), old(StartTime), now, WonUpTo(rs, Size)))))
    {
      if d.None? {
        return Failure(NotImplemented);
      }
      if !hasCells {
        return Failure(OutOfRange);
      }
      var moved := MoveLines(d, now);
      if moved {
        ghost var gameTime, startTime := model.GameTime, StartTime;
        model.Moves := model.Moves + 1;
        Fill(1);
        assert model.GameTime == gameTime && StartTime == startTime;
      }
      r := Success(moved);
    }
  }
}
