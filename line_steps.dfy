/**
 * The line algorithm seen one position at a time, as the grids run it on a
 * line held in place: the part of the line from position p on is packed,
 * then the value at p may merge with the one at p + 1.
 */
module LineSteps {
  import opened LineRules

  /** The line with the part from position p on packed and the part before p untouched. */
  function CompactFrom(s: seq<int>, p: nat): (r: seq<int>)
    requires p <= |s|
    ensures |r| == |s| && r[..p] == s[..p]
  {
    s[..p] + Compact(s[p..])
  }

  /** Whether the step at position p merges, once the line is packed from p on. */
  predicate MergesAt(u: seq<int>, p: nat)
    requires p < |u|
  {
    p + 1 < |u| && u[p] != 0 && u[p] == u[p + 1]
  }

  /** The line after the merge at position p, if there is one. */
  function MergeAt(u: seq<int>, p: nat): (w: seq<int>)
    requires p < |u|
    ensures |w| == |u| && w[..p] == u[..p]
  {
    if MergesAt(u, p) then u[p := u[p] + u[p + 1]][p + 1 := 0] else u
  }

  /** What the step at position p does: the line after it, the score it adds, whether it reaches the goal and whether it changes the line. */
  datatype CellStep = CellStep(line: seq<int>, gain: int, won: bool, moved: bool)

  /**
   * The step at position p of line `x`: pack from p on, then merge at p.
   * The merged value is the score gained, the goal reached is a win, and a
   * pull or a merge is a change.
   */
  function StepAt(x: seq<int>, p: nat, goal: int): (st: CellStep)
    requires p < |x|
    ensures |st.line| == |x| && st.line[..p] == x[..p]
    ensures st.won ==> MergesAt(CompactFrom(x, p), p) && st.gain == goal
    ensures !MergesAt(CompactFrom(x, p), p) ==> st.gain == 0 && st.line == CompactFrom(x, p)
    ensures st.moved <==> MergesAt(CompactFrom(x, p), p) || CompactFrom(x, p) != x
  {
    var u := CompactFrom(x, p);
    var m := MergesAt(u, p);
    var gain := if m then u[p] + u[p + 1] else 0;
    CellStep(MergeAt(u, p), gain, m && gain == goal, m || u != x)
  }

  /** A single cell is already packed. */
  lemma CompactFromLast(s: seq<int>, p: nat)
    requires p + 1 == |s|
    ensures CompactFrom(s, p) == s
  {
    assert s[p..] == [s[p]];
    assert s[p..][1..] == [];
  }

  /** Packing from p + 1 on is packing from p on when the value at p is not 0. */
  lemma CompactFromKeep(s: seq<int>, p: nat)
    requires p + 1 < |s| && s[p] != 0
    ensures CompactFrom(s, p + 1) == CompactFrom(s, p)
  {
    assert s[p..] == [s[p]] + s[p + 1..];
    CompactCons(s[p], s[p + 1..]);
    assert s[..p + 1] == s[..p] + [s[p]];
  }

  /**
   * Pulling the value at p + 1 into an empty cell at p and then packing from
   * p + 1 on is packing from p on; the cell at p changes.
   */
  lemma CompactFromPull(s: seq<int>, p: nat)
    requires p + 1 < |s| && s[p] == 0 && s[p + 1] != 0
    ensures CompactFrom(s[p := s[p + 1]][p + 1 := 0], p + 1) == CompactFrom(s, p)
    ensures CompactFrom(s, p)[p] == s[p + 1]
  {
    var x, r := s[p + 1], s[p + 2..];
    var s' := s[p := x][p + 1 := 0];
    assert s[p..] == [0] + ([x] + r);
    assert s'[p + 1..] == [0] + r;
    assert s'[..p + 1] == s[..p] + [x];
    var n := NonZeros(r);
    assert NonZeros([x] + r) == [x] + n by {
      assert ([x] + r)[1..] == r;
    }
    var c := Compact([0] + r);
    assert c == n + Zeros(|r| + 1 - |n|) by {
      CompactZeroCons(r);
    }
    assert Compact(s[p..]) == [x] + c by {
      CompactZeroCons([x] + r);
      assert Compact(s[p..]) == ([x] + n) + Zeros(|r| + 1 - |n|);
    }
    calc {
      CompactFrom(s', p + 1);
      (s[..p] + [x]) + c;
      s[..p] + ([x] + c);
      CompactFrom(s, p);
    }
  }

  /** Packing a second time from p changes nothing more than packing once from p. */
  lemma CompactFromTwice(s: seq<int>, p: nat)
    requires p + 1 <= |s|
    ensures CompactFrom(CompactFrom(s, p + 1), p) == CompactFrom(s, p)
  {
    var u := CompactFrom(s, p + 1);
    var t := s[p + 1..];
    assert s[p..] == [s[p]] + t;
    assert u[p..] == [s[p]] + Compact(t);
    CompactIsPacked(t);
    NonZerosAppend([s[p]], t);
    NonZerosAppend([s[p]], Compact(t));
    assert NonZeros(u[p..]) == NonZeros(s[p..]);
    assert u[..p] == s[..p];
  }

  /** When packing from p leaves 0 at p, the line is 0 from p on and packing changes nothing. */
  lemma CompactFromEmpty(s: seq<int>, p: nat)
    requires p < |s| && CompactFrom(s, p)[p] == 0
    ensures CompactFrom(s, p) == s
  {
    var t := s[p..];
    assert Compact(t)[0] == 0;
    assert NonZeros(t) == [];
    assert Compact(t) == Zeros(|t|);
    NonZerosAll(t);
    forall j | 0 <= j < |t| ensures t[j] == 0 {
      if t[j] != 0 {
        assert t == t[..j] + [t[j]] + t[j + 1..];
        NonZerosAppend(t[..j] + [t[j]], t[j + 1..]);
        NonZerosAppend(t[..j], [t[j]]);
        assert false;
      }
    }
    assert t == Zeros(|t|);
    assert s == s[..p] + t;
  }

  /** A 0 at p with only 0s behind it once packed from p + 1: nothing to pack from p either. */
  lemma CompactFromZeroHead(s: seq<int>, p: nat)
    requires p + 1 < |s| && s[p] == 0 && CompactFrom(s, p + 1)[p + 1] == 0
    ensures CompactFrom(s, p) == s
  {
    var t := s[p + 1..];
    assert Compact(t)[0] == 0;
    assert NonZeros(t) == [];
    assert s[p..] == [0] + t;
    NonZerosZeroCons(t);
    assert Compact(s[p..])[0] == 0;
    CompactFromEmpty(s, p);
  }

  /** The value the line algorithm settles at the front of a packed line `c`: the merged pair, or the first value. */
  function SettledHead(c: seq<int>): int
    requires c != []
  {
    if |c| >= 2 && c[0] != 0 && c[0] == c[1] then c[0] + c[1] else c[0]
  }

  /** What the line algorithm goes on with behind the front of a packed line `c`. */
  function SettledTail(c: seq<int>): seq<int>
    requires c != []
  {
    if |c| >= 2 && c[0] != 0 && c[0] == c[1] then [0] + c[2..] else c[1..]
  }

  /** The line algorithm settles the front of its packed line and goes on with the rest. */
  lemma SweepSettles(t: seq<int>, goal: int)
    requires t != []
    ensures |Compact(t)| == |t|
    ensures Sweep(t, goal).line == [SettledHead(Compact(t))] + Sweep(SettledTail(Compact(t)), goal).line
  {
  }

  /** Packing from p and merging at p settles position p as the line algorithm does, and leaves the rest it goes on with. */
  lemma StepSettles(s: seq<int>, p: nat)
    requires p < |s|
    ensures var c, w := Compact(s[p..]), MergeAt(CompactFrom(s, p), p);
      c != [] && w[..p + 1] == s[..p] + [SettledHead(c)] && w[p + 1..] == SettledTail(c)
  {
    var c := Compact(s[p..]);
    var u := CompactFrom(s, p);
    assert u[p..] == c && |c| == |s| - p;
    assert u[p] == c[0];
    if |c| >= 2 {
      assert u[p + 1] == c[1];
    }
  }

  /** The line part of one position of the line algorithm: the head it settles and the rest it leaves. */
  lemma SweepStepLine(s: seq<int>, p: nat, goal: int)
    requires p < |s|
    ensures var w := MergeAt(CompactFrom(s, p), p);
      w[..p + 1] + Sweep(w[p + 1..], goal).line == s[..p] + Sweep(s[p..], goal).line
  {
    var c := Compact(s[p..]);
    var w := MergeAt(CompactFrom(s, p), p);
    assert c != [] by { StepSettles(s, p); }
    var h, rest := SettledHead(c), Sweep(SettledTail(c), goal).line;
    assert w[..p + 1] == s[..p] + [h] by { StepSettles(s, p); }
    assert Sweep(w[p + 1..], goal).line == rest by { StepSettles(s, p); }
    assert Sweep(s[p..], goal).line == [h] + rest by { SweepSettles(s[p..], goal); }
    assert (s[..p] + [h]) + rest == s[..p] + ([h] + rest);
  }

  /**
   * One position of the line algorithm: packing from p on, then merging at p
   * if the packed values at p and p + 1 are equal and not 0, takes Sweep one
   * position further, with the score, the win and the change that position
   * contributes.
   */
  lemma SweepStepAt(s: seq<int>, p: nat, goal: int)
    requires p < |s|
    ensures var u := CompactFrom(s, p); var w := MergeAt(u, p);
      w[..p + 1] + Sweep(w[p + 1..], goal).line == s[..p] + Sweep(s[p..], goal).line &&
      Sweep(s[p..], goal).gain == (if MergesAt(u, p) then u[p] + u[p + 1] else 0) + Sweep(w[p + 1..], goal).gain &&
      Sweep(s[p..], goal).won == ((MergesAt(u, p) && u[p] + u[p + 1] == goal) || Sweep(w[p + 1..], goal).won) &&
      Sweep(s[p..], goal).moved == (MergesAt(u, p) || u != s || Sweep(w[p + 1..], goal).moved)
  {
    SweepStepLine(s, p, goal);
    var t := s[p..];
    var c := Compact(t);
    var u := CompactFrom(s, p);
    var w := MergeAt(u, p);
    assert u[p..] == c;
    assert u != s <==> c != t by {
      assert s == s[..p] + t;
    }
    if MergesAt(u, p) {
      assert w[p + 1..] == [0] + c[2..];
    } else {
      assert w[p + 1..] == c[1..];
    }
  }

  // ---------------------------------------------------------------------------
  // The line algorithm position by position

  /**
   * After the first p cells of a line: `x` is the line so far, and the
   * line algorithm on what is left, added to what is done, gives the line
   * algorithm on the whole `line`.
   */
  predicate SweptSoFar(line: seq<int>, goal: int, x: seq<int>, p: nat, gained: int, won: bool, moved: bool)
    requires p <= |x|
  {
    x[..p] + Sweep(x[p..], goal).line == Sweep(line, goal).line &&
    Sweep(line, goal).gain == gained + Sweep(x[p..], goal).gain &&
    Sweep(line, goal).won == (won || Sweep(x[p..], goal).won) &&
    Sweep(line, goal).moved == (moved || Sweep(x[p..], goal).moved)
  }

  /** One more cell: packing from p and merging at p keeps the line algorithm on track. */
  lemma SweptOneMore(line: seq<int>, goal: int, x: seq<int>, p: nat, gained: int, won: bool, moved: bool)
    requires p < |x| && SweptSoFar(line, goal, x, p, gained, won, moved)
    ensures var st := StepAt(x, p, goal);
      SweptSoFar(line, goal, st.line, p + 1, gained + st.gain, won || st.won, moved || st.moved)
  {
    SweepStepAt(x, p, goal);
  }

  /** Past the last cell, the line so far is the line algorithm's result. */
  lemma SweptAll(line: seq<int>, goal: int, x: seq<int>, gained: int, won: bool, moved: bool)
    requires SweptSoFar(line, goal, x, |x|, gained, won, moved)
    ensures x == Sweep(line, goal).line && gained == Sweep(line, goal).gain
    ensures won == Sweep(line, goal).won && moved == Sweep(line, goal).moved
  {
    assert x[..|x|] == x && x[|x|..] == [];
  }

  // ---------------------------------------------------------------------------
  // Packing with a write cursor

  /**
   * Packing the part of `x` from j on with a read position k and a write
   * position z, as the console grid does: `y` is the line so far, its
   * values other than 0 read from x[j..k] sit at j..z in their order, 0s
   * fill z..k, and the rest is unread. Something moved so far exactly when
   * x[j..k] is not packed.
   */
  predicate Compacting(x: seq<int>, y: seq<int>, j: nat, k: nat, z: nat, moved: bool)
    requires |y| == |x| && j <= z <= k <= |x|
  {
    y[..j] == x[..j] &&
    y[j..z] == NonZeros(x[j..k]) &&
    (forall q :: z <= q < k ==> y[q] == 0) &&
    y[k..] == x[k..] &&
    moved == !Packed(x[j..k])
  }

  lemma CompactingStart(x: seq<int>, j: nat)
    requires j <= |x|
    ensures Compacting(x, x, j, j, j, false)
  {
  }

  /** A packed line stays packed with a 0 behind it; with a value behind it, it is packed exactly when it held no 0. */
  lemma PackedAppend(t: seq<int>, v: int)
    ensures v == 0 ==> (Packed(t + [v]) <==> Packed(t))
    ensures v != 0 ==> (Packed(t + [v]) <==> |NonZeros(t)| == |t|)
  {
    var s := t + [v];
    NonZerosAll(t);
    if v != 0 && |NonZeros(t)| != |t| {
      var a :| 0 <= a < |t| && t[a] == 0;
      assert s[a] == 0 && s[|t|] != 0;
    }
    if v != 0 && |NonZeros(t)| == |t| {
      forall a | 0 <= a < |s| ensures s[a] != 0 {
        if a < |t| {
          assert s[a] == t[a];
        }
      }
    }
    if v == 0 {
      if Packed(t) {
        forall a, b | 0 <= a < b < |s| && s[a] == 0 ensures s[b] == 0 {
          if b < |t| {
            assert t[a] == 0;
          }
        }
      }
      if Packed(s) {
        forall a, b | 0 <= a < b < |t| && t[a] == 0 ensures t[b] == 0 {
          assert s[a] == 0 && s[b] == t[b];
        }
      }
    }
  }

  /**
   * One read position: a 0 is passed over; a value is written at the write
   * position, where it moves when the write position lags behind, and the
   * write position advances.
   */
  lemma CompactingStep(x: seq<int>, y: seq<int>, j: nat, k: nat, z: nat, moved: bool)
    requires |y| == |x| && j <= z <= k < |x|
    requires Compacting(x, y, j, k, z, moved)
    ensures y[k] == x[k]
    ensures y[k] == 0 ==> Compacting(x, y, j, k + 1, z, moved)
    ensures y[k] != 0 && z < k ==> y[z] == 0 && Compacting(x, y[z := y[k]][k := 0], j, k + 1, z + 1, true)
    ensures y[k] != 0 && z == k ==> Compacting(x, y, j, k + 1, z + 1, moved)
  {
    var v := x[k];
    assert y[k] == y[k..][0] == x[k..][0] == v;
    var t := x[j..k];
    assert x[j..k + 1] == t + [v];
    NonZerosAppend(t, [v]);
    PackedAppend(t, v);
    assert |NonZeros(t)| == z - j;
    if z == k {
      NonZerosAll(t);
      assert Packed(t);
    }
    if v != 0 && z < k {
      var y2 := y[z := v][k := 0];
      assert y2[j..z + 1] == y[j..z] + [v];
    } else if v != 0 {
      assert y[j..z + 1] == y[j..z] + [v];
    }
  }

  /** Once every position is read, the line is packed from j on, and something moved exactly when that changed it. */
  lemma CompactingDone(x: seq<int>, y: seq<int>, j: nat, z: nat, moved: bool)
    requires |y| == |x| && j <= z <= |x|
    requires Compacting(x, y, j, |x|, z, moved)
    ensures y == CompactFrom(x, j)
    ensures moved <==> CompactFrom(x, j) != x
  {
    var t := x[j..];
    assert x[j..|x|] == t;
    assert y[j..z] == NonZeros(t);
    assert |x| - z == |t| - |NonZeros(t)|;
    assert y[z..] == Zeros(|x| - z);
    assert y == y[..j] + y[j..z] + y[z..];
    assert y == x[..j] + Compact(t);
    PackedIffCompactFixed(t);
    assert x == x[..j] + t;
  }
}
