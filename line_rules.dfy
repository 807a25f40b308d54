/**
 * The rule a move applies to one line of four cells, read from the edge the
 * move slides toward: values other than 0 are packed to the front in their
 * order, equal neighbours among them are merged once, front to back, and the
 * line is padded with 0 behind.
 */
module LineRules {

  /** What one line turns into: the new values, the score the merges add, and whether a merge reached the goal. */
  datatype LineResult = LineResult(line: seq<int>, gain: int, won: bool)

  /** The values of a line other than 0, in their order. */
  function NonZeros(s: seq<int>): (r: seq<int>)
    ensures |r| <= |s|
    ensures forall j :: 0 <= j < |r| ==> r[j] != 0
  {
    if s == [] then [] else (if s[0] != 0 then [s[0]] else []) + NonZeros(s[1..])
  }

  function Zeros(n: nat): (r: seq<int>)
    ensures |r| == n && forall j :: 0 <= j < n ==> r[j] == 0
  {
    seq(n, _ => 0)
  }

  /** A line is packed when no value other than 0 stands behind a 0. */
  predicate Packed(s: seq<int>) {
    forall a, b :: 0 <= a < b < |s| && s[a] == 0 ==> s[b] == 0
  }

  /** The line with its values other than 0 moved to the front and 0 behind them. */
  function Compact(s: seq<int>): (r: seq<int>)
    ensures |r| == |s|
  {
    NonZeros(s) + Zeros(|s| - |NonZeros(s)|)
  }

  /** Merges equal neighbours of a line without 0s, front to back, each value taking part in at most one merge. */
  function MergePairs(xs: seq<int>, goal: int): (r: LineResult)
    ensures |r.line| <= |xs|
    ensures (forall j :: 0 <= j < |xs| ==> xs[j] != 0) ==> forall j :: 0 <= j < |r.line| ==> r.line[j] != 0
  {
    if |xs| < 2 then LineResult(xs, 0, false)
    else if xs[0] == xs[1] then
      var rest := MergePairs(xs[2..], goal);
      LineResult([xs[0] + xs[1]] + rest.line, xs[0] + xs[1] + rest.gain, xs[0] + xs[1] == goal || rest.won)
    else
      var rest := MergePairs(xs[1..], goal);
      LineResult([xs[0]] + rest.line, rest.gain, rest.won)
  }

  /** The reference rule: pack, merge once, pad with 0 to the original length. */
  function SlideMergeLine(s: seq<int>, goal: int): (r: LineResult)
    ensures |r.line| == |s|
  {
    var m := MergePairs(NonZeros(s), goal);
    LineResult(m.line + Zeros(|s| - |m.line|), m.gain, m.won)
  }

  /** What the position-by-position algorithm reports for a suffix of a line: also whether it changed a cell. */
  datatype SweepResult = SweepResult(line: seq<int>, gain: int, won: bool, moved: bool)

  /**
   * The algorithm both grids run along a line: pack the rest of the line
   * toward the current position, merge the current cell with the next one
   * if they are equal and not 0, then go on with the next position, never
   * coming back to this one.
   */
  function Sweep(t: seq<int>, goal: int): (r: SweepResult)
    ensures |r.line| == |t|
    decreases |t|
  {
    if t == [] then SweepResult([], 0, false, false)
    else
      var c := Compact(t);
      if |c| >= 2 && c[0] != 0 && c[0] == c[1] then
        var rest := Sweep([0] + c[2..], goal);
        SweepResult([c[0] + c[1]] + rest.line, c[0] + c[1] + rest.gain, c[0] + c[1] == goal || rest.won, true)
      else
        var rest := Sweep(c[1..], goal);
        SweepResult([c[0]] + rest.line, rest.gain, rest.won, c != t || rest.moved)
  }

  function Sum(s: seq<int>): int {
    if s == [] then 0 else s[0] + Sum(s[1..])
  }

  // ---------------------------------------------------------------------------
  // Facts about packing

  lemma {:induction false} NonZerosAppend(a: seq<int>, b: seq<int>)
    ensures NonZeros(a + b) == NonZeros(a) + NonZeros(b)
  {
    if a != [] {
      var h := if a[0] != 0 then [a[0]] else [];
      assert (a + b)[0] == a[0];
      assert (a + b)[1..] == a[1..] + b;
      NonZerosAppend(a[1..], b);
      calc {
        NonZeros(a + b);
        h + NonZeros(a[1..] + b);
        h + (NonZeros(a[1..]) + NonZeros(b));
        (h + NonZeros(a[1..])) + NonZeros(b);
        NonZeros(a) + NonZeros(b);
      }
    } else {
      assert a + b == b;
    }
  }

  /** Padding a line without 0s with 0s adds nothing to its values other than 0. */
  lemma NonZerosPadded(m: seq<int>, k: nat)
    requires forall j :: 0 <= j < |m| ==> m[j] != 0
    ensures NonZeros(m + Zeros(k)) == m
  {
    NonZerosAppend(m, Zeros(k));
    NonZerosOfZeros(k);
    NonZerosKeepsNonZero(m);
  }

  lemma NonZerosZeroCons(t: seq<int>)
    ensures NonZeros([0] + t) == NonZeros(t)
  {
    assert ([0] + t)[1..] == t;
  }

  lemma {:induction false} NonZerosOfZeros(n: nat)
    ensures NonZeros(Zeros(n)) == []
  {
    if n > 0 {
      assert Zeros(n)[1..] == Zeros(n - 1);
      NonZerosOfZeros(n - 1);
    }
  }

  lemma {:induction false} NonZerosKeepsNonZero(s: seq<int>)
    requires forall j :: 0 <= j < |s| ==> s[j] != 0
    ensures NonZeros(s) == s
  {
    if s != [] {
      NonZerosKeepsNonZero(s[1..]);
    }
  }

  /** Nothing is dropped exactly when the line holds no 0. */
  lemma {:induction false} NonZerosAll(s: seq<int>)
    ensures |NonZeros(s)| == |s| <==> forall j :: 0 <= j < |s| ==> s[j] != 0
  {
    if s != [] {
      NonZerosAll(s[1..]);
      if |NonZeros(s)| == |s| {
        forall j | 0 <= j < |s| ensures s[j] != 0 {
          if j > 0 { assert s[j] == s[1..][j - 1]; }
        }
      }
      if forall j :: 0 <= j < |s| ==> s[j] != 0 {
        assert forall j :: 0 <= j < |s[1..]| ==> s[1..][j] == s[j + 1];
      }
    }
  }

  lemma PackedZerosBehind(n: seq<int>, z: nat)
    requires forall j :: 0 <= j < |n| ==> n[j] != 0
    ensures Packed(n + Zeros(z))
  {
    var s := n + Zeros(z);
    forall a, b | 0 <= a < b < |s| && s[a] == 0 ensures s[b] == 0 {
      assert a >= |n|;
    }
  }

  /** Compact yields a packed line with the same values other than 0. */
  lemma CompactIsPacked(s: seq<int>)
    ensures Packed(Compact(s))
    ensures NonZeros(Compact(s)) == NonZeros(s)
  {
    var n := NonZeros(s);
    PackedZerosBehind(n, |s| - |n|);
    NonZerosAppend(n, Zeros(|s| - |n|));
    NonZerosOfZeros(|s| - |n|);
    NonZerosKeepsNonZero(n);
  }

  /** A packed line splits into its values other than 0 followed by 0s. */
  lemma {:induction false} PackedSplits(s: seq<int>)
    requires Packed(s)
    ensures s == NonZeros(s) + Zeros(|s| - |NonZeros(s)|)
  {
    if s != [] {
      assert Packed(s[1..]) by {
        forall a, b | 0 <= a < b < |s[1..]| && s[1..][a] == 0 ensures s[1..][b] == 0 {
          assert s[a + 1] == 0;
        }
      }
      PackedSplits(s[1..]);
      if s[0] == 0 {
        assert forall j :: 0 <= j < |s| ==> s[j] == 0;
        NonZerosOfZeros(|s|);
        assert s == Zeros(|s|);
      }
    }
  }

  /** Compacting leaves a line as it is exactly when the line is already packed. */
  lemma PackedIffCompactFixed(s: seq<int>)
    ensures Packed(s) <==> Compact(s) == s
  {
    CompactIsPacked(s);
    if Packed(s) { PackedSplits(s); }
  }

  /** A value other than 0 at the front stays there. */
  lemma CompactCons(x: int, t: seq<int>)
    requires x != 0
    ensures Compact([x] + t) == [x] + Compact(t)
  {
    assert ([x] + t)[1..] == t;
  }

  /** A 0 at the front disappears into the padding. */
  lemma CompactZeroCons(t: seq<int>)
    ensures Compact([0] + t) == NonZeros(t) + Zeros(|t| + 1 - |NonZeros(t)|)
  {
    assert ([0] + t)[1..] == t;
  }

  // ---------------------------------------------------------------------------
  // The algorithm computes the reference rule

  lemma {:induction false} MergePairsOfSingle(xs: seq<int>, goal: int)
    requires |xs| <= 1
    ensures MergePairs(xs, goal) == LineResult(xs, 0, false)
  {
  }

  /** Sweep produces exactly what SlideMergeLine describes: same line, same score, same win. */
  lemma {:induction false} SweepIsSlideMerge(t: seq<int>, goal: int)
    ensures Sweep(t, goal).line == SlideMergeLine(t, goal).line
    ensures Sweep(t, goal).gain == SlideMergeLine(t, goal).gain
    ensures Sweep(t, goal).won == SlideMergeLine(t, goal).won
    decreases |t|, 1
  {
    if t == [] {
      assert SlideMergeLine(t, goal) == LineResult([], 0, false);
    } else {
      var c := Compact(t);
      if |c| >= 2 && c[0] != 0 && c[0] == c[1] {
        SweepIsSlideMergeMerging(t, goal);
      } else {
        SweepIsSlideMergeKeeping(t, goal);
      }
    }
  }

  /** SweepIsSlideMerge when the first two values other than 0 merge. */
  lemma {:induction false} SweepIsSlideMergeMerging(t: seq<int>, goal: int)
    requires |Compact(t)| >= 2 && Compact(t)[0] != 0 && Compact(t)[0] == Compact(t)[1]
    ensures Sweep(t, goal).line == SlideMergeLine(t, goal).line
    ensures Sweep(t, goal).gain == SlideMergeLine(t, goal).gain
    ensures Sweep(t, goal).won == SlideMergeLine(t, goal).won
    decreases |t|, 0
  {
    var c := Compact(t);
    var n := NonZeros(t);
    var m := MergePairs(n, goal);
    assert SlideMergeLine(t, goal) == LineResult(m.line + Zeros(|t| - |m.line|), m.gain, m.won);
    var u := [0] + c[2..];
    var r := Sweep(u, goal);
    assert Sweep(t, goal) == SweepResult([c[0] + c[1]] + r.line, c[0] + c[1] + r.gain, c[0] + c[1] == goal || r.won, true);
    SweepMergeStep(t);
    SweepIsSlideMerge(u, goal);
    var mu := MergePairs(n[2..], goal);
    MergePairsPair(n, goal);
    var h := c[0] + c[1];
    assert m.line == [h] + mu.line;
    var z := Zeros(|t| - |m.line|);
    assert |u| - |mu.line| == |t| - |m.line|;
    assert r.line == mu.line + z;
    calc {
      Sweep(t, goal).line;
      [h] + r.line;
      [h] + (mu.line + z);
      { ConsPadded(h, mu.line, z); }
      ([h] + mu.line) + z;
      m.line + z;
      SlideMergeLine(t, goal).line;
    }
  }

  lemma ConsPadded(h: int, a: seq<int>, z: seq<int>)
    ensures [h] + (a + z) == ([h] + a) + z
  {
  }

  /** Two equal values at the front merge, and merging goes on after them. */
  lemma MergePairsPair(xs: seq<int>, goal: int)
    requires |xs| >= 2 && xs[0] == xs[1]
    ensures var rest := MergePairs(xs[2..], goal);
      MergePairs(xs, goal) == LineResult([xs[0] + xs[1]] + rest.line, xs[0] + xs[1] + rest.gain, xs[0] + xs[1] == goal || rest.won)
  {
  }

  /** SweepIsSlideMerge when the first value stays as it is. */
  lemma {:induction false} SweepIsSlideMergeKeeping(t: seq<int>, goal: int)
    requires t != []
    requires !(|Compact(t)| >= 2 && Compact(t)[0] != 0 && Compact(t)[0] == Compact(t)[1])
    ensures Sweep(t, goal).line == SlideMergeLine(t, goal).line
    ensures Sweep(t, goal).gain == SlideMergeLine(t, goal).gain
    ensures Sweep(t, goal).won == SlideMergeLine(t, goal).won
    decreases |t|, 0
  {
    var c := Compact(t);
    var u := c[1..];
    SweepKeepStep(t, goal);
    SweepIsSlideMerge(u, goal);
    if NonZeros(t) == [] {
      SweepOfEmptyLine(t, goal);
    } else {
      SweepKeepingValue(t, goal);
    }
  }

  lemma SweepOfEmptyLine(t: seq<int>, goal: int)
    requires t != [] && NonZeros(t) == []
    requires NonZeros(Compact(t)[1..]) == []
    requires Sweep(Compact(t)[1..], goal).line == SlideMergeLine(Compact(t)[1..], goal).line
    requires Sweep(Compact(t)[1..], goal).gain == SlideMergeLine(Compact(t)[1..], goal).gain
    requires Sweep(Compact(t)[1..], goal).won == SlideMergeLine(Compact(t)[1..], goal).won
    ensures Sweep(t, goal).line == SlideMergeLine(t, goal).line
    ensures Sweep(t, goal).gain == SlideMergeLine(t, goal).gain
    ensures Sweep(t, goal).won == SlideMergeLine(t, goal).won
  {
    var c := Compact(t);
    var u := c[1..];
    assert MergePairs([], goal) == LineResult([], 0, false);
    assert SlideMergeLine(u, goal) == LineResult([] + Zeros(|u|), 0, false);
    assert SlideMergeLine(t, goal) == LineResult([] + Zeros(|t|), 0, false);
    ZerosCons(c[0], |u|);
  }

  lemma SweepKeepingValue(t: seq<int>, goal: int)
    requires t != [] && NonZeros(t) != []
    requires !(|Compact(t)| >= 2 && Compact(t)[0] != 0 && Compact(t)[0] == Compact(t)[1])
    requires NonZeros(Compact(t)[1..]) == NonZeros(t)[1..]
    requires Compact(t)[0] == NonZeros(t)[0]
    requires MergePairs(NonZeros(t), goal).line == [NonZeros(t)[0]] + MergePairs(NonZeros(t)[1..], goal).line
    requires MergePairs(NonZeros(t), goal).gain == MergePairs(NonZeros(t)[1..], goal).gain
    requires MergePairs(NonZeros(t), goal).won == MergePairs(NonZeros(t)[1..], goal).won
    requires Sweep(Compact(t)[1..], goal).line == SlideMergeLine(Compact(t)[1..], goal).line
    requires Sweep(Compact(t)[1..], goal).gain == SlideMergeLine(Compact(t)[1..], goal).gain
    requires Sweep(Compact(t)[1..], goal).won == SlideMergeLine(Compact(t)[1..], goal).won
    ensures Sweep(t, goal).line == SlideMergeLine(t, goal).line
    ensures Sweep(t, goal).gain == SlideMergeLine(t, goal).gain
    ensures Sweep(t, goal).won == SlideMergeLine(t, goal).won
  {
    var c := Compact(t);
    var n := NonZeros(t);
    var u := c[1..];
    var mu := MergePairs(n[1..], goal);
    var m := MergePairs(n, goal);
    var tail := SlideMergeLine(u, goal).line;
    assert tail == mu.line + Zeros(|u| - |mu.line|);
    assert Sweep(t, goal).line == [c[0]] + tail;
    assert SlideMergeLine(t, goal).line == m.line + Zeros(|t| - |m.line|);
    PrependPadded(n[0], mu.line, |u| - |mu.line|);
  }

  lemma PrependPadded(x: int, a: seq<int>, k: nat)
    ensures [x] + (a + Zeros(k)) == ([x] + a) + Zeros(k)
  {
  }

  lemma ZerosCons(x: int, k: nat)
    requires x == 0
    ensures [x] + Zeros(k) == Zeros(k + 1)
  {
  }

  /** In the merging case of Sweep the rest of the line holds the values other than 0 after the first two. */
  lemma SweepMergeStep(t: seq<int>)
    requires |Compact(t)| >= 2 && Compact(t)[0] != 0 && Compact(t)[0] == Compact(t)[1]
    ensures |NonZeros(t)| >= 2
    ensures NonZeros(t)[0] == Compact(t)[0] && NonZeros(t)[1] == Compact(t)[1]
    ensures NonZeros([0] + Compact(t)[2..]) == NonZeros(t)[2..]
  {
    var c := Compact(t);
    var n := NonZeros(t);
    var z := Zeros(|t| - |n|);
    assert c[2..] == n[2..] + z;
    NonZerosZeroCons(c[2..]);
    NonZerosPadded(n[2..], |t| - |n|);
  }

  /** In the keeping case of Sweep the rest of the line holds the values other than 0 after the first. */
  lemma SweepKeepStep(t: seq<int>, goal: int)
    requires t != []
    requires !(|Compact(t)| >= 2 && Compact(t)[0] != 0 && Compact(t)[0] == Compact(t)[1])
    ensures NonZeros(Compact(t)[1..]) == if NonZeros(t) == [] then [] else NonZeros(t)[1..]
    ensures NonZeros(t) == [] ==> Compact(t)[0] == 0
    ensures NonZeros(t) != [] ==> Compact(t)[0] == NonZeros(t)[0]
    ensures NonZeros(t) != [] ==>
      MergePairs(NonZeros(t), goal).line == [NonZeros(t)[0]] + MergePairs(NonZeros(t)[1..], goal).line &&
      MergePairs(NonZeros(t), goal).gain == MergePairs(NonZeros(t)[1..], goal).gain &&
      MergePairs(NonZeros(t), goal).won == MergePairs(NonZeros(t)[1..], goal).won
  {
    var c := Compact(t);
    var n := NonZeros(t);
    var z := Zeros(|t| - |n|);
    if n == [] {
      assert c[1..] == Zeros(|t| - 1);
      NonZerosOfZeros(|t| - 1);
    } else {
      assert c[1..] == n[1..] + z;
      NonZerosPadded(n[1..], |t| - |n|);
      if |n| >= 2 {
        assert c[1] == n[1];
      }
    }
  }

  /** The values other than 0 of the result are exactly the merged values. */
  lemma SlideMergeNonZeros(s: seq<int>, goal: int)
    ensures NonZeros(SlideMergeLine(s, goal).line) == MergePairs(NonZeros(s), goal).line
    ensures Packed(SlideMergeLine(s, goal).line)
  {
    var m := MergePairs(NonZeros(s), goal).line;
    NonZerosAppend(m, Zeros(|s| - |m|));
    NonZerosOfZeros(|s| - |m|);
    NonZerosKeepsNonZero(m);
    PackedZerosBehind(m, |s| - |m|);
  }

  /** A merge makes the merged line shorter than its input. */
  lemma {:induction false} MergePairsShrinks(xs: seq<int>, goal: int)
    ensures |MergePairs(xs, goal).line| == |xs| <==> forall j :: 0 <= j < |xs| - 1 ==> xs[j] != xs[j + 1]
  {
    if |xs| >= 2 {
      if xs[0] == xs[1] {
        MergePairsShrinks(xs[2..], goal);
      } else {
        MergePairsShrinks(xs[1..], goal);
        if forall j :: 0 <= j < |xs[1..]| - 1 ==> xs[1..][j] != xs[1..][j + 1] {
          forall j | 0 <= j < |xs| - 1 ensures xs[j] != xs[j + 1] {
            if j > 0 { assert xs[j] == xs[1..][j - 1]; }
          }
        }
      }
    }
  }

  /** Merging changes nothing in a line whose neighbours all differ. */
  lemma {:induction false} MergePairsNoPairs(xs: seq<int>, goal: int)
    requires forall j :: 0 <= j < |xs| - 1 ==> xs[j] != xs[j + 1]
    ensures MergePairs(xs, goal) == LineResult(xs, 0, false)
  {
    if |xs| >= 2 {
      var ys := xs[1..];
      forall j | 0 <= j < |ys| - 1 ensures ys[j] != ys[j + 1] {
        assert ys[j] == xs[j + 1] && ys[j + 1] == xs[j + 2];
      }
      MergePairsNoPairs(ys, goal);
      assert xs[0] != xs[1];
      assert MergePairs(xs, goal).line == [xs[0]] + ys == xs;
    }
  }

  /**
   * The flag the algorithm raises is exactly "the line changed": a value
   * shifted or a merge took place precisely when the result differs from
   * the input.
   */
  lemma {:induction false} SweepMovedIffChanged(t: seq<int>, goal: int)
    ensures Sweep(t, goal).moved <==> SlideMergeLine(t, goal).line != t
    decreases |t|
  {
    if t != [] {
      var c := Compact(t);
      if |c| >= 2 && c[0] != 0 && c[0] == c[1] {
        SweepMovedMerging(t, goal);
      } else {
        SweepMovedIffChanged(c[1..], goal);
        SweepMovedKeeping(t, goal);
      }
    }
  }

  /** When the first two values other than 0 merge, the line changes. */
  lemma SweepMovedMerging(t: seq<int>, goal: int)
    requires |Compact(t)| >= 2 && Compact(t)[0] != 0 && Compact(t)[0] == Compact(t)[1]
    ensures SlideMergeLine(t, goal).line != t
  {
    var c := Compact(t);
    var n := NonZeros(t);
    var r := SlideMergeLine(t, goal).line;
    SlideMergeNonZeros(t, goal);
    CompactIsPacked(t);
    assert c == n + Zeros(|t| - |n|);
    assert n[0] == n[1] by { assert c[..2] == n[..2]; }
    MergePairsShrinks(n, goal);
    assert |NonZeros(r)| < |n|;
  }

  /**
   * When the first value stays, the line changes exactly when packing moved
   * a value or the rest of the line changes.
   */
  lemma SweepMovedKeeping(t: seq<int>, goal: int)
    requires t != []
    requires !(|Compact(t)| >= 2 && Compact(t)[0] != 0 && Compact(t)[0] == Compact(t)[1])
    requires Sweep(Compact(t)[1..], goal).moved <==> SlideMergeLine(Compact(t)[1..], goal).line != Compact(t)[1..]
    ensures Sweep(t, goal).moved <==> SlideMergeLine(t, goal).line != t
  {
    var c := Compact(t);
    var u := c[1..];
    var r := SlideMergeLine(t, goal).line;
    var ru := SlideMergeLine(u, goal).line;
    SweepIsSlideMerge(t, goal);
    SweepIsSlideMerge(u, goal);
    assert Sweep(t, goal).moved == (c != t || Sweep(u, goal).moved);
    assert r == [c[0]] + ru;
    if c == t {
      assert t == [c[0]] + u;
    } else {
      PackedIffCompactFixed(t);
      SlideMergeNonZeros(t, goal);
    }
  }

  /** A line that does not change scored nothing and reached no goal. */
  lemma {:induction false} UnchangedLineScoresNothing(s: seq<int>, goal: int)
    requires SlideMergeLine(s, goal).line == s
    ensures SlideMergeLine(s, goal).gain == 0 && !SlideMergeLine(s, goal).won
  {
    var n := NonZeros(s);
    SlideMergeNonZeros(s, goal);
    MergePairsShrinks(n, goal);
    MergePairsNoPairs(n, goal);
  }

  /** A line with no 0 and no two equal neighbours is left exactly as it is. */
  lemma BlockedLineStays(s: seq<int>, goal: int)
    requires forall j :: 0 <= j < |s| ==> s[j] != 0
    requires forall j :: 0 <= j < |s| - 1 ==> s[j] != s[j + 1]
    ensures SlideMergeLine(s, goal) == LineResult(s, 0, false)
  {
    NonZerosKeepsNonZero(s);
    MergePairsNoPairs(s, goal);
  }
}
