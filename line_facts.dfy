/**
 * What the line rule keeps and what it promises: the values of a line add
 * up to the same total after a move, the score a move adds is never
 * negative on a grid of values no lower than 0, the win flag is raised by a
 * merge that produces the goal and by nothing else, and merged values do
 * not merge again within the same move.
 */
module LineFacts {
  import opened LineRules

  lemma {:induction false} SumAppend(a: seq<int>, b: seq<int>)
    ensures Sum(a + b) == Sum(a) + Sum(b)
    decreases |a|
  {
    if a == [] {
      assert a + b == b;
    } else {
      assert (a + b)[1..] == a[1..] + b;
      SumAppend(a[1..], b);
    }
  }

  lemma {:induction false} SumZeros(n: nat)
    ensures Sum(Zeros(n)) == 0
  {
    if n > 0 {
      assert Zeros(n)[1..] == Zeros(n - 1);
      SumZeros(n - 1);
    }
  }

  /** Leaving out the 0s does not change the total. */
  lemma {:induction false} SumNonZeros(s: seq<int>)
    ensures Sum(NonZeros(s)) == Sum(s)
    decreases |s|
  {
    if s != [] {
      SumNonZeros(s[1..]);
      SumAppend(if s[0] != 0 then [s[0]] else [], NonZeros(s[1..]));
    }
  }

  /** Merging a pair into its sum does not change the total. */
  lemma {:induction false} SumMergePairs(xs: seq<int>, goal: int)
    ensures Sum(MergePairs(xs, goal).line) == Sum(xs)
    decreases |xs|
  {
    if |xs| >= 2 {
      if xs[0] == xs[1] {
        SumMergePairs(xs[2..], goal);
        assert xs[1..][1..] == xs[2..];
      } else {
        SumMergePairs(xs[1..], goal);
      }
      SumAppend([MergePairs(xs, goal).line[0]], MergePairs(xs, goal).line[1..]);
      assert MergePairs(xs, goal).line == [MergePairs(xs, goal).line[0]] + MergePairs(xs, goal).line[1..];
    }
  }

  /** A move keeps the total of every line: each merge adds the source to the target and clears the source. */
  lemma SlideMergeKeepsSum(s: seq<int>, goal: int)
    ensures Sum(SlideMergeLine(s, goal).line) == Sum(s)
  {
    var m := MergePairs(NonZeros(s), goal).line;
    SumNonZeros(s);
    SumMergePairs(NonZeros(s), goal);
    SumAppend(m, Zeros(|s| - |m|));
    SumZeros(|s| - |m|);
  }

  /** The values other than 0 of a line are values of that line. */
  lemma {:induction false} NonZerosFromLine(s: seq<int>)
    ensures forall j :: 0 <= j < |NonZeros(s)| ==> NonZeros(s)[j] in s
    decreases |s|
  {
    if s != [] {
      NonZerosFromLine(s[1..]);
      var h := if s[0] != 0 then [s[0]] else [];
      forall j | 0 <= j < |NonZeros(s)| ensures NonZeros(s)[j] in s {
        if j >= |h| {
          assert NonZeros(s)[j] == NonZeros(s[1..])[j - |h|];
          assert NonZeros(s[1..])[j - |h|] in s[1..];
        }
      }
    }
  }

  /** Merging values no lower than 0 scores no less than 0. */
  lemma {:induction false} MergePairsGainNonNegative(xs: seq<int>, goal: int)
    requires forall j :: 0 <= j < |xs| ==> xs[j] >= 0
    ensures MergePairs(xs, goal).gain >= 0
    decreases |xs|
  {
    if |xs| >= 2 {
      if xs[0] == xs[1] {
        MergePairsGainNonNegative(xs[2..], goal);
      } else {
        MergePairsGainNonNegative(xs[1..], goal);
      }
    }
  }

  /** On a line of values no lower than 0 a move adds no less than 0 to the score. */
  lemma SlideMergeGainNonNegative(s: seq<int>, goal: int)
    requires forall j :: 0 <= j < |s| ==> s[j] >= 0
    ensures SlideMergeLine(s, goal).gain >= 0
  {
    NonZerosFromLine(s);
    MergePairsGainNonNegative(NonZeros(s), goal);
  }

  /**
   * Merging raises the win flag only with the goal among the merged values;
   * and when the goal was not among the values before, finding it among the
   * merged values means a merge produced it.
   */
  lemma {:induction false} MergePairsWon(xs: seq<int>, goal: int)
    ensures MergePairs(xs, goal).won ==> goal in MergePairs(xs, goal).line
    ensures goal !in xs && goal in MergePairs(xs, goal).line ==> MergePairs(xs, goal).won
    decreases |xs|
  {
    if |xs| >= 2 {
      var m := MergePairs(xs, goal);
      if xs[0] == xs[1] {
        var rest := MergePairs(xs[2..], goal);
        MergePairsWon(xs[2..], goal);
        assert m.line == [xs[0] + xs[1]] + rest.line;
        assert forall v :: v in xs[2..] ==> v in xs;
      } else {
        var rest := MergePairs(xs[1..], goal);
        MergePairsWon(xs[1..], goal);
        assert m.line == [xs[0]] + rest.line;
        assert forall v :: v in xs[1..] ==> v in xs;
      }
    }
  }

  /**
   * A move on a line wins exactly by producing the goal: a win leaves the
   * goal on the line, and a goal other than 0 that was not on the line
   * before and is on it after was produced by a winning merge. The test is
   * equality with the goal, so a merged value beyond the goal does not win.
   */
  lemma SlideMergeWon(s: seq<int>, goal: int)
    ensures SlideMergeLine(s, goal).won ==> goal in SlideMergeLine(s, goal).line
    ensures goal != 0 && goal !in s && goal in SlideMergeLine(s, goal).line ==> SlideMergeLine(s, goal).won
  {
    var n := NonZeros(s);
    var m := MergePairs(n, goal);
    var r := SlideMergeLine(s, goal);
    assert r.line == m.line + Zeros(|s| - |m.line|);
    MergePairsWon(n, goal);
    NonZerosFromLine(s);
    if goal != 0 && goal in r.line {
      var j :| 0 <= j < |r.line| && r.line[j] == goal;
      assert j < |m.line|;
      assert goal in m.line;
    }
    if goal !in s {
      assert goal !in n;
    }
  }

  // ---------------------------------------------------------------------------
  // Lines worked out

  /** Four equal values make two merges, not one chain: [2, 2, 2, 2] gives [4, 4, 0, 0]. */
  lemma NoChainOfFour()
    ensures SlideMergeLine([2, 2, 2, 2], 2048) == LineResult([4, 4, 0, 0], 8, false)
  {
    assert NonZeros([2, 2, 2, 2]) == [2, 2, 2, 2];
    assert MergePairs([2, 2], 2048) == LineResult([4], 4, false);
  }

  /** A merged value does not merge again with an equal neighbour: [2, 2, 4, 0] gives [4, 4, 0, 0]. */
  lemma NoRemergeOfMerged()
    ensures SlideMergeLine([2, 2, 4, 0], 2048) == LineResult([4, 4, 0, 0], 4, false)
  {
    assert NonZeros([2, 2, 4, 0]) == [2, 2, 4];
    assert MergePairs([4], 2048) == LineResult([4], 0, false);
  }

  /** [1024, 1024, 2, 2] gives [2048, 4, 0, 0], scores 2052 and reaches the goal 2048. */
  lemma WinningLine()
    ensures SlideMergeLine([1024, 1024, 2, 2], 2048) == LineResult([2048, 4, 0, 0], 2052, true)
  {
    assert NonZeros([1024, 1024, 2, 2]) == [1024, 1024, 2, 2];
    assert MergePairs([2, 2], 2048) == LineResult([4], 4, false);
  }

  /** Read from the right, the same row is [2, 2, 1024, 1024] and gives [4, 2048, 0, 0], also reaching 2048. */
  lemma WinningLineReversed()
    ensures SlideMergeLine([2, 2, 1024, 1024], 2048) == LineResult([4, 2048, 0, 0], 2052, true)
  {
    assert NonZeros([2, 2, 1024, 1024]) == [2, 2, 1024, 1024];
    assert MergePairs([1024, 1024], 2048) == LineResult([2048], 2048, true);
  }
}
