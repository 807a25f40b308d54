/** The console's record of the best score reached over the games of a session. */
module GameStats {
  import opened Wrappers

  /** The best score once `score` has been evaluated against the best so far. */
  function Best(best: int, score: int): (r: int)
    ensures r >= best && r >= score
    ensures r == best || r == score
  {
    if best < score then score else best
  }

  /** The best score after a series of evaluations, one score after another. */
  function BestAfter(best: int, scores: seq<int>): (r: int)
    decreases |scores|
  {
    if scores == [] then best else BestAfter(Best(best, scores[0]), scores[1..])
  }

  /** A score no greater than the best leaves the best as it is. */
  lemma BestKeeps(best: int, score: int)
    requires score <= best
    ensures Best(best, score) == best
  {
  }

  /** Evaluating the same score twice gives the best that evaluating it once gives. */
  lemma BestIdempotent(best: int, score: int)
    ensures Best(Best(best, score), score) == Best(best, score)
  {
  }

  /**
   * Over any series of evaluations the best never decreases, ends at least
   * as high as every score evaluated, and is the starting best or one of
   * the scores.
   */
  lemma {:induction false} BestAfterBounds(best: int, scores: seq<int>)
    ensures BestAfter(best, scores) >= best
    ensures forall k :: 0 <= k < |scores| ==> BestAfter(best, scores) >= scores[k]
    ensures BestAfter(best, scores) == best || BestAfter(best, scores) in scores
    decreases |scores|
  {
    if scores != [] {
      var rest := scores[1..];
      BestAfterBounds(Best(best, scores[0]), rest);
      forall k | 1 <= k < |scores| ensures BestAfter(best, scores) >= scores[k] {
        assert scores[k] == rest[k - 1];
      }
    }
  }

  /** Evaluating a series of scores a second time changes nothing. */
  lemma {:induction false} BestAfterRepeat(best: int, scores: seq<int>)
    ensures BestAfter(BestAfter(best, scores), scores) == BestAfter(best, scores)
  {
    var r := BestAfter(best, scores);
    BestAfterBounds(best, scores);
    BestAfterAtMost(r, scores);
  }

  /** Starting from a best no lower than every score, a series leaves the best as it is. */
  lemma {:induction false} BestAfterAtMost(best: int, scores: seq<int>)
    requires forall k :: 0 <= k < |scores| ==> scores[k] <= best
    ensures BestAfter(best, scores) == best
    decreases |scores|
  {
    if scores != [] {
      var rest := scores[1..];
      forall k | 0 <= k < |rest| ensures rest[k] <= best {
        assert rest[k] == scores[k + 1];
      }
      BestAfterAtMost(best, rest);
    }
  }

  class GameStat {
    var BestScore: int

    constructor()
      ensures BestScore == 0
    {
      BestScore := 0;
    }

    /** Keeps the greater of the best score and `score`, and returns it. */
    method EvaluateBestScore(score: int) returns (r: int)
      modifies this
      ensures BestScore == Best(old(BestScore), score) && r == BestScore
    {
      if BestScore < score {
        BestScore := score;
      }
      r := BestScore;
    }

    /** A new stat with the same best score. */
    method Clone() returns (c: GameStat)
      ensures fresh(c) && c.BestScore == BestScore
      ensures Equals(c) && c.Equals(this)
    {
      c := new GameStat();
      c.BestScore := BestScore;
    }

    /** Two stats are equal when their best scores are. */
    predicate Equals(other: GameStat)
      reads this, other
    {
      other.BestScore == BestScore
    }

    /**
     * Equality with any object: none (null) is never equal; a stat is
     * compared by its best score.
     */
    predicate EqualsObject(obj: Option<GameStat>)
      reads this, if obj.Some? then {obj.value} else {}
    {
      obj.Some? && Equals(obj.value)
    }
  }

  /** A stat equals an object exactly when the object is a stat with the same best score. */
  lemma EqualsObjectMeans(a: GameStat, obj: Option<GameStat>)
    ensures !a.EqualsObject(Option.None)
    ensures a.EqualsObject(obj) <==> obj.Some? && obj.value.BestScore == a.BestScore
  {
  }

  /** Stat equality is an equivalence: reflexive, symmetric and transitive. */
  lemma EqualsEquivalence(a: GameStat, b: GameStat, c: GameStat)
    ensures a.Equals(a)
    ensures a.Equals(b) <==> b.Equals(a)
    ensures a.Equals(b) && b.Equals(c) ==> a.Equals(c)
  {
  }
}
