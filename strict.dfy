/** The second pass of `algorithm`: placements on consecutive positions or word beginnings, with bounded backtracking. */
module Strict {
  import opened Codes
  import opened Subsequence
  import opened Beginnings

  /** `m` places `q[..|m|]` at or after `first`, each position a beginning or right after the previous one. */
  ghost predicate PartialStrict(m: seq<int>, q: seq<Code>, codes: seq<Code>, text: seq<Code>, first: int)
    requires |codes| == |text|
  {
    && |m| <= |q|
    && Embeds(m, q[..|m|], codes)
    && (forall k :: 0 <= k < |m| ==> first <= m[k])
    && (forall k :: 0 <= k < |m| ==> IsBeginning(text, m[k]) || (k > 0 && m[k] == m[k - 1] + 1))
  }

  /** The shape of a successful strict placement. */
  ghost predicate StrictShape(m: seq<int>, q: seq<Code>, codes: seq<Code>, text: seq<Code>, first: int)
    requires |codes| == |text|
  {
    |m| == |q| && PartialStrict(m, q, codes, text, first)
  }

  lemma StrictShapeEmbeds(m: seq<int>, q: seq<Code>, codes: seq<Code>, text: seq<Code>, first: int)
    requires |codes| == |text| && StrictShape(m, q, codes, text, first)
    ensures Embeds(m, q, codes)
  {
    assert q[..|m|] == q;
  }

  lemma PushStrict(m: seq<int>, q: seq<Code>, codes: seq<Code>, text: seq<Code>, first: int, ti: int)
    requires |codes| == |text| && PartialStrict(m, q, codes, text, first) && |m| < |q|
    requires 0 <= first <= ti < |codes| && codes[ti] == q[|m|]
    requires forall k :: 0 <= k < |m| ==> m[k] < ti
    requires IsBeginning(text, ti) || (|m| > 0 && ti == m[|m| - 1] + 1)
    ensures PartialStrict(m + [ti], q, codes, text, first)
  {
    var m' := m + [ti];
    assert q[..|m'|] == q[..|m|] + [q[|m|]];
    forall k | 0 <= k < |m'| ensures 0 <= m'[k] < |codes| && codes[m'[k]] == q[..|m'|][k] {
      if k < |m| {
        assert m'[k] == m[k];
        assert q[..|m|][k] == q[..|m'|][k];
      }
    }
  }

  lemma PopStrict(m: seq<int>, q: seq<Code>, codes: seq<Code>, text: seq<Code>, first: int)
    requires |codes| == |text| && PartialStrict(m, q, codes, text, first) && |m| > 0
    ensures PartialStrict(m[..|m| - 1], q, codes, text, first)
  {
    var m' := m[..|m| - 1];
    var q' := q[..|m'|];
    forall k | 0 <= k < |m'| ensures m'[k] == m[k] && q'[k] == q[..|m|][k] {
    }
    forall i, j | 0 <= i < j < |m'| ensures m'[i] < m'[j] {
      assert m'[i] == m[i] && m'[j] == m[j];
    }
    assert Embeds(m', q', codes);
    forall k | 0 <= k < |m'| ensures IsBeginning(text, m'[k]) || (k > 0 && m'[k] == m'[k - 1] + 1) {
      assert m'[k] == m[k];
      assert IsBeginning(text, m'[k]) == IsBeginning(text, m[k]);
      assert IsBeginning(text, m[k]) || (k > 0 && m[k] == m[k - 1] + 1);
      if k > 0 {
        assert m'[k - 1] == m[k - 1];
      }
    }
  }

  /** A query that is a prefix of the target is the run `0 .. |q| - 1`, which has the strict shape. */
  ghost predicate ExactPrefix(q: seq<Code>, codes: seq<Code>, first: int)
  {
    first == 0 && |q| <= |codes| && codes[..|q|] == q
  }

  /** The loop state of the strict pass, with `searchI == |m|`. */
  ghost predicate StrictLoop(q: seq<Code>, codes: seq<Code>, text: seq<Code>, first: int,
                             m: seq<int>, targetI: int, backtrackCount: int)
    requires |codes| == |text|
  {
    && |m| < |q|
    && 0 <= first <= targetI <= |codes|
    && 0 <= backtrackCount <= 200
    && PartialStrict(m, q, codes, text, first)
    && (forall k :: 0 <= k < |m| ==> m[k] < targetI)
    && (targetI < |codes| ==> IsBeginning(text, targetI) || (|m| > 0 && targetI == m[|m| - 1] + 1))
    && (ExactPrefix(q, codes, first) ==> backtrackCount == 0 && m == Run(0, |m|) && targetI == |m|)
  }

  /** Taking back the last placement and resuming at the next beginning after it. */
  lemma Backtrack(q: seq<Code>, codes: seq<Code>, text: seq<Code>, nb: seq<int>, first: int,
                  m: seq<int>, targetI: int, backtrackCount: int)
    requires |codes| == |text| && nb == NextBeginnings(text)
    requires StrictLoop(q, codes, text, first, m, targetI, backtrackCount)
    requires targetI >= |codes| && |m| > 0 && backtrackCount < 200
    ensures 0 <= m[|m| - 1] < |nb|
    ensures StrictLoop(q, codes, text, first, m[..|m| - 1], nb[m[|m| - 1]], backtrackCount + 1)
  {
    var last := m[|m| - 1];
    PopStrict(m, q, codes, text, first);
    NextBeginningsBounds(text, last);
    var m' := m[..|m| - 1];
    forall k | 0 <= k < |m'| ensures m'[k] < nb[last] {
      assert m'[k] == m[k];
    }
  }

  /** Placing the next query code at `targetI`. */
  lemma Place(q: seq<Code>, codes: seq<Code>, text: seq<Code>, first: int,
              m: seq<int>, targetI: int, backtrackCount: int)
    requires |codes| == |text| && StrictLoop(q, codes, text, first, m, targetI, backtrackCount)
    requires targetI < |codes| && q[|m|] == codes[targetI]
    ensures |m| + 1 == |q| ==> StrictShape(m + [targetI], q, codes, text, first)
    ensures |m| + 1 == |q| && ExactPrefix(q, codes, first) ==> m + [targetI] == Run(0, |q|)
    ensures |m| + 1 < |q| ==> StrictLoop(q, codes, text, first, m + [targetI], targetI + 1, backtrackCount)
  {
    PushStrict(m, q, codes, text, first, targetI);
    var m' := m + [targetI];
    forall k | 0 <= k < |m'| ensures m'[k] < targetI + 1 {
      if k < |m| {
        assert m'[k] == m[k];
      }
    }
    if ExactPrefix(q, codes, first) {
      assert m' == Run(0, |m'|);
    }
  }

  /** A mismatch jumps to the next beginning. */
  lemma Skip(q: seq<Code>, codes: seq<Code>, text: seq<Code>, nb: seq<int>, first: int,
             m: seq<int>, targetI: int, backtrackCount: int)
    requires |codes| == |text| && nb == NextBeginnings(text)
    requires StrictLoop(q, codes, text, first, m, targetI, backtrackCount)
    requires 0 <= targetI < |codes| && q[|m|] != codes[targetI]
    ensures targetI < nb[targetI]
    ensures StrictLoop(q, codes, text, first, m, nb[targetI], backtrackCount)
  {
    NextBeginningsBounds(text, targetI);
  }

  /**
   * The strict pass. On a mismatch jump to the next beginning; once the target
   * is exhausted, take back the last placement and retry from the beginning
   * after it. More than 200 take-backs, or none left to take, give up.
   * The loop terminates: each take-back counts towards the cap, and between
   * take-backs `targetI` only moves forward.
   */
  method StrictSearch(q: seq<Code>, codes: seq<Code>, text: seq<Code>, nb: seq<int>, firstPossibleI: int)
    returns (successStrict: bool, matchesStrict: seq<int>)
    requires |q| > 0 && |codes| == |text| && nb == NextBeginnings(text)
    requires 0 <= firstPossibleI <= |codes|
    requires firstPossibleI < |codes| ==> IsBeginning(text, firstPossibleI)
    ensures successStrict ==> StrictShape(matchesStrict, q, codes, text, firstPossibleI)
    ensures ExactPrefix(q, codes, firstPossibleI) ==> successStrict && matchesStrict == Run(0, |q|)
  {
    var targetLen := |codes|;
    var searchLen := |q|;
    var searchI := 0;
    successStrict := false;
    matchesStrict := [];
    var targetI := firstPossibleI;
    var backtrackCount := 0;
    if targetI != targetLen {
      while true
        invariant searchI == |matchesStrict|
        invariant StrictLoop(q, codes, text, firstPossibleI, matchesStrict, targetI, backtrackCount)
        decreases 200 - backtrackCount, targetLen - targetI
      {
        if targetI >= targetLen {
          if searchI <= 0 {
            break;
          }
          backtrackCount := backtrackCount + 1;
          if backtrackCount > 200 {
            break;
          }
          Backtrack(q, codes, text, nb, firstPossibleI, matchesStrict, targetI, backtrackCount - 1);
          searchI := searchI - 1;
          var lastMatch := matchesStrict[searchI];
          matchesStrict := matchesStrict[..searchI];
          targetI := nb[lastMatch];
        } else {
          var isMatch := q[searchI] == codes[targetI];
          if isMatch {
            Place(q, codes, text, firstPossibleI, matchesStrict, targetI, backtrackCount);
            matchesStrict := matchesStrict + [targetI];
            searchI := searchI + 1;
            if searchI == searchLen {
              successStrict := true;
              break;
            }
            targetI := targetI + 1;
          } else {
            Skip(q, codes, text, nb, firstPossibleI, matchesStrict, targetI, backtrackCount);
            targetI := nb[targetI];
          }
        }
      }
    }
  }
}

/** `String.prototype.indexOf` with a start position, as the substring check uses it. */
module Substring {
  import opened Codes
  import opened Tokens

  /** The least position at or after `from` where `n` occurs in `h`, or -1. */
  function IndexOf(h: seq<Code>, n: seq<Code>, from: nat): (r: int)
    requires from <= |h|
    ensures r == -1 || (from <= r && OccursAt(n, h, r))
    ensures r == -1 ==> forall k :: from <= k ==> !OccursAt(n, h, k)
    ensures r >= 0 ==> forall k :: from <= k < r ==> !OccursAt(n, h, k)
    decreases |h| - from
  {
    if from + |n| > |h| then -1
    else if h[from..from + |n|] == n then from
    else IndexOf(h, n, from + 1)
  }

  /** Starting the search late loses nothing when no occurrence lies before the start. */
  lemma IndexOfFrom(h: seq<Code>, n: seq<Code>, from: nat)
    requires from <= |h|
    requires forall k :: 0 <= k < from ==> !OccursAt(n, h, k)
    ensures IndexOf(h, n, 0) == IndexOf(h, n, from)
  {
    var r2 := IndexOf(h, n, from);
    if r2 >= 0 {
      assert OccursAt(n, h, r2);
    }
  }
}
