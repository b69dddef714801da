/** `algorithmSpaces`: match every space-separated term, combine the scores, and keep the whole query when it does better. */
module Spaces {
  import opened Codes
  import opened Subsequence
  import opened Matching

  /** The order penalty: a term placed before the previous one loses the distance it went back. */
  function Dock(previousFirst: int, first: int): (r: real)
    ensures r >= 0.0
    ensures r > 0.0 <==> first < previousFirst
  {
    if first < previousFirst then (previousFirst - first) as real else 0.0
  }

  /**
   * The combined score of the terms: their scores summed, each term docked by
   * how far its first index lies before the previous term's (the first term
   * is compared against 0).
   */
  function Combine(scores: seq<real>, firsts: seq<int>): real
    requires |scores| == |firsts|
  {
    if |scores| == 0 then 0.0
    else
      var n := |scores|;
      var previousFirst := if n == 1 then 0 else firsts[n - 2];
      Combine(scores[..n - 1], firsts[..n - 1]) + scores[n - 1] - Dock(previousFirst, firsts[n - 1])
  }

  function Sum(scores: seq<real>): real
  {
    if |scores| == 0 then 0.0 else Sum(scores[..|scores| - 1]) + scores[|scores| - 1]
  }

  /** Docking only ever lowers the plain sum. */
  lemma {:induction false} CombineAtMostSum(scores: seq<real>, firsts: seq<int>)
    requires |scores| == |firsts|
    ensures Combine(scores, firsts) <= Sum(scores)
  {
    var n := |scores|;
    if n > 0 {
      CombineAtMostSum(scores[..n - 1], firsts[..n - 1]);
    }
  }

  /** A sum of negative scores is negative as soon as there is one. */
  lemma {:induction false} SumNegative(scores: seq<real>)
    requires forall i :: 0 <= i < |scores| ==> scores[i] < 0.0
    ensures |scores| > 0 ==> Sum(scores) < 0.0
    ensures Sum(scores) <= 0.0
  {
    var n := |scores|;
    if n > 0 {
      var init := scores[..n - 1];
      forall i | 0 <= i < |init| ensures init[i] < 0.0 {
        assert init[i] == scores[i];
      }
      SumNegative(init);
    }
  }

  /** Adding to an insertion-ordered set: `Set.prototype.add`. */
  function Add(seen: seq<int>, x: int): (r: seq<int>)
    ensures x in r && forall y :: y in r <==> y in seen || y == x
  {
    if x in seen then seen else seen + [x]
  }

  /** Adding each of `xs` in order. */
  function AddAll(seen: seq<int>, xs: seq<int>): seq<int>
  {
    if |xs| == 0 then seen else Add(AddAll(seen, xs[..|xs| - 1]), xs[|xs| - 1])
  }

  /** The insertion-ordered union of the term placements, as `seen_indexes` collects it. */
  function UnionAll(ps: seq<seq<int>>): seq<int>
  {
    if |ps| == 0 then [] else AddAll(UnionAll(ps[..|ps| - 1]), ps[|ps| - 1])
  }

  predicate NoDuplicates(s: seq<int>)
  {
    forall i, j :: 0 <= i < j < |s| ==> s[i] != s[j]
  }

  /** Adding keeps what was there, in its place, and adds nothing twice. */
  lemma {:induction false} AddAllProperties(seen: seq<int>, xs: seq<int>)
    requires NoDuplicates(seen)
    ensures NoDuplicates(AddAll(seen, xs))
    ensures seen <= AddAll(seen, xs)
    ensures forall y :: y in AddAll(seen, xs) <==> y in seen || y in xs
  {
    if |xs| > 0 {
      var init := xs[..|xs| - 1];
      AddAllProperties(seen, init);
      assert xs == init + [xs[|xs| - 1]];
    }
  }

  /** `seen_indexes` holds each index of each placement exactly once. */
  lemma {:induction false} UnionAllProperties(ps: seq<seq<int>>)
    ensures NoDuplicates(UnionAll(ps))
    ensures forall y :: y in UnionAll(ps) <==> exists k :: 0 <= k < |ps| && y in ps[k]
  {
    if |ps| > 0 {
      var init := ps[..|ps| - 1];
      UnionAllProperties(init);
      AddAllProperties(UnionAll(init), ps[|ps| - 1]);
      forall y ensures y in UnionAll(ps) <==> exists k :: 0 <= k < |ps| && y in ps[k] {
        if y in UnionAll(ps) && !(y in ps[|ps| - 1]) {
          var k :| 0 <= k < |init| && y in init[k];
          assert ps[k] == init[k];
        }
        if exists k :: 0 <= k < |ps| && y in ps[k] {
          var k :| 0 <= k < |ps| && y in ps[k];
          if k < |ps| - 1 {
            assert init[k] == ps[k];
          }
        }
      }
    }
  }

  /** The first index of each placement (0 for an empty one, which no term produces). */
  function Firsts(ps: seq<seq<int>>): (r: seq<int>)
    ensures |r| == |ps|
    ensures forall i :: 0 <= i < |ps| && |ps[i]| > 0 ==> r[i] == ps[i][0]
  {
    if |ps| == 0 then [] else Firsts(ps[..|ps| - 1]) + [if |ps[|ps| - 1]| > 0 then ps[|ps| - 1][0] else 0]
  }

  /** One more term: add its score and dock it against the previous term's first index. */
  lemma CombineStep(scores: seq<real>, ps: seq<seq<int>>, s: real, placement: seq<int>)
    requires |scores| == |ps| && |placement| > 0
    requires forall k :: 0 <= k < |ps| ==> |ps[k]| > 0
    ensures Combine(scores + [s], Firsts(ps + [placement]))
      == Combine(scores, Firsts(ps)) + s - Dock(if |ps| == 0 then 0 else ps[|ps| - 1][0], placement[0])
  {
    var ps' := ps + [placement];
    assert ps'[..|ps|] == ps;
    assert (scores + [s])[..|scores|] == scores;
  }

  lemma UnionStep(ps: seq<seq<int>>, placement: seq<int>)
    ensures UnionAll(ps + [placement]) == AddAll(UnionAll(ps), placement)
  {
    assert (ps + [placement])[..|ps|] == ps;
  }

  lemma {:induction false} SumNonPositive(scores: seq<real>)
    requires forall i :: 0 <= i < |scores| ==> scores[i] <= 0.0
    ensures Sum(scores) <= 0.0
  {
    var n := |scores|;
    if n > 0 {
      var init := scores[..n - 1];
      forall i | 0 <= i < |init| ensures init[i] <= 0.0 {
        assert init[i] == scores[i];
      }
      SumNonPositive(init);
    }
  }

  lemma CombineNonPositive(scores: seq<real>, firsts: seq<int>)
    requires |scores| == |firsts|
    requires forall i :: 0 <= i < |scores| ==> scores[i] <= 0.0
    ensures Combine(scores, firsts) <= 0.0
  {
    CombineAtMostSum(scores, firsts);
    SumNonPositive(scores);
  }

  /** Negative term scores combine to a negative score. */
  lemma CombineNegative(scores: seq<real>, firsts: seq<int>)
    requires |scores| == |firsts| && |scores| > 0
    requires forall i :: 0 <= i < |scores| ==> scores[i] < 0.0
    ensures Combine(scores, firsts) < 0.0
  {
    CombineAtMostSum(scores, firsts);
    SumNegative(scores);
  }

  /** The loop `seen_indexes.add(result._indexes[j])` over the current placement. */
  method AddIndexes(seen: seq<int>, indexes: seq<int>, len: nat) returns (r: seq<int>)
    requires len <= |indexes|
    ensures r == AddAll(seen, indexes[..len])
  {
    r := seen;
    for j := 0 to len
      invariant r == AddAll(seen, indexes[..j])
    {
      assert indexes[..j + 1][..j] == indexes[..j];
      r := Add(r, indexes[j]);
    }
  }

  /** One term of the split query, as `algorithm(search, target)` runs it. */
  method MatchTerm(term: seq<Code>, p: Prepared) returns (ok: bool, ghost placement: seq<int>)
    requires p.Valid()
    modifies p
    ensures p.Valid()
    ensures ok <==> |term| > 0 && IsSubsequence(term, p.lowerCodes)
    ensures ok ==> p.indexesLen == |term| <= |p.indexes| && placement == p.indexes[..|term|]
    ensures ok ==> Embeds(placement, term, p.lowerCodes)
    ensures ok ==> Scored(term, p.lowerCodes, p.target, placement, p.score)
    ensures ok ==> p.score <= -((|p.target| - |term|) as real) && p.score <= 0.0
  {
    ghost var strict, substringIndex;
    ok, strict, substringIndex := AlgorithmSingle(term, p);
    placement := if ok then p.indexes[..|term|] else [];
  }

  /** Each of the first `n` terms is non-empty and a subsequence of `codes`. */
  ghost predicate TermsMatch(terms: seq<seq<Code>>, codes: seq<Code>, n: nat)
    requires n <= |terms|
  {
    forall k :: 0 <= k < n ==> |terms[k]| > 0 && IsSubsequence(terms[k], codes)
  }

  /**
   * What the matched terms left behind: per term, the placement `algorithm`
   * chose and the score it gave that placement, which is at most minus the
   * number of target characters the term leaves over.
   */
  ghost predicate TermResults(terms: seq<seq<Code>>, codes: seq<Code>, text: seq<Code>, scores: seq<real>, ps: seq<seq<int>>)
  {
    && |scores| == |ps| <= |terms|
    && (forall k :: 0 <= k < |ps| ==> Embeds(ps[k], terms[k], codes))
    && (forall k :: 0 <= k < |ps| ==> Scored(terms[k], codes, text, ps[k], scores[k]))
    && (forall k :: 0 <= k < |ps| ==> scores[k] <= -((|text| - |terms[k]|) as real) && scores[k] <= 0.0)
  }

  lemma TermResultsStep(terms: seq<seq<Code>>, codes: seq<Code>, text: seq<Code>, scores: seq<real>, ps: seq<seq<int>>,
                        s: real, placement: seq<int>)
    requires TermResults(terms, codes, text, scores, ps) && |ps| < |terms|
    requires Embeds(placement, terms[|ps|], codes) && Scored(terms[|ps|], codes, text, placement, s)
    requires s <= -((|text| - |terms[|ps|]|) as real) && s <= 0.0
    ensures TermResults(terms, codes, text, scores + [s], ps + [placement])
  {
    var ps', scores' := ps + [placement], scores + [s];
    forall k | 0 <= k < |ps'|
      ensures Embeds(ps'[k], terms[k], codes) && Scored(terms[k], codes, text, ps'[k], scores'[k])
      ensures scores'[k] <= -((|text| - |terms[k]|) as real) && scores'[k] <= 0.0
    {
      if k < |ps| {
        assert ps'[k] == ps[k] && scores'[k] == scores[k];
      }
    }
  }

  /** Matched terms have non-empty placements. */
  lemma TermResultsNonEmpty(terms: seq<seq<Code>>, codes: seq<Code>, text: seq<Code>, scores: seq<real>, ps: seq<seq<int>>, n: nat)
    requires TermResults(terms, codes, text, scores, ps) && n == |ps| && TermsMatch(terms, codes, n)
    ensures forall k :: 0 <= k < |ps| ==> |ps[k]| > 0
  {
    forall k | 0 <= k < |ps| ensures |ps[k]| > 0 {
      assert |terms[k]| > 0;
    }
  }

  /** One pass of the loop body: match the term, add its score less the order penalty, collect its indexes. */
  method TermStep(term: seq<Code>, p: Prepared, score: real, seen: seq<int>, firstSeenIndexLastSearch: int)
    returns (ok: bool, score': real, seen': seq<int>, first: int, ghost termScore: real, ghost placement: seq<int>)
    requires p.Valid()
    modifies p
    ensures p.Valid()
    ensures ok <==> |term| > 0 && IsSubsequence(term, p.lowerCodes)
    ensures ok ==> Embeds(placement, term, p.lowerCodes) && |placement| > 0 && first == placement[0]
    ensures ok ==> Scored(term, p.lowerCodes, p.target, placement, termScore)
    ensures ok ==> termScore <= -((|p.target| - |term|) as real) && termScore <= 0.0
    ensures ok ==> score' == score + termScore - Dock(firstSeenIndexLastSearch, first)
    ensures ok ==> seen' == AddAll(seen, placement)
  {
    ok, placement := MatchTerm(term, p);
    score', seen', first, termScore := score, seen, 0, 0.0;
    if !ok {
      return;
    }
    termScore := p.score;
    score' := score + p.score;
    first := p.indexes[0];
    if first < firstSeenIndexLastSearch {
      score' := score' - (firstSeenIndexLastSearch - first) as real;
    }
    seen' := AddIndexes(seen, p.indexes, p.indexesLen);
  }

  /** The loop state after `i` matched terms. */
  ghost predicate Progress(terms: seq<seq<Code>>, codes: seq<Code>, text: seq<Code>, i: nat,
                           scores: seq<real>, placements: seq<seq<int>>, score: real, seen: seq<int>, first: int)
  {
    && |placements| == i <= |terms|
    && TermsMatch(terms, codes, i)
    && TermResults(terms, codes, text, scores, placements)
    && score == Combine(scores, Firsts(placements))
    && (i > 0 ==> |placements[i - 1]| > 0)
    && first == (if i == 0 then 0 else placements[i - 1][0])
    && seen == UnionAll(placements)
  }

  /** One more matched term extends the loop state. */
  lemma ProgressStep(terms: seq<seq<Code>>, codes: seq<Code>, text: seq<Code>, i: nat,
                     scores: seq<real>, placements: seq<seq<int>>, score: real, seen: seq<int>, first: int,
                     termScore: real, placement: seq<int>, score': real, seen': seq<int>, first': int)
    requires Progress(terms, codes, text, i, scores, placements, score, seen, first) && i < |terms|
    requires |terms[i]| > 0 && IsSubsequence(terms[i], codes)
    requires Embeds(placement, terms[i], codes) && |placement| > 0 && first' == placement[0]
    requires Scored(terms[i], codes, text, placement, termScore)
    requires termScore <= -((|text| - |terms[i]|) as real) && termScore <= 0.0
    requires score' == score + termScore - Dock(first, first') && seen' == AddAll(seen, placement)
    ensures Progress(terms, codes, text, i + 1, scores + [termScore], placements + [placement], score', seen', first')
  {
    TermResultsNonEmpty(terms, codes, text, scores, placements, i);
    CombineStep(scores, placements, termScore, placement);
    UnionStep(placements, placement);
    TermResultsStep(terms, codes, text, scores, placements, termScore, placement);
  }

  /** A term that does not match makes the whole conjunction fail. */
  lemma ProgressFail(terms: seq<seq<Code>>, codes: seq<Code>, i: nat)
    requires i < |terms| && !(|terms[i]| > 0 && IsSubsequence(terms[i], codes))
    ensures !TermsMatch(terms, codes, |terms|)
  {
  }

  /** The loop over `spaceSearches`: stop at the first term that does not match. */
  method MatchTerms(terms: seq<seq<Code>>, p: Prepared)
    returns (ok: bool, score: real, seen: seq<int>, ghost scores: seq<real>, ghost placements: seq<seq<int>>)
    requires p.Valid()
    modifies p
    ensures p.Valid()
    ensures ok <==> TermsMatch(terms, p.lowerCodes, |terms|)
    ensures ok ==> TermResults(terms, p.lowerCodes, p.target, scores, placements) && |placements| == |terms|
    ensures ok ==> score == Combine(scores, Firsts(placements)) && seen == UnionAll(placements)
  {
    scores, placements := [], [];
    seen := [];
    score := 0.0;
    var firstSeenIndexLastSearch := 0;
    for i := 0 to |terms|
      invariant p.Valid()
      invariant Progress(terms, p.lowerCodes, p.target, i, scores, placements, score, seen, firstSeenIndexLastSearch)
    {
      var matched, score', seen', first;
      ghost var termScore, placement;
      matched, score', seen', first, termScore, placement :=
        TermStep(terms[i], p, score, seen, firstSeenIndexLastSearch);
      if !matched {
        ProgressFail(terms, p.lowerCodes, i);
        return false, score', seen', scores, placements;
      }
      ProgressStep(terms, p.lowerCodes, p.target, i, scores, placements, score, seen, firstSeenIndexLastSearch,
        termScore, placement, score', seen', first);
      scores, placements := scores + [termScore], placements + [placement];
      score, seen, firstSeenIndexLastSearch := score', seen', first;
    }
    ok := true;
  }

  /** `algorithm(preparedSearch, target, true)`: the whole query, spaces included, as one. */
  method MatchWhole(q: seq<Code>, p: Prepared) returns (ok: bool)
    requires p.Valid()
    modifies p
    ensures p.Valid()
    ensures ok <==> |q| > 0 && IsSubsequence(q, p.lowerCodes)
    ensures ok ==> p.indexesLen == |q| <= |p.indexes| && Embeds(p.indexes[..|q|], q, p.lowerCodes)
    ensures ok ==> Scored(q, p.lowerCodes, p.target, p.indexes[..|q|], p.score)
    ensures ok ==> p.score <= -((|p.target| - |q|) as real) && p.score <= 0.0
    ensures ok && q == p.lowerCodes ==> p.score == 0.0
  {
    ghost var strict, substringIndex;
    ok, strict, substringIndex := AlgorithmSingle(q, p);
  }

  /** With an exact query every term is strictly shorter than the target, so the terms combine below 0. */
  lemma ExactQueryBeatsTerms(q: seq<Code>, terms: seq<seq<Code>>, text: seq<Code>, scores: seq<real>, ps: seq<seq<int>>)
    requires TermResults(terms, q, text, scores, ps) && |ps| == |terms| > 0 && |text| == |q|
    requires forall i :: 0 <= i < |terms| ==> |terms[i]| < |q|
    ensures |q| > 0 && IsSubsequence(q, q)
    ensures Combine(scores, Firsts(ps)) < 0.0
  {
    assert |terms[0]| < |q|;
    SliceIsSubsequence(q, 0, |q|);
    assert q[0..|q|] == q;
    forall k | 0 <= k < |scores| ensures scores[k] < 0.0 {
      assert |terms[k]| < |text|;
    }
    CombineNegative(scores, Firsts(ps));
  }

  /**
   * What `algorithmSpaces` returns for a matched target, given its witnesses:
   * the term results, and the whole-query placement and score. The whole
   * query's match is kept exactly when the whole query is a subsequence and
   * scores strictly higher than the combined terms; otherwise the result is
   * the combined score with the union of the term placements.
   */
  ghost predicate SpacedChoice(q: seq<Code>, terms: seq<seq<Code>>, codes: seq<Code>, text: seq<Code>,
                               placement: seq<int>, score: real,
                               scores: seq<real>, ps: seq<seq<int>>, wp: seq<int>, ws: real)
  {
    && TermResults(terms, codes, text, scores, ps) && |ps| == |terms|
    && (|q| > 0 && IsSubsequence(q, codes) ==> |wp| == |q| && Scored(q, codes, text, wp, ws))
    && (if |q| > 0 && IsSubsequence(q, codes) && ws > Combine(scores, Firsts(ps))
        then score == ws && placement == wp
        else score == Combine(scores, Firsts(ps)) && placement == UnionAll(ps))
  }

  /** The result of `algorithmSpaces` for some term results and some whole-query match. */
  ghost predicate SpacedResult(q: seq<Code>, terms: seq<seq<Code>>, codes: seq<Code>, text: seq<Code>,
                               placement: seq<int>, score: real)
  {
    exists scores, ps, wp, ws :: SpacedChoice(q, terms, codes, text, placement, score, scores, ps, wp, ws)
  }

  /** The outs of `AlgorithmSpaces` witness `SpacedResult` for the stored placement and score. */
  lemma SpacedResultOf(q: seq<Code>, terms: seq<seq<Code>>, codes: seq<Code>, text: seq<Code>,
                       placement: seq<int>, score: real, whole: bool, wholeMatched: bool, wholeScore: real,
                       wholePlacement: seq<int>, scores: seq<real>, placements: seq<seq<int>>)
    requires TermResults(terms, codes, text, scores, placements) && |placements| == |terms|
    requires wholeMatched <==> |q| > 0 && IsSubsequence(q, codes)
    requires wholeMatched ==> |wholePlacement| == |q| && Scored(q, codes, text, wholePlacement, wholeScore)
    requires whole <==> wholeMatched && wholeScore > Combine(scores, Firsts(placements))
    requires whole ==> score == wholeScore && placement == wholePlacement
    requires !whole ==> score == Combine(scores, Firsts(placements)) && placement == UnionAll(placements)
    ensures SpacedResult(q, terms, codes, text, placement, score)
  {
    assert SpacedChoice(q, terms, codes, text, placement, score, scores, placements, wholePlacement, wholeScore);
  }

  /**
   * `algorithmSpaces`. Every term must match, or there is no result (the
   * terms matched before the failing one have still written into the
   * target). The term scores are combined and their placements united in
   * order of first appearance; the whole query, spaces included, is then
   * matched as one (`wholeMatched`, with `wholeScore` and `wholePlacement`),
   * and that match is kept exactly when it scores strictly higher.
   */
  method AlgorithmSpaces(q: seq<Code>, terms: seq<seq<Code>>, p: Prepared)
    returns (matched: bool, ghost whole: bool, ghost wholeMatched: bool, ghost wholeScore: real,
             ghost wholePlacement: seq<int>, ghost scores: seq<real>, ghost placements: seq<seq<int>>)
    requires p.Valid() && |terms| > 0
    modifies p
    ensures p.Valid()
    ensures matched <==> TermsMatch(terms, p.lowerCodes, |terms|)
    ensures matched ==> TermResults(terms, p.lowerCodes, p.target, scores, placements) && |placements| == |terms|
    ensures matched ==> (wholeMatched <==> |q| > 0 && IsSubsequence(q, p.lowerCodes))
    ensures matched && wholeMatched ==>
      && |wholePlacement| == |q| && Embeds(wholePlacement, q, p.lowerCodes)
      && Scored(q, p.lowerCodes, p.target, wholePlacement, wholeScore)
      && wholeScore <= -((|p.target| - |q|) as real)
    ensures matched ==> (whole <==> wholeMatched && wholeScore > Combine(scores, Firsts(placements)))
    ensures matched && whole ==>
      && p.score == wholeScore
      && p.indexesLen == |q| <= |p.indexes| && p.indexes[..|q|] == wholePlacement
    ensures matched && !whole ==>
      && p.score == Combine(scores, Firsts(placements))
      && p.indexesLen == |UnionAll(placements)| <= |p.indexes|
      && p.indexes[..p.indexesLen] == UnionAll(placements)
    ensures matched ==> p.score <= 0.0
    ensures matched && q == p.lowerCodes && (forall i :: 0 <= i < |terms| ==> |terms[i]| < |q|) ==> whole && p.score == 0.0
  {
    whole, wholeMatched, wholeScore, wholePlacement := false, false, 0.0, [];
    var score, seen;
    matched, score, seen, scores, placements := MatchTerms(terms, p);
    if !matched {
      return;
    }
    CombineNonPositive(scores, Firsts(placements));
    if q == p.lowerCodes && (forall i :: 0 <= i < |terms| ==> |terms[i]| < |q|) {
      ExactQueryBeatsTerms(q, terms, p.target, scores, placements);
    }
    var allowSpacesMatched := MatchWhole(q, p);
    wholeMatched := allowSpacesMatched;
    if allowSpacesMatched {
      wholeScore, wholePlacement := p.score, p.indexes[..|q|];
    }
    if allowSpacesMatched && p.score > score {
      whole := true;
      return;
    }
    p.score := score;
    WriteIndexes(p, seen);
  }
}
