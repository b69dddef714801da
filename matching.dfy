/** Prepared targets and `algorithm`: the simple scan, the strict pass, the substring check and the score. */
module Matching {
  import opened Wrappers
  import opened Codes
  import opened Subsequence
  import opened LowerInfo
  import opened Beginnings
  import opened Strict
  import opened Substring
  import opened Scoring
  import opened Tokens

  /**
   * A prepared target. The lowered codes and the signature are fixed at
   * preparation; the jump table is filled in lazily by the first match that
   * needs it, and every match writes `score` and the first `indexesLen`
   * entries of `indexes`.
   */
  class Prepared {
    const target: seq<Code>
    const lowerCodes: seq<Code>
    const bitflags: Flags
    var nextBeginningIndexes: Option<seq<int>>
    var score: real
    var indexes: seq<int>
    var indexesLen: nat

    ghost predicate Valid()
      reads this
    {
      && lowerCodes == LowerAll(target)
      && bitflags == Bitflags(lowerCodes)
      && (nextBeginningIndexes.Some? ==> nextBeginningIndexes.value == NextBeginnings(target))
      && indexesLen <= |indexes|
    }

    /** `prepare`: lower the target once; nothing has been matched yet. */
    constructor (target: seq<Code>)
      ensures Valid()
      ensures this.target == target && lowerCodes == LowerAll(target) && bitflags == Bitflags(LowerAll(target))
      ensures nextBeginningIndexes == None && score == 0.0 && indexes == [0] && indexesLen == 0
    {
      var info := PrepareLowerInfo(target);
      this.target := target;
      lowerCodes := info.lowerCodes;
      bitflags := info.bitflags;
      nextBeginningIndexes := None;
      score := 0.0;
      indexes := [0];
      indexesLen := 0;
    }
  }

  /** `a` after `a[i] = b[i]` for every position of `b`, in order. */
  function Overwrite(a: seq<int>, b: seq<int>): (r: seq<int>)
    ensures |r| == if |b| < |a| then |a| else |b|
    ensures r[..|b|] == b
    ensures forall i :: |b| <= i < |a| ==> r[i] == a[i]
  {
    if |b| < |a| then b + a[|b|..] else b
  }

  lemma OverwriteStep(a: seq<int>, b: seq<int>, i: nat)
    requires i < |b|
    ensures i <= |Overwrite(a, b[..i])|
    ensures Overwrite(a, b[..i + 1]) == Store(Overwrite(a, b[..i]), i, b[i])
  {
    var x := Overwrite(a, b[..i + 1]);
    var y := Store(Overwrite(a, b[..i]), i, b[i]);
    assert |x| == |y|;
    forall k | 0 <= k < |x| ensures x[k] == y[k] {
      if k < i {
        assert x[k] == x[..i + 1][k] == b[k];
        assert Overwrite(a, b[..i])[k] == Overwrite(a, b[..i])[..i][k] == b[k];
      } else if k == i {
        assert x[k] == x[..i + 1][k];
      }
    }
  }

  /** The copy loop `prepared._indexes[i] = matchesBest[i]`, then `_indexes.len`. */
  method WriteIndexes(p: Prepared, best: seq<int>)
    modifies p
    ensures p.indexes == Overwrite(old(p.indexes), best)
    ensures p.indexesLen == |best|
    ensures p.score == old(p.score) && p.nextBeginningIndexes == old(p.nextBeginningIndexes)
  {
    assert best[..0] == [];
    for i := 0 to |best|
      invariant p.indexes == Overwrite(old(p.indexes), best[..i])
      invariant p.score == old(p.score) && p.nextBeginningIndexes == old(p.nextBeginningIndexes)
    {
      OverwriteStep(old(p.indexes), best, i);
      p.indexes := Store(p.indexes, i, best[i]);
    }
    assert best[..|best|] == best;
    p.indexesLen := |best|;
  }

  /** The lazy jump table: computed from the original-case target on first use. */
  method EnsureNextBeginnings(p: Prepared) returns (nb: seq<int>)
    requires p.Valid()
    modifies p
    ensures p.Valid()
    ensures nb == NextBeginnings(p.target) && p.nextBeginningIndexes == Some(nb)
    ensures p.score == old(p.score) && p.indexes == old(p.indexes) && p.indexesLen == old(p.indexesLen)
  {
    if p.nextBeginningIndexes.None? {
      nb := PrepareNextBeginningIndexes(p.target);
      p.nextBeginningIndexes := Some(nb);
    } else {
      nb := p.nextBeginningIndexes.value;
    }
  }

  /** Each placement is a word beginning of `text` or directly follows the previous one. */
  ghost predicate StrictPlacement(m: seq<int>, text: seq<Code>)
  {
    forall k :: 0 <= k < |m| ==> 0 <= m[k] < |text| && (IsBeginning(text, m[k]) || (k > 0 && m[k] == m[k - 1] + 1))
  }

  /** Position `i` of `text` starts a word, and is not the first position. */
  predicate BeginsWordAt(text: seq<Code>, i: int)
  {
    0 < i < |text| && IsBeginning(text, i)
  }

  /**
   * The placement `algorithm` stores for `q`: the strict one when the strict
   * pass succeeded, else the run at the first substring occurrence when there
   * is one, else the leftmost one.
   */
  ghost predicate Chosen(q: seq<Code>, codes: seq<Code>, text: seq<Code>, placement: seq<int>, strict: bool)
  {
    var si := IndexOf(codes, q, 0);
    && Embeds(placement, q, codes)
    && (strict ==> StrictPlacement(placement, text))
    && (!strict && si >= 0 ==> placement == Run(si, |q|))
    && (!strict && si < 0 ==> Leftmost(placement, q, codes))
  }

  /** `score` is the score `algorithm` gives the chosen placement of `q`. */
  ghost predicate ScoredAs(q: seq<Code>, codes: seq<Code>, text: seq<Code>, placement: seq<int>, score: real, strict: bool)
  {
    var si := IndexOf(codes, q, 0);
    && |q| > 0 && |placement| == |q|
    && Chosen(q, codes, text, placement, strict)
    && score == Score(placement, |text|, strict, BeginningCount(text, 0), si >= 0, BeginsWordAt(text, si))
  }

  /** `algorithm(q, target)` can report `placement` with `score`, whichever way its strict pass went. */
  ghost predicate Scored(q: seq<Code>, codes: seq<Code>, text: seq<Code>, placement: seq<int>, score: real)
  {
    ScoredAs(q, codes, text, placement, score, true) || ScoredAs(q, codes, text, placement, score, false)
  }

  lemma StrictShapePlacement(m: seq<int>, q: seq<Code>, codes: seq<Code>, text: seq<Code>, first: int)
    requires |codes| == |text| && StrictShape(m, q, codes, text, first)
    ensures Embeds(m, q, codes) && StrictPlacement(m, text)
  {
    StrictShapeEmbeds(m, q, codes, text, first);
  }

  /** A substring occurrence at `s` gives the placement `s, s + 1, ...`. */
  lemma RunEmbeds(q: seq<Code>, h: seq<Code>, s: int)
    requires OccursAt(q, h, s)
    ensures Embeds(Run(s, |q|), q, h)
  {
    var r := Run(s, |q|);
    forall k | 0 <= k < |q| ensures 0 <= r[k] < |h| && h[r[k]] == q[k] {
      assert h[s + k] == h[s..s + |q|][k];
    }
  }

  /** When the target starts with the query's first code, the leftmost placement starts at 0. */
  lemma LeftmostAtZero(m: seq<int>, q: seq<Code>, t: seq<Code>)
    requires Leftmost(m, q, t) && |q| > 0 && |t| > 0 && t[0] == q[0]
    ensures m[0] == 0
  {
    assert Lo(m, 0) == 0;
  }

  /** The start of the strict pass: 0, or the first beginning after the first simple placement. */
  lemma FirstPossible(t: seq<Code>, m0: int)
    requires 0 <= m0 < |t|
    ensures var f := if m0 == 0 then 0 else NextBeginnings(t)[m0 - 1];
      m0 <= f <= |t| && (f < |t| ==> IsBeginning(t, f))
  {
    if m0 == 0 {
      FirstIsBeginning(t);
    } else {
      NextBeginningsBounds(t, m0 - 1);
    }
  }

  /** `nb[s - 1] === s`, with `nb[-1]` undefined, holds exactly at the word beginnings after 0. */
  lemma SubstringBeginning(t: seq<Code>, s: int)
    requires 0 <= s < |t|
    ensures (s > 0 && NextBeginnings(t)[s - 1] == s) <==> BeginsWordAt(t, s)
  {
    if s > 0 {
      NextBeginningsBounds(t, s - 1);
      if IsBeginning(t, s) {
        NextFromIs(t, s, s);
      }
    }
  }

  /** A placement lies inside the target; stated apart so that `ScoreAndStore` need not unfold `Embeds`. */
  lemma EmbedsInTarget(m: seq<int>, q: seq<Code>, t: seq<Code>)
    requires Embeds(m, q, t) && |q| > 0
    ensures 0 <= m[0] && m[|m| - 1] < |t|
  {
  }

  /** No occurrence of `q` lies before the first simple placement. */
  lemma NoOccurrenceBeforeScan(simple: seq<int>, q: seq<Code>, codes: seq<Code>)
    requires |q| > 0 && Leftmost(simple, q, codes)
    ensures forall k :: 0 <= k < simple[0] ==> !OccursAt(q, codes, k)
  {
    assert q[..|simple|] == q;
    forall k | 0 <= k < simple[0] && OccursAt(q, codes, k) ensures false {
      RunEmbeds(q, codes, k);
      LeftmostBelow(simple, Run(k, |q|), q, codes, 0);
    }
  }

  /** The substring rewrite `matchesSimple[i] = substringIndex + i`. */
  method RewriteToSubstring(simple: seq<int>, substringIndex: int) returns (best: seq<int>)
    ensures best == Run(substringIndex, |simple|)
  {
    best := simple;
    for i := 0 to |simple|
      invariant |best| == |simple|
      invariant forall k :: 0 <= k < i ==> best[k] == substringIndex + k
    {
      best := best[i := substringIndex + i];
    }
    assert forall k :: 0 <= k < |best| ==> best[k] == Run(substringIndex, |simple|)[k];
  }

  /**
   * Everything `algorithm` decides after the simple scan succeeded with
   * placement `simple`: the strict pass from the first possible beginning, the
   * substring check from `simple[0]`, and which placement is scored.
   */
  method Placement(q: seq<Code>, codes: seq<Code>, text: seq<Code>, nb: seq<int>, simple: seq<int>)
    returns (best: seq<int>, successStrict: bool, substringIndex: int, isSubstringBeginning: bool)
    requires |q| > 0 && |codes| == |text| && nb == NextBeginnings(text)
    requires Leftmost(simple, q, codes)
    ensures Embeds(best, q, codes)
    ensures successStrict ==> StrictPlacement(best, text)
    ensures !successStrict && substringIndex >= 0 ==> best == Run(substringIndex, |q|)
    ensures !successStrict && substringIndex < 0 ==> best == simple
    ensures substringIndex == IndexOf(codes, q, 0)
    ensures isSubstringBeginning <==> BeginsWordAt(text, substringIndex)
    ensures |q| <= |codes| && codes[..|q|] == q ==> successStrict && best == Run(0, |q|)
  {
    var m0 := simple[0];
    FirstPossible(text, m0);
    var firstPossibleI := if m0 == 0 then 0 else nb[m0 - 1];
    var matchesStrict;
    successStrict, matchesStrict := StrictSearch(q, codes, text, nb, firstPossibleI);
    if |q| <= |codes| && codes[..|q|] == q {
      assert codes[0] == codes[..|q|][0];
      LeftmostAtZero(simple, q, codes);
    }
    substringIndex := IndexOf(codes, q, m0);
    NoOccurrenceBeforeScan(simple, q, codes);
    IndexOfFrom(codes, q, m0);
    if successStrict {
      best := matchesStrict;
      StrictShapePlacement(best, q, codes, text, firstPossibleI);
    } else if substringIndex >= 0 {
      best := RewriteToSubstring(simple, substringIndex);
      RunEmbeds(q, codes, substringIndex);
    } else {
      best := simple;
    }
    if substringIndex >= 0 {
      SubstringBeginning(text, substringIndex);
      isSubstringBeginning := substringIndex > 0 && nb[substringIndex - 1] == substringIndex;
    } else {
      isSubstringBeginning := false;
    }
  }

  /** The scoring block and the copy into the target: the last step of a successful match. */
  method ScoreAndStore(p: Prepared, q: seq<Code>, best: seq<int>, nb: seq<int>,
                       successStrict: bool, isSubstring: bool, isSubstringBeginning: bool)
    requires p.Valid() && |q| > 0 && Embeds(best, q, p.lowerCodes)
    requires nb == NextBeginnings(p.target) && p.nextBeginningIndexes == Some(nb)
    modifies p
    ensures p.Valid() && p.nextBeginningIndexes == old(p.nextBeginningIndexes)
    ensures p.indexesLen == |best| <= |p.indexes| && p.indexes == Overwrite(old(p.indexes), best)
    ensures p.score == Score(best, |p.target|, successStrict, BeginningCount(p.target, 0), isSubstring, isSubstringBeginning)
    ensures p.score <= -((|p.target| - |q|) as real) && p.score <= 0.0
    ensures best == Run(0, |q|) && |p.target| == |q| ==> p.score == 0.0
  {
    EmbedsInTarget(best, q, p.lowerCodes);
    var score := ScoreMatches(best, p.target, successStrict, nb, isSubstring, isSubstringBeginning);
    ScoreBound(best, |p.target|, successStrict, BeginningCount(p.target, 0), isSubstring, isSubstringBeginning);
    if best == Run(0, |q|) && |p.target| == |q| {
      PerfectScore(|q|, successStrict, BeginningCount(p.target, 0), isSubstring, isSubstringBeginning);
    }
    p.score := score;
    WriteIndexes(p, best);
  }

  /**
   * `algorithm` with the space split not taken: the simple scan decides
   * whether `q` matches at all; on a match the target's score and indexes are
   * overwritten with the scored placement, otherwise the target is untouched.
   * `strict` and `substringIndex` name the decisions taken along the way.
   */
  method AlgorithmSingle(q: seq<Code>, p: Prepared) returns (matched: bool, ghost strict: bool, ghost substringIndex: int)
    requires p.Valid()
    modifies p
    ensures p.Valid()
    ensures matched <==> |q| > 0 && IsSubsequence(q, p.lowerCodes)
    ensures !matched ==> unchanged(p)
    ensures matched ==> p.nextBeginningIndexes == Some(NextBeginnings(p.target))
    ensures matched ==> p.indexesLen == |q| <= |p.indexes| && p.indexes == Overwrite(old(p.indexes), p.indexes[..|q|])
    ensures matched ==> Embeds(p.indexes[..|q|], q, p.lowerCodes)
    ensures matched && strict ==> StrictPlacement(p.indexes[..|q|], p.target)
    ensures matched && !strict && substringIndex >= 0 ==> p.indexes[..|q|] == Run(substringIndex, |q|)
    ensures matched && !strict && substringIndex < 0 ==> Leftmost(p.indexes[..|q|], q, p.lowerCodes)
    ensures matched ==> substringIndex == IndexOf(p.lowerCodes, q, 0)
    ensures matched ==> p.score == Score(p.indexes[..|q|], |p.target|, strict, BeginningCount(p.target, 0),
                                         substringIndex >= 0, BeginsWordAt(p.target, substringIndex))
    ensures matched ==> p.score <= -((|p.target| - |q|) as real) && p.score <= 0.0
    ensures matched && q == p.lowerCodes ==> p.score == 0.0
    ensures matched ==> ScoredAs(q, p.lowerCodes, p.target, p.indexes[..|q|], p.score, strict)
  {
    strict, substringIndex := false, -1;
    var simple := SimpleScan(q, p.lowerCodes);
    if simple.None? {
      return false, strict, substringIndex;
    }
    matched := true;
    var nb := EnsureNextBeginnings(p);
    var best, successStrict, index, isSubstringBeginning := Placement(q, p.lowerCodes, p.target, nb, simple.value);
    strict, substringIndex := successStrict, index;
    if q == p.lowerCodes {
      PrefixOfItself(q);
    }
    ScoreAndStore(p, q, best, nb, successStrict, index >= 0, isSubstringBeginning);
  }

  /** The whole of a sequence is a prefix of it; stated apart to keep `AlgorithmSingle` cheap. */
  lemma PrefixOfItself(s: seq<Code>)
    ensures s[..|s|] == s
  {
  }
}
