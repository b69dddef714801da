/** The score formula of `algorithm`. */
module Scoring {
  import opened Codes
  import opened Beginnings

  /** Number of `i` in `[1, n)` where `m[i]` does not follow `m[i - 1]` directly. */
  function Breaks(m: seq<int>, n: nat): nat
    requires n <= |m|
  {
    if n <= 1 then 0 else Breaks(m, n - 1) + (if m[n - 1] - m[n - 2] != 1 then 1 else 0)
  }

  /** Sum of the positions at which a new group starts. */
  function BreakSum(m: seq<int>, n: nat): int
    requires n <= |m|
  {
    if n <= 1 then 0 else BreakSum(m, n - 1) + (if m[n - 1] - m[n - 2] != 1 then m[n - 1] else 0)
  }

  /** Number of beginnings of `text` at or after `from`. */
  function BeginningCount(text: seq<Code>, from: nat): nat
    requires from <= |text|
    decreases |text| - from
  {
    if from == |text| then 0 else (if IsBeginning(text, from) then 1 else 0) + BeginningCount(text, from + 1)
  }

  /** Penalty for fragmentation: each new group costs its position plus `12 + unmatchedDistance`. */
  function Fragmentation(m: seq<int>): int
    requires |m| > 0
  {
    var n := |m|;
    var unmatchedDistance := m[n - 1] - m[0] - (n - 1);
    BreakSum(m, n) + (12 + unmatchedDistance) * Breaks(m, n)
  }

  /** The score after the group and start-position penalties. */
  function Base(m: seq<int>): real
    requires |m| > 0
  {
    var s1 := -(Fragmentation(m) as real);
    if m[0] != 0 then s1 - (m[0] * m[0]) as real * 0.2 else s1
  }

  /** Simple placements are multiplied by 1000; strict ones by `(beginnings - 24) * 10` above 24 beginnings. */
  function Factor(strict: bool, beginnings: nat): real
  {
    if !strict then 1000.0
    else if beginnings > 24 then ((beginnings - 24) * 10) as real
    else 1.0
  }

  /** The substring bonuses: divide by `1 + n * n`, once more when the substring starts a word. */
  function Bonus(x: real, n: nat, isSubstring: bool, isSubstringBeginning: bool): real
  {
    var d := (1 + n * n) as real;
    var y := if isSubstring then x / d else x;
    if isSubstringBeginning then y / d else y
  }

  /** The base score times the placement's multiplier. */
  function Scaled(m: seq<int>, strict: bool, beginnings: nat): real
    requires |m| > 0
  {
    Base(m) * Factor(strict, beginnings)
  }

  /**
   * The score of placement `m` (one position per query code) in a target of
   * length `targetLen`; `beginnings` is the number of beginnings of the target.
   */
  function Score(m: seq<int>, targetLen: int, strict: bool, beginnings: nat, isSubstring: bool, isSubstringBeginning: bool): real
    requires |m| > 0
  {
    Bonus(Scaled(m, strict, beginnings), |m|, isSubstring, isSubstringBeginning) - (targetLen - |m|) as real
  }

  lemma {:induction false} BreaksBounds(m: seq<int>, n: nat)
    requires n <= |m| && StrictlyIncreasing(m) && (|m| > 0 ==> m[0] >= 0)
    ensures BreakSum(m, n) >= 0
    ensures n > 0 ==> Breaks(m, n) <= n - 1
  {
    if n > 1 {
      BreaksBounds(m, n - 1);
      assert m[0] <= m[n - 1];
    }
  }

  lemma {:induction false} RunSpan(m: seq<int>, i: nat, j: nat)
    requires i <= j < |m| && StrictlyIncreasing(m)
    ensures m[j] - m[i] >= j - i
    decreases j - i
  {
    if i < j {
      RunSpan(m, i + 1, j);
    }
  }

  /** A product of non-negative integers, proved apart so the non-linear step stays out of larger proofs. */
  lemma MulNonNegative(a: int, b: int)
    requires a >= 0 && b >= 0
    ensures a * b >= 0
  {
  }

  /** For increasing positions from 0 on, the penalties before scaling are non-negative. */
  lemma BaseNonPositive(m: seq<int>)
    requires |m| > 0 && StrictlyIncreasing(m) && 0 <= m[0]
    ensures Base(m) <= 0.0
  {
    var n := |m|;
    BreaksBounds(m, n);
    RunSpan(m, 0, n - 1);
    MulNonNegative(12 + m[n - 1] - m[0] - (n - 1), Breaks(m, n));
    MulNonNegative(m[0], m[0]);
  }

  lemma FactorPositive(strict: bool, beginnings: nat)
    ensures Factor(strict, beginnings) >= 1.0
  {
  }

  lemma NonPositiveScaled(x: real, f: real)
    requires x <= 0.0 && f > 0.0
    ensures x * f <= 0.0
  {
  }

  lemma ScaleOrder(x: real, f: real, g: real)
    requires x <= 0.0 && f >= g
    ensures x * f <= x * g
  {
  }

  lemma NonPositiveDivided(x: real, d: real)
    requires x <= 0.0 && d >= 1.0
    ensures x / d <= 0.0 && x <= x / d
  {
  }

  /** Dividing a non-positive value by at least 1 keeps it non-positive and never lowers it. */
  lemma BonusBounds(x: real, n: nat, isSubstring: bool, isSubstringBeginning: bool)
    requires x <= 0.0
    ensures x <= Bonus(x, n, isSubstring, isSubstringBeginning) <= 0.0
  {
    var d := (1 + n * n) as real;
    MulNonNegative(n, n);
    NonPositiveDivided(x, d);
    NonPositiveDivided(x / d, d);
  }

  lemma BonusMonotone(x: real, y: real, n: nat, isSubstring: bool, isSubstringBeginning: bool)
    requires x <= y
    ensures Bonus(x, n, isSubstring, isSubstringBeginning) <= Bonus(y, n, isSubstring, isSubstringBeginning)
  {
    var d := (1 + n * n) as real;
    MulNonNegative(n, n);
    assert x / d <= y / d;
    assert (x / d) / d <= (y / d) / d;
  }

  lemma ScaledNonPositive(m: seq<int>, strict: bool, beginnings: nat)
    requires |m| > 0 && StrictlyIncreasing(m) && 0 <= m[0]
    ensures Scaled(m, strict, beginnings) <= 0.0
  {
    BaseNonPositive(m);
    FactorPositive(strict, beginnings);
    NonPositiveScaled(Base(m), Factor(strict, beginnings));
  }

  /**
   * Every penalty is non-negative and every factor positive, so the score is at
   * most `-(targetLen - searchLen)`, and at most 0 for any placement inside the target.
   */
  lemma ScoreBound(m: seq<int>, targetLen: int, strict: bool, beginnings: nat, isSubstring: bool, isSubstringBeginning: bool)
    requires |m| > 0 && StrictlyIncreasing(m) && 0 <= m[0] && m[|m| - 1] < targetLen
    ensures Score(m, targetLen, strict, beginnings, isSubstring, isSubstringBeginning) <= -((targetLen - |m|) as real)
    ensures Score(m, targetLen, strict, beginnings, isSubstring, isSubstringBeginning) <= 0.0
  {
    ScaledNonPositive(m, strict, beginnings);
    BonusBounds(Scaled(m, strict, beginnings), |m|, isSubstring, isSubstringBeginning);
    RunSpan(m, 0, |m| - 1);
  }

  lemma {:induction false} RunHasNoBreaks(m: seq<int>, n: nat, from: int)
    requires n <= |m| && forall k :: 0 <= k < |m| ==> m[k] == from + k
    ensures Breaks(m, n) == 0 && BreakSum(m, n) == 0
  {
    if n > 1 {
      RunHasNoBreaks(m, n - 1, from);
    }
  }

  /** A contiguous run at the start of a target of the same length scores exactly 0. */
  lemma PerfectScore(n: nat, strict: bool, beginnings: nat, isSubstring: bool, isSubstringBeginning: bool)
    requires n > 0
    ensures Score(Run(0, n), n, strict, beginnings, isSubstring, isSubstringBeginning) == 0.0
  {
    RunHasNoBreaks(Run(0, n), n, 0);
    assert Base(Run(0, n)) == 0.0;
  }

  /** Being a substring never lowers the score. */
  lemma SubstringBonus(m: seq<int>, targetLen: int, strict: bool, beginnings: nat, isSubstringBeginning: bool)
    requires |m| > 0 && StrictlyIncreasing(m) && 0 <= m[0]
    ensures Score(m, targetLen, strict, beginnings, false, false)
      <= Score(m, targetLen, strict, beginnings, true, isSubstringBeginning)
  {
    ScaledNonPositive(m, strict, beginnings);
    BonusBounds(Scaled(m, strict, beginnings), |m|, true, isSubstringBeginning);
  }

  lemma StrictFactorAtMost(beginnings: nat)
    requires beginnings <= 124
    ensures Factor(true, beginnings) <= Factor(false, beginnings)
  {
  }

  /**
   * Over at most 124 beginnings a strict placement scores at least as well as
   * the same placement found by the simple scan (which is multiplied by 1000).
   */
  lemma StrictBeatsSimple(m: seq<int>, targetLen: int, beginnings: nat, isSubstring: bool, isSubstringBeginning: bool)
    requires |m| > 0 && StrictlyIncreasing(m) && 0 <= m[0]
    requires beginnings <= 124
    ensures Score(m, targetLen, false, beginnings, isSubstring, isSubstringBeginning)
      <= Score(m, targetLen, true, beginnings, isSubstring, isSubstringBeginning)
  {
    BaseNonPositive(m);
    StrictFactorAtMost(beginnings);
    ScaleOrder(Base(m), Factor(false, beginnings), Factor(true, beginnings));
    assert Scaled(m, false, beginnings) <= Scaled(m, true, beginnings);
    BonusMonotone(Scaled(m, false, beginnings), Scaled(m, true, beginnings), |m|, isSubstring, isSubstringBeginning);
  }

  lemma {:induction false} BeginningCountSkip(text: seq<Code>, j: nat)
    requires j <= |text|
    ensures BeginningCount(text, j) == BeginningCount(text, NextFrom(text, j))
    decreases |text| - j
  {
    if j < |text| && !IsBeginning(text, j) {
      BeginningCountSkip(text, j + 1);
    }
  }

  /** The `uniqueBeginningIndexes` loop: follow the jump table from 0 to the end, counting. */
  method CountBeginnings(text: seq<Code>, nb: seq<int>) returns (count: nat)
    requires |text| > 0 && nb == NextBeginnings(text)
    ensures count == BeginningCount(text, 0)
  {
    var targetLen := |text|;
    count := 1;
    var i := nb[0];
    BeginningCountSkip(text, 1);
    while i < targetLen
      invariant 0 < i <= targetLen
      invariant i < targetLen ==> i == NextFrom(text, i)
      invariant count + BeginningCount(text, i) == BeginningCount(text, 0)
      decreases targetLen - i
    {
      count := count + 1;
      BeginningCountSkip(text, i + 1);
      i := nb[i];
    }
  }

  /** The group loop of the scoring block. */
  method CountGroups(matchesBest: seq<int>) returns (score: real, extraMatchGroupCount: nat)
    requires |matchesBest| > 0
    ensures score == -(BreakSum(matchesBest, |matchesBest|) as real)
    ensures extraMatchGroupCount == Breaks(matchesBest, |matchesBest|)
  {
    score := 0.0;
    extraMatchGroupCount := 0;
    for i := 1 to |matchesBest|
      invariant score == -(BreakSum(matchesBest, i) as real)
      invariant extraMatchGroupCount == Breaks(matchesBest, i)
    {
      if matchesBest[i] - matchesBest[i - 1] != 1 {
        score := score - matchesBest[i] as real;
        extraMatchGroupCount := extraMatchGroupCount + 1;
      }
    }
  }

  /** The group penalty and the start-position penalty: the base score. */
  method PenaliseGroups(matchesBest: seq<int>) returns (score: real)
    requires |matchesBest| > 0
    ensures score == Base(matchesBest)
  {
    var searchLen := |matchesBest|;
    var extraMatchGroupCount;
    score, extraMatchGroupCount := CountGroups(matchesBest);
    var unmatchedDistance := matchesBest[searchLen - 1] - matchesBest[0] - (searchLen - 1);
    score := score - ((12 + unmatchedDistance) * extraMatchGroupCount) as real;
    assert score == -(Fragmentation(matchesBest) as real);
    if matchesBest[0] != 0 {
      score := score - (matchesBest[0] * matchesBest[0]) as real * 0.2;
    }
  }

  /** The strict and simple multipliers. */
  method ApplyFactor(base: real, text: seq<Code>, successStrict: bool, nb: seq<int>) returns (score: real)
    requires |text| > 0 && nb == NextBeginnings(text)
    ensures score == base * Factor(successStrict, BeginningCount(text, 0))
  {
    score := base;
    if !successStrict {
      score := score * 1000.0;
    } else {
      var uniqueBeginningIndexes := CountBeginnings(text, nb);
      if uniqueBeginningIndexes > 24 {
        score := score * ((uniqueBeginningIndexes - 24) * 10) as real;
      }
    }
  }

  /** The substring and substring-beginning divisions. */
  method ApplyBonus(scaled: real, searchLen: nat, isSubstring: bool, isSubstringBeginning: bool) returns (score: real)
    ensures score == Bonus(scaled, searchLen, isSubstring, isSubstringBeginning)
  {
    score := scaled;
    if isSubstring {
      score := score / (1 + searchLen * searchLen) as real;
    }
    if isSubstringBeginning {
      score := score / (1 + searchLen * searchLen) as real;
    }
  }

  /** The scoring block: count the groups, then apply the penalties, the factor and the bonuses. */
  method ScoreMatches(matchesBest: seq<int>, text: seq<Code>, successStrict: bool, nb: seq<int>,
                      isSubstring: bool, isSubstringBeginning: bool)
    returns (score: real)
    requires |matchesBest| > 0 && |text| > 0 && nb == NextBeginnings(text)
    ensures score == Score(matchesBest, |text|, successStrict, BeginningCount(text, 0), isSubstring, isSubstringBeginning)
  {
    var searchLen := |matchesBest|;
    var targetLen := |text|;
    var base := PenaliseGroups(matchesBest);
    var scaled := ApplyFactor(base, text, successStrict, nb);
    assert scaled == Scaled(matchesBest, successStrict, BeginningCount(text, 0));
    var bonused := ApplyBonus(scaled, searchLen, isSubstring, isSubstringBeginning);
    score := bonused - (targetLen - searchLen) as real;
  }
}
