/** The entry points: `algorithm` dispatch, `single`, `indexes` and the scan-and-select loop of `go`. */
module Fuzzysort {
  import opened Wrappers
  import opened Codes
  import opened Tokens
  import opened Subsequence
  import opened LowerInfo
  import opened Search
  import opened Matching
  import opened Spaces
  import opened TopKHeap
  import opened Selection

  // ---------------------------------------------------------------- indexes

  predicate Ascending(s: seq<int>)
  {
    forall i, j :: 0 <= i < j < |s| ==> s[i] <= s[j]
  }

  /** Insert `x` into an ascending sequence. */
  function Insert(x: int, s: seq<int>): (r: seq<int>)
    requires Ascending(s)
    ensures Ascending(r) && multiset(r) == multiset(s) + multiset{x}
  {
    if s == [] || x <= s[0] then
      AscendingCons(x, s);
      [x] + s
    else
      var rest := Insert(x, s[1..]);
      assert s == [s[0]] + s[1..];
      forall y | y in rest ensures s[0] <= y {
        assert y in multiset(rest);
      }
      AscendingCons(s[0], rest);
      [s[0]] + rest
  }

  lemma AscendingCons(x: int, s: seq<int>)
    requires Ascending(s) && forall y :: y in s ==> x <= y
    ensures Ascending([x] + s)
  {
    var r := [x] + s;
    forall i, j | 0 <= i < j < |r| ensures r[i] <= r[j] {
      if i == 0 {
        assert r[j] in s;
      } else {
        assert r[i] == s[i - 1] && r[j] == s[j - 1];
      }
    }
  }

  /** `Array.prototype.sort((a, b) => a - b)`, as an insertion sort. */
  function SortAscending(s: seq<int>): (r: seq<int>)
    ensures Ascending(r)
  {
    if s == [] then [] else Insert(s[0], SortAscending(s[1..]))
  }

  lemma {:induction false} SortPermutes(s: seq<int>)
    ensures multiset(SortAscending(s)) == multiset(s)
  {
    if s != [] {
      SortPermutes(s[1..]);
      assert s == [s[0]] + s[1..];
    }
  }

  /** A sorted sequence with no repeated element is strictly increasing. */
  lemma SortedDistinct(s: seq<int>)
    requires NoDuplicates(s)
    ensures StrictlyIncreasing(SortAscending(s))
  {
    var r := SortAscending(s);
    SortPermutes(s);
    forall i, j | 0 <= i < j < |r| ensures r[i] < r[j] {
      if r[i] == r[j] {
        MultisetTwice(s, r, i, j);
      }
    }
  }

  /** Two positions holding the same value in a permutation of `s` give a duplicate in `s`. */
  lemma MultisetTwice(s: seq<int>, r: seq<int>, i: nat, j: nat)
    requires multiset(r) == multiset(s) && i < j < |r| && r[i] == r[j]
    ensures !NoDuplicates(s)
  {
    var x := r[i];
    assert r == r[..j] + [x] + r[j + 1..];
    assert x in r[..j];
    assert multiset(r)[x] >= 2;
    assert multiset(s)[x] >= 2;
    if NoDuplicates(s) {
      NoDuplicatesCount(s, x);
    }
  }

  lemma {:induction false} NoDuplicatesCount(s: seq<int>, x: int)
    requires NoDuplicates(s)
    ensures multiset(s)[x] <= 1
  {
    if s != [] {
      var last := s[|s| - 1];
      var init := s[..|s| - 1];
      assert s == init + [last];
      NoDuplicatesCount(init, x);
      if x == last {
        assert x !in init;
      }
    }
  }

  /** `indexes(result)`: the first `len` entries of `_indexes`, sorted ascending (`slice` clamps `len`). */
  function Indexes(indexes: seq<int>, len: nat): (r: seq<int>)
  {
    SortAscending(indexes[..if len <= |indexes| then len else |indexes|])
  }

  /** The sorted indexes are the stored ones, ascending; distinct stored indexes come out strictly increasing. */
  lemma IndexesSorted(indexes: seq<int>, len: nat)
    requires len <= |indexes|
    ensures Ascending(Indexes(indexes, len))
    ensures multiset(Indexes(indexes, len)) == multiset(indexes[..len])
    ensures NoDuplicates(indexes[..len]) ==> StrictlyIncreasing(Indexes(indexes, len))
  {
    SortPermutes(indexes[..len]);
    if NoDuplicates(indexes[..len]) {
      SortedDistinct(indexes[..len]);
    }
  }

  // ---------------------------------------------------------------- algorithm

  /** When `algorithm` reports a match: every term matches, or the whole query does. */
  ghost predicate Matches(ps: PreparedSearch, codes: seq<Code>)
  {
    if ps.containsSpace then TermsMatch(ps.spaceSearches, codes, |ps.spaceSearches|)
    else |ps.lowerCodes| > 0 && IsSubsequence(ps.lowerCodes, codes)
  }

  /** The stored indexes are distinct positions of the target. */
  ghost predicate GoodIndexes(s: seq<int>, n: int)
  {
    NoDuplicates(s) && forall x :: x in s ==> 0 <= x < n
  }

  lemma EmbedsGood(m: seq<int>, q: seq<Code>, t: seq<Code>)
    requires Embeds(m, q, t)
    ensures GoodIndexes(m, |t|)
  {
  }

  lemma UnionGood(ps: seq<seq<int>>, terms: seq<seq<Code>>, codes: seq<Code>)
    requires |ps| <= |terms| && forall k :: 0 <= k < |ps| ==> Embeds(ps[k], terms[k], codes)
    ensures GoodIndexes(UnionAll(ps), |codes|)
  {
    UnionAllProperties(ps);
    forall x | x in UnionAll(ps) ensures 0 <= x < |codes| {
      var k :| 0 <= k < |ps| && x in ps[k];
      EmbedsGood(ps[k], terms[k], codes);
    }
  }

  lemma SliceSubsequence(f: seq<Code>, s: seq<Code>)
    requires IsSliceOf(f, s)
    ensures IsSubsequence(f, s)
  {
    var i :| OccursAt(f, s, i);
    SliceIsSubsequence(s, i, |f|);
  }

  /** An exact query matches its own codes. */
  lemma ExactMatches(ps: PreparedSearch)
    requires SearchValid(ps) && |ps.lowerCodes| > 0
    ensures Matches(ps, ps.lowerCodes)
  {
    if ps.containsSpace {
      TermsOfExact(ps.spaceSearches, ps.lowerCodes);
    } else {
      SelfSubsequence(ps.lowerCodes);
    }
  }

  lemma SelfSubsequence(s: seq<Code>)
    ensures IsSubsequence(s, s)
  {
    SliceIsSubsequence(s, 0, |s|);
    assert s[0..|s|] == s;
  }

  lemma TermsOfExact(terms: seq<seq<Code>>, codes: seq<Code>)
    requires forall k :: 0 <= k < |terms| ==> 0 < |terms[k]| && IsSliceOf(terms[k], codes)
    ensures TermsMatch(terms, codes, |terms|)
  {
    forall k | 0 <= k < |terms| ensures IsSubsequence(terms[k], codes) {
      SliceSubsequence(terms[k], codes);
    }
  }

  /** `algorithm(preparedSearch, prepared)`: split queries go through `algorithmSpaces`. */
  method Algorithm(ps: PreparedSearch, p: Prepared) returns (matched: bool)
    requires SearchValid(ps) && p.Valid()
    modifies p
    ensures p.Valid()
    ensures matched <==> Matches(ps, p.lowerCodes)
    ensures matched ==> p.score <= 0.0 && GoodIndexes(p.indexes[..p.indexesLen], |p.target|)
    ensures matched && ps.lowerCodes == p.lowerCodes ==> p.score == 0.0
    ensures matched && !ps.containsSpace ==>
      p.indexesLen == |ps.lowerCodes| && Scored(ps.lowerCodes, p.lowerCodes, p.target, p.indexes[..p.indexesLen], p.score)
    ensures matched && ps.containsSpace ==>
      SpacedResult(ps.lowerCodes, ps.spaceSearches, p.lowerCodes, p.target, p.indexes[..p.indexesLen], p.score)
  {
    if ps.containsSpace {
      ghost var whole, wholeMatched, wholeScore, wholePlacement, scores, placements;
      matched, whole, wholeMatched, wholeScore, wholePlacement, scores, placements :=
        AlgorithmSpaces(ps.lowerCodes, ps.spaceSearches, p);
      if matched {
        if whole {
          EmbedsGood(p.indexes[..|ps.lowerCodes|], ps.lowerCodes, p.lowerCodes);
        } else {
          UnionGood(placements, ps.spaceSearches, p.lowerCodes);
        }
        SpacedResultOf(ps.lowerCodes, ps.spaceSearches, p.lowerCodes, p.target, p.indexes[..p.indexesLen], p.score,
                       whole, wholeMatched, wholeScore, wholePlacement, scores, placements);
      }
    } else {
      ghost var strict, substringIndex;
      matched, strict, substringIndex := AlgorithmSingle(ps.lowerCodes, p);
      if matched {
        EmbedsGood(p.indexes[..|ps.lowerCodes|], ps.lowerCodes, p.lowerCodes);
      }
    }
  }

  // ---------------------------------------------------------------- single

  /** A target as callers pass it: missing, a string to prepare, or an already prepared object. */
  datatype Target = Absent | Text(s: seq<Code>) | Ready(p: Prepared)

  /** JavaScript truthiness of a target: `undefined` and the empty string are falsy. */
  predicate Present(t: Target)
  {
    t.Ready? || (t.Text? && t.s != [])
  }

  /** The lowered codes the target is matched against. */
  function LoweredOf(t: Target): seq<Code>
  {
    match t
    case Absent => []
    case Text(s) => LowerAll(s)
    case Ready(p) => p.lowerCodes
  }

  /** The value `prepareSearch(search)` computes. */
  function SearchFor(search: seq<Code>): PreparedSearch
  {
    var s := Trim(search);
    PreparedSearch(LowerAll(s), Bitflags(LowerAll(s)), Space in s,
      if Space in s then LowerTerms(Terms(s)) else [])
  }

  method PreparedSearchFor(search: seq<Code>) returns (ps: PreparedSearch)
    ensures ps == SearchFor(search) && SearchValid(ps)
  {
    ps := PrepareSearch(search);
  }

  /** Without a space in the query, the bitflag filter only rejects targets that do not match. */
  lemma FilterSound(ps: PreparedSearch, codes: seq<Code>)
    requires !ps.containsSpace && ps.bitflags == Bitflags(ps.lowerCodes) && Matches(ps, codes)
    ensures SubMask(ps.bitflags, Bitflags(codes))
  {
    BitflagFilterSound(ps.lowerCodes, codes);
  }

  /** A non-whitespace code of the query lies in one of its terms. */
  lemma VisibleInTerm(s: seq<Code>, i: nat) returns (j: nat, m: nat)
    requires i < |s| && !IsWhitespace(s[i])
    ensures j < |Terms(s)| && m < |Terms(s)[j]| && Terms(s)[j][m] == s[i]
  {
    VisibleHas(s, i);
    SplitCovers(s);
    ConcatHas(Split(s), s[i]);
    var x :| x in Split(s) && s[i] in x;
    assert x in Terms(s);
    j :| j < |Terms(s)| && Terms(s)[j] == x;
    m :| m < |x| && x[m] == s[i];
  }

  /** When every whitespace code of `s` is a space, the terms of `s` carry all of its bits. */
  lemma TermsCarryBits(s: seq<Code>, codes: seq<Code>)
    requires forall i :: 0 <= i < |s| && IsWhitespace(s[i]) ==> s[i] == Space
    requires forall j :: 0 <= j < |Terms(s)| ==> IsSubsequence(LowerTerms(Terms(s))[j], codes)
    ensures SubMask(Bitflags(LowerAll(s)), Bitflags(codes))
  {
    var terms := LowerTerms(Terms(s));
    forall k | k in Bitflags(LowerAll(s)) ensures k in Bitflags(codes) {
      BitflagsBits(LowerAll(s), k);
      var i :| 0 <= i < |LowerAll(s)| && LowerAll(s)[i] != Space && BitIndex(LowerAll(s)[i]) == k;
      var j, m := VisibleInTerm(s, i);
      assert terms[j][m] == LowerAll(s)[i];
      BitflagFilterSound(terms[j], codes);
      BitflagsBits(terms[j], k);
    }
  }

  /**
   * With a space in the query the filter is still sound when the query holds
   * no other whitespace: every bit of the query then comes from a code of
   * one of its terms.
   */
  lemma SpacedFilterSound(search: seq<Code>, codes: seq<Code>)
    requires SearchFor(search).containsSpace && Matches(SearchFor(search), codes)
    requires forall i :: 0 <= i < |search| && IsWhitespace(search[i]) ==> search[i] == Space
    ensures SubMask(SearchFor(search).bitflags, Bitflags(codes))
  {
    TrimKeeps(search, Space);
    TermsCarryBits(Trim(search), codes);
  }

  /** A lowercase letter: its own lowered form, not whitespace, and below bit 26. */
  predicate Letter(c: Code)
  {
    97 <= c <= 122
  }

  /** A field ends at a single whitespace code followed by a letter. */
  lemma SplitAccGap(w: Code, x: Code, rest: seq<Code>, cur: seq<Code>)
    requires IsWhitespace(w) && Letter(x)
    ensures SplitAcc([w, x] + rest, cur) == [cur] + SplitAcc([x] + rest, [])
  {
    var s := [w, x] + rest;
    assert s[1..] == [x] + rest;
    assert LeadWs(s) == 1;
  }

  /** A letter joins the current field. */
  lemma SplitAccLetter(x: Code, rest: seq<Code>, cur: seq<Code>)
    requires Letter(x)
    ensures SplitAcc([x] + rest, cur) == SplitAcc(rest, cur + [x])
  {
    assert ([x] + rest)[1..] == rest;
  }

  /** `"b c".split(/\s+/)`, with `b` already read into the current field. */
  lemma SplitLastTwo(b: Code, c: Code)
    requires Letter(b) && Letter(c)
    ensures SplitAcc([Space, c], [b]) == [[b], [c]]
  {
    assert [c] == [c] + [] && [] + [c] == [c];
    SplitAccLetter(c, [], []);
    assert SplitAcc([c], []) == [[c]];
    assert [Space, c] == [Space, c] + [];
    SplitAccGap(Space, c, [], [b]);
  }

  lemma SplitFromB(b: Code, c: Code)
    requires Letter(b) && Letter(c)
    ensures SplitAcc([b, Space, c], []) == [[b], [c]]
  {
    SplitLastTwo(b, c);
    assert [b, Space, c] == [b] + [Space, c] && [] + [b] == [b];
    SplitAccLetter(b, [Space, c], []);
  }

  lemma SplitFromTab(a: Code, b: Code, c: Code)
    requires Letter(a) && Letter(b) && Letter(c)
    ensures SplitAcc([9, b, Space, c], [a]) == [[a], [b], [c]]
  {
    SplitFromB(b, c);
    assert [9, b, Space, c] == [9, b] + [Space, c] && [b] + [Space, c] == [b, Space, c];
    SplitAccGap(9, b, [Space, c], [a]);
  }

  /** `"a\tb c".split(/\s+/)`, for any letters `a`, `b`, `c`, gives the three one-letter fields. */
  lemma SplitExample(search: seq<Code>, a: Code, b: Code, c: Code)
    requires Letter(a) && Letter(b) && Letter(c) && search == [a, 9, b, Space, c]
    ensures Split(search) == [[a], [b], [c]]
  {
    SplitFromTab(a, b, c);
    assert search == [a] + [9, b, Space, c] && [] + [a] == [a];
    SplitAccLetter(a, [9, b, Space, c], []);
  }

  /** The query is already trimmed and holds a space. */
  lemma ExampleTrimmed(search: seq<Code>, a: Code, b: Code, c: Code)
    requires Letter(a) && Letter(b) && Letter(c) && search == [a, 9, b, Space, c]
    ensures Trim(search) == search && Space in search
  {
    assert LeadWs(search) == 0 && TrailWs(search) == 0;
    assert search[3] == Space;
  }

  /** A one-code query that occurs in the target is a subsequence of it. */
  lemma OneCodeSubsequence(x: seq<Code>, codes: seq<Code>, i: nat)
    requires |x| == 1 && i < |codes| && codes[i] == x[0]
    ensures IsSubsequence(x, codes)
  {
    assert Embeds([i], x, codes);
  }

  /** A term of `a<TAB>b c` is one of its letters. */
  lemma ExampleTerm(search: seq<Code>, a: Code, b: Code, c: Code, x: seq<Code>)
    requires Letter(a) && Letter(b) && Letter(c) && search == [a, 9, b, Space, c]
    requires x in Terms(search)
    ensures x == [a] || x == [b] || x == [c]
  {
    SplitExample(search, a, b, c);
    assert x in Split(search);
  }

  /** One of the letters, lowered, matches the three letters. */
  lemma LetterMatches(codes: seq<Code>, a: Code, b: Code, c: Code, x: seq<Code>)
    requires Letter(a) && Letter(b) && Letter(c) && codes == [a, b, c]
    requires x == [a] || x == [b] || x == [c]
    ensures |LowerAll(x)| > 0 && IsSubsequence(LowerAll(x), codes)
  {
    assert LowerAll(x) == x;
    OneCodeSubsequence(x, codes, if x == [a] then 0 else if x == [b] then 1 else 2);
  }

  /** Each term of `a<TAB>b c` matches `abc`. */
  lemma ExampleMatches(search: seq<Code>, codes: seq<Code>, a: Code, b: Code, c: Code)
    requires Letter(a) && Letter(b) && Letter(c) && search == [a, 9, b, Space, c] && codes == [a, b, c]
    ensures SearchFor(search).containsSpace && Matches(SearchFor(search), codes)
  {
    ExampleTrimmed(search, a, b, c);
    var terms := SearchFor(search).spaceSearches;
    assert terms == LowerTerms(Terms(search));
    forall j | 0 <= j < |terms| ensures |terms[j]| > 0 && IsSubsequence(terms[j], codes) {
      ExampleTerm(search, a, b, c, Terms(search)[j]);
      LetterMatches(codes, a, b, c, Terms(search)[j]);
    }
  }

  /** A code that is not a space sets its bit. */
  lemma CodeSetsBit(s: seq<Code>, i: nat)
    requires i < |s| && s[i] != Space
    ensures BitIndex(s[i]) in Bitflags(s)
  {
    BitflagsBits(s, BitIndex(s[i]));
  }

  /** The tab sets bit 30 of the query; three letters do not set it. */
  lemma ExampleBits(search: seq<Code>, codes: seq<Code>, a: Code, b: Code, c: Code)
    requires Letter(a) && Letter(b) && Letter(c) && search == [a, 9, b, Space, c] && codes == [a, b, c]
    ensures 30 in SearchFor(search).bitflags && 30 !in Bitflags(codes)
  {
    ExampleTrimmed(search, a, b, c);
    var lowered := LowerAll(search);
    assert lowered[1] == Lower(9) == 9;
    CodeSetsBit(lowered, 1);
    forall i | 0 <= i < |codes| ensures BitIndex(codes[i]) < 26 {
    }
    BitflagsBits(codes, 30);
  }

  /**
   * Whitespace other than a space defeats the filter: the query `a<TAB>b c`
   * matches the target `abc` term by term, for any letters, but the filter
   * rejects the target.
   */
  lemma TabDefeatsFilter(search: seq<Code>, codes: seq<Code>, a: Code, b: Code, c: Code)
    requires Letter(a) && Letter(b) && Letter(c) && search == [a, 9, b, Space, c] && codes == [a, b, c]
    ensures SearchFor(search).containsSpace && Matches(SearchFor(search), codes)
    ensures !SubMask(SearchFor(search).bitflags, Bitflags(codes))
  {
    ExampleMatches(search, codes, a, b, c);
    ExampleBits(search, codes, a, b, c);
  }

  /** The bitflag filter of `single` and `go`, then `algorithm`. */
  method FilterAndMatch(ps: PreparedSearch, p: Prepared) returns (matched: bool)
    requires SearchValid(ps) && ps.bitflags == Bitflags(ps.lowerCodes) && p.Valid()
    modifies p
    ensures p.Valid()
    ensures matched <==> SubMask(ps.bitflags, p.bitflags) && Matches(ps, p.lowerCodes)
    ensures !ps.containsSpace ==> (matched <==> Matches(ps, p.lowerCodes))
    ensures matched ==> p.score <= 0.0 && GoodIndexes(p.indexes[..p.indexesLen], |p.target|)
    ensures |ps.lowerCodes| > 0 && ps.lowerCodes == p.lowerCodes ==> matched && p.score == 0.0
    ensures matched && !ps.containsSpace ==>
      p.indexesLen == |ps.lowerCodes| && Scored(ps.lowerCodes, p.lowerCodes, p.target, p.indexes[..p.indexesLen], p.score)
    ensures matched && ps.containsSpace ==>
      SpacedResult(ps.lowerCodes, ps.spaceSearches, p.lowerCodes, p.target, p.indexes[..p.indexesLen], p.score)
  {
    if |ps.lowerCodes| > 0 && ps.lowerCodes == p.lowerCodes {
      ExactMatches(ps);
    }
    var pass := SubMask(ps.bitflags, p.bitflags);
    if !pass {
      if !ps.containsSpace && Matches(ps, p.lowerCodes) {
        FilterSound(ps, p.lowerCodes);
        assert false;
      }
      return false;
    }
    matched := Algorithm(ps, p);
  }

  /** `single(search, target)`: prepare both sides, apply the bitflag filter, then run `algorithm`. */
  method Single(search: seq<Code>, target: Target) returns (result: Option<Prepared>)
    requires target.Ready? ==> target.p.Valid()
    modifies if target.Ready? then {target.p} else {}
    ensures search == [] || !Present(target) ==> result == None
    ensures search != [] && Present(target) ==>
      (result.Some? <==>
        SubMask(SearchFor(search).bitflags, Bitflags(LoweredOf(target))) && Matches(SearchFor(search), LoweredOf(target)))
    ensures search != [] && Present(target) && !SearchFor(search).containsSpace ==>
      (result.Some? <==> Matches(SearchFor(search), LoweredOf(target)))
    ensures result.Some? ==>
      && result.value.Valid()
      && result.value.lowerCodes == LoweredOf(target)
      && result.value.score <= 0.0
      && GoodIndexes(result.value.indexes[..result.value.indexesLen], |result.value.target|)
    ensures result.Some? && !SearchFor(search).containsSpace ==>
      && result.value.indexesLen == |SearchFor(search).lowerCodes|
      && Scored(SearchFor(search).lowerCodes, LoweredOf(target), result.value.target,
                result.value.indexes[..result.value.indexesLen], result.value.score)
    ensures result.Some? && SearchFor(search).containsSpace ==>
      SpacedResult(SearchFor(search).lowerCodes, SearchFor(search).spaceSearches, LoweredOf(target), result.value.target,
                   result.value.indexes[..result.value.indexesLen], result.value.score)
    ensures result.Some? && target.Ready? ==> result.value == target.p
    ensures result.Some? && target.Text? ==> fresh(result.value) && result.value.target == target.s
    ensures search != [] && Present(target) && Trim(search) != [] && LowerAll(Trim(search)) == LoweredOf(target) ==>
      result.Some? && result.value.score == 0.0
  {
    if search == [] || !Present(target) {
      return None;
    }
    var ps := PreparedSearchFor(search);
    var p: Prepared;
    if target.Text? {
      p := new Prepared(target.s);
    } else {
      p := target.p;
    }
    assert p.lowerCodes == LoweredOf(target);
    var matched := FilterAndMatch(ps, p);
    result := if matched then Some(p) else None;
  }

  // ---------------------------------------------------------------- go

  /** The original string of a target. */
  function TextOf(t: Target): seq<Code>
  {
    match t
    case Absent => []
    case Text(s) => s
    case Ready(p) => p.target
  }

  /** What `go` may record for target `i`: a snapshot of a matched prepared target. */
  ghost predicate Outcome(ps: PreparedSearch, t: Target, i: int, outcome: Option<Match>)
  {
    && (outcome.Some? <==> Present(t) && SubMask(ps.bitflags, Bitflags(LoweredOf(t))) && Matches(ps, LoweredOf(t)))
    && (outcome.Some? ==>
          && outcome.value.refIndex == i
          && outcome.value.target == TextOf(t)
          && outcome.value.score <= 0.0
          && outcome.value.indexesLen <= |outcome.value.indexes|
          && GoodIndexes(outcome.value.indexes[..outcome.value.indexesLen], |TextOf(t)|))
    && (outcome.Some? && !ps.containsSpace ==>
          && outcome.value.indexesLen == |ps.lowerCodes|
          && Scored(ps.lowerCodes, LoweredOf(t), TextOf(t), outcome.value.indexes[..outcome.value.indexesLen], outcome.value.score))
    && (outcome.Some? && ps.containsSpace ==>
          SpacedResult(ps.lowerCodes, ps.spaceSearches, LoweredOf(t), TextOf(t),
                       outcome.value.indexes[..outcome.value.indexesLen], outcome.value.score))
    && (|ps.lowerCodes| > 0 && Present(t) && ps.lowerCodes == LoweredOf(t) ==>
          outcome.Some? && outcome.value.score == 0.0)
  }

  /** `outcomes` are the recorded outcomes of the first targets. */
  ghost predicate Outcomes(ps: PreparedSearch, targets: seq<Target>, outcomes: seq<Option<Match>>)
  {
    |outcomes| <= |targets| && forall j :: 0 <= j < |outcomes| ==> Outcome(ps, targets[j], j, outcomes[j])
  }

  lemma OutcomesStep(ps: PreparedSearch, targets: seq<Target>, outcomes: seq<Option<Match>>, outcome: Option<Match>)
    requires Outcomes(ps, targets, outcomes) && |outcomes| < |targets|
    requires Outcome(ps, targets[|outcomes|], |outcomes|, outcome)
    ensures Outcomes(ps, targets, outcomes + [outcome])
  {
    var o' := outcomes + [outcome];
    forall j | 0 <= j < |o'| ensures Outcome(ps, targets[j], j, o'[j]) {
      if j < |outcomes| {
        assert o'[j] == outcomes[j];
      }
    }
  }

  /** One step of `go`'s scan: skip a falsy target, prepare a string, filter, run `algorithm`, set `refIndex`. */
  method Evaluate(ps: PreparedSearch, t: Target, i: int) returns (outcome: Option<Match>)
    requires SearchValid(ps) && ps.bitflags == Bitflags(ps.lowerCodes)
    requires t.Ready? ==> t.p.Valid()
    modifies if t.Ready? then {t.p} else {}
    ensures t.Ready? ==> t.p.Valid()
    ensures Outcome(ps, t, i, outcome)
  {
    if !Present(t) {
      return None;
    }
    var p: Prepared;
    if t.Text? {
      p := new Prepared(t.s);
    } else {
      p := t.p;
    }
    assert p.lowerCodes == LoweredOf(t) && p.target == TextOf(t);
    var matched := FilterAndMatch(ps, p);
    if matched {
      outcome := Some(Match(p.target, p.score, p.indexes, p.indexesLen, i));
    } else {
      outcome := None;
    }
  }

  /** `threshold || INT_MIN`: a zero threshold is no threshold. */
  function EffectiveThreshold(threshold: Option<real>): Option<real>
  {
    if threshold.Some? && threshold.value != 0.0 then threshold else None
  }

  /** `result.score < threshold` skips the result. */
  predicate Passes(threshold: Option<real>, score: real)
  {
    threshold.None? || !(score < threshold.value)
  }

  /** The matches that pass the threshold, in target order. */
  function Accepted(outcomes: seq<Option<Match>>, threshold: Option<real>): (r: seq<Match>)
    ensures |r| <= |outcomes|
  {
    if outcomes == [] then []
    else
      var last := outcomes[|outcomes| - 1];
      Accepted(outcomes[..|outcomes| - 1], threshold)
        + if last.Some? && Passes(threshold, last.value.score) then [last.value] else []
  }

  /** A result is accepted exactly when some target produced it and it passes the threshold. */
  lemma {:induction false} AcceptedMembers(outcomes: seq<Option<Match>>, threshold: Option<real>, x: Match)
    ensures x in Accepted(outcomes, threshold) <==>
      Passes(threshold, x.score) && exists j :: 0 <= j < |outcomes| && outcomes[j] == Some(x)
  {
    if outcomes != [] {
      var init := outcomes[..|outcomes| - 1];
      AcceptedMembers(init, threshold, x);
      if exists j :: 0 <= j < |init| && init[j] == Some(x) {
        var j :| 0 <= j < |init| && init[j] == Some(x);
        assert outcomes[j] == Some(x);
      }
      if exists j :: 0 <= j < |outcomes| && outcomes[j] == Some(x) {
        var j :| 0 <= j < |outcomes| && outcomes[j] == Some(x);
        if j < |init| {
          assert init[j] == Some(x);
        }
      }
    }
  }

  /** The set of prepared objects among the targets; `go` may update them. */
  function PreparedOf(targets: seq<Target>): set<Prepared>
  {
    set j | 0 <= j < |targets| && targets[j].Ready? :: targets[j].p
  }

  /** Every prepared object among the targets is well formed. */
  ghost predicate AllValid(targets: seq<Target>)
    reads PreparedOf(targets)
  {
    forall j :: 0 <= j < |targets| && targets[j].Ready? ==> targets[j].p.Valid()
  }

  /** `Evaluate` on target `i`, keeping every prepared target well formed. */
  method EvaluateAt(ps: PreparedSearch, targets: seq<Target>, i: nat) returns (outcome: Option<Match>)
    requires SearchValid(ps) && ps.bitflags == Bitflags(ps.lowerCodes)
    requires i < |targets| && AllValid(targets)
    modifies if targets[i].Ready? then {targets[i].p} else {}
    ensures AllValid(targets)
    ensures Outcome(ps, targets[i], i, outcome)
  {
    outcome := Evaluate(ps, targets[i], i);
  }

  /** The threshold test and the offer to the heap, for one outcome. */
  method Consider(q: TopK, outcome: Option<Match>, th: Option<real>, lim: Option<nat>,
                  resultsLen: nat, limitedCount: nat, ghost outcomes: seq<Option<Match>>, ghost dropped: multiset<Match>)
    returns (resultsLen': nat, limitedCount': nat, ghost dropped': multiset<Match>)
    requires lim != Some(0) && Selecting(q, Accepted(outcomes, th), dropped, lim, resultsLen, limitedCount)
    modifies q
    ensures Selecting(q, Accepted(outcomes + [outcome], th), dropped', lim, resultsLen', limitedCount')
  {
    assert (outcomes + [outcome])[..|outcomes|] == outcomes;
    if outcome.Some? && Passes(th, outcome.value.score) {
      resultsLen', limitedCount', dropped' := Offer(q, outcome.value, lim, resultsLen, limitedCount, Accepted(outcomes, th), dropped);
    } else {
      resultsLen', limitedCount', dropped' := resultsLen, limitedCount, dropped;
    }
  }

  /** One iteration of `go`'s loop: evaluate target `i` and consider its outcome. */
  method ScanStep(ps: PreparedSearch, targets: seq<Target>, i: nat, th: Option<real>, lim: Option<nat>, q: TopK,
                  resultsLen: nat, limitedCount: nat, ghost outcomes: seq<Option<Match>>, ghost dropped: multiset<Match>)
    returns (resultsLen': nat, limitedCount': nat, ghost outcomes': seq<Option<Match>>, ghost dropped': multiset<Match>)
    requires SearchValid(ps) && ps.bitflags == Bitflags(ps.lowerCodes) && lim != Some(0)
    requires i == |outcomes| < |targets| && Outcomes(ps, targets, outcomes) && AllValid(targets)
    requires Selecting(q, Accepted(outcomes, th), dropped, lim, resultsLen, limitedCount)
    modifies q, if targets[i].Ready? then {targets[i].p} else {}
    ensures |outcomes'| == i + 1 && Outcomes(ps, targets, outcomes') && AllValid(targets)
    ensures Selecting(q, Accepted(outcomes', th), dropped', lim, resultsLen', limitedCount')
  {
    var outcome := EvaluateAt(ps, targets, i);
    OutcomesStep(ps, targets, outcomes, outcome);
    resultsLen', limitedCount', dropped' := Consider(q, outcome, th, lim, resultsLen, limitedCount, outcomes, dropped);
    outcomes' := outcomes + [outcome];
  }

  /** `go`'s loop over the targets, offering every accepted match to the heap. */
  method Scan(ps: PreparedSearch, targets: seq<Target>, th: Option<real>, lim: Option<nat>, q: TopK)
    returns (resultsLen: nat, limitedCount: nat, ghost outcomes: seq<Option<Match>>, ghost dropped: multiset<Match>)
    requires SearchValid(ps) && ps.bitflags == Bitflags(ps.lowerCodes) && lim != Some(0)
    requires q.Valid() && q.o == 0
    requires AllValid(targets)
    modifies q, PreparedOf(targets)
    ensures AllValid(targets)
    ensures |outcomes| == |targets| && Outcomes(ps, targets, outcomes)
    ensures Selecting(q, Accepted(outcomes, th), dropped, lim, resultsLen, limitedCount)
  {
    outcomes := [];
    resultsLen, limitedCount := 0, 0;
    dropped := multiset{};
    for i := 0 to |targets|
      invariant |outcomes| == i && Outcomes(ps, targets, outcomes) && AllValid(targets)
      invariant Selecting(q, Accepted(outcomes, th), dropped, lim, resultsLen, limitedCount)
    {
      resultsLen, limitedCount, outcomes, dropped := ScanStep(ps, targets, i, th, lim, q, resultsLen, limitedCount, outcomes, dropped);
    }
  }

  /**
   * `go(search, targets, {threshold, limit})` without keys: scan the targets,
   * keep the best `limit` matches scoring at least `threshold`, and return
   * them best first with `total` counting every accepted match.
   */
  method Go(search: seq<Code>, targets: seq<Target>, threshold: Option<real>, limit: Option<nat>, q: TopK)
    returns (results: seq<Match>, total: nat, ghost outcomes: seq<Option<Match>>)
    requires q.Valid() && q.o == 0 && AllValid(targets)
    modifies q, PreparedOf(targets)
    ensures q.Valid() && q.o == 0 && AllValid(targets)
    ensures search == [] ==> results == [] && total == 0
    ensures search != [] ==> |outcomes| == |targets| && Outcomes(SearchFor(search), targets, outcomes)
    ensures search != [] ==> total == |Accepted(outcomes, EffectiveThreshold(threshold))|
    ensures search != [] ==> TopOf(results, Accepted(outcomes, EffectiveThreshold(threshold)), EffectiveLimit(limit))
  {
    outcomes := [];
    if search == [] {
      return [], 0, outcomes;
    }
    var ps := PreparedSearchFor(search);
    var th := EffectiveThreshold(threshold);
    var lim := EffectiveLimit(limit);
    var resultsLen, limitedCount;
    ghost var dropped;
    resultsLen, limitedCount, outcomes, dropped := Scan(ps, targets, th, lim, q);
    if resultsLen == 0 {
      SelectedIsTop([], Accepted(outcomes, th), dropped, lim);
      return [], 0, outcomes;
    }
    results := Drain(q, resultsLen);
    total := resultsLen + limitedCount;
    SelectedIsTop(results, Accepted(outcomes, th), dropped, lim);
  }
}
