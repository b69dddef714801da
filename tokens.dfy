/** The string handling of `prepareSearch`: `trim`, `split(/\s+/)` and `new Set(...)`. */
module Tokens {
  import opened Codes

  /** `tok` occurs in `s` at position `i`. */
  predicate OccursAt(tok: seq<Code>, s: seq<Code>, i: int)
  {
    0 <= i && i + |tok| <= |s| && s[i..i + |tok|] == tok
  }

  /** `tok` occurs contiguously in `s`. */
  ghost predicate IsSliceOf(tok: seq<Code>, s: seq<Code>)
  {
    exists i :: OccursAt(tok, s, i)
  }

  /** Number of leading whitespace codes. */
  function LeadWs(s: seq<Code>): (k: nat)
    ensures k <= |s|
    ensures forall i :: 0 <= i < k ==> IsWhitespace(s[i])
    ensures k < |s| ==> !IsWhitespace(s[k])
  {
    if s == [] || !IsWhitespace(s[0]) then 0 else 1 + LeadWs(s[1..])
  }

  /** Number of trailing whitespace codes. */
  function TrailWs(s: seq<Code>): (k: nat)
    ensures k <= |s|
    ensures forall i :: |s| - k <= i < |s| ==> IsWhitespace(s[i])
    ensures k < |s| ==> !IsWhitespace(s[|s| - 1 - k])
  {
    if s == [] || !IsWhitespace(s[|s| - 1]) then 0 else 1 + TrailWs(s[..|s| - 1])
  }

  /** `String.prototype.trim`. */
  function Trim(s: seq<Code>): (r: seq<Code>)
    ensures |r| <= |s|
    ensures |r| > 0 ==> !IsWhitespace(r[0]) && !IsWhitespace(r[|r| - 1])
    ensures r == [] <==> forall i :: 0 <= i < |s| ==> IsWhitespace(s[i])
    ensures IsSliceOf(r, s) && OccursAt(r, s, LeadWs(s))
    ensures forall i :: 0 <= i < |s| && !(LeadWs(s) <= i < LeadWs(s) + |r|) ==> IsWhitespace(s[i])
  {
    var a := LeadWs(s);
    var rest := s[a..];
    var r := rest[..|rest| - TrailWs(rest)];
    assert OccursAt(r, s, a);
    assert forall i :: a + |r| <= i < |s| ==> s[i] == rest[i - a];
    r
  }

  /** Trimming keeps only codes of the text, so only whitespace the text had. */
  lemma TrimKeeps(s: seq<Code>, w: Code)
    requires forall i :: 0 <= i < |s| && IsWhitespace(s[i]) ==> s[i] == w
    ensures forall i :: 0 <= i < |Trim(s)| && IsWhitespace(Trim(s)[i]) ==> Trim(s)[i] == w
  {
    var r := Trim(s);
    forall i | 0 <= i < |r| ensures r[i] == s[LeadWs(s) + i] {
      assert OccursAt(r, s, LeadWs(s));
    }
  }

  /** `cur + s` split on runs of whitespace, as `split(/\s+/)` does (empty fields included). */
  function SplitAcc(s: seq<Code>, cur: seq<Code>): seq<seq<Code>>
    decreases |s|
  {
    if s == [] then [cur]
    else if IsWhitespace(s[0]) then [cur] + SplitAcc(s[LeadWs(s)..], [])
    else SplitAcc(s[1..], cur + [s[0]])
  }

  function Split(s: seq<Code>): seq<seq<Code>>
  {
    SplitAcc(s, [])
  }

  predicate HasWhitespace(s: seq<Code>)
  {
    exists i :: 0 <= i < |s| && IsWhitespace(s[i])
  }


  /** Every field lies contiguously in the text. */
  lemma {:induction false} SplitAccSlices(s: seq<Code>, cur: seq<Code>)
    ensures forall f :: f in SplitAcc(s, cur) ==> IsSliceOf(f, cur + s)
    decreases |s|
  {
    if s == [] {
      assert OccursAt(cur, cur + s, 0);
    } else if IsWhitespace(s[0]) {
      var rest := s[LeadWs(s)..];
      SplitAccSlices(rest, []);
      assert OccursAt(cur, cur + s, 0);
      forall f | f in SplitAcc(rest, []) ensures IsSliceOf(f, cur + s) {
        assert IsSliceOf(f, [] + rest);
        var i :| OccursAt(f, [] + rest, i);
        var j := |cur| + LeadWs(s) + i;
        assert (cur + s)[j..j + |f|] == rest[i..i + |f|];
        assert OccursAt(f, cur + s, j);
      }
    } else {
      SplitAccSlices(s[1..], cur + [s[0]]);
      assert (cur + [s[0]]) + s[1..] == cur + s;
    }
  }

  /** No field holds whitespace. */
  lemma {:induction false} SplitAccNoWhitespace(s: seq<Code>, cur: seq<Code>)
    requires !HasWhitespace(cur)
    ensures forall f :: f in SplitAcc(s, cur) ==> !HasWhitespace(f)
    decreases |s|
  {
    if s == [] {
    } else if IsWhitespace(s[0]) {
      SplitAccNoWhitespace(s[LeadWs(s)..], []);
    } else {
      var cur' := cur + [s[0]];
      assert !HasWhitespace(cur');
      SplitAccNoWhitespace(s[1..], cur');
    }
  }

  /** When the text holds whitespace, every field is shorter than it. */
  lemma {:induction false} SplitAccShorter(s: seq<Code>, cur: seq<Code>)
    ensures HasWhitespace(s) ==> forall f :: f in SplitAcc(s, cur) ==> |f| < |cur| + |s|
    ensures forall f :: f in SplitAcc(s, cur) ==> |f| <= |cur| + |s|
    decreases |s|
  {
    if s == [] {
    } else if IsWhitespace(s[0]) {
      SplitAccShorter(s[LeadWs(s)..], []);
    } else {
      SplitAccShorter(s[1..], cur + [s[0]]);
      if HasWhitespace(s) {
        var i :| 0 <= i < |s| && IsWhitespace(s[i]);
        assert IsWhitespace(s[1..][i - 1]);
      }
    }
  }

  /** A text that starts with a non-whitespace code yields a non-empty field. */
  lemma {:induction false} SplitAccNonEmpty(s: seq<Code>, cur: seq<Code>)
    requires |cur| > 0 || (|s| > 0 && !IsWhitespace(s[0]))
    ensures exists f :: f in SplitAcc(s, cur) && |f| > 0
    decreases |s|
  {
    if s == [] {
      assert cur in SplitAcc(s, cur);
    } else if IsWhitespace(s[0]) {
      assert cur in SplitAcc(s, cur);
    } else {
      SplitAccNonEmpty(s[1..], cur + [s[0]]);
    }
  }

  /** The fields joined back together, with nothing between them. */
  function Concat(fs: seq<seq<Code>>): seq<Code>
  {
    if fs == [] then [] else fs[0] + Concat(fs[1..])
  }

  /** The non-whitespace codes of `s`, in order. */
  function Visible(s: seq<Code>): seq<Code>
  {
    if s == [] then [] else (if IsWhitespace(s[0]) then [] else [s[0]]) + Visible(s[1..])
  }

  lemma {:induction false} VisibleSkipsWhitespace(s: seq<Code>, k: nat)
    requires k <= |s| && forall i :: 0 <= i < k ==> IsWhitespace(s[i])
    ensures Visible(s) == Visible(s[k..])
  {
    if k > 0 {
      VisibleSkipsWhitespace(s[1..], k - 1);
      assert s[1..][k - 1..] == s[k..];
    }
  }

  /**
   * No code is lost or moved: the fields, joined, are exactly the
   * non-whitespace codes of the text, in order.
   */
  lemma {:induction false} SplitAccCovers(s: seq<Code>, cur: seq<Code>)
    ensures Concat(SplitAcc(s, cur)) == cur + Visible(s)
    decreases |s|
  {
    if s == [] {
      assert Concat([cur]) == cur + Concat([]);
    } else if IsWhitespace(s[0]) {
      var rest := s[LeadWs(s)..];
      SplitAccCovers(rest, []);
      VisibleSkipsWhitespace(s, LeadWs(s));
      var fs := [cur] + SplitAcc(rest, []);
      assert fs[1..] == SplitAcc(rest, []);
    } else {
      SplitAccCovers(s[1..], cur + [s[0]]);
    }
  }

  /** `split(/\s+/)` loses no code: its fields joined are the text without its whitespace. */
  lemma SplitCovers(s: seq<Code>)
    ensures Concat(Split(s)) == Visible(s)
  {
    SplitAccCovers(s, []);
  }

  /** The fields put back with the separators between them: `fs[0] + gaps[0] + fs[1] + …`. */
  function Rejoin(fs: seq<seq<Code>>, gaps: seq<seq<Code>>): seq<Code>
    requires |fs| > 0 && |gaps| == |fs| - 1
    decreases |fs|
  {
    if |fs| == 1 then fs[0] else fs[0] + gaps[0] + Rejoin(fs[1..], gaps[1..])
  }

  /** What `/\s+/` matches: a non-empty run of whitespace. */
  predicate IsGap(g: seq<Code>)
  {
    |g| > 0 && forall i :: 0 <= i < |g| ==> IsWhitespace(g[i])
  }

  /**
   * `t` is `fs` with the whitespace runs `gaps` between each two fields, and
   * only the first and the last field may be empty.
   */
  predicate SeparatedBy(fs: seq<seq<Code>>, gaps: seq<seq<Code>>, t: seq<Code>)
  {
    && |fs| > 0 && |gaps| == |fs| - 1
    && (forall k :: 0 < k < |fs| - 1 ==> fs[k] != [])
    && (forall k :: 0 <= k < |gaps| ==> IsGap(gaps[k]))
    && Rejoin(fs, gaps) == t
  }

  /** `t` is `fs` with some whitespace run between each two fields. */
  ghost predicate Separated(fs: seq<seq<Code>>, t: seq<Code>)
  {
    exists gaps :: SeparatedBy(fs, gaps, t)
  }

  /** A field and a whitespace run put before a separated text keep it separated. */
  lemma SeparatedCons(cur: seq<Code>, g: seq<Code>, fields: seq<seq<Code>>, gaps: seq<seq<Code>>, rest: seq<Code>)
    requires SeparatedBy(fields, gaps, rest) && IsGap(g)
    requires |fields| > 1 ==> fields[0] != []
    ensures SeparatedBy([cur] + fields, [g] + gaps, cur + g + rest)
  {
    var fs := [cur] + fields;
    var gs := [g] + gaps;
    assert fs[1..] == fields && gs[1..] == gaps;
    assert Rejoin(fs, gs) == cur + g + rest;
    assert forall k :: 0 < k < |gs| ==> gs[k] == gaps[k - 1];
    assert forall k :: 0 < k < |fs| ==> fs[k] == fields[k - 1];
  }

  /** At a whitespace run, the current field is closed and the run becomes the next separator. */
  lemma SplitAccAtGap(s: seq<Code>, cur: seq<Code>, restGaps: seq<seq<Code>>) returns (gaps: seq<seq<Code>>)
    requires s != [] && IsWhitespace(s[0])
    requires SeparatedBy(SplitAcc(s[LeadWs(s)..], []), restGaps, s[LeadWs(s)..])
    requires s[LeadWs(s)..] != [] ==> SplitAcc(s[LeadWs(s)..], [])[0] != []
    ensures SeparatedBy(SplitAcc(s, cur), gaps, cur + s)
  {
    var lead := LeadWs(s);
    var rest := s[lead..];
    var g := s[..lead];
    assert IsGap(g) by {
      assert lead > 0;
      assert forall i :: 0 <= i < |g| ==> g[i] == s[i];
    }
    if rest == [] {
      assert SplitAcc(rest, []) == [[]];
    }
    assert s == g + rest;
    SeparatedCons(cur, g, SplitAcc(rest, []), restGaps, rest);
    gaps := [g] + restGaps;
  }

  /** The separators of `SplitAcc(s, cur)` in `cur + s`, built alongside it. */
  lemma {:induction false} SplitAccSeparated(s: seq<Code>, cur: seq<Code>) returns (gaps: seq<seq<Code>>)
    ensures SeparatedBy(SplitAcc(s, cur), gaps, cur + s)
    ensures |cur| > 0 || (|s| > 0 && !IsWhitespace(s[0])) ==> SplitAcc(s, cur)[0] != []
    decreases |s|
  {
    if s == [] {
      gaps := [];
      assert Rejoin([cur], []) == cur + s;
    } else if IsWhitespace(s[0]) {
      var rest := s[LeadWs(s)..];
      var restGaps := SplitAccSeparated(rest, []);
      if rest != [] {
        assert rest[0] == s[LeadWs(s)];
      }
      gaps := SplitAccAtGap(s, cur, restGaps);
    } else {
      gaps := SplitAccSeparated(s[1..], cur + [s[0]]);
      assert (cur + [s[0]]) + s[1..] == cur + s;
    }
  }

  /**
   * `split(/\s+/)` cuts exactly at the whitespace runs: the text is the fields
   * with a whitespace run between each two, and no field but the first and
   * the last is empty. With `SplitAccNoWhitespace`, this fixes the fields.
   */
  lemma SplitSeparated(s: seq<Code>)
    ensures Separated(Split(s), s)
  {
    var gaps := SplitAccSeparated(s, []);
    assert [] + s == s;
    assert SeparatedBy(Split(s), gaps, s);
  }

  lemma {:induction false} VisibleHas(s: seq<Code>, i: nat)
    requires i < |s| && !IsWhitespace(s[i])
    ensures s[i] in Visible(s)
  {
    if i > 0 {
      VisibleHas(s[1..], i - 1);
    }
  }

  /** A code of the joined fields lies in one of the fields. */
  lemma {:induction false} ConcatHas(fs: seq<seq<Code>>, c: Code)
    requires c in Concat(fs)
    ensures exists x :: x in fs && c in x
  {
    if fs != [] && c !in fs[0] {
      ConcatHas(fs[1..], c);
      var x :| x in fs[1..] && c in x;
      assert x in fs;
    }
  }

  /** Index of the first occurrence of `x` in `s`. */
  function FirstIndex(s: seq<seq<Code>>, x: seq<Code>): (k: nat)
    requires x in s
    ensures k < |s| && s[k] == x
    ensures forall j :: 0 <= j < k ==> s[j] != x
  {
    if s[0] == x then 0 else 1 + FirstIndex(s[1..], x)
  }

  lemma FirstIndexPrefix(s: seq<seq<Code>>, n: nat, x: seq<Code>)
    requires n <= |s| && x in s[..n]
    ensures FirstIndex(s, x) == FirstIndex(s[..n], x)
  {
    var k := FirstIndex(s[..n], x);
    assert s[k] == x;
    var f := FirstIndex(s, x);
    assert f <= k;
    assert s[..n][f] == x;
  }

  /** The elements of `r` are those of `s`, in the order in which they first occur in `s`. */
  ghost predicate InFirstOccurrenceOrder(r: seq<seq<Code>>, s: seq<seq<Code>>)
  {
    && (forall x :: x in r ==> x in s)
    && (forall i, j :: 0 <= i < j < |r| ==> FirstIndex(s, r[i]) < FirstIndex(s, r[j]))
  }

  /** `r` lists the elements of `s` once each, in the order in which they first occur. */
  ghost predicate DistinctOf(r: seq<seq<Code>>, s: seq<seq<Code>>)
  {
    && (forall x :: x in r <==> x in s)
    && (forall i, j :: 0 <= i < j < |r| ==> r[i] != r[j])
    && InFirstOccurrenceOrder(r, s)
  }

  /** A repeated last element changes nothing. */
  lemma DistinctSkip(s: seq<seq<Code>>, d: seq<seq<Code>>)
    requires s != [] && DistinctOf(d, s[..|s| - 1]) && s[|s| - 1] in d
    ensures DistinctOf(d, s)
  {
    var n := |s| - 1;
    assert s == s[..n] + [s[n]];
    forall i, j | 0 <= i < j < |d| ensures FirstIndex(s, d[i]) < FirstIndex(s, d[j]) {
      FirstIndexPrefix(s, n, d[i]);
      FirstIndexPrefix(s, n, d[j]);
    }
  }

  /** A new last element goes at the end. */
  lemma DistinctAdd(s: seq<seq<Code>>, d: seq<seq<Code>>)
    requires s != [] && DistinctOf(d, s[..|s| - 1]) && s[|s| - 1] !in d
    ensures DistinctOf(d + [s[|s| - 1]], s)
  {
    var n := |s| - 1;
    var x := s[n];
    assert s == s[..n] + [x];
    assert FirstIndex(s, x) == n;
    forall i | 0 <= i < |d| ensures FirstIndex(s, d[i]) == FirstIndex(s[..n], d[i]) < n && d[i] != x {
      assert d[i] in d;
      FirstIndexPrefix(s, n, d[i]);
    }
    assert OrderedDistinct(d, s);
    AppendOrdered(d, x, s);
  }

  /** `[...new Set(s)]`: the distinct elements, each at its first occurrence. */
  function Distinct(s: seq<seq<Code>>): (r: seq<seq<Code>>)
    ensures forall x :: x in r <==> x in s
    ensures forall i, j :: 0 <= i < j < |r| ==> r[i] != r[j]
    ensures InFirstOccurrenceOrder(r, s)
  {
    if s == [] then []
    else
      var d := Distinct(s[..|s| - 1]);
      if s[|s| - 1] in d then
        DistinctSkip(s, d);
        d
      else
        DistinctAdd(s, d);
        d + [s[|s| - 1]]
  }

  /** The loop `if (searches[i] === "") continue`: keep the non-empty elements. */
  function NonEmpty(s: seq<seq<Code>>): (r: seq<seq<Code>>)
    ensures forall x :: x in r <==> x in s && |x| > 0
  {
    if s == [] then []
    else NonEmpty(s[..|s| - 1]) + (if |s[|s| - 1]| > 0 then [s[|s| - 1]] else [])
  }

  /** No repeats, and the elements in first-occurrence order of `s`. */
  ghost predicate OrderedDistinct(d: seq<seq<Code>>, s: seq<seq<Code>>)
  {
    (forall i, j :: 0 <= i < j < |d| ==> d[i] != d[j]) && InFirstOccurrenceOrder(d, s)
  }

  lemma OrderedDistinctPrefix(d: seq<seq<Code>>, s: seq<seq<Code>>)
    requires d != [] && OrderedDistinct(d, s)
    ensures OrderedDistinct(d[..|d| - 1], s)
  {
    var init := d[..|d| - 1];
    forall i, j | 0 <= i < j < |init| ensures FirstIndex(s, init[i]) < FirstIndex(s, init[j]) && init[i] != init[j] {
      assert init[i] == d[i] && init[j] == d[j];
    }
  }

  /** An element before the last one comes first in `s` and differs from the last one. */
  lemma BeforeLast(d: seq<seq<Code>>, s: seq<seq<Code>>, y: seq<Code>)
    requires d != [] && OrderedDistinct(d, s) && y in d[..|d| - 1]
    ensures y in s && d[|d| - 1] in s
    ensures FirstIndex(s, y) < FirstIndex(s, d[|d| - 1]) && y != d[|d| - 1]
  {
    var k :| 0 <= k < |d| - 1 && d[..|d| - 1][k] == y;
    assert d[k] == y && d[k] in d && d[|d| - 1] in d;
  }

  /** Appending an element that first occurs after every element keeps the order. */
  lemma AppendOrdered(r: seq<seq<Code>>, x: seq<Code>, s: seq<seq<Code>>)
    requires OrderedDistinct(r, s) && x in s
    requires forall i :: 0 <= i < |r| ==> FirstIndex(s, r[i]) < FirstIndex(s, x) && r[i] != x
    ensures OrderedDistinct(r + [x], s)
  {
    var r' := r + [x];
    forall i, j | 0 <= i < j < |r'| ensures FirstIndex(s, r'[i]) < FirstIndex(s, r'[j]) && r'[i] != r'[j] {
      assert r'[i] == r[i];
      if j < |r| {
        assert r'[j] == r[j];
      }
    }
  }

  /** The kept elements before the last one all come before it. */
  lemma KeptBeforeLast(d: seq<seq<Code>>, s: seq<seq<Code>>, r0: seq<seq<Code>>)
    requires d != [] && OrderedDistinct(d, s) && r0 == NonEmpty(d[..|d| - 1])
    ensures d[|d| - 1] in s
    ensures forall i :: 0 <= i < |r0| ==> r0[i] in s && FirstIndex(s, r0[i]) < FirstIndex(s, d[|d| - 1]) && r0[i] != d[|d| - 1]
  {
    assert d[|d| - 1] in d;
    forall i | 0 <= i < |r0| ensures r0[i] in s && FirstIndex(s, r0[i]) < FirstIndex(s, d[|d| - 1]) && r0[i] != d[|d| - 1] {
      assert r0[i] in r0;
      BeforeLast(d, s, r0[i]);
    }
  }

  /** Keeping or dropping the last element after the kept ones preserves the order. */
  lemma NonEmptyAppend(d: seq<seq<Code>>, s: seq<seq<Code>>)
    requires d != [] && OrderedDistinct(d, s) && OrderedDistinct(NonEmpty(d[..|d| - 1]), s)
    ensures OrderedDistinct(NonEmpty(d), s)
  {
    var x := d[|d| - 1];
    assert NonEmpty(d) == NonEmpty(d[..|d| - 1]) + (if |x| > 0 then [x] else []);
    if |x| > 0 {
      KeptBeforeLast(d, s, NonEmpty(d[..|d| - 1]));
      AppendOrdered(NonEmpty(d[..|d| - 1]), x, s);
    } else {
      assert NonEmpty(d) == NonEmpty(d[..|d| - 1]);
    }
  }

  lemma {:induction false} NonEmptyKeepsOrder(d: seq<seq<Code>>, s: seq<seq<Code>>)
    requires OrderedDistinct(d, s)
    ensures OrderedDistinct(NonEmpty(d), s)
  {
    if d != [] {
      OrderedDistinctPrefix(d, s);
      NonEmptyKeepsOrder(d[..|d| - 1], s);
      NonEmptyAppend(d, s);
    }
  }

  /** The distinct non-empty whitespace-separated terms of `s`, in first-occurrence order. */
  function Terms(s: seq<Code>): (r: seq<seq<Code>>)
    ensures forall x :: x in r <==> x in Split(s) && |x| > 0
    ensures forall i, j :: 0 <= i < j < |r| ==> r[i] != r[j]
    ensures InFirstOccurrenceOrder(r, Split(s))
  {
    NonEmptyKeepsOrder(Distinct(Split(s)), Split(s));
    NonEmpty(Distinct(Split(s)))
  }

  /** The terms of a text with whitespace: at least one, each non-empty, without whitespace, contiguous and shorter. */
  lemma TermsOfSpacedText(s: seq<Code>)
    requires |s| > 0 && !IsWhitespace(s[0]) && HasWhitespace(s)
    ensures |Terms(s)| > 0
    ensures forall f :: f in Terms(s) ==> 0 < |f| < |s| && IsSliceOf(f, s) && !HasWhitespace(f)
  {
    SplitAccSlices(s, []);
    SplitAccNoWhitespace(s, []);
    SplitAccShorter(s, []);
    assert [] + s == s;
    SplitAccNonEmpty(s, []);
    var f :| f in Split(s) && |f| > 0;
    assert f in Terms(s);
  }
}
