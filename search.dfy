/** `prepareSearch`: the prepared query and its whitespace-separated sub-terms. */
module Search {
  import opened Codes
  import opened Tokens
  import opened LowerInfo

  /**
   * A prepared query. `spaceSearches` holds the lowered codes of each distinct
   * term; each term's own `containsSpace` is always false and is not stored.
   */
  datatype PreparedSearch = PreparedSearch(
    lowerCodes: seq<Code>,
    bitflags: Flags,
    containsSpace: bool,
    spaceSearches: seq<seq<Code>>)

  function LowerTerms(ts: seq<seq<Code>>): (r: seq<seq<Code>>)
    ensures |r| == |ts|
    ensures forall i :: 0 <= i < |ts| ==> r[i] == LowerAll(ts[i])
  {
    seq(|ts|, i requires 0 <= i < |ts| => LowerAll(ts[i]))
  }

  /** What every prepared query satisfies: a spaced query has terms, each a shorter non-empty slice of it. */
  ghost predicate SearchValid(ps: PreparedSearch)
  {
    && (ps.containsSpace <==> Space in ps.lowerCodes)
    && (!ps.containsSpace ==> ps.spaceSearches == [])
    && (ps.containsSpace ==> |ps.spaceSearches| > 0)
    && (forall k :: 0 <= k < |ps.spaceSearches| ==>
          0 < |ps.spaceSearches[k]| < |ps.lowerCodes| && IsSliceOf(ps.spaceSearches[k], ps.lowerCodes))
  }

  lemma LowerSlice(f: seq<Code>, s: seq<Code>)
    requires IsSliceOf(f, s)
    ensures IsSliceOf(LowerAll(f), LowerAll(s))
  {
    var i :| OccursAt(f, s, i);
    LowerAllSlice(s, i, i + |f|);
    assert OccursAt(LowerAll(f), LowerAll(s), i);
  }

  /** The terms of a trimmed query that contains a space satisfy `SearchValid`. */
  lemma TermsValid(s: seq<Code>)
    requires s == Trim(s) && Space in s
    ensures var ts := LowerTerms(Terms(s));
      |ts| > 0 && forall k :: 0 <= k < |ts| ==> 0 < |ts[k]| < |LowerAll(s)| && IsSliceOf(ts[k], LowerAll(s))
  {
    assert HasWhitespace(s);
    TermsOfSpacedText(s);
    var ts := LowerTerms(Terms(s));
    forall k | 0 <= k < |ts| ensures 0 < |ts[k]| < |LowerAll(s)| && IsSliceOf(ts[k], LowerAll(s)) {
      assert Terms(s)[k] in Terms(s);
      LowerSlice(Terms(s)[k], s);
    }
  }

  lemma TrimIdempotent(s: seq<Code>)
    ensures Trim(Trim(s)) == Trim(s)
  {
    var r := Trim(s);
    assert LeadWs(r) == 0;
    assert TrailWs(r[LeadWs(r)..]) == 0;
    assert r[0..] == r;
  }

  lemma SpaceInLower(s: seq<Code>)
    ensures (exists i :: 0 <= i < |s| && s[i] == Space) <==> Space in LowerAll(s)
  {
    if exists i :: 0 <= i < |s| && s[i] == Space {
      var i :| 0 <= i < |s| && s[i] == Space;
      assert LowerAll(s)[i] == Space;
    }
    if Space in LowerAll(s) {
      var i :| 0 <= i < |s| && LowerAll(s)[i] == Space;
      assert s[i] == Space;
    }
  }

  lemma LowerTermsStep(xs: seq<seq<Code>>, i: nat)
    requires i < |xs|
    ensures LowerTerms(NonEmpty(xs[..i + 1]))
      == LowerTerms(NonEmpty(xs[..i])) + (if |xs[i]| > 0 then [LowerAll(xs[i])] else [])
  {
    assert xs[..i + 1][..i] == xs[..i];
    var a := NonEmpty(xs[..i]);
    assert NonEmpty(xs[..i + 1]) == a + (if |xs[i]| > 0 then [xs[i]] else []);
  }

  /** `prepareSearch`: trim, prepare the whole query, and when it holds a space prepare each distinct term. */
  method PrepareSearch(search: seq<Code>) returns (ps: PreparedSearch)
    ensures ps.lowerCodes == LowerAll(Trim(search))
    ensures ps.bitflags == Bitflags(ps.lowerCodes)
    ensures ps.containsSpace <==> Space in Trim(search)
    ensures ps.spaceSearches == if ps.containsSpace then LowerTerms(Terms(Trim(search))) else []
    ensures SearchValid(ps)
  {
    var s := Trim(search);
    var info := PrepareLowerInfo(s);
    var spaceSearches: seq<seq<Code>> := [];
    if info.containsSpace {
      var searches := Distinct(Split(s));
      for i := 0 to |searches|
        invariant spaceSearches == LowerTerms(NonEmpty(searches[..i]))
      {
        LowerTermsStep(searches, i);
        if searches[i] == [] {
          continue;
        }
        var termInfo := PrepareLowerInfo(searches[i]);
        spaceSearches := spaceSearches + [termInfo.lowerCodes];
      }
      assert searches[..|searches|] == searches;
    }
    ps := PreparedSearch(info.lowerCodes, info.bitflags, info.containsSpace, spaceSearches);
    SpaceInLower(s);
    if info.containsSpace {
      TrimIdempotent(search);
      TermsValid(s);
    }
  }
}
