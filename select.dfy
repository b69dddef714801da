/** The top-`limit` selection of `go`: accepted results go through the min-heap, which is then drained. */
module Selection {
  import opened Wrappers
  import opened TopKHeap

  /** `limit || INT_MAX`: a zero limit is no limit. */
  function EffectiveLimit(limit: Option<nat>): (r: Option<nat>)
    ensures r.Some? ==> r.value > 0
  {
    if limit.Some? && limit.value > 0 then limit else None
  }

  /** How many results a limit lets through out of `n`. */
  function Cap(limit: Option<nat>, n: nat): (r: nat)
    ensures r <= n && (limit.None? ==> r == n)
    ensures limit.Some? ==> r <= limit.value && (r < n ==> r == limit.value)
  {
    if limit.Some? && limit.value < n then limit.value else n
  }

  predicate NonIncreasing(s: seq<Match>)
  {
    forall i, j :: 0 <= i < j < |s| ==> s[j].score <= s[i].score
  }

  /** `results` are the best `Cap(limit, |accepted|)` of `accepted`, best first. */
  ghost predicate TopOf(results: seq<Match>, accepted: seq<Match>, limit: Option<nat>)
  {
    && |results| == Cap(limit, |accepted|)
    && NonIncreasing(results)
    && multiset(results) <= multiset(accepted)
    && forall x, y :: x in multiset(accepted) - multiset(results) && y in results ==> x.score <= y.score
  }

  /** When the limit does not bite, every accepted result is returned. */
  lemma TopOfComplete(results: seq<Match>, accepted: seq<Match>, limit: Option<nat>)
    requires TopOf(results, accepted, limit) && Cap(limit, |accepted|) == |accepted|
    ensures multiset(results) == multiset(accepted)
  {
    var rest := multiset(accepted) - multiset(results);
    assert multiset(accepted) == multiset(results) + rest;
    assert |rest| == 0;
  }

  /** The first result scores at least as much as anything accepted. */
  lemma TopOfBest(results: seq<Match>, accepted: seq<Match>, limit: Option<nat>)
    requires TopOf(results, accepted, limit) && |results| > 0
    ensures forall x :: x in accepted ==> x.score <= results[0].score
  {
    forall x | x in accepted ensures x.score <= results[0].score {
      assert x in multiset(accepted);
      if x in multiset(results) {
        var k :| 0 <= k < |results| && results[k] == x;
      } else {
        assert x in multiset(accepted) - multiset(results);
        assert results[0] in results;
      }
    }
  }

  /**
   * The state of `go`'s scan, on values: `kept` are the `resultsLen` accepted
   * results in the heap, `dropped` the `limitedCount` others, each no better
   * than any kept one.
   */
  ghost predicate Kept(kept: multiset<Match>, accepted: seq<Match>, dropped: multiset<Match>,
                       limit: Option<nat>, resultsLen: nat, limitedCount: nat)
  {
    && resultsLen == Cap(limit, |accepted|)
    && limitedCount == |accepted| - resultsLen
    && kept + dropped == multiset(accepted)
    && (limitedCount == 0 ==> dropped == multiset{})
    && forall x, y :: x in dropped && y in kept ==> x.score <= y.score
  }

  /** The scan state held by the heap `q`. */
  ghost predicate Selecting(q: TopK, accepted: seq<Match>, dropped: multiset<Match>,
                            limit: Option<nat>, resultsLen: nat, limitedCount: nat)
    reads q
  {
    q.Valid() && q.o == resultsLen && Kept(q.Contents(), accepted, dropped, limit, resultsLen, limitedCount)
  }

  /** Under the limit nothing has been dropped, and the new result is kept. */
  lemma KeptAdd(kept: multiset<Match>, accepted: seq<Match>, dropped: multiset<Match>,
                limit: Option<nat>, resultsLen: nat, limitedCount: nat, r: Match)
    requires Kept(kept, accepted, dropped, limit, resultsLen, limitedCount)
    requires limit.None? || resultsLen < limit.value
    ensures Kept(kept + multiset{r}, accepted + [r], dropped, limit, resultsLen + 1, limitedCount)
  {
    assert multiset(accepted + [r]) == multiset(accepted) + multiset{r};
  }

  /** At the limit, a result better than the worst kept one replaces it. */
  lemma KeptReplace(kept: multiset<Match>, accepted: seq<Match>, dropped: multiset<Match>,
                    limit: Option<nat>, resultsLen: nat, limitedCount: nat, r: Match, worst: Match)
    requires Kept(kept, accepted, dropped, limit, resultsLen, limitedCount)
    requires limit.Some? && resultsLen >= limit.value
    requires worst in kept && forall y :: y in kept ==> worst.score <= y.score
    requires r.score > worst.score
    ensures Kept(kept - multiset{worst} + multiset{r}, accepted + [r], dropped + multiset{worst},
                 limit, resultsLen, limitedCount + 1)
  {
    assert multiset(accepted + [r]) == multiset(accepted) + multiset{r};
    var kept' := kept - multiset{worst} + multiset{r};
    forall x, y | x in dropped + multiset{worst} && y in kept' ensures x.score <= y.score {
      if y != r {
        assert y in kept;
      }
    }
  }

  /** At the limit, a result no better than the worst kept one is dropped. */
  lemma KeptSkip(kept: multiset<Match>, accepted: seq<Match>, dropped: multiset<Match>,
                 limit: Option<nat>, resultsLen: nat, limitedCount: nat, r: Match, worst: Match)
    requires Kept(kept, accepted, dropped, limit, resultsLen, limitedCount)
    requires limit.Some? && resultsLen >= limit.value
    requires worst in kept && forall y :: y in kept ==> worst.score <= y.score
    requires r.score <= worst.score
    ensures Kept(kept, accepted + [r], dropped + multiset{r}, limit, resultsLen, limitedCount + 1)
  {
    assert multiset(accepted + [r]) == multiset(accepted) + multiset{r};
  }

  /** One accepted result: `add` while under the limit, otherwise `replaceTop` if it beats the worst kept one. */
  method Offer(q: TopK, r: Match, limit: Option<nat>, resultsLen: nat, limitedCount: nat,
               ghost accepted: seq<Match>, ghost dropped: multiset<Match>)
    returns (resultsLen': nat, limitedCount': nat, ghost dropped': multiset<Match>)
    requires limit != Some(0) && Selecting(q, accepted, dropped, limit, resultsLen, limitedCount)
    modifies q
    ensures Selecting(q, accepted + [r], dropped', limit, resultsLen', limitedCount')
  {
    ghost var kept := q.Contents();
    if limit.None? || resultsLen < limit.value {
      KeptAdd(kept, accepted, dropped, limit, resultsLen, limitedCount, r);
      q.Add(r);
      resultsLen', limitedCount', dropped' := resultsLen + 1, limitedCount, dropped;
    } else {
      resultsLen', limitedCount' := resultsLen, limitedCount + 1;
      var top := q.Peek();
      if r.score > top.value.score {
        KeptReplace(kept, accepted, dropped, limit, resultsLen, limitedCount, r, top.value);
        q.ReplaceTop(r);
        dropped' := dropped + multiset{top.value};
      } else {
        KeptSkip(kept, accepted, dropped, limit, resultsLen, limitedCount, r, top.value);
        dropped' := dropped + multiset{r};
      }
    }
  }

  /** Prepending the minimum of what is left keeps the drained prefix ordered and below what is left. */
  lemma DrainStep(results: seq<Match>, c: multiset<Match>, r: Match)
    requires NonIncreasing(results)
    requires r in c && forall z :: z in c ==> r.score <= z.score
    requires forall y, z :: y in results && z in c ==> y.score <= z.score
    ensures NonIncreasing([r] + results)
    ensures forall y, z :: y in [r] + results && z in c - multiset{r} ==> y.score <= z.score
    ensures multiset([r] + results) + (c - multiset{r}) == multiset(results) + c
  {
    var r' := [r] + results;
    forall i, j | 0 <= i < j < |r'| ensures r'[j].score <= r'[i].score {
      if i == 0 {
        assert r'[j] in results;
      } else {
        assert r'[i] == results[i - 1] && r'[j] == results[j - 1];
      }
    }
  }

  /** `results[i] = q.poll()` for `i` from `resultsLen - 1` down to 0: the heap empties, best first. */
  method Drain(q: TopK, n: nat) returns (results: seq<Match>)
    requires q.Valid() && q.o == n
    modifies q
    ensures q.Valid() && q.o == 0
    ensures |results| == n && NonIncreasing(results) && multiset(results) == old(q.Contents())
  {
    results := [];
    var i := n;
    while i > 0
      invariant q.Valid() && q.o == i && i <= n
      invariant |results| == n - i
      invariant NonIncreasing(results)
      invariant multiset(results) + q.Contents() == old(q.Contents())
      invariant forall y, z :: y in results && z in q.Contents() ==> y.score <= z.score
    {
      ghost var c := q.Contents();
      var r := q.Poll();
      DrainStep(results, c, r.value);
      results := [r.value] + results;
      i := i - 1;
    }
  }

  /** A drained heap whose scan ended in `Selecting` holds a top selection of what was accepted. */
  lemma SelectedIsTop(results: seq<Match>, accepted: seq<Match>, dropped: multiset<Match>, limit: Option<nat>)
    requires multiset(results) + dropped == multiset(accepted)
    requires forall x, y :: x in dropped && y in multiset(results) ==> x.score <= y.score
    requires |results| == Cap(limit, |accepted|) && NonIncreasing(results)
    ensures TopOf(results, accepted, limit)
  {
    assert multiset(accepted) - multiset(results) == dropped;
  }
}
