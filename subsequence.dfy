/** Embeddings of a query into a target, and the greedy first pass of the matcher. */
module Subsequence {
  import opened Wrappers
  import opened Codes

  /** `m` places every code of `q` at a strictly later position of `t` holding the same code. */
  predicate Embeds(m: seq<int>, q: seq<Code>, t: seq<Code>)
  {
    && |m| == |q|
    && StrictlyIncreasing(m)
    && (forall k :: 0 <= k < |m| ==> 0 <= m[k] < |t| && t[m[k]] == q[k])
  }

  ghost predicate IsSubsequence(q: seq<Code>, t: seq<Code>)
  {
    exists m :: Embeds(m, q, t)
  }

  /** The first position where the k-th query code may be placed after `m[..k]`. */
  function Lo(m: seq<int>, k: nat): int
    requires k <= |m|
  {
    if k == 0 then 0 else m[k - 1] + 1
  }

  /** Every placement is the first occurrence of its code after the previous placement. */
  predicate Leftmost(m: seq<int>, q: seq<Code>, t: seq<Code>)
  {
    && Embeds(m, q, t)
    && (forall k, j :: 0 <= k < |m| && Lo(m, k) <= j < m[k] ==> t[j] != q[k])
  }

  /** A leftmost embedding lies at or before every other embedding, position by position. */
  lemma {:induction false} LeftmostBelow(lm: seq<int>, m: seq<int>, q: seq<Code>, t: seq<Code>, k: nat)
    requires k < |lm| <= |q|
    requires Leftmost(lm, q[..|lm|], t) && Embeds(m, q, t)
    ensures lm[k] <= m[k]
  {
    if k > 0 {
      LeftmostBelow(lm, m, q, t, k - 1);
    }
    assert Lo(lm, k) <= m[k];
    assert q[..|lm|][k] == q[k];
  }

  /** Two leftmost embeddings of the same query are equal. */
  lemma LeftmostUnique(a: seq<int>, b: seq<int>, q: seq<Code>, t: seq<Code>)
    requires Leftmost(a, q, t) && Leftmost(b, q, t)
    ensures a == b
  {
    assert q[..|a|] == q;
    forall k | 0 <= k < |a| ensures a[k] == b[k] {
      LeftmostBelow(a, b, q, t, k);
      LeftmostBelow(b, a, q, t, k);
    }
  }

  /** A leftmost prefix that finds no further occurrence of the next code rules out every embedding. */
  lemma NoEmbedding(lm: seq<int>, q: seq<Code>, t: seq<Code>)
    requires |lm| < |q|
    requires Leftmost(lm, q[..|lm|], t)
    requires forall j :: Lo(lm, |lm|) <= j < |t| ==> t[j] != q[|lm|]
    ensures !IsSubsequence(q, t)
  {
    forall m | Embeds(m, q, t) ensures Lo(lm, |lm|) <= m[|lm|] {
      if |lm| > 0 {
        LeftmostBelow(lm, m, q, t, |lm| - 1);
      }
    }
  }

  /** A contiguous slice of the target is a subsequence of it. */
  lemma SliceIsSubsequence(t: seq<Code>, i: nat, n: nat)
    requires i + n <= |t|
    ensures IsSubsequence(t[i..i + n], t)
  {
    assert Embeds(Run(i, n), t[i..i + n], t);
  }

  /** The state of the first pass before it looks at `t[ti]` for the `s`-th query code. */
  ghost predicate ScanState(m: seq<int>, q: seq<Code>, t: seq<Code>, s: nat, ti: int)
  {
    && s < |q| && |m| == s && 0 <= ti <= |t|
    && Leftmost(m, q[..s], t)
    && (forall k :: 0 <= k < s ==> m[k] < ti)
    && (forall j :: Lo(m, s) <= j < ti ==> t[j] != q[s])
  }

  lemma ScanMatch(m: seq<int>, q: seq<Code>, t: seq<Code>, s: nat, ti: int)
    requires ScanState(m, q, t, s, ti) && 0 <= ti < |t| && t[ti] == q[s]
    ensures Leftmost(m + [ti], q[..s + 1], t)
    ensures s + 1 < |q| ==> ScanState(m + [ti], q, t, s + 1, ti + 1)
  {
    var m' := m + [ti];
    assert q[..s + 1] == q[..s] + [q[s]];
    forall k, j | 0 <= k < |m'| && Lo(m', k) <= j < m'[k] ensures t[j] != q[..s + 1][k] {
      if k < s {
        assert Lo(m', k) == Lo(m, k) && m'[k] == m[k];
        assert q[..s + 1][k] == q[..s][k];
      }
    }
    if s > 0 {
      assert m[s - 1] < ti;
    }
  }

  lemma ScanSkip(m: seq<int>, q: seq<Code>, t: seq<Code>, s: nat, ti: int)
    requires ScanState(m, q, t, s, ti) && 0 <= ti < |t| && t[ti] != q[s]
    ensures ScanState(m, q, t, s, ti + 1)
  {
  }

  /**
   * The first pass of `algorithm`: walk the target once, greedily matching
   * the query codes in order. The loop reads `undefined` past either end, as
   * the source does; an empty query therefore never matches.
   */
  method SimpleScan(q: seq<Code>, t: seq<Code>) returns (r: Option<seq<int>>)
    ensures r.None? <==> (|q| == 0 || !IsSubsequence(q, t))
    ensures r.Some? ==> Leftmost(r.value, q, t)
  {
    var searchI := 0;
    var targetI := 0;
    var matches: seq<int> := [];
    var code := At(q, 0);
    while true
      invariant 0 <= targetI <= |t| && (targetI == |t| ==> targetI == 0)
      invariant |q| == 0 ==> code.None?
      invariant |q| > 0 ==> 0 <= searchI < |q| && code == Some(q[searchI])
      invariant |q| > 0 ==> ScanState(matches, q, t, searchI, targetI)
      decreases |t| - targetI
    {
      if code == At(t, targetI) {
        if |q| > 0 {
          ScanMatch(matches, q, t, searchI, targetI);
        }
        matches := matches + [targetI];
        searchI := searchI + 1;
        if searchI == |q| {
          assert q[..searchI] == q;
          return Some(matches);
        }
        code := At(q, searchI);
      } else if |q| > 0 && targetI < |t| {
        ScanSkip(matches, q, t, searchI, targetI);
      }
      targetI := targetI + 1;
      if targetI >= |t| {
        if |q| > 0 {
          NoEmbedding(matches, q, t);
        }
        return None;
      }
    }
  }
}
