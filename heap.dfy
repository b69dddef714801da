/** The array-backed binary min-heap on `score` that `go` uses to keep the best results. */
module TopKHeap {
  import opened Wrappers
  import opened Codes

  /** A result as the heap holds it: the matched target, its score, its indexes and its position in the input. */
  datatype Match = Match(target: seq<Code>, score: real, indexes: seq<int>, indexesLen: nat, refIndex: int)

  /** `(i - 1) >> 1`; Euclidean division agrees with the shift for every `i >= 0` (giving -1 at 0). */
  function Parent(i: int): int
  {
    (i - 1) / 2
  }

  /** Every element scores at least as much as its parent. */
  ghost predicate IsHeap(h: seq<Match>)
  {
    forall i :: 0 < i < |h| ==> h[Parent(i)].score <= h[i].score
  }

  lemma {:induction false} RootBelow(h: seq<Match>, i: nat)
    requires IsHeap(h) && i < |h|
    ensures h[0].score <= h[i].score
    decreases i
  {
    if i > 0 {
      RootBelow(h, Parent(i));
    }
  }

  /** The root of a heap is a minimum. */
  lemma HeapRootIsMin(h: seq<Match>)
    requires IsHeap(h) && |h| > 0
    ensures forall x :: x in multiset(h) ==> h[0].score <= x.score
  {
    forall x | x in multiset(h) ensures h[0].score <= x.score {
      var i :| 0 <= i < |h| && h[i] == x;
      RootBelow(h, i);
    }
  }

  /** Moving the hole's value: putting `s[j]` at `i` and `x` at `j` has the same elements as `x` at `i`. */
  lemma MoveHole(s: seq<Match>, i: nat, j: nat, x: Match)
    requires i < |s| && j < |s| && i != j
    ensures multiset(s[i := s[j]][j := x]) == multiset(s[i := x])
  {
  }

  /** Ordered everywhere except at the hole `a`, which is read as holding `x`, and its parent edge. */
  ghost predicate HoleOrdered(h: seq<Match>, a: nat, x: Match)
    requires a < |h|
  {
    forall i :: 0 < i < |h| && i != a ==> h[a := x][Parent(i)].score <= h[a := x][i].score
  }

  /** Ordered on every edge that does not touch the hole `a`. */
  ghost predicate DownOrdered(h: seq<Match>, a: nat)
  {
    forall i :: 0 < i < |h| && i != a && Parent(i) != a ==> h[Parent(i)].score <= h[i].score
  }

  /** The hole's parent is no larger than the hole's children. */
  ghost predicate Bridge(h: seq<Match>, a: nat)
    requires a < |h|
  {
    a > 0 ==> forall c :: 0 < c < |h| && Parent(c) == a ==> h[Parent(a)].score <= h[c].score
  }

  lemma ParentBelow(i: int)
    requires i > 0
    ensures 0 <= Parent(i) < i
  {
  }

  /** One step up: the parent moves into the hole and the hole moves to the parent. */
  lemma UpStep(h: seq<Match>, a: nat, x: Match)
    requires 0 < a < |h| && HoleOrdered(h, a, x) && Bridge(h, a)
    requires x.score < h[Parent(a)].score
    ensures HoleOrdered(h[a := h[Parent(a)]], Parent(a), x)
    ensures Bridge(h[a := h[Parent(a)]], Parent(a))
    ensures multiset(h[a := h[Parent(a)]][Parent(a) := x]) == multiset(h[a := x])
  {
    var v := Parent(a);
    ParentBelow(a);
    var h' := h[a := h[v]];
    var H := h[a := x];
    var H' := h'[v := x];
    forall i | 0 < i < |h| && i != v ensures H'[Parent(i)].score <= H'[i].score {
      ParentBelow(i);
      if i == a {
      } else if Parent(i) == v {
        assert H[Parent(i)].score <= H[i].score;
      } else if Parent(i) == a {
      } else {
        assert H[Parent(i)].score <= H[i].score;
      }
    }
    if v > 0 {
      ParentBelow(v);
      forall c | 0 < c < |h| && Parent(c) == v ensures h'[Parent(v)].score <= h'[c].score {
        assert H[Parent(v)].score <= H[v].score;
        if c != a {
          assert H[Parent(c)].score <= H[c].score;
        }
      }
    }
    MoveHole(h, a, v, x);
  }

  /** Once the hole's value is no smaller than its parent, the array is a heap. */
  lemma UpDone(h: seq<Match>, a: nat, x: Match)
    requires a < |h| && HoleOrdered(h, a, x)
    requires a == 0 || h[Parent(a)].score <= x.score
    ensures IsHeap(h[a := x])
  {
    forall i | 0 < i < |h| ensures h[a := x][Parent(i)].score <= h[a := x][i].score {
      ParentBelow(i);
    }
  }

  /** The smaller child of `a`, as the sift picks it. */
  function SmallerChild(h: seq<Match>, a: nat): (x: nat)
    requires 2 * a + 1 < |h|
    ensures (x == 2 * a + 1 || x == 2 * a + 2) && x < |h| && Parent(x) == a
    ensures forall c :: 0 < c < |h| && Parent(c) == a ==> h[x].score <= h[c].score
  {
    var c := 2 * a + 1;
    var s := c + 1;
    if s < |h| && h[s].score < h[c].score then s else c
  }

  /** One step down: the smaller child moves into the hole and the hole moves to that child. */
  lemma DownStep(h: seq<Match>, a: nat, v: Match)
    requires 2 * a + 1 < |h| && DownOrdered(h, a) && Bridge(h, a)
    ensures var x := SmallerChild(h, a);
      && DownOrdered(h[a := h[x]], x) && Bridge(h[a := h[x]], x)
      && multiset(h[a := h[x]][x := v]) == multiset(h[a := v])
  {
    var x := SmallerChild(h, a);
    var h' := h[a := h[x]];
    forall i | 0 < i < |h| && i != x && Parent(i) != x ensures h'[Parent(i)].score <= h'[i].score {
      ParentBelow(i);
    }
    forall c | 0 < c < |h| && Parent(c) == x ensures h'[Parent(x)].score <= h'[c].score {
      ParentBelow(c);
      assert h[Parent(c)].score <= h[c].score;
    }
    MoveHole(h, a, x, v);
  }

  /** At a leaf the down phase hands over to the up phase. */
  lemma DownDone(h: seq<Match>, a: nat, v: Match)
    requires a < |h| && 2 * a + 1 >= |h| && DownOrdered(h, a)
    ensures HoleOrdered(h, a, v) && Bridge(h, a)
  {
    forall i | 0 < i < |h| && i != a ensures h[a := v][Parent(i)].score <= h[a := v][i].score {
      ParentBelow(i);
    }
  }

  /**
   * The moving-up loop shared by `add` and the sift: while the hole has a
   * parent scoring more than `x`, move the parent down; then put `x` in.
   */
  method SiftUp(h: seq<Match>, a: nat, x: Match) returns (r: seq<Match>)
    requires a < |h| && HoleOrdered(h, a, x) && Bridge(h, a)
    ensures |r| == |h| && IsHeap(r) && multiset(r) == multiset(h[a := x])
  {
    r := h;
    var hole: nat := a;
    var f := Parent(hole);
    if hole > 0 {
      ParentBelow(hole);
    }
    while hole > 0 && x.score < r[f].score
      invariant hole < |r| == |h| && f == Parent(hole)
      invariant hole > 0 ==> 0 <= f < hole
      invariant HoleOrdered(r, hole, x) && Bridge(r, hole)
      invariant multiset(r[hole := x]) == multiset(h[a := x])
      decreases hole
    {
      UpStep(r, hole, x);
      r := r[hole := r[f]];
      hole := f;
      f := Parent(hole);
      if hole > 0 {
        ParentBelow(hole);
      }
    }
    UpDone(r, hole, x);
    r := r[hole := x];
  }

  /**
   * The sift `v`: with the root read as `v = e[0]`, move the hole from the
   * root to a leaf, always promoting the smaller child, then move `v` up
   * from there.
   */
  method Sift(h: seq<Match>) returns (r: seq<Match>)
    requires DownOrdered(h, 0)
    ensures |r| == |h| && IsHeap(r) && multiset(r) == multiset(h)
  {
    if |h| == 0 {
      return h;
    }
    r := h;
    var a := 0;
    var v := r[0];
    var c := 1;
    while c < |r|
      invariant a < |r| == |h| && c == 2 * a + 1
      invariant DownOrdered(r, a) && Bridge(r, a)
      invariant multiset(r[a := v]) == multiset(h)
      decreases |r| - a
    {
      DownStep(r, a, v);
      a := SmallerChild(r, a);
      r := r[Parent(a) := r[a]];
      c := 1 + 2 * a;
    }
    DownDone(r, a, v);
    r := SiftUp(r, a, v);
  }

  /** A heap with one element appended, the hole at the new element. */
  lemma AddReady(h: seq<Match>, x: Match)
    requires IsHeap(h)
    ensures HoleOrdered(h + [x], |h|, x) && Bridge(h + [x], |h|)
    ensures (h + [x])[|h| := x] == h + [x]
  {
    var h': seq<Match> := h + [x];
    forall i | 0 < i < |h'| && i != |h| ensures h'[|h| := x][Parent(i)].score <= h'[|h| := x][i].score {
      ParentBelow(i);
    }
  }

  /** Replacing the root of a heap leaves every edge away from the root ordered. */
  lemma RootReplaced(h: seq<Match>, x: Match)
    requires IsHeap(h) && |h| > 0
    ensures DownOrdered(h[0 := x], 0)
    ensures multiset(h[0 := x]) == multiset(h) - multiset{h[0]} + multiset{x}
  {
    forall i | 0 < i < |h| && Parent(i) != 0 ensures h[0 := x][Parent(i)].score <= h[0 := x][i].score {
      ParentBelow(i);
    }
  }

  /** Removing the root: the last element moves to the root of the shorter prefix. */
  lemma PollReady(h: seq<Match>)
    requires IsHeap(h) && |h| > 0
    ensures var n := |h| - 1;
      n > 0 ==> DownOrdered(h[..n][0 := h[n]], 0) && multiset(h[..n][0 := h[n]]) == multiset(h) - multiset{h[0]}
    ensures |h| == 1 ==> multiset(h) - multiset{h[0]} == multiset{}
  {
    var n := |h| - 1;
    if n > 0 {
      var p := h[..n];
      forall i | 0 < i < n ensures p[Parent(i)].score <= p[i].score {
        ParentBelow(i);
      }
      RootReplaced(p, h[n]);
      assert h == p + [h[n]];
      assert multiset(h) == multiset(p) + multiset{h[n]};
    }
  }

  class TopK {
    var e: seq<Match>
    var o: nat

    ghost predicate Valid()
      reads this
    {
      o <= |e| && IsHeap(e[..o])
    }

    /** The elements currently in the heap. */
    ghost function Contents(): multiset<Match>
      reads this
      requires o <= |e|
    {
      multiset(e[..o])
    }

    constructor ()
      ensures Valid() && o == 0 && e == []
    {
      e := [];
      o := 0;
    }

    /** `peek`: the root, a minimum, or nothing when the heap is empty. */
    method Peek() returns (r: Option<Match>)
      requires Valid()
      ensures o == 0 <==> r.None?
      ensures o > 0 ==> r == Some(e[0])
      ensures r.Some? ==> r.value in Contents() && forall x :: x in Contents() ==> r.value.score <= x.score
    {
      if o != 0 {
        r := Some(e[0]);
        HeapRootIsMin(e[..o]);
      } else {
        r := None;
      }
    }

    /** `add`: append at `o` and move the hole up while the new element scores less than the parent. */
    method Add(r: Match)
      requires Valid()
      modifies this
      ensures Valid()
      ensures o == old(o) + 1 && Contents() == old(Contents()) + multiset{r}
      ensures |e| >= old(|e|)
    {
      var a := o;
      e := Store(e, o, r);
      o := o + 1;
      assert e[..o] == old(e[..o]) + [r];
      AddReady(old(e[..o]), r);
      var h := SiftUp(e[..o], a, r);
      e := h + e[o..];
      assert e[..o] == h;
    }

    /** `poll`: take the root, move the last element to the root and sift. */
    method Poll() returns (r: Option<Match>)
      requires Valid()
      modifies this
      ensures Valid() && |e| == old(|e|)
      ensures old(o) == 0 ==> r.None? && o == 0
      ensures old(o) > 0 ==> r == Some(old(e[0])) && o == old(o) - 1
      ensures old(o) > 0 ==> Contents() == old(Contents()) - multiset{old(e[0])}
      ensures r.Some? ==> r.value in old(Contents()) && forall x :: x in old(Contents()) ==> r.value.score <= x.score
    {
      if o == 0 {
        return None;
      }
      var top := e[0];
      HeapRootIsMin(e[..o]);
      PollReady(e[..o]);
      o := o - 1;
      e := e[0 := e[o]];
      assert e[..o] == if o == 0 then [] else old(e[..o])[..o][0 := old(e[o - 1])];
      var h := Sift(e[..o]);
      e := h + e[o..];
      assert e[..o] == h;
      r := Some(top);
    }

    /** `replaceTop`: overwrite the root and sift; the count stays. */
    method ReplaceTop(r: Match)
      requires Valid()
      modifies this
      ensures Valid() && o == old(o)
      ensures old(o) > 0 ==> Contents() == old(Contents()) - multiset{old(e[0])} + multiset{r}
      ensures old(o) == 0 ==> Contents() == multiset{}
    {
      e := Store(e, 0, r);
      if o > 0 {
        assert e[..o] == old(e[..o])[0 := r];
        RootReplaced(old(e[..o]), r);
      }
      var h := Sift(e[..o]);
      e := h + e[o..];
      assert e[..o] == h;
    }
  }
}
