/** Word beginnings and the jump table `_nextBeginningIndexes`. */
module Beginnings {
  import opened Wrappers
  import opened Codes

  /**
   * Position `i` of the original (not lowered) text starts a word: an upper-case
   * letter after a non-upper-case one, anything after a non-alphanumeric (or at
   * the start), or any non-alphanumeric itself.
   */
  predicate IsBeginning(t: seq<Code>, i: nat)
    requires i < |t|
  {
    var isUpper := IsUpper(t[i]);
    var wasUpper := i > 0 && IsUpper(t[i - 1]);
    var wasAlphanum := i > 0 && IsAlphanum(t[i - 1]);
    (isUpper && !wasUpper) || !wasAlphanum || !IsAlphanum(t[i])
  }

  /** `b` lists exactly the beginnings of `t`, in increasing order. */
  ghost predicate ListsBeginnings(b: seq<int>, t: seq<Code>)
  {
    && StrictlyIncreasing(b)
    && (forall k :: 0 <= k < |b| ==> 0 <= b[k] < |t| && IsBeginning(t, b[k]))
    && (forall i :: 0 <= i < |t| && IsBeginning(t, i) ==> i in b)
  }

  /** The least beginning at or after `j`, or `|t|` when there is none. */
  function NextFrom(t: seq<Code>, j: nat): (r: nat)
    requires j <= |t|
    ensures j <= r <= |t|
    ensures r < |t| ==> IsBeginning(t, r)
    ensures forall k :: j <= k < r ==> !IsBeginning(t, k)
    decreases |t| - j
  {
    if j == |t| then |t| else if IsBeginning(t, j) then j else NextFrom(t, j + 1)
  }

  /** Any value with the three properties of `NextFrom` is `NextFrom`. */
  lemma NextFromIs(t: seq<Code>, j: nat, v: nat)
    requires j <= v <= |t|
    requires v < |t| ==> IsBeginning(t, v)
    requires forall k :: j <= k < v ==> !IsBeginning(t, k)
    ensures NextFrom(t, j) == v
  {
    var r := NextFrom(t, j);
    assert r < |t| ==> IsBeginning(t, r);
  }

  /** The table the matcher jumps through: entry `i` is the next beginning strictly after `i`. */
  ghost function NextBeginnings(t: seq<Code>): (nb: seq<int>)
    ensures |nb| == |t|
  {
    seq(|t|, i requires 0 <= i < |t| => NextFrom(t, i + 1))
  }

  /** `prepareNextBeginningIndexes` promises: every entry is a later position, a beginning or the end. */
  lemma NextBeginningsBounds(t: seq<Code>, i: nat)
    requires i < |t|
    ensures i < NextBeginnings(t)[i] <= |t|
    ensures NextBeginnings(t)[i] < |t| ==> IsBeginning(t, NextBeginnings(t)[i])
    ensures forall k :: i < k < NextBeginnings(t)[i] ==> !IsBeginning(t, k)
  {
    assert NextBeginnings(t)[i] == NextFrom(t, i + 1);
  }

  lemma {:induction false} NextFromMonotone(t: seq<Code>, j: nat, k: nat)
    requires j <= k <= |t|
    ensures NextFrom(t, j) <= NextFrom(t, k)
    decreases k - j
  {
    if j < k {
      NextFromMonotone(t, j + 1, k);
    }
  }

  /** The jump table is non-decreasing. */
  lemma NextBeginningsMonotone(t: seq<Code>, i: nat, j: nat)
    requires i <= j < |t|
    ensures NextBeginnings(t)[i] <= NextBeginnings(t)[j]
  {
    NextFromMonotone(t, i + 1, j + 1);
  }

  /** Index 0 of a non-empty text is always a beginning. */
  lemma FirstIsBeginning(t: seq<Code>)
    requires |t| > 0
    ensures IsBeginning(t, 0) && NextFrom(t, 0) == 0
  {
  }

  /** `prepareBeginningIndexes`: scan once, remembering the class of the previous character. */
  method PrepareBeginningIndexes(target: seq<Code>) returns (b: seq<int>)
    ensures ListsBeginnings(b, target)
  {
    var targetLen := |target|;
    b := [];
    var wasUpper := false;
    var wasAlphanum := false;
    for i := 0 to targetLen
      invariant wasUpper == (i > 0 && IsUpper(target[i - 1]))
      invariant wasAlphanum == (i > 0 && IsAlphanum(target[i - 1]))
      invariant StrictlyIncreasing(b)
      invariant forall k :: 0 <= k < |b| ==> 0 <= b[k] < i && IsBeginning(target, b[k])
      invariant forall j :: 0 <= j < i && IsBeginning(target, j) ==> j in b
    {
      var targetCode := target[i];
      var isUpper := 65 <= targetCode <= 90;
      var isAlphanum := isUpper || (97 <= targetCode <= 122) || (48 <= targetCode <= 57);
      var isBeginning := (isUpper && !wasUpper) || !wasAlphanum || !isAlphanum;
      wasUpper := isUpper;
      wasAlphanum := isAlphanum;
      if isBeginning {
        b := Store(b, |b|, i);
      }
    }
  }

  /** With `b` listing the beginnings, `b[k]` is the least beginning at or after `i`. */
  lemma ListedNext(b: seq<int>, t: seq<Code>, k: nat, i: nat)
    requires ListsBeginnings(b, t) && i <= |t|
    requires forall j :: 0 <= j < k && j < |b| ==> b[j] < i
    ensures k < |b| && i <= b[k] ==> NextFrom(t, i) == b[k]
    ensures k >= |b| ==> NextFrom(t, i) == |t|
  {
    if k < |b| && i <= b[k] {
      assert forall j :: i <= j < b[k] ==> !IsBeginning(t, j);
      NextFromIs(t, i, b[k]);
    } else if k >= |b| {
      assert forall j :: i <= j < |t| ==> !IsBeginning(t, j);
      NextFromIs(t, i, |t|);
    }
  }

  /**
   * What the walk of `prepareNextBeginningIndexes` keeps after `i` steps: the
   * table so far, and the cursor `k` into the list of beginnings pointing at
   * the next beginning at or after `i` (or past the list, when there is none).
   */
  ghost predicate Walk(b: seq<int>, t: seq<Code>, nb: seq<int>, k: nat, i: nat)
  {
    && ListsBeginnings(b, t)
    && i <= |t|
    && |nb| == i
    && (forall j :: 0 <= j < i ==> nb[j] == NextFrom(t, j + 1))
    && (forall j :: 0 <= j < k && j < |b| ==> b[j] < i)
    && (k < |b| ==> i <= b[k] && b[k] == NextFrom(t, i))
    && (k >= |b| ==> NextFrom(t, i) == |t|)
  }

  lemma WalkStart(b: seq<int>, t: seq<Code>)
    requires ListsBeginnings(b, t)
    ensures Walk(b, t, [], 0, 0)
  {
    if |t| > 0 {
      FirstIsBeginning(t);
    }
    ListedNext(b, t, 0, 0);
  }

  /** The cursor's beginning lies ahead: it is the entry, and the cursor stays. */
  lemma WalkKeep(b: seq<int>, t: seq<Code>, nb: seq<int>, k: nat, i: nat)
    requires Walk(b, t, nb, k, i) && i < |t|
    requires k < |b| && b[k] > i
    ensures Walk(b, t, nb + [b[k]], k, i + 1)
  {
    NextFromIs(t, i + 1, b[k]);
  }

  /** The cursor's beginning is `i` itself, or there is none left: the cursor moves on. */
  lemma WalkAdvance(b: seq<int>, t: seq<Code>, nb: seq<int>, k: nat, i: nat)
    requires Walk(b, t, nb, k, i) && i < |t|
    requires !(k < |b| && b[k] > i)
    ensures Walk(b, t, nb + [if k + 1 < |b| then b[k + 1] else |t|], k + 1, i + 1)
  {
    if k + 1 < |b| {
      assert b[k] < b[k + 1];
    }
    ListedNext(b, t, k + 1, i + 1);
  }

  /**
   * `prepareNextBeginningIndexes`: walk the list of beginnings alongside the
   * text. `lastIsBeginning` becomes `undefined` once the list is exhausted,
   * and the entry is then the text length.
   */
  method PrepareNextBeginningIndexes(target: seq<Code>) returns (nb: seq<int>)
    ensures nb == NextBeginnings(target)
  {
    var targetLen := |target|;
    var beginningIndexes := PrepareBeginningIndexes(target);
    nb := [];
    var lastIsBeginning := At(beginningIndexes, 0);
    var lastIsBeginningI := 0;
    WalkStart(beginningIndexes, target);
    for i := 0 to targetLen
      invariant lastIsBeginning == At(beginningIndexes, lastIsBeginningI)
      invariant Walk(beginningIndexes, target, nb, lastIsBeginningI, i)
    {
      if lastIsBeginning.Some? && lastIsBeginning.value > i {
        WalkKeep(beginningIndexes, target, nb, lastIsBeginningI, i);
        nb := nb + [lastIsBeginning.value];
      } else {
        WalkAdvance(beginningIndexes, target, nb, lastIsBeginningI, i);
        lastIsBeginningI := lastIsBeginningI + 1;
        lastIsBeginning := At(beginningIndexes, lastIsBeginningI);
        nb := nb + [if lastIsBeginning.None? then targetLen else lastIsBeginning.value];
      }
    }
  }
}
