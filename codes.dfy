/** Option type used for JavaScript's `null`/`undefined` results. */
module Wrappers {
  datatype Option<+T> = None | Some(value: T)
}

/** Character codes, the lowercasing and the character classes the engine uses. */
module Codes {
  import opened Wrappers

  /** A UTF-16 code unit, as returned by `charCodeAt`. */
  type Code = c: int | 0 <= c < 0x1_0000

  const Space: Code := 32

  /** ASCII lowercasing: A-Z become a-z, every other code is kept. */
  function Lower(c: Code): (r: Code)
    ensures 65 <= c <= 90 ==> r == c + 32
    ensures !(65 <= c <= 90) ==> r == c
  {
    if 65 <= c <= 90 then c + 32 else c
  }

  /** `toLowerCase` applied code by code. */
  function LowerAll(s: seq<Code>): (r: seq<Code>)
    ensures |r| == |s|
    ensures forall i :: 0 <= i < |s| ==> r[i] == Lower(s[i])
  {
    if s == [] then [] else [Lower(s[0])] + LowerAll(s[1..])
  }

  lemma {:induction false} LowerAllSlice(s: seq<Code>, i: nat, j: nat)
    requires i <= j <= |s|
    ensures LowerAll(s)[i..j] == LowerAll(s[i..j])
  {
  }

  predicate IsUpper(c: Code) { 65 <= c <= 90 }

  predicate IsAlphanum(c: Code) { IsUpper(c) || 97 <= c <= 122 || 48 <= c <= 57 }

  /** The `\s` class of JavaScript regular expressions, which `trim` also strips. */
  predicate IsWhitespace(c: Code)
  {
    c == 9 || c == 10 || c == 11 || c == 12 || c == 13 || c == 32 || c == 0xA0
    || c == 0x1680 || (0x2000 <= c <= 0x200A) || c == 0x2028 || c == 0x2029
    || c == 0x202F || c == 0x205F || c == 0x3000 || c == 0xFEFF
  }

  /** Reading `s[i]` in JavaScript: `undefined` outside the array. */
  function At<T>(s: seq<T>, i: int): (r: Option<T>)
    ensures r.Some? <==> 0 <= i < |s|
    ensures r.Some? ==> r.value == s[i]
  {
    if 0 <= i < |s| then Some(s[i]) else None
  }

  /** Writing `a[i] = x` into a JavaScript array: `i == |a|` appends. */
  function Store<T>(a: seq<T>, i: nat, x: T): (r: seq<T>)
    requires i <= |a|
    ensures |r| == if i == |a| then |a| + 1 else |a|
    ensures r[i] == x
    ensures forall k :: 0 <= k < |a| && k != i ==> r[k] == a[k]
  {
    if i == |a| then a + [x] else a[i := x]
  }

  predicate StrictlyIncreasing(s: seq<int>)
  {
    forall i, j :: 0 <= i < j < |s| ==> s[i] < s[j]
  }

  /** The contiguous run `from, from + 1, ..., from + n - 1`. */
  function Run(from: int, n: nat): (r: seq<int>)
    ensures |r| == n
    ensures forall k :: 0 <= k < n ==> r[k] == from + k
  {
    if n == 0 then [] else Run(from, n - 1) + [from + n - 1]
  }
}
