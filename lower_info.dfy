/** `prepareLowerInfo`: lowered codes, the 32-bit class signature and the space flag. */
module LowerInfo {
  import opened Codes
  import opened Subsequence

  /** Which bit a non-space code sets: a-z are bits 0-25, digits 26, other ASCII 30, the rest 31. */
  function BitIndex(c: Code): (k: nat)
    ensures k < 32
    ensures k < 26 <==> 97 <= c <= 122
    ensures k == 26 <==> 48 <= c <= 57
    ensures k == 30 <==> (c <= 127 && !(97 <= c <= 122) && !(48 <= c <= 57))
    ensures k == 31 <==> c > 127
  {
    if 97 <= c <= 122 then c - 97
    else if 48 <= c <= 57 then 26
    else if c <= 127 then 30
    else 31
  }

  /**
   * A 32-bit signature, as the set of its one bits. Every bit set here is
   * below 32, `flags |= 1 << bit` adds `bit`, and `(a & b) !== a` holds
   * exactly when `a` is not a subset of `b`.
   */
  type Flags = set<nat>

  /** The signature bits one code contributes; a space contributes none. */
  function Bit(c: Code): Flags
  {
    if c == Space then {} else {BitIndex(c)}
  }

  /** `a & b == a`: `a` sets no bit that `b` does not set. */
  predicate SubMask(a: Flags, b: Flags)
  {
    a <= b
  }

  /** The signature of a code sequence, accumulated left to right with `|=`. */
  function Bitflags(s: seq<Code>): Flags
  {
    if s == [] then {} else Bitflags(s[..|s| - 1]) + Bit(s[|s| - 1])
  }

  /** A bit is set exactly when some non-space code of its class occurs; so every bit is below 32. */
  lemma {:induction false} BitflagsBits(s: seq<Code>, k: nat)
    ensures k in Bitflags(s) <==> exists i :: 0 <= i < |s| && s[i] != Space && BitIndex(s[i]) == k
    ensures k in Bitflags(s) ==> k < 32
  {
    if s != [] {
      var init := s[..|s| - 1];
      BitflagsBits(init, k);
      if exists i :: 0 <= i < |init| && init[i] != Space && BitIndex(init[i]) == k {
        var i :| 0 <= i < |init| && init[i] != Space && BitIndex(init[i]) == k;
        assert s[i] == init[i];
      }
      if exists i :: 0 <= i < |s| && s[i] != Space && BitIndex(s[i]) == k {
        var i :| 0 <= i < |s| && s[i] != Space && BitIndex(s[i]) == k;
        if i < |init| {
          assert init[i] == s[i];
        }
      }
    }
  }

  lemma BitflagsStep(s: seq<Code>, c: Code)
    ensures Bitflags(s + [c]) == Bitflags(s) + Bit(c)
  {
    assert (s + [c])[..|s|] == s;
  }

  /**
   * The filter `(searchBitflags & target._bitflags) !== searchBitflags` never
   * rejects a target that the query is a subsequence of.
   */
  lemma BitflagFilterSound(q: seq<Code>, t: seq<Code>)
    requires IsSubsequence(q, t)
    ensures SubMask(Bitflags(q), Bitflags(t))
  {
    var m :| Embeds(m, q, t);
    forall k | k in Bitflags(q) ensures k in Bitflags(t) {
      BitflagsBits(q, k);
      var i :| 0 <= i < |q| && q[i] != Space && BitIndex(q[i]) == k;
      BitflagsBits(t, k);
      assert t[m[i]] == q[i];
    }
  }

  /** What `prepareLowerInfo` returns; `_lower` coincides with `lowerCodes` here. */
  datatype Info = Info(lowerCodes: seq<Code>, bitflags: Flags, containsSpace: bool)

  /** What the pass of `prepareLowerInfo` has gathered after the first `i` codes. */
  ghost predicate Gathered(str: seq<Code>, i: nat, lowerCodes: seq<Code>, bitflags: Flags, containsSpace: bool)
  {
    && i <= |str|
    && |lowerCodes| == i
    && (forall j :: 0 <= j < i ==> lowerCodes[j] == Lower(str[j]))
    && bitflags == Bitflags(lowerCodes)
    && (containsSpace <==> exists j :: 0 <= j < i && str[j] == Space)
  }

  /** One more code: it is appended, its bit is added, and a space sets the flag. */
  lemma GatheredStep(str: seq<Code>, i: nat, lowerCodes: seq<Code>, bitflags: Flags, containsSpace: bool)
    requires i < |str| && Gathered(str, i, lowerCodes, bitflags, containsSpace)
    ensures var c := LowerAll(str)[i];
      && (c == Space <==> str[i] == Space)
      && Gathered(str, i + 1, lowerCodes + [c], bitflags + Bit(c), containsSpace || c == Space)
  {
    var c := LowerAll(str)[i];
    BitflagsStep(lowerCodes, c);
    assert c == Lower(str[i]);
    if str[i] == Space {
      assert exists j :: 0 <= j < i + 1 && str[j] == Space;
    } else {
      forall j | 0 <= j < i + 1 && str[j] == Space ensures j < i {
      }
    }
  }

  /** `prepareLowerInfo`: one pass over the lowered string. */
  method PrepareLowerInfo(str: seq<Code>) returns (info: Info)
    ensures info.lowerCodes == LowerAll(str)
    ensures |info.lowerCodes| == |str|
    ensures info.bitflags == Bitflags(info.lowerCodes)
    ensures info.containsSpace <==> exists i :: 0 <= i < |str| && str[i] == Space
  {
    var lower := LowerAll(str);
    var lowerCodes: seq<Code> := [];
    var bitflags: Flags := {};
    var containsSpace := false;
    for i := 0 to |str|
      invariant Gathered(str, i, lowerCodes, bitflags, containsSpace)
    {
      var lowerCode := lower[i];
      GatheredStep(str, i, lowerCodes, bitflags, containsSpace);
      lowerCodes := lowerCodes + [lowerCode];
      if lowerCode == Space {
        assert bitflags + Bit(lowerCode) == bitflags;
        containsSpace := true;
        continue;
      }
      var bit := BitIndex(lowerCode);
      bitflags := bitflags + {bit};
    }
    info := Info(lowerCodes, bitflags, containsSpace);
  }
}
