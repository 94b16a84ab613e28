/** UTF-8: the validity test the ELF reader relies on and the encoding it stands for (RFC 3629, sections 3 and 4). */
module Utf8 {
  import opened Octet

  // ---- the test ----

  predicate IsContinuation(b: byte) {
    0x80 <= b < 0xC0
  }

  /** The byte length of the well-formed character at the front of a nonempty text, zero if there is none. */
  function CharLength(s: seq<byte>): (n: nat)
    requires s != []
    ensures n <= |s| && n <= 4
  {
    if s[0] < 0x80 then 1
    else if 0xC2 <= s[0] < 0xE0 then
      if |s| >= 2 && IsContinuation(s[1]) then 2 else 0
    else if 0xE0 <= s[0] < 0xF0 then
      if |s| >= 3 && IsContinuation(s[1]) && IsContinuation(s[2])
         && (s[0] == 0xE0 ==> s[1] >= 0xA0) && (s[0] == 0xED ==> s[1] < 0xA0) then 3 else 0
    else if 0xF0 <= s[0] < 0xF5 then
      if |s| >= 4 && IsContinuation(s[1]) && IsContinuation(s[2]) && IsContinuation(s[3])
         && (s[0] == 0xF0 ==> s[1] >= 0x90) && (s[0] == 0xF4 ==> s[1] < 0x90) then 4 else 0
    else 0
  }

  predicate IsUtf8(s: seq<byte>) {
    s == [] || (var n := CharLength(s); n > 0 && IsUtf8(s[n..]))
  }

  // ---- the encoding ----

  /** A code point that is no surrogate. */
  predicate IsScalar(c: nat) {
    c < 0xD800 || 0xE000 <= c <= 0x10FFFF
  }

  /** The low six bits after the first `d` of them. */
  function Follow(c: nat, d: nat): byte
    requires d > 0
  {
    0x80 + c / d % 64
  }

  function Encode(c: nat): (s: seq<byte>)
    requires c <= 0x10FFFF
    ensures 1 <= |s| <= 4
  {
    if c < 0x80 then [c]
    else if c < 0x800 then [0xC0 + c / 64, Follow(c, 1)]
    else if c < 0x1_0000 then [0xE0 + c / 4096, Follow(c, 64), Follow(c, 1)]
    else [0xF0 + c / 262_144, Follow(c, 4096), Follow(c, 64), Follow(c, 1)]
  }

  predicate AllScalar(cs: seq<nat>) {
    forall i :: 0 <= i < |cs| ==> IsScalar(cs[i])
  }

  function EncodeAll(cs: seq<nat>): seq<byte>
    requires AllScalar(cs)
  {
    if cs == [] then [] else Encode(cs[0]) + EncodeAll(cs[1..])
  }

  // ---- the test accepts exactly the encodings ----

  lemma FollowContinues(c: nat, d: nat)
    requires d > 0
    ensures IsContinuation(Follow(c, d))
  {
  }

  lemma LengthTwo(c: nat, s: seq<byte>)
    requires 0x80 <= c < 0x800 && Encode(c) <= s
    ensures CharLength(s) == 2
  {
    FollowContinues(c, 1);
    assert s[0] == Encode(c)[0] && s[1] == Encode(c)[1];
    hide IsContinuation, Follow;
  }

  lemma LengthThree(c: nat, s: seq<byte>)
    requires 0x800 <= c < 0x1_0000 && IsScalar(c) && Encode(c) <= s
    ensures CharLength(s) == 3
  {
    FollowContinues(c, 64);
    FollowContinues(c, 1);
    assert s[0] == Encode(c)[0] && s[1] == Encode(c)[1] && s[2] == Encode(c)[2];
    assert s[0] == 0xE0 + c / 4096 && s[1] == 0x80 + c / 64 % 64;
    assert c / 4096 == 0 ==> 32 <= c / 64 < 64;
    assert c / 4096 == 13 && c < 0xD800 ==> 832 <= c / 64 < 864;
    hide IsContinuation, Follow, Encode;
  }

  lemma LengthFour(c: nat, s: seq<byte>)
    requires 0x1_0000 <= c <= 0x10FFFF && Encode(c) <= s
    ensures CharLength(s) == 4
  {
    FollowContinues(c, 4096);
    FollowContinues(c, 64);
    FollowContinues(c, 1);
    assert s[0] == Encode(c)[0] && s[1] == Encode(c)[1] && s[2] == Encode(c)[2] && s[3] == Encode(c)[3];
    assert s[0] == 0xF0 + c / 262_144 && s[1] == 0x80 + c / 4096 % 64;
    assert c / 262_144 == 0 ==> 16 <= c / 4096 < 64;
    assert c / 262_144 == 4 ==> 256 <= c / 4096 < 272;
    hide IsContinuation, Follow, Encode;
  }

  lemma EncodeLength(c: nat, rest: seq<byte>)
    requires IsScalar(c)
    ensures CharLength(Encode(c) + rest) == |Encode(c)|
  {
    var s := Encode(c) + rest;
    assert Encode(c) <= s;
    if c < 0x80 {
      assert s[0] == c;
    } else if c < 0x800 {
      LengthTwo(c, s);
    } else if c < 0x1_0000 {
      LengthThree(c, s);
    } else {
      LengthFour(c, s);
    }
    hide CharLength, Follow;
  }

  function Beyond(b: byte, base: nat): int {
    b as int - base
  }

  /** The code point of the character at the front. */
  function Decode(s: seq<byte>): (c: nat)
    requires s != [] && CharLength(s) > 0
  {
    match CharLength(s)
    case 1 => s[0]
    case 2 => Beyond(s[0], 0xC0) * 64 + Beyond(s[1], 0x80)
    case 3 => Beyond(s[0], 0xE0) * 4096 + Beyond(s[1], 0x80) * 64 + Beyond(s[2], 0x80)
    case _ => Beyond(s[0], 0xF0) * 262_144 + Beyond(s[1], 0x80) * 4096 + Beyond(s[2], 0x80) * 64 + Beyond(s[3], 0x80)
  }

  lemma DecodeTwo(s: seq<byte>)
    requires s != [] && CharLength(s) == 2
    ensures IsScalar(Decode(s)) && Encode(Decode(s)) == s[..2]
  {
    var c := Decode(s);
    assert c / 64 == Beyond(s[0], 0xC0);
  }

  lemma DecodeThree(s: seq<byte>)
    requires s != [] && CharLength(s) == 3
    ensures IsScalar(Decode(s)) && Encode(Decode(s)) == s[..3]
  {
    var c := Decode(s);
    assert c / 4096 == Beyond(s[0], 0xE0);
    assert c / 64 == Beyond(s[0], 0xE0) * 64 + Beyond(s[1], 0x80);
  }

  lemma DecodeFour(s: seq<byte>)
    requires s != [] && CharLength(s) == 4
    ensures IsScalar(Decode(s)) && Encode(Decode(s)) == s[..4]
  {
    var c := Decode(s);
    assert c / 262_144 == Beyond(s[0], 0xF0);
    assert c / 4096 == Beyond(s[0], 0xF0) * 64 + Beyond(s[1], 0x80);
    assert c / 64 == Beyond(s[0], 0xF0) * 4096 + Beyond(s[1], 0x80) * 64 + Beyond(s[2], 0x80);
  }

  lemma DecodeEncodes(s: seq<byte>)
    requires s != [] && CharLength(s) > 0
    ensures IsScalar(Decode(s)) && Encode(Decode(s)) == s[..CharLength(s)]
  {
    match CharLength(s)
    case 1 => assert Decode(s) == s[0] < 0x80;
    case 2 => DecodeTwo(s);
    case 3 => DecodeThree(s);
    case _ => DecodeFour(s);
  }

  lemma {:induction false} EncodedIsUtf8(cs: seq<nat>)
    requires AllScalar(cs)
    ensures IsUtf8(EncodeAll(cs))
  {
    hide CharLength, Encode;
    if cs != [] {
      var rest := EncodeAll(cs[1..]);
      EncodeLength(cs[0], rest);
      EncodedIsUtf8(cs[1..]);
      assert (Encode(cs[0]) + rest)[|Encode(cs[0])|..] == rest;
    }
  }

  lemma {:induction false} Utf8IsEncoded(s: seq<byte>) returns (cs: seq<nat>)
    requires IsUtf8(s)
    ensures AllScalar(cs) && EncodeAll(cs) == s
  {
    hide CharLength, Encode, Decode, IsScalar;
    cs := [];
    if s != [] {
      var n := CharLength(s);
      DecodeEncodes(s);
      var rest := Utf8IsEncoded(s[n..]);
      cs := [Decode(s)] + rest;
      assert cs[1..] == rest && s == s[..n] + s[n..];
    }
  }

  /** Bytes pass the test exactly when they are the encoding of code points that are no surrogates. */
  lemma Utf8Iff(s: seq<byte>)
    ensures IsUtf8(s) <==> exists cs :: AllScalar(cs) && EncodeAll(cs) == s
  {
    hide IsUtf8, EncodeAll, AllScalar;
    if IsUtf8(s) {
      var cs := Utf8IsEncoded(s);
    }
    if cs :| AllScalar(cs) && EncodeAll(cs) == s {
      EncodedIsUtf8(cs);
    }
  }
}
