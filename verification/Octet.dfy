/** Bytes, and numbers as little-endian bytes. */
module Octet {
  type byte = x: int | 0 <= x < 256

  /** How many values a 64-bit number has. */
  const U64: nat := 0x1_0000_0000_0000_0000

  function Zeros(n: nat): (s: seq<byte>)
    ensures |s| == n && forall i :: 0 <= i < n ==> s[i] == 0
  {
    seq(n, i requires 0 <= i < n => 0)
  }

  function Le(s: seq<byte>): nat {
    if s == [] then 0 else s[0] + 256 * Le(s[1..])
  }

  function Pow256(n: nat): nat {
    if n == 0 then 1 else 256 * Pow256(n - 1)
  }

  lemma {:induction false} LeBound(s: seq<byte>)
    ensures Le(s) < Pow256(|s|)
  {
    if s != [] {
      LeBound(s[1..]);
    }
  }

  function LeBytes(v: nat, n: nat): (s: seq<byte>)
    ensures |s| == n
  {
    if n == 0 then [] else [v % 256] + LeBytes(v / 256, n - 1)
  }

  lemma {:induction false} LeOfLeBytes(v: nat, n: nat)
    requires v < Pow256(n)
    ensures Le(LeBytes(v, n)) == v
  {
    if n > 0 {
      LeOfLeBytes(v / 256, n - 1);
      assert LeBytes(v, n)[1..] == LeBytes(v / 256, n - 1);
    }
  }

  /** The bytes of a little-endian number are determined by it. */
  lemma {:induction false} LeBytesOfLe(s: seq<byte>)
    ensures LeBytes(Le(s), |s|) == s
  {
    if s != [] {
      LeBytesOfLe(s[1..]);
      var v := Le(s);
      assert v == s[0] + 256 * Le(s[1..]);
      assert v % 256 == s[0] && v / 256 == Le(s[1..]);
      assert s == [s[0]] + s[1..];
    }
  }

  /** The least significant byte comes first. */
  lemma LeDigits(s: seq<byte>)
    ensures |s| == 2 ==> Le(s) == s[0] as int + 0x100 * s[1] as int
    ensures |s| == 4 ==> Le(s) == s[0] as int + 0x100 * s[1] as int + 0x1_0000 * s[2] as int + 0x100_0000 * s[3] as int
    ensures |s| == 8 ==> Le(s) == Le(s[..4]) + 0x1_0000_0000 * Le(s[4..])
  {
    if |s| > 0 {
      assert Le(s) == s[0] as int + 0x100 * Le(s[1..]);
    }
    if |s| >= 4 {
      LeFour(s);
      if |s| == 4 {
        assert Le(s[4..]) == 0;
      } else if |s| == 8 {
        LeFour(s[..4]);
        assert s[..4][4..] == [];
      }
    }
  }

  lemma LeFour(s: seq<byte>)
    requires |s| >= 4
    ensures Le(s) == s[0] as int + 0x100 * s[1] as int + 0x1_0000 * s[2] as int + 0x100_0000 * s[3] as int + 0x1_0000_0000 * Le(s[4..])
  {
    assert s[1..][1..] == s[2..] && s[2..][1..] == s[3..] && s[3..][1..] == s[4..];
    assert Le(s[3..]) == s[3] as int + 0x100 * Le(s[4..]);
    assert Le(s[2..]) == s[2] as int + 0x100 * Le(s[3..]);
    assert Le(s[1..]) == s[1] as int + 0x100 * Le(s[2..]);
  }
}
