/** The MD5 message digest as RFC 1321 describes it, section by section. */
module Md5Spec {
  import opened Octet

  // ---- 32-bit words ----

  function Add(a: bv32, b: bv32): bv32 {
    a + b
  }

  function Rotate(a: bv32, s: nat): bv32
    requires s < 32
  {
    a.RotateLeft(s)
  }

  function WordOf(s: seq<byte>): bv32
    requires |s| == 4
  {
    LeBound(s);
    assert Pow256(4) == 0x1_0000_0000;
    Le(s) as bv32
  }

  function WordBytes(w: bv32): (s: seq<byte>)
    ensures |s| == 4
  {
    LeBytes(w as nat, 4)
  }

  // ---- sections 3.1 and 3.2: padding and length ----

  predicate Fills(length: nat, k: nat) {
    (length + 1 + k) % 64 == 56
  }

  /** `k` zero bytes after the one bit make the length congruent to 448 bits modulo 512, and no fewer do. */
  predicate IsFill(length: nat, k: nat) {
    && Fills(length, k)
    && forall fewer :: 0 <= fewer < k ==> !Fills(length, fewer)
  }

  /** The padded message: the one bit, the fill, and the length in bits as two words, the low one first. */
  ghost predicate IsPadded(message: seq<byte>, padded: seq<byte>) {
    exists k: nat :: IsFill(|message|, k)
      && padded == message + [0x80] + Zeros(k) + LeBytes(|message| * 8 % U64, 8)
  }

  // ---- section 3.4: four rounds of sixteen operations ----

  function F(x: bv32, y: bv32, z: bv32): bv32 {
    (x & y) | (!x & z)
  }

  function G(x: bv32, y: bv32, z: bv32): bv32 {
    (x & z) | (y & !z)
  }

  function H(x: bv32, y: bv32, z: bv32): bv32 {
    x ^ y ^ z
  }

  function I(x: bv32, y: bv32, z: bv32): bv32 {
    y ^ (x | !z)
  }

  function Mix(round: nat, x: bv32, y: bv32, z: bv32): bv32 {
    match round
    case 0 => F(x, y, z)
    case 1 => G(x, y, z)
    case 2 => H(x, y, z)
    case _ => I(x, y, z)
  }

  /** The integer part of 4294967296 times abs(sin(i)), for i from 1 to 64. */
  const SINES: seq<bv32> := SINES1 + SINES2 + SINES3 + SINES4
  const SINES1: seq<bv32> := [
    0xd76aa478, 0xe8c7b756, 0x242070db, 0xc1bdceee, 0xf57c0faf, 0x4787c62a, 0xa8304613, 0xfd469501,
    0x698098d8, 0x8b44f7af, 0xffff5bb1, 0x895cd7be, 0x6b901122, 0xfd987193, 0xa679438e, 0x49b40821]
  const SINES2: seq<bv32> := [
    0xf61e2562, 0xc040b340, 0x265e5a51, 0xe9b6c7aa, 0xd62f105d, 0x02441453, 0xd8a1e681, 0xe7d3fbc8,
    0x21e1cde6, 0xc33707d6, 0xf4d50d87, 0x455a14ed, 0xa9e3e905, 0xfcefa3f8, 0x676f02d9, 0x8d2a4c8a]
  const SINES3: seq<bv32> := [
    0xfffa3942, 0x8771f681, 0x6d9d6122, 0xfde5380c, 0xa4beea44, 0x4bdecfa9, 0xf6bb4b60, 0xbebfbc70,
    0x289b7ec6, 0xeaa127fa, 0xd4ef3085, 0x04881d05, 0xd9d4d039, 0xe6db99e5, 0x1fa27cf8, 0xc4ac5665]
  const SINES4: seq<bv32> := [
    0xf4292244, 0x432aff97, 0xab9423a7, 0xfc93a039, 0x655b59c3, 0x8f0ccc92, 0xffeff47d, 0x85845dd1,
    0x6fa87e4f, 0xfe2ce6e0, 0xa3014314, 0x4e0811a1, 0xf7537e82, 0xbd3af235, 0x2ad7d2bb, 0xeb86d391]

  /** The word each operation takes, as the four tables of section 3.4 list them. */
  const ORDER: seq<nat> := ROUND1 + ROUND2 + ROUND3 + ROUND4
  const ROUND1: seq<nat> := [0, 1, 2, 3, 4, 5, 6, 7, 8, 9, 10, 11, 12, 13, 14, 15]
  const ROUND2: seq<nat> := [1, 6, 11, 0, 5, 10, 15, 4, 9, 14, 3, 8, 13, 2, 7, 12]
  const ROUND3: seq<nat> := [5, 8, 11, 14, 1, 4, 7, 10, 13, 0, 3, 6, 9, 12, 15, 2]
  const ROUND4: seq<nat> := [0, 7, 14, 5, 12, 3, 10, 1, 8, 15, 6, 13, 4, 11, 2, 9]

  function Cycle(i: nat, s0: nat, s1: nat, s2: nat, s3: nat): nat {
    match i % 4
    case 0 => s0
    case 1 => s1
    case 2 => s2
    case _ => s3
  }

  /** The four rotations each round cycles through. */
  function Rotation(i: nat): (s: nat)
    requires i < 64
    ensures s < 32
  {
    match i / 16
    case 0 => Cycle(i, 7, 12, 17, 22)
    case 1 => Cycle(i, 5, 9, 14, 20)
    case 2 => Cycle(i, 4, 11, 16, 23)
    case _ => Cycle(i, 6, 10, 15, 21)
  }

  datatype Registers<T> = Registers(a: T, b: T, c: T, d: T)

  predicate IsBlock(x: seq<bv32>) {
    |x| == 16
  }

  lemma RoundBounds(j: nat)
    requires j < 16
    ensures |ROUND1| == |ROUND2| == |ROUND3| == |ROUND4| == 16
    ensures ROUND1[j] < 16 && ROUND2[j] < 16 && ROUND3[j] < 16 && ROUND4[j] < 16
  {
  }

  /** The table is its four rows. */
  lemma OrderRow(i: nat)
    requires i < 64
    ensures |ROUND1| == |ROUND2| == |ROUND3| == |ROUND4| == 16 && |ORDER| == 64
    ensures i < 16 ==> ORDER[i] == ROUND1[i]
    ensures 16 <= i < 32 ==> ORDER[i] == ROUND2[i - 16]
    ensures 32 <= i < 48 ==> ORDER[i] == ROUND3[i - 32]
    ensures 48 <= i ==> ORDER[i] == ROUND4[i - 48]
  {
    hide ROUND1, ROUND2, ROUND3, ROUND4;
    RoundBounds(0);
  }

  lemma SinesRow(i: nat)
    requires i < 64
    ensures |SINES1| == |SINES2| == |SINES3| == |SINES4| == 16 && |SINES| == 64
    ensures i < 16 ==> SINES[i] == SINES1[i]
    ensures 16 <= i < 32 ==> SINES[i] == SINES2[i - 16]
    ensures 32 <= i < 48 ==> SINES[i] == SINES3[i - 32]
    ensures 48 <= i ==> SINES[i] == SINES4[i - 48]
  {
    SineRows();
    hide SINES1, SINES2, SINES3, SINES4;
  }

  lemma SineRows()
    ensures |SINES1| == |SINES2| == |SINES3| == |SINES4| == 16
  {
  }

  lemma OrderBound(i: nat)
    requires i < 64
    ensures |ORDER| == 64 && |SINES| == 64 && ORDER[i] < 16
  {
    hide ROUND1, ROUND2, ROUND3, ROUND4, ORDER, SINES;
    OrderRow(i);
    SinesRow(i);
    if i < 16 {
      RoundBounds(i);
    } else if i < 32 {
      RoundBounds(i - 16);
    } else if i < 48 {
      RoundBounds(i - 32);
    } else {
      RoundBounds(i - 48);
    }
  }

  /** `a = b + ((a + F(b,c,d) + X[k] + T[i]) <<< s)`. */
  function Operation(i: nat, x: seq<bv32>, a: bv32, b: bv32, c: bv32, d: bv32): bv32
    requires i < 64 && IsBlock(x)
  {
    OrderBound(i);
    Add(b, Rotate(Add(Add(Add(a, Mix(i / 16, b, c, d)), x[ORDER[i]]), SINES[i]), Rotation(i)))
  }

  /** `[ABCD k s i]`, `[DABC k s i]`, `[CDAB k s i]`, `[BCDA k s i]` in turn: the registers stay where they are. */
  function Step(i: nat, x: seq<bv32>, r: Registers<bv32>): Registers<bv32>
    requires i < 64 && IsBlock(x)
  {
    match i % 4
    case 0 => r.(a := Operation(i, x, r.a, r.b, r.c, r.d))
    case 1 => r.(d := Operation(i, x, r.d, r.a, r.b, r.c))
    case 2 => r.(c := Operation(i, x, r.c, r.d, r.a, r.b))
    case _ => r.(b := Operation(i, x, r.b, r.c, r.d, r.a))
  }

  /** The first `n` operations. */
  function Steps(n: nat, x: seq<bv32>, r: Registers<bv32>): Registers<bv32>
    requires n <= 64 && IsBlock(x)
  {
    if n == 0 then r else Step(n - 1, x, Steps(n - 1, x, r))
  }

  function Sum(r: Registers<bv32>, s: Registers<bv32>): Registers<bv32> {
    Registers(Add(r.a, s.a), Add(r.b, s.b), Add(r.c, s.c), Add(r.d, s.d))
  }

  function Block(x: seq<bv32>, r: Registers<bv32>): Registers<bv32>
    requires IsBlock(x)
  {
    Sum(r, Steps(64, x, r))
  }

  /** The sixteen words of a block, each from four bytes with the low-order byte first. */
  function Words(block: seq<byte>): (x: seq<bv32>)
    requires |block| == 64
    ensures IsBlock(x)
  {
    seq(16, k requires 0 <= k < 16 => WordOf(block[4 * k..4 * k + 4]))
  }

  // ---- sections 3.3 and 3.5: the buffer and the output ----

  const START: Registers<bv32> := Registers(0x67452301, 0xefcdab89, 0x98badcfe, 0x10325476)

  function Blocks(padded: seq<byte>): Registers<bv32>
    requires |padded| % 64 == 0
  {
    if padded == [] then START
    else
      var n := |padded| - 64;
      Block(Words(padded[n..]), Blocks(padded[..n]))
  }

  function Output(r: Registers<bv32>): seq<byte> {
    WordBytes(r.a) + WordBytes(r.b) + WordBytes(r.c) + WordBytes(r.d)
  }

  lemma PaddedBlocks(message: seq<byte>, padded: seq<byte>)
    requires IsPadded(message, padded)
    ensures |padded| % 64 == 0 && |message| + 9 <= |padded| <= |message| + 72
  {
    var k: nat :| IsFill(|message|, k)
      && padded == message + [0x80] + Zeros(k) + LeBytes(|message| * 8 % U64, 8);
    FillBound(|message|, k);
  }

  lemma FillBound(length: nat, k: nat)
    requires IsFill(length, k)
    ensures k < 64 && (length + 1 + k + 8) % 64 == 0
  {
    var least := (64 + 55 - length % 64) % 64;
    assert Fills(length, least);
  }

  lemma FillUnique(length: nat, j: nat, k: nat)
    requires IsFill(length, j) && IsFill(length, k)
    ensures j == k
  {
  }

  /** A message has one padding. */
  lemma PaddedUnique(message: seq<byte>, p: seq<byte>, q: seq<byte>)
    requires IsPadded(message, p) && IsPadded(message, q)
    ensures p == q
  {
    hide IsFill, LeBytes;
    var j: nat :| IsFill(|message|, j) && p == message + [0x80] + Zeros(j) + LeBytes(|message| * 8 % U64, 8);
    var k: nat :| IsFill(|message|, k) && q == message + [0x80] + Zeros(k) + LeBytes(|message| * 8 % U64, 8);
    FillUnique(|message|, j, k);
  }

  // ---- what padding keeps ----

  /** The message ends where the last byte that is not zero stands, once the length is cut off. */
  lemma OneBitUnique(m: seq<byte>, j: nat, n: seq<byte>, k: nat)
    requires m + [0x80] + Zeros(j) == n + [0x80] + Zeros(k)
    ensures m == n
  {
    var p, q := m + [0x80] + Zeros(j), n + [0x80] + Zeros(k);
    assert p[|m|] == 0x80 && q[|n|] == 0x80;
    assert forall i :: |m| < i < |p| ==> p[i] == 0;
    assert forall i :: |n| < i < |q| ==> q[i] == 0;
    assert |m| == |n|;
    assert m == p[..|m|] && n == q[..|n|];
  }

  /** No two messages, of whatever length, pad to the same blocks. */
  lemma PaddingIsInjective(m: seq<byte>, n: seq<byte>, padded: seq<byte>)
    requires IsPadded(m, padded) && IsPadded(n, padded)
    ensures m == n
  {
    hide IsFill, LeBytes;
    var j: nat :| IsFill(|m|, j) && padded == m + [0x80] + Zeros(j) + LeBytes(|m| * 8 % U64, 8);
    var k: nat :| IsFill(|n|, k) && padded == n + [0x80] + Zeros(k) + LeBytes(|n| * 8 % U64, 8);
    var cut := |padded| - 8;
    assert padded[..cut] == m + [0x80] + Zeros(j);
    assert padded[..cut] == n + [0x80] + Zeros(k);
    OneBitUnique(m, j, n, k);
  }

  /** The last eight bytes give the length back exactly while it stays below 2^61 bytes. */
  lemma LengthReadsBackIff(message: seq<byte>, padded: seq<byte>)
    requires IsPadded(message, padded)
    ensures |padded| >= 8
    ensures Le(padded[|padded| - 8..]) == |message| * 8 <==> |message| < 0x2000_0000_0000_0000
  {
    hide IsFill, LeBytes, Le;
    var k: nat :| IsFill(|message|, k)
      && padded == message + [0x80] + Zeros(k) + LeBytes(|message| * 8 % U64, 8);
    assert padded[|padded| - 8..] == LeBytes(|message| * 8 % U64, 8);
    assert Pow256(4) == 0x1_0000_0000;
    assert Pow256(8) == U64;
    LeOfLeBytes(|message| * 8 % U64, 8);
  }
}
