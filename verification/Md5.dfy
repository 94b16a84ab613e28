/** The hand-written MD5 of the package audit, against RFC 1321. */
module Md5 {
  import opened Octet
  import opened Md5Spec

  const SHIFTS: seq<nat> := SHIFTS1 + SHIFTS2 + SHIFTS3 + SHIFTS4
  const SHIFTS1: seq<nat> := [7, 12, 17, 22, 7, 12, 17, 22, 7, 12, 17, 22, 7, 12, 17, 22]
  const SHIFTS2: seq<nat> := [5, 9, 14, 20, 5, 9, 14, 20, 5, 9, 14, 20, 5, 9, 14, 20]
  const SHIFTS3: seq<nat> := [4, 11, 16, 23, 4, 11, 16, 23, 4, 11, 16, 23, 4, 11, 16, 23]
  const SHIFTS4: seq<nat> := [6, 10, 15, 21, 6, 10, 15, 21, 6, 10, 15, 21, 6, 10, 15, 21]

  lemma ShiftRows12(j: nat)
    requires j < 16
    ensures |SHIFTS1| == |SHIFTS2| == 16
    ensures SHIFTS1[j] == Cycle(j, 7, 12, 17, 22) && SHIFTS2[j] == Cycle(j, 5, 9, 14, 20)
  {
  }

  lemma ShiftRows34(j: nat)
    requires j < 16
    ensures |SHIFTS3| == |SHIFTS4| == 16
    ensures SHIFTS3[j] == Cycle(j, 4, 11, 16, 23) && SHIFTS4[j] == Cycle(j, 6, 10, 15, 21)
  {
  }

  lemma ShiftsAreRotations(i: nat)
    requires i < 64
    ensures |SHIFTS| == 64 && SHIFTS[i] == Rotation(i)
  {
    hide SHIFTS1, SHIFTS2, SHIFTS3, SHIFTS4;
    ShiftRows12(i % 16);
    ShiftRows34(i % 16);
  }

  // ---- padding ----

  method Pad(bytes: seq<byte>) returns (padded: seq<byte>)
    ensures IsPadded(bytes, padded)
  {
    hide Fills, LeBytes, Gap, Zeros;
    var bitLen := |bytes| * 8 % U64;
    padded := bytes + [0x80];
    ghost var k := 0;
    while |padded| % 64 != 56
      invariant padded == bytes + [0x80] + Zeros(k)
      invariant forall fewer :: 0 <= fewer < k ==> !Fills(|bytes|, fewer)
      decreases Gap(|padded|)
    {
      NotYetFull(bytes, padded, k);
      GapShrinks(|padded|);
      assert Zeros(k + 1) == Zeros(k) + [0];
      padded := padded + [0];
      k := k + 1;
    }
    NotYetFull(bytes, padded, k);
    padded := padded + LeBytes(bitLen, 8);
  }

  /** How far a length is from being congruent to 56. */
  function Gap(length: nat): nat {
    (120 - length % 64) % 64
  }

  lemma GapShrinks(length: nat)
    requires length % 64 != 56
    ensures Gap(length + 1) < Gap(length)
  {
    var m := length % 64;
    assert (length + 1) % 64 == if m == 63 then 0 else m + 1;
    assert Gap(length) == if m <= 56 then 56 - m else 120 - m;
  }

  lemma NotYetFull(bytes: seq<byte>, padded: seq<byte>, k: nat)
    requires padded == bytes + [0x80] + Zeros(k)
    ensures Fills(|bytes|, k) <==> |padded| % 64 == 56
  {
  }

  // ---- one block ----

  /** The bits of `y` where `x` has ones and the bits of `z` where it has zeros. */
  function Choose(x: bv32, y: bv32, z: bv32): bv32 {
    (x & y) | (!x & z)
  }

  lemma ChooseIs(x: bv32, y: bv32, z: bv32)
    ensures Choose(x, y, z) == F(x, y, z) && Choose(z, x, y) == G(x, y, z)
  {
  }

  function Mixed(index: nat, b: bv32, c: bv32, d: bv32): bv32 {
    if index <= 15 then Choose(b, c, d)
    else if index <= 31 then Choose(d, b, c)
    else if index <= 47 then H(b, c, d)
    else I(b, c, d)
  }

  function WordIndex(index: nat): (word: nat)
    requires index < 64
    ensures word < 16
  {
    if index <= 15 then index
    else if index <= 31 then (5 * index + 1) % 16
    else if index <= 47 then (3 * index + 5) % 16
    else 7 * index % 16
  }

  lemma MixedIsMix(i: nat, b: bv32, c: bv32, d: bv32)
    requires i < 64
    ensures Mixed(i, b, c, d) == Mix(i / 16, b, c, d)
  {
    hide Choose, F, G, H, I;
    ChooseIs(b, c, d);
  }

  lemma RoundFormulas12(j: nat)
    requires j < 16
    ensures |ROUND1| == |ROUND2| == 16 && ROUND1[j] == j && ROUND2[j] == (5 * (j + 16) + 1) % 16
  {
  }

  lemma RoundFormulas34(j: nat)
    requires j < 16
    ensures |ROUND3| == |ROUND4| == 16 && ROUND3[j] == (3 * (j + 32) + 5) % 16 && ROUND4[j] == 7 * (j + 48) % 16
  {
  }

  /** The index formulas give the four tables of section 3.4. */
  lemma WordIndexIsOrder(i: nat)
    requires i < 64
    ensures |ORDER| == 64 && WordIndex(i) == ORDER[i]
  {
    hide ROUND1, ROUND2, ROUND3, ROUND4, ORDER;
    OrderRow(i);
    if i < 32 {
      RoundFormulas12(if i < 16 then i else i - 16);
    } else {
      RoundFormulas34(if i < 48 then i - 32 else i - 48);
    }
  }

  lemma AddSwaps(a: bv32, x: bv32, y: bv32)
    ensures Add(Add(a, x), y) == Add(Add(a, y), x) && Add(a, x) == Add(x, a)
  {
  }

  /** What one turn of the loop computes. */
  function Next(i: nat, x: seq<bv32>, a: bv32, b: bv32, c: bv32, d: bv32): bv32
    requires i < 64 && IsBlock(x)
  {
    ShiftsAreRotations(i);
    Add(Rotate(Add(Add(Add(a, Mixed(i, b, c, d)), SINES[i]), x[WordIndex(i)]), SHIFTS[i]), b)
  }

  lemma NextIsOperation(i: nat, x: seq<bv32>, a: bv32, b: bv32, c: bv32, d: bv32)
    requires i < 64 && IsBlock(x)
    ensures Next(i, x, a, b, c, d) == Operation(i, x, a, b, c, d)
  {
    hide Add, Rotate, Mix, Mixed, SINES, ORDER, SHIFTS, WordIndex, Rotation;
    ShiftsAreRotations(i);
    OrderBound(i);
    MixedIsMix(i, b, c, d);
    WordIndexIsOrder(i);
    AddSwaps(Add(a, Mixed(i, b, c, d)), SINES[i], x[WordIndex(i)]);
    AddSwaps(Rotate(Add(Add(Add(a, Mixed(i, b, c, d)), SINES[i]), x[WordIndex(i)]), SHIFTS[i]), b, b);
  }

  /** The source renames its registers each turn where the standard leaves them in place: after `i` turns its
      names stand for these. */
  function View(i: nat, r: Registers<bv32>): Registers<bv32> {
    Turned(i % 4, r)
  }

  function Turned<T>(k: nat, r: Registers<T>): Registers<T> {
    match k
    case 0 => r
    case 1 => Registers(r.d, r.a, r.b, r.c)
    case 2 => Registers(r.c, r.d, r.a, r.b)
    case _ => Registers(r.b, r.c, r.d, r.a)
  }

  /** The register that the operation of this turn rewrites. */
  function Rewritten<T>(k: nat, r: Registers<T>, w: T): Registers<T> {
    match k
    case 0 => r.(a := w)
    case 1 => r.(d := w)
    case 2 => r.(c := w)
    case _ => r.(b := w)
  }

  lemma StepRewrites(i: nat, x: seq<bv32>, r: Registers<bv32>)
    requires i < 64 && IsBlock(x)
    ensures var v := Turned(i % 4, r);
      Step(i, x, r) == Rewritten(i % 4, r, Operation(i, x, v.a, v.b, v.c, v.d))
  {
    hide Operation, IsBlock;
    var v := Turned(i % 4, r);
    match i % 4
    case 0 => assert v == r;
    case 1 => assert v == Registers(r.d, r.a, r.b, r.c);
    case 2 => assert v == Registers(r.c, r.d, r.a, r.b);
    case _ => assert v == Registers(r.b, r.c, r.d, r.a);
  }

  lemma RewriteTurns<T>(k: nat, r: Registers<T>, w: T)
    requires k < 4
    ensures var v := Turned(k, r);
      Turned(if k == 3 then 0 else k + 1, Rewritten(k, r, w)) == Registers(v.d, w, v.b, v.c)
  {
  }

  lemma TurnIsStep(i: nat, x: seq<bv32>, r: Registers<bv32>)
    requires i < 64 && IsBlock(x)
    ensures var v := View(i, r);
      View(i + 1, Step(i, x, r)) == Registers(v.d, Next(i, x, v.a, v.b, v.c, v.d), v.b, v.c)
  {
    hide Next, Operation, IsBlock, Turned, Step, Rewritten;
    var v := Turned(i % 4, r);
    StepRewrites(i, x, r);
    RewriteTurns(i % 4, r, Operation(i, x, v.a, v.b, v.c, v.d));
    NextIsOperation(i, x, v.a, v.b, v.c, v.d);
    assert (i + 1) % 4 == if i % 4 == 3 then 0 else i % 4 + 1;
  }

  function Held(state: array<bv32>): Registers<bv32>
    requires state.Length == 4
    reads state
  {
    Registers(state[0], state[1], state[2], state[3])
  }

  method ReadWords(chunk: seq<byte>) returns (words: array<bv32>)
    requires |chunk| == 64
    ensures fresh(words) && words[..] == Words(chunk)
  {
    hide WordOf;
    words := new bv32[16];
    for k := 0 to 16
      invariant forall j :: 0 <= j < k ==> words[j] == WordOf(chunk[4 * j..4 * j + 4])
    {
      words[k] := WordOf(chunk[4 * k..4 * k + 4]);
    }
  }

  /** One chunk: the state goes from the registers before to the registers after the standard's block. */
  method Absorb(state: array<bv32>, chunk: seq<byte>)
    requires state.Length == 4 && |chunk| == 64
    modifies state
    ensures Held(state) == Block(Words(chunk), old(Held(state)))
  {
    hide Next, Step, View, Words, Add;
    var words := ReadWords(chunk);
    ghost var x, r := Words(chunk), Held(state);
    var a, b, c, d := state[0], state[1], state[2], state[3];
    ViewOfNone(r);
    for index := 0 to 64
      invariant words[..] == x
      invariant Registers(a, b, c, d) == View(index, Steps(index, x, r))
      invariant Held(state) == r
    {
      TurnIsStep(index, x, Steps(index, x, r));
      var next := Next(index, words[..], a, b, c, d);
      a := d;
      d := c;
      c := b;
      b := next;
    }
    ViewOfAll(Steps(64, x, r));
    state[0] := Add(state[0], a);
    state[1] := Add(state[1], b);
    state[2] := Add(state[2], c);
    state[3] := Add(state[3], d);
  }

  lemma ViewOfNone(r: Registers<bv32>)
    ensures View(0, r) == r
  {
  }

  lemma ViewOfAll(r: Registers<bv32>)
    ensures View(64, r) == r
  {
  }

  // ---- the digest ----

  function HexDigit(n: nat): (c: char)
    requires n < 16
    ensures '0' <= c <= '9' || 'a' <= c <= 'f'
  {
    if n < 10 then ('0' as int + n) as char else ('a' as int + n - 10) as char
  }

  /** Two lower-case digits for each byte. */
  function Hex(s: seq<byte>): (h: string)
    ensures |h| == 2 * |s|
    ensures forall i :: 0 <= i < |h| ==> '0' <= h[i] <= '9' || 'a' <= h[i] <= 'f'
  {
    if s == [] then "" else [HexDigit(s[0] / 16), HexDigit(s[0] % 16)] + Hex(s[1..])
  }

  lemma {:induction false} HexInjective(s: seq<byte>, t: seq<byte>)
    requires Hex(s) == Hex(t)
    ensures s == t
  {
    if s != [] && t != [] {
      var h := Hex(s);
      assert h[0] == HexDigit(s[0] / 16) && h[1] == HexDigit(s[0] % 16) && h[2..] == Hex(s[1..]);
      assert h[0] == HexDigit(t[0] / 16) && h[1] == HexDigit(t[0] % 16) && h[2..] == Hex(t[1..]);
      HexInjective(s[1..], t[1..]);
      assert s == [s[0]] + s[1..] && t == [t[0]] + t[1..];
    }
  }

  /** `text` is the MD5 digest of the message in hexadecimal. */
  ghost predicate IsDigest(message: seq<byte>, text: string) {
    exists padded :: IsPadded(message, padded) && |padded| % 64 == 0 && text == Hex(Output(Blocks(padded)))
  }

  lemma DigestUnique(message: seq<byte>, a: string, b: string)
    requires IsDigest(message, a) && IsDigest(message, b)
    ensures a == b && |a| == 32
  {
    hide IsPadded, Blocks;
    var p :| IsPadded(message, p) && |p| % 64 == 0 && a == Hex(Output(Blocks(p)));
    var q :| IsPadded(message, q) && |q| % 64 == 0 && b == Hex(Output(Blocks(q)));
    PaddedUnique(message, p, q);
  }

  method Md5Digest(bytes: seq<byte>) returns (text: string)
    ensures IsDigest(bytes, text)
  {
    hide IsPadded, Blocks, Hex, Output, Block, Words;
    var padded := Pad(bytes);
    PaddedBlocks(bytes, padded);
    var state := new bv32[4];
    state[0], state[1], state[2], state[3] := 0x67452301, 0xefcdab89, 0x98badcfe, 0x10325476;
    NoBlocks();
    var at := 0;
    while at + 64 <= |padded|
      invariant at % 64 == 0 && at <= |padded|
      invariant Held(state) == Blocks(padded[..at])
    {
      MoreBlocks(padded, at);
      Absorb(state, padded[at..at + 64]);
      at := at + 64;
    }
    assert padded[..at] == padded;
    text := Hex(Output(Held(state)));
  }

  lemma NoBlocks()
    ensures Blocks([]) == Registers(0x67452301, 0xefcdab89, 0x98badcfe, 0x10325476)
  {
  }

  lemma MoreBlocks(padded: seq<byte>, at: nat)
    requires at % 64 == 0 && at + 64 <= |padded|
    ensures Blocks(padded[..at + 64]) == Block(Words(padded[at..at + 64]), Blocks(padded[..at]))
  {
    hide Block, Words;
    var longer := padded[..at + 64];
    assert longer[at..] == padded[at..at + 64];
    assert longer[..at] == padded[..at];
  }
}
