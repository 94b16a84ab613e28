/** XXH64 as the xxHash fast digest algorithm specification describes it, step by step. */
module Xxh64Spec {
  import opened Sequences

  const P1: bv64 := 11_400_714_785_074_694_791
  const P2: bv64 := 14_029_467_366_897_019_727
  const P3: bv64 := 1_609_587_929_392_839_161
  const P4: bv64 := 9_650_029_242_287_828_579
  const P5: bv64 := 2_870_177_450_012_600_261

  // ---- 64-bit words ----

  function Sum(a: bv64, b: bv64): bv64 {
    a + b
  }

  function Difference(a: bv64, b: bv64): bv64 {
    a - b
  }

  function Product(a: bv64, b: bv64): bv64 {
    a * b
  }

  function Xor(a: bv64, b: bv64): bv64 {
    a ^ b
  }

  function Rotate(a: bv64, s: bv64): bv64
    requires s < 64
  {
    (a << s) | (a >> (64 - s))
  }

  function XorShift33(a: bv64): bv64 {
    a ^ (a >> 33)
  }

  function XorShift29(a: bv64): bv64 {
    a ^ (a >> 29)
  }

  function XorShift32(a: bv64): bv64 {
    a ^ (a >> 32)
  }

  function Word(n: nat): bv64 {
    (n % 0x1_0000_0000_0000_0000) as bv64
  }

  /** Byte `k`, or nothing beyond the end. */
  function Bits(s: seq<bv8>, k: nat): bv8 {
    if k < |s| then s[k] else 0
  }

  function Little(b0: bv8, b1: bv8, b2: bv8, b3: bv8, b4: bv8, b5: bv8, b6: bv8, b7: bv8): bv64 {
    (b0 as bv64) | (b1 as bv64 << 8) | (b2 as bv64 << 16) | (b3 as bv64 << 24)
    | (b4 as bv64 << 32) | (b5 as bv64 << 40) | (b6 as bv64 << 48) | (b7 as bv64 << 56)
  }

  /** Up to eight bytes read as a little-endian number. */
  function Lane(s: seq<bv8>): bv64 {
    Little(Bits(s, 0), Bits(s, 1), Bits(s, 2), Bits(s, 3), Bits(s, 4), Bits(s, 5), Bits(s, 6), Bits(s, 7))
  }

  // ---- how the input is cut ----

  /** The 32-byte stripes of the input, in order. */
  function Stripes(input: seq<bv8>): (stripes: seq<seq<bv8>>)
    ensures forall s :: s in stripes ==> |s| == 32
  {
    if |input| < 32 then [] else [input[..32]] + Stripes(input[32..])
  }

  /** What the stripes leave over. */
  function Rest(input: seq<bv8>): (rest: seq<bv8>)
    ensures |rest| < 32
  {
    if |input| < 32 then input else Rest(input[32..])
  }

  /** The remainder in eights, then at most one four, then single bytes. */
  function Chunks(rest: seq<bv8>): (chunks: seq<seq<bv8>>)
    ensures forall c :: c in chunks ==> |c| == 8 || |c| == 4 || |c| == 1
  {
    if |rest| >= 8 then [rest[..8]] + Chunks(rest[8..])
    else if |rest| >= 4 then [rest[..4]] + Chunks(rest[4..])
    else if |rest| >= 1 then [rest[..1]] + Chunks(rest[1..])
    else []
  }

  // ---- the steps ----

  datatype Accumulators<T> = Accumulators(v1: T, v2: T, v3: T, v4: T)

  /** Step 1. */
  function Initial(seed: bv64): Accumulators<bv64> {
    Accumulators(Sum(Sum(seed, P1), P2), Sum(seed, P2), seed, Difference(seed, P1))
  }

  function Round(acc: bv64, lane: bv64): bv64 {
    Product(Rotate(Sum(acc, Product(lane, P2)), 31), P1)
  }

  /** Step 2, one stripe: each accumulator takes its own lane. */
  function TakeStripe(v: Accumulators<bv64>, stripe: seq<bv8>): Accumulators<bv64>
    requires |stripe| == 32
  {
    Accumulators(
      Round(v.v1, Lane(stripe[..8])),
      Round(v.v2, Lane(stripe[8..16])),
      Round(v.v3, Lane(stripe[16..24])),
      Round(v.v4, Lane(stripe[24..])))
  }

  function TakeStripes(v: Accumulators<bv64>, stripes: seq<seq<bv8>>): Accumulators<bv64>
    requires forall s :: s in stripes ==> |s| == 32
    decreases |stripes|
  {
    if stripes == [] then v
    else
      assert stripes[0] in stripes;
      TakeStripes(TakeStripe(v, stripes[0]), stripes[1..])
  }

  function Merge(acc: bv64, v: bv64): bv64 {
    Sum(Product(Xor(acc, Round(0, v)), P1), P4)
  }

  /** Step 3. */
  function Converge(v: Accumulators<bv64>): bv64 {
    var acc := Sum(Sum(Sum(Rotate(v.v1, 1), Rotate(v.v2, 7)), Rotate(v.v3, 12)), Rotate(v.v4, 18));
    Merge(Merge(Merge(Merge(acc, v.v1), v.v2), v.v3), v.v4)
  }

  /** Step 5, one chunk. */
  function TakeChunk(acc: bv64, chunk: seq<bv8>): bv64 {
    if |chunk| == 8 then Sum(Product(Rotate(Xor(acc, Round(0, Lane(chunk))), 27), P1), P4)
    else if |chunk| == 4 then Sum(Product(Rotate(Xor(acc, Product(Lane(chunk), P1)), 23), P2), P3)
    else Product(Rotate(Xor(acc, Product(Lane(chunk), P5)), 11), P1)
  }

  function TakeChunks(acc: bv64, chunks: seq<seq<bv8>>): bv64
    decreases |chunks|
  {
    if chunks == [] then acc else TakeChunks(TakeChunk(acc, chunks[0]), chunks[1..])
  }

  /** Step 6. */
  function Avalanche(acc: bv64): bv64 {
    XorShift32(Product(XorShift29(Product(XorShift33(acc), P2)), P3))
  }

  function BeforeLength(seed: bv64, input: seq<bv8>): bv64 {
    if |input| >= 32 then Converge(TakeStripes(Initial(seed), Stripes(input))) else Sum(seed, P5)
  }

  /** Steps 1 to 6; step 4 adds the length. */
  function Digest(seed: bv64, input: seq<bv8>): bv64 {
    Avalanche(TakeChunks(Sum(BeforeLength(seed, input), Word(|input|)), Chunks(Rest(input))))
  }

  // ---- every byte once and in order ----

  lemma {:induction false} ChunksPartition(rest: seq<bv8>)
    ensures Concat(Chunks(rest)) == rest
    decreases |rest|
  {
    if rest != [] {
      var n := if |rest| >= 8 then 8 else if |rest| >= 4 then 4 else 1;
      ChunksPartition(rest[n..]);
      assert Chunks(rest) == [rest[..n]] + Chunks(rest[n..]);
      assert rest == rest[..n] + rest[n..];
    }
  }

  lemma {:induction false} StripesPartition(input: seq<bv8>)
    ensures Concat(Stripes(input)) + Rest(input) == input
    decreases |input|
  {
    if |input| >= 32 {
      StripesPartition(input[32..]);
      assert Stripes(input) == [input[..32]] + Stripes(input[32..]);
      assert input == input[..32] + input[32..];
    }
  }

  /** The stripes and then the chunks, in the order they are taken, are the input. */
  lemma InputPartition(input: seq<bv8>)
    ensures Concat(Stripes(input)) + Concat(Chunks(Rest(input))) == input
  {
    StripesPartition(input);
    ChunksPartition(Rest(input));
  }

  function NextSize(rest: seq<bv8>): nat {
    if |rest| >= 8 then 8 else if |rest| >= 4 then 4 else 1
  }

  lemma ChunksFirst(rest: seq<bv8>)
    requires rest != []
    ensures NextSize(rest) <= |rest|
    ensures Chunks(rest) == [rest[..NextSize(rest)]] + Chunks(rest[NextSize(rest)..])
  {
  }

  lemma ConcatFirst(part: seq<bv8>, parts: seq<seq<bv8>>)
    ensures |Concat([part] + parts)| == |part| + |Concat(parts)|
  {
    assert ([part] + parts)[1..] == parts;
  }

  /** Each chunk is as large as what is still to come allows: eights, then a four, then ones. */
  lemma {:induction false} ChunkSizes(rest: seq<bv8>, i: nat)
    requires i < |Chunks(rest)|
    ensures var taken := |Concat(Chunks(rest)[..i])|; taken < |rest| && |Chunks(rest)[i]| == NextSize(rest[taken..])
    decreases |rest|
  {
    var n := NextSize(rest);
    NothingChunks();
    hide NextSize, Concat, Chunks;
    ChunksFirst(rest);
    var more := Chunks(rest[n..]);
    if i > 0 {
      ChunkSizes(rest[n..], i - 1);
      var before := Chunks(rest)[..i];
      assert before == [rest[..n]] + more[..i - 1];
      ConcatFirst(rest[..n], more[..i - 1]);
      var taken := |Concat(more[..i - 1])|;
      assert rest[n..][taken..] == rest[n + taken..];
    } else {
      assert Chunks(rest)[..0] == [];
      NothingConcat<bv8>();
      assert rest[0..] == rest;
    }
  }

  lemma NothingChunks()
    ensures Chunks([]) == []
  {
  }
}
