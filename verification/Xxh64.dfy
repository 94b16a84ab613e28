/** The hand-written XXH64, against the specification. */
module Xxh64 {
  import opened Xxh64Spec

  function Held(lanes: array<bv64>): Accumulators<bv64>
    requires lanes.Length == 4
    reads lanes
  {
    Accumulators(lanes[0], lanes[1], lanes[2], lanes[3])
  }

  function At<T>(v: Accumulators<T>, k: nat): T {
    match k
    case 0 => v.v1
    case 1 => v.v2
    case 2 => v.v3
    case _ => v.v4
  }

  lemma StripeLane(v: Accumulators<bv64>, bytes: seq<bv8>, offset: nat, k: nat)
    requires offset + 32 <= |bytes| && k < 4
    ensures At(TakeStripe(v, bytes[offset..offset + 32]), k)
         == Round(At(v, k), Lane(bytes[offset + 8 * k..offset + 8 * k + 8]))
  {
    hide Round, Lane;
    var stripe := bytes[offset..offset + 32];
    SliceOfSlice(bytes, offset, 0, 8);
    SliceOfSlice(bytes, offset, 8, 16);
    SliceOfSlice(bytes, offset, 16, 24);
    SliceOfSlice(bytes, offset, 24, 32);
    assert stripe[0..8] == stripe[..8] && stripe[24..32] == stripe[24..];
  }

  lemma SliceOfSlice<T>(s: seq<T>, offset: nat, a: nat, b: nat)
    requires a <= b <= 32 && offset + 32 <= |s|
    ensures s[offset..offset + 32][a..b] == s[offset + a..offset + b]
  {
    var inner, outer := s[offset..offset + 32][a..b], s[offset + a..offset + b];
    forall i | 0 <= i < b - a ensures inner[i] == outer[i] {
      assert inner[i] == s[offset..offset + 32][a + i] == s[offset + (a + i)];
      assert outer[i] == s[(offset + a) + i];
    }
    assert |inner| == |outer|;
  }

  lemma AtAll<T>(v: Accumulators<T>)
    ensures v == Accumulators(At(v, 0), At(v, 1), At(v, 2), At(v, 3))
  {
  }

  method TakeLanes(lanes: array<bv64>, bytes: seq<bv8>, start: nat) returns (offset: nat)
    requires lanes.Length == 4 && start + 32 <= |bytes|
    modifies lanes
    ensures offset == start + 32
    ensures Held(lanes) == TakeStripe(old(Held(lanes)), bytes[start..start + 32])
  {
    hide Round, Lane, TakeStripe, At;
    ghost var before := Held(lanes);
    ghost var after := TakeStripe(before, bytes[start..start + 32]);
    offset := start;
    AtAll(before);
    for k := 0 to 4
      invariant offset == start + 8 * k
      invariant forall j :: 0 <= j < 4 ==> lanes[j] == if j < k then At(after, j) else At(before, j)
    {
      StripeLane(before, bytes, start, k);
      lanes[k] := Round(lanes[k], Lane(bytes[offset..offset + 8]));
      offset := offset + 8;
    }
    AtAll(after);
  }

  lemma StripesStep(v: Accumulators<bv64>, input: seq<bv8>)
    requires |input| >= 32
    ensures TakeStripes(v, Stripes(input)) == TakeStripes(TakeStripe(v, input[..32]), Stripes(input[32..]))
    ensures Rest(input) == Rest(input[32..])
  {
    hide TakeStripe;
    assert Stripes(input)[0] == input[..32] && Stripes(input)[1..] == Stripes(input[32..]);
  }

  lemma NoStripes(v: Accumulators<bv64>, input: seq<bv8>)
    requires |input| < 32
    ensures TakeStripes(v, Stripes(input)) == v && Rest(input) == input
  {
  }

  /** The stripes: all of them taken, and where they end. */
  method HashStripes(seed: bv64, bytes: seq<bv8>) returns (hash: bv64, offset: nat)
    ensures hash == BeforeLength(seed, bytes)
    ensures offset <= |bytes| && bytes[offset..] == Rest(bytes)
  {
    hide Sum, Difference, Round, Merge, Rotate, Stripes, Rest, TakeStripe, TakeStripes;
    offset := 0;
    assert bytes[0..] == bytes;
    if |bytes| >= 32 {
      var lanes := new bv64[4];
      lanes[0], lanes[1] := Sum(Sum(seed, P1), P2), Sum(seed, P2);
      lanes[2], lanes[3] := seed, Difference(seed, P1);
      while offset + 32 <= |bytes|
        invariant offset <= |bytes|
        invariant TakeStripes(Held(lanes), Stripes(bytes[offset..])) == TakeStripes(Initial(seed), Stripes(bytes))
        invariant Rest(bytes[offset..]) == Rest(bytes)
      {
        StripesStep(Held(lanes), bytes[offset..]);
        assert bytes[offset..][..32] == bytes[offset..offset + 32];
        assert bytes[offset..][32..] == bytes[offset + 32..];
        offset := TakeLanes(lanes, bytes, offset);
      }
      NoStripes(Held(lanes), bytes[offset..]);
      hash := Sum(Sum(Sum(Rotate(lanes[0], 1), Rotate(lanes[1], 7)), Rotate(lanes[2], 12)), Rotate(lanes[3], 18));
      hash := MergeLanes(lanes, hash);
    } else {
      NoStripes(Initial(seed), bytes);
      hash := Sum(seed, P5);
    }
  }

  function Merged(k: nat, acc: bv64, v: Accumulators<bv64>): bv64
    requires k <= 4
  {
    if k == 0 then acc else Merge(Merged(k - 1, acc, v), At(v, k - 1))
  }

  lemma MergedAll(acc: bv64, v: Accumulators<bv64>)
    ensures Merged(4, acc, v) == Merge(Merge(Merge(Merge(acc, v.v1), v.v2), v.v3), v.v4)
  {
    hide Merge;
    assert Merged(3, acc, v) == Merge(Merged(2, acc, v), v.v3);
    assert Merged(2, acc, v) == Merge(Merged(1, acc, v), v.v2);
  }

  method MergeLanes(lanes: array<bv64>, start: bv64) returns (value: bv64)
    requires lanes.Length == 4
    ensures var v := Held(lanes); value == Merge(Merge(Merge(Merge(start, v.v1), v.v2), v.v3), v.v4)
  {
    hide Sum, Product, Xor, Round;
    value := start;
    for k := 0 to 4
      invariant value == Merged(k, start, Held(lanes))
    {
      value := Xor(value, Round(0, lanes[k]));
      value := Sum(Product(value, P1), P4);
    }
    MergedAll(start, Held(lanes));
  }

  lemma ChunksStep(acc: bv64, rest: seq<bv8>)
    requires rest != []
    ensures var n := NextSize(rest);
      n <= |rest| && TakeChunks(acc, Chunks(rest)) == TakeChunks(TakeChunk(acc, rest[..n]), Chunks(rest[n..]))
  {
    hide TakeChunk;
    ChunksFirst(rest);
  }

  function AfterEight(acc: bv64, chunk: seq<bv8>): bv64 {
    Sum(Product(Rotate(Xor(acc, Round(0, Lane(chunk))), 27), P1), P4)
  }

  function AfterFour(acc: bv64, chunk: seq<bv8>): bv64 {
    Sum(Product(Rotate(Xor(acc, Product(Lane(chunk), P1)), 23), P2), P3)
  }

  function AfterOne(acc: bv64, chunk: seq<bv8>): bv64 {
    Product(Rotate(Xor(acc, Product(Lane(chunk), P5)), 11), P1)
  }

  /** One chunk at `offset`, whichever size is due there. */
  lemma StepAt(acc: bv64, bytes: seq<bv8>, offset: nat)
    requires offset < |bytes|
    ensures var n := NextSize(bytes[offset..]);
      && offset + n <= |bytes|
      && TakeChunks(acc, Chunks(bytes[offset..]))
         == TakeChunks(TakeChunk(acc, bytes[offset..offset + n]), Chunks(bytes[offset + n..]))
  {
    hide TakeChunk, NextSize, Chunks, TakeChunks;
    var n := NextSize(bytes[offset..]);
    ChunksStep(acc, bytes[offset..]);
    assert bytes[offset..][..n] == bytes[offset..offset + n];
    assert bytes[offset..][n..] == bytes[offset + n..];
  }

  lemma ChunkCases(acc: bv64, chunk: seq<bv8>)
    ensures |chunk| == 8 ==> TakeChunk(acc, chunk) == AfterEight(acc, chunk)
    ensures |chunk| == 4 ==> TakeChunk(acc, chunk) == AfterFour(acc, chunk)
    ensures |chunk| == 1 ==> TakeChunk(acc, chunk) == AfterOne(acc, chunk)
  {
    hide Sum, Product, Xor, Rotate, Round, Lane;
  }

  /** The remainder: every chunk taken, whatever accumulator it starts from. */
  method HashRest(start: bv64, bytes: seq<bv8>, from: nat) returns (hash: bv64)
    requires from <= |bytes|
    ensures hash == TakeChunks(start, Chunks(bytes[from..]))
  {
    hide Sum, Product, Xor, Rotate, Round, Lane, TakeChunks, TakeChunk, Chunks;
    var offset := from;
    hash := start;
    while offset + 8 <= |bytes|
      invariant from <= offset <= |bytes|
      invariant TakeChunks(hash, Chunks(bytes[offset..])) == TakeChunks(start, Chunks(bytes[from..]))
    {
      StepAt(hash, bytes, offset);
      ChunkCases(hash, bytes[offset..offset + 8]);
      hash := Xor(hash, Round(0, Lane(bytes[offset..offset + 8])));
      hash := Sum(Product(Rotate(hash, 27), P1), P4);
      offset := offset + 8;
    }
    if offset + 4 <= |bytes| {
      StepAt(hash, bytes, offset);
      ChunkCases(hash, bytes[offset..offset + 4]);
      hash := Xor(hash, Product(Lane(bytes[offset..offset + 4]), P1));
      hash := Sum(Product(Rotate(hash, 23), P2), P3);
      offset := offset + 4;
    }
    for k := offset to |bytes|
      invariant TakeChunks(hash, Chunks(bytes[k..])) == TakeChunks(start, Chunks(bytes[from..]))
    {
      StepAt(hash, bytes, k);
      ChunkCases(hash, bytes[k..k + 1]);
      assert bytes[k..k + 1] == [bytes[k]];
      hash := Xor(hash, Product(Lane([bytes[k]]), P5));
      hash := Product(Rotate(hash, 11), P1);
    }
    NoChunks(hash);
    assert bytes[|bytes|..] == [];
  }

  lemma NoChunks(acc: bv64)
    ensures TakeChunks(acc, Chunks([])) == acc
  {
  }

  method Hash(seed: bv64, bytes: seq<bv8>) returns (hash: bv64)
    ensures hash == Digest(seed, bytes)
  {
    hide Sum, Product, XorShift33, XorShift29, XorShift32, BeforeLength, TakeChunks, Chunks, Rest, Word;
    var offset;
    hash, offset := HashStripes(seed, bytes);
    hash := Sum(hash, Word(|bytes|));
    hash := HashRest(hash, bytes, offset);
    hash := XorShift33(hash);
    hash := Product(hash, P2);
    hash := XorShift29(hash);
    hash := Product(hash, P3);
    hash := XorShift32(hash);
  }
}
