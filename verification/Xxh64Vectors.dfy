/** The pinned vectors of the XXH64 implementation, followed step by step. */
module Xxh64Vectors {
  import opened Sequences
  import opened Xxh64Spec

  lemma StripeOf(v: Accumulators<bv64>, a: seq<bv8>, b: seq<bv8>, c: seq<bv8>, d: seq<bv8>)
    requires |a| == |b| == |c| == |d| == 8
    ensures TakeStripe(v, a + b + c + d)
         == Accumulators(Round(v.v1, Lane(a)), Round(v.v2, Lane(b)), Round(v.v3, Lane(c)), Round(v.v4, Lane(d)))
  {
    hide Round, Lane;
    var s := a + b + c + d;
    assert s[..8] == a && s[8..16] == b && s[16..24] == c && s[24..] == d;
  }

  // ---- the bytes 0 to 99 ----

  const FIRST: seq<bv8> :=
    [0, 1, 2, 3, 4, 5, 6, 7]
    + [8, 9, 10, 11, 12, 13, 14, 15]
    + [16, 17, 18, 19, 20, 21, 22, 23]
    + [24, 25, 26, 27, 28, 29, 30, 31]
  const SECOND: seq<bv8> :=
    [32, 33, 34, 35, 36, 37, 38, 39]
    + [40, 41, 42, 43, 44, 45, 46, 47]
    + [48, 49, 50, 51, 52, 53, 54, 55]
    + [56, 57, 58, 59, 60, 61, 62, 63]
  const THIRD: seq<bv8> :=
    [64, 65, 66, 67, 68, 69, 70, 71]
    + [72, 73, 74, 75, 76, 77, 78, 79]
    + [80, 81, 82, 83, 84, 85, 86, 87]
    + [88, 89, 90, 91, 92, 93, 94, 95]

  function Hundred(): (s: seq<bv8>)
    ensures |s| == 100
  {
    FIRST + (SECOND + (THIRD + [96, 97, 98, 99]))
  }

  lemma StripesCons(stripe: seq<bv8>, rest: seq<bv8>)
    requires |stripe| == 32
    ensures Stripes(stripe + rest) == [stripe] + Stripes(rest) && Rest(stripe + rest) == Rest(rest)
  {
    var s := stripe + rest;
    assert s[..32] == stripe && s[32..] == rest;
  }

  lemma HundredCut()
    ensures Stripes(Hundred()) == [FIRST] + ([SECOND] + ([THIRD] + [])) && Rest(Hundred()) == [96, 97, 98, 99]
  {
    Sizes();
    hide FIRST, SECOND, THIRD, Stripes, Rest;
    var last: seq<bv8> := [96, 97, 98, 99];
    ShortRest(last);
    StripesCons(THIRD, last);
    StripesCons(SECOND, THIRD + last);
    StripesCons(FIRST, SECOND + (THIRD + last));
  }

  lemma Sizes()
    ensures |FIRST| == |SECOND| == |THIRD| == 32
  {
  }

  lemma ShortRest(s: seq<bv8>)
    requires |s| < 32
    ensures Stripes(s) == [] && Rest(s) == s
  {
  }

  // ---- its three stripes ----

  lemma Lanes1()
    ensures Lane([0, 1, 2, 3, 4, 5, 6, 7]) == 0x0706_0504_0302_0100
    ensures Lane([8, 9, 10, 11, 12, 13, 14, 15]) == 0x0f0e_0d0c_0b0a_0908
    ensures Lane([16, 17, 18, 19, 20, 21, 22, 23]) == 0x1716_1514_1312_1110
    ensures Lane([24, 25, 26, 27, 28, 29, 30, 31]) == 0x1f1e_1d1c_1b1a_1918
  {
  }

  const V1: Accumulators<bv64> := Accumulators(
    0xf4b5_3b57_406b_5e99, 0xc3d3_4b51_1fc3_2561,
    0xcb26_c007_c8a1_553f, 0x9a44_d001_a7f9_1c07)

  lemma Stripe1()
    ensures TakeStripe(Initial(0), FIRST) == V1
  {
    hide Lane, TakeStripe;
    StripeOf(Initial(0), [0, 1, 2, 3, 4, 5, 6, 7], [8, 9, 10, 11, 12, 13, 14, 15],
             [16, 17, 18, 19, 20, 21, 22, 23], [24, 25, 26, 27, 28, 29, 30, 31]);
    Lanes1();
  }

  lemma Lanes2()
    ensures Lane([32, 33, 34, 35, 36, 37, 38, 39]) == 0x2726_2524_2322_2120
    ensures Lane([40, 41, 42, 43, 44, 45, 46, 47]) == 0x2f2e_2d2c_2b2a_2928
    ensures Lane([48, 49, 50, 51, 52, 53, 54, 55]) == 0x3736_3534_3332_3130
    ensures Lane([56, 57, 58, 59, 60, 61, 62, 63]) == 0x3f3e_3d3c_3b3a_3938
  {
  }

  const V2: Accumulators<bv64> := Accumulators(
    0xe4be_403c_8629_96da, 0x4472_1bc6_5752_067c,
    0xefd8_f7c0_1d96_b1b0, 0x8c96_ee06_6ebf_2152)

  lemma Stripe2()
    ensures TakeStripe(V1, SECOND) == V2
  {
    hide Lane, TakeStripe;
    StripeOf(V1, [32, 33, 34, 35, 36, 37, 38, 39], [40, 41, 42, 43, 44, 45, 46, 47],
             [48, 49, 50, 51, 52, 53, 54, 55], [56, 57, 58, 59, 60, 61, 62, 63]);
    Lanes2();
  }

  lemma Lanes3()
    ensures Lane([64, 65, 66, 67, 68, 69, 70, 71]) == 0x4746_4544_4342_4140
    ensures Lane([72, 73, 74, 75, 76, 77, 78, 79]) == 0x4f4e_4d4c_4b4a_4948
    ensures Lane([80, 81, 82, 83, 84, 85, 86, 87]) == 0x5756_5554_5352_5150
    ensures Lane([88, 89, 90, 91, 92, 93, 94, 95]) == 0x5f5e_5d5c_5b5a_5958
  {
  }

  const V3: Accumulators<bv64> := Accumulators(
    0x4d87_2610_20d8_b1d4, 0xf6a4_8a6c_8168_1dee,
    0xd188_38b7_423e_5790, 0x2b1e_854b_d2cd_fc3c)

  lemma Stripe3()
    ensures TakeStripe(V2, THIRD) == V3
  {
    hide Lane, TakeStripe;
    StripeOf(V2, [64, 65, 66, 67, 68, 69, 70, 71], [72, 73, 74, 75, 76, 77, 78, 79],
             [80, 81, 82, 83, 84, 85, 86, 87], [88, 89, 90, 91, 92, 93, 94, 95]);
    Lanes3();
  }

  lemma StripesStep(v: Accumulators<bv64>, stripe: seq<bv8>, rest: seq<seq<bv8>>)
    requires |stripe| == 32 && forall s :: s in rest ==> |s| == 32
    ensures (forall s :: s in [stripe] + rest ==> |s| == 32)
    ensures TakeStripes(v, [stripe] + rest) == TakeStripes(TakeStripe(v, stripe), rest)
  {
    hide TakeStripe;
    assert ([stripe] + rest)[1..] == rest;
  }

  lemma HundredStripes()
    ensures |FIRST| == |SECOND| == |THIRD| == 32
    ensures TakeStripes(Initial(0), [FIRST] + ([SECOND] + ([THIRD] + []))) == V3
  {
    Sizes();
    hide FIRST, SECOND, THIRD, TakeStripe, TakeStripes, Initial, V1, V2, V3;
    Stripe1();
    Stripe2();
    Stripe3();
    StripesStep(Initial(0), FIRST, [SECOND] + ([THIRD] + []));
    StripesStep(V1, SECOND, [THIRD] + []);
    StripesStep(V2, THIRD, []);
    NoStripes(V3);
  }

  lemma NoStripes(v: Accumulators<bv64>)
    ensures TakeStripes(v, []) == v
  {
  }

  lemma Rotated()
    ensures Sum(Sum(Sum(Rotate(V3.v1, 1), Rotate(V3.v2, 7)), Rotate(V3.v3, 12)), Rotate(V3.v4, 18)) == 0x860e_41bc_cc2a_14b5
  {
  }

  lemma Merged()
    ensures Merge(0x860e_41bc_cc2a_14b5, V3.v1) == 0x93b4_b65b_16d4_4cef
    ensures Merge(0x93b4_b65b_16d4_4cef, V3.v2) == 0x5104_daf0_8c95_4eaa
    ensures Merge(0x5104_daf0_8c95_4eaa, V3.v3) == 0xee98_9140_3ffc_d46f
    ensures Merge(0xee98_9140_3ffc_d46f, V3.v4) == 0xb5a1_6e94_3d14_d721
  {
  }

  lemma Converged()
    ensures Converge(V3) == 0xb5a1_6e94_3d14_d721
  {
    hide Merge, Sum, Rotate, V3;
    Rotated();
    Merged();
  }

  // ---- chunks ----

  lemma ChunksStep(acc: bv64, chunk: seq<bv8>, rest: seq<seq<bv8>>)
    ensures TakeChunks(acc, [chunk] + rest) == TakeChunks(TakeChunk(acc, chunk), rest)
  {
    hide TakeChunk;
    assert ([chunk] + rest)[1..] == rest;
  }

  lemma NoChunks(acc: bv64)
    ensures TakeChunks(acc, []) == acc && Chunks([]) == []
  {
  }

  /** A chunk of this size comes first. */
  lemma ChunksCons(chunk: seq<bv8>, rest: seq<bv8>)
    requires |chunk| == 8 || (|chunk| == 4 && |rest| < 4) || (|chunk| == 1 && |rest| < 3)
    ensures Chunks(chunk + rest) == [chunk] + Chunks(rest)
  {
    var s, n := chunk + rest, |chunk|;
    assert s[..n] == chunk && s[n..] == rest;
  }

  lemma LastFour()
    ensures TakeChunk(0xb5a1_6e94_3d14_d785, [96, 97, 98, 99]) == 0x62af_9c1c_70c0_074e
    ensures Avalanche(0x62af_9c1c_70c0_074e) == 0x6ac1_e580_3216_6597
  {
  }

  lemma WordIs(n: nat)
    requires n < 0x1_0000_0000_0000_0000
    ensures Word(n) == n as bv64
  {
  }

  lemma Lengths()
    ensures Word(0) == 0 && Word(1) == 1 && Word(14) == 14 && Word(100) == 100
  {
    hide Word;
    WordIs(0);
    WordIs(1);
    WordIs(14);
    WordIs(100);
  }

  lemma LengthAdded()
    ensures Sum(0xb5a1_6e94_3d14_d721, 100) == 0xb5a1_6e94_3d14_d785
  {
  }

  /** The 100 bytes. */
  lemma HundredHashes()
    ensures Digest(0, Hundred()) == 0x6ac1_e580_3216_6597
  {
    hide Hundred, TakeStripes, Stripes, Chunks, TakeChunks, Rest, Converge, TakeChunk, Avalanche, Initial, V3, Sum, Word;
    hide FIRST, SECOND, THIRD;
    HundredCut();
    HundredStripes();
    Converged();
    Lengths();
    LengthAdded();
    LastFour();
    var last: seq<bv8> := [96, 97, 98, 99];
    ChunksCons(last, []);
    assert last + [] == last;
    NoChunks(0x62af_9c1c_70c0_074e);
    ChunksStep(0xb5a1_6e94_3d14_d785, last, []);
  }

  // ---- the short ones ----

  /** The empty input, under two seeds. */
  lemma NothingHashes()
    ensures Digest(0, []) == 0xef46_db37_51d8_e999
    ensures Digest(0xca80_de71, []) == 0xecd8_91c6_6d7e_1845
  {
    NothingAvalanches();
    hide TakeChunks, Stripes, Chunks, Rest, Avalanche, Sum, Word;
    ShortRest([]);
    Lengths();
    NoChunks(Sum(Sum(0, P5), 0));
    NoChunks(Sum(Sum(0xca80_de71, P5), 0));
  }

  lemma NothingAvalanches()
    ensures Avalanche(Sum(Sum(0, P5), 0)) == 0xef46_db37_51d8_e999
    ensures Avalanche(Sum(Sum(0xca80_de71, P5), 0)) == 0xecd8_91c6_6d7e_1845
  {
  }

  lemma ByteHashes()
    ensures Digest(0, [42]) == 0x0a9e_dece_beb0_3ae4
  {
    ByteSteps();
    hide TakeChunk, TakeChunks, Stripes, Chunks, Rest, Avalanche, Sum, Word;
    var chunk: seq<bv8> := [42];
    ShortRest(chunk);
    Lengths();
    ChunksCons(chunk, []);
    assert chunk + [] == chunk;
    NoChunks(0xdf7c_f63d_414f_bccf);
    ChunksStep(Sum(Sum(0, P5), 1), chunk, []);
  }

  lemma ByteSteps()
    ensures TakeChunk(Sum(Sum(0, P5), 1), [42]) == 0xdf7c_f63d_414f_bccf
    ensures Avalanche(0xdf7c_f63d_414f_bccf) == 0x0a9e_dece_beb0_3ae4
  {
  }

  /** "Hello, world!" and a NUL: chunks of all three sizes. */
  const HELLO: seq<bv8> :=
    [72, 101, 108, 108, 111, 44, 32, 119] + ([111, 114, 108, 100] + ([33] + ([0] + [])))

  lemma HelloCut()
    ensures |HELLO| == 14
    ensures Chunks(HELLO)
         == [[72, 101, 108, 108, 111, 44, 32, 119]] + ([[111, 114, 108, 100]] + ([[33]] + ([[0]] + [])))
  {
    hide Chunks;
    NoChunks(0);
    ChunksCons([0], []);
    ChunksCons([33], [0] + []);
    ChunksCons([111, 114, 108, 100], [33] + ([0] + []));
    ChunksCons([72, 101, 108, 108, 111, 44, 32, 119], [111, 114, 108, 100] + ([33] + ([0] + [])));
  }

  lemma HelloSteps()
    ensures Sum(Sum(0, P5), 14) == 0x27d4_eb2f_1656_67d3
    ensures TakeChunk(0x27d4_eb2f_1656_67d3, [72, 101, 108, 108, 111, 44, 32, 119]) == 0x9c9a_78a0_dbd2_c3f8
    ensures TakeChunk(0x9c9a_78a0_dbd2_c3f8, [111, 114, 108, 100]) == 0x4f57_39ec_9595_9e8f
    ensures TakeChunk(0x4f57_39ec_9595_9e8f, [33]) == 0xce8d_b285_49a0_d65f
    ensures TakeChunk(0xce8d_b285_49a0_d65f, [0]) == 0x0aa5_fc9d_9da7_b72c
    ensures Avalanche(0x0aa5_fc9d_9da7_b72c) == 0x7b06_c531_ea43_e89f
  {
  }

  lemma HelloHashes()
    ensures Digest(0, HELLO) == 0x7b06_c531_ea43_e89f
  {
    HelloCut();
    HelloSteps();
    hide HELLO, TakeChunk, TakeChunks, Stripes, Chunks, Rest, Avalanche, Sum, Word;
    ShortRest(HELLO);
    Lengths();
    NoChunks(0x0aa5_fc9d_9da7_b72c);
    ChunksStep(0xce8d_b285_49a0_d65f, [0], []);
    ChunksStep(0x4f57_39ec_9595_9e8f, [33], [[0]] + []);
    ChunksStep(0x9c9a_78a0_dbd2_c3f8, [111, 114, 108, 100], [[33]] + ([[0]] + []));
    ChunksStep(0x27d4_eb2f_1656_67d3, [72, 101, 108, 108, 111, 44, 32, 119], [[111, 114, 108, 100]] + ([[33]] + ([[0]] + [])));
  }
}
