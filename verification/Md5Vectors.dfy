/** The pinned digest of the text "abc", followed operation by operation. */
module Md5Vectors {
  import opened Octet
  import opened Md5Spec
  import opened Md5

  /** The one block of the padded text, as words. */
  const ABC: seq<bv32> := [0x80636261, 0, 0, 0, 0, 0, 0, 0, 0, 0, 0, 0, 0, 0, 0x18, 0]

  /** One operation with its word, its sine and its rotation given. */
  function Apply(round: nat, a: bv32, b: bv32, c: bv32, d: bv32, word: bv32, sine: bv32, s: nat): bv32
    requires s < 32
  {
    Add(b, Rotate(Add(Add(Add(a, Mix(round, b, c, d)), word), sine), s))
  }

  lemma OperationIs(i: nat, a: bv32, b: bv32, c: bv32, d: bv32)
    requires i < 64 && |ORDER| == |SINES| == 64 && ORDER[i] < 16 && |ABC| == 16
    ensures Operation(i, ABC, a, b, c, d) == Apply(i / 16, a, b, c, d, ABC[ORDER[i]], SINES[i], Rotation(i))
  {
    hide Add, Rotate, Mix, Rotation, ABC, ORDER, SINES;
  }

  /** Four operations, one for each register. */
  lemma FourSteps(i: nat, r: Registers<bv32>, a: bv32, d: bv32, c: bv32, b: bv32)
    requires i % 4 == 0 && i + 4 <= 64 && |ABC| == 16 && |ORDER| == |SINES| == 64
    requires Steps(i, ABC, START) == r && forall k :: i <= k < i + 4 ==> ORDER[k] < 16
    requires Apply(i / 16, r.a, r.b, r.c, r.d, ABC[ORDER[i]], SINES[i], Rotation(i)) == a
    requires Apply(i / 16, r.d, a, r.b, r.c, ABC[ORDER[i + 1]], SINES[i + 1], Rotation(i + 1)) == d
    requires Apply(i / 16, r.c, d, a, r.b, ABC[ORDER[i + 2]], SINES[i + 2], Rotation(i + 2)) == c
    requires Apply(i / 16, r.b, c, d, a, ABC[ORDER[i + 3]], SINES[i + 3], Rotation(i + 3)) == b
    ensures Steps(i + 4, ABC, START) == Registers(a, b, c, d)
  {
    hide Operation, Apply, ABC, START, ORDER, SINES, Rotation, Steps;
    OperationIs(i, r.a, r.b, r.c, r.d);
    OperationIs(i + 1, r.d, a, r.b, r.c);
    OperationIs(i + 2, r.c, d, a, r.b);
    OperationIs(i + 3, r.b, c, d, a);
    StepsOn(i, r, a, d, c, b);
  }

  lemma StepsOn(i: nat, r: Registers<bv32>, a: bv32, d: bv32, c: bv32, b: bv32)
    requires i % 4 == 0 && i + 4 <= 64 && |ABC| == 16 && Steps(i, ABC, START) == r
    requires Operation(i, ABC, r.a, r.b, r.c, r.d) == a
    requires Operation(i + 1, ABC, r.d, a, r.b, r.c) == d
    requires Operation(i + 2, ABC, r.c, d, a, r.b) == c
    requires Operation(i + 3, ABC, r.b, c, d, a) == b
    ensures Steps(i + 4, ABC, START) == Registers(a, b, c, d)
  {
    hide Operation, ABC, START;
    assert Steps(i + 1, ABC, START) == r.(a := a);
    assert Steps(i + 2, ABC, START) == r.(a := a, d := d);
    assert Steps(i + 3, ABC, START) == r.(a := a, d := d, c := c);
  }

  predicate RowAt(k: nat)
    requires k < 64
  {
    && |ORDER| == |SINES| == 64 && |ROUND1| == |ROUND2| == |ROUND3| == |ROUND4| == 16
    && |SINES1| == |SINES2| == |SINES3| == |SINES4| == 16
    && (k < 16 ==> ORDER[k] == ROUND1[k] && SINES[k] == SINES1[k])
    && (16 <= k < 32 ==> ORDER[k] == ROUND2[k - 16] && SINES[k] == SINES2[k - 16])
    && (32 <= k < 48 ==> ORDER[k] == ROUND3[k - 32] && SINES[k] == SINES3[k - 32])
    && (48 <= k ==> ORDER[k] == ROUND4[k - 48] && SINES[k] == SINES4[k - 48])
  }

  lemma OneRow(k: nat)
    requires k < 64
    ensures RowAt(k)
  {
    hide ORDER, SINES, ROUND1, ROUND2, ROUND3, ROUND4, SINES1, SINES2, SINES3, SINES4;
    OrderRow(k);
    SinesRow(k);
  }

  lemma FourRows(i: nat)
    requires i + 4 <= 64
    ensures RowAt(i) && RowAt(i + 1) && RowAt(i + 2) && RowAt(i + 3)
  {
    hide RowAt;
    OneRow(i);
    OneRow(i + 1);
    OneRow(i + 2);
    OneRow(i + 3);
  }

  // ---- round 1 ----

  lemma Table0()
    ensures |ORDER| == |SINES| == 64 && |ABC| == 16
    ensures ORDER[0] == 0 && ABC[0] == 0x80636261 && SINES[0] == 0xd76aa478 && Rotation(0) == 7
    ensures ORDER[1] == 1 && ABC[1] == 0 && SINES[1] == 0xe8c7b756 && Rotation(1) == 12
    ensures ORDER[2] == 2 && ABC[2] == 0 && SINES[2] == 0x242070db && Rotation(2) == 17
    ensures ORDER[3] == 3 && ABC[3] == 0 && SINES[3] == 0xc1bdceee && Rotation(3) == 22
  {
    hide ORDER, SINES;
    FourRows(0);
  }

  lemma Words0()
    ensures Apply(0, 0x67452301, 0xefcdab89, 0x98badcfe, 0x10325476, 0x80636261, 0xd76aa478, 7) == 0xd6d117b4
    ensures Apply(0, 0x10325476, 0xd6d117b4, 0xefcdab89, 0x98badcfe, 0, 0xe8c7b756, 12) == 0x344a8432
    ensures Apply(0, 0x98badcfe, 0x344a8432, 0xd6d117b4, 0xefcdab89, 0, 0x242070db, 17) == 0x2f6fbd72
    ensures Apply(0, 0xefcdab89, 0x2f6fbd72, 0x344a8432, 0xd6d117b4, 0, 0xc1bdceee, 22) == 0x7ad956f2
  {
  }

  lemma Turn0()
    requires Steps(0, ABC, START) == Registers(0x67452301, 0xefcdab89, 0x98badcfe, 0x10325476)
    ensures Steps(4, ABC, START) == Registers(0xd6d117b4, 0x7ad956f2, 0x2f6fbd72, 0x344a8432)
  {
    Table0();
    Words0();
    hide ORDER, SINES, ABC, START, Steps, Apply, Rotation;
    FourSteps(0, Registers(0x67452301, 0xefcdab89, 0x98badcfe, 0x10325476),
              0xd6d117b4, 0x344a8432, 0x2f6fbd72, 0x7ad956f2);
  }

  lemma Table1()
    ensures |ORDER| == |SINES| == 64 && |ABC| == 16
    ensures ORDER[4] == 4 && ABC[4] == 0 && SINES[4] == 0xf57c0faf && Rotation(4) == 7
    ensures ORDER[5] == 5 && ABC[5] == 0 && SINES[5] == 0x4787c62a && Rotation(5) == 12
    ensures ORDER[6] == 6 && ABC[6] == 0 && SINES[6] == 0xa8304613 && Rotation(6) == 17
    ensures ORDER[7] == 7 && ABC[7] == 0 && SINES[7] == 0xfd469501 && Rotation(7) == 22
  {
    hide ORDER, SINES;
    FourRows(4);
  }

  lemma Words1()
    ensures Apply(0, 0xd6d117b4, 0x7ad956f2, 0x2f6fbd72, 0x344a8432, 0, 0xf57c0faf, 7) == 0xc73741ef
    ensures Apply(0, 0x344a8432, 0xc73741ef, 0x7ad956f2, 0x2f6fbd72, 0, 0x4787c62a, 12) == 0x8bac3051
    ensures Apply(0, 0x2f6fbd72, 0x8bac3051, 0xc73741ef, 0x7ad956f2, 0, 0xa8304613, 17) == 0x207dc67b
    ensures Apply(0, 0x7ad956f2, 0x207dc67b, 0x8bac3051, 0xc73741ef, 0, 0xfd469501, 22) == 0x928d99f6
  {
  }

  lemma Turn1()
    requires Steps(4, ABC, START) == Registers(0xd6d117b4, 0x7ad956f2, 0x2f6fbd72, 0x344a8432)
    ensures Steps(8, ABC, START) == Registers(0xc73741ef, 0x928d99f6, 0x207dc67b, 0x8bac3051)
  {
    Table1();
    Words1();
    hide ORDER, SINES, ABC, START, Steps, Apply, Rotation;
    FourSteps(4, Registers(0xd6d117b4, 0x7ad956f2, 0x2f6fbd72, 0x344a8432),
              0xc73741ef, 0x8bac3051, 0x207dc67b, 0x928d99f6);
  }

  lemma Table2()
    ensures |ORDER| == |SINES| == 64 && |ABC| == 16
    ensures ORDER[8] == 8 && ABC[8] == 0 && SINES[8] == 0x698098d8 && Rotation(8) == 7
    ensures ORDER[9] == 9 && ABC[9] == 0 && SINES[9] == 0x8b44f7af && Rotation(9) == 12
    ensures ORDER[10] == 10 && ABC[10] == 0 && SINES[10] == 0xffff5bb1 && Rotation(10) == 17
    ensures ORDER[11] == 11 && ABC[11] == 0 && SINES[11] == 0x895cd7be && Rotation(11) == 22
  {
    hide ORDER, SINES;
    FourRows(8);
  }

  lemma Words2()
    ensures Apply(0, 0xc73741ef, 0x928d99f6, 0x207dc67b, 0x8bac3051, 0, 0x698098d8, 7) == 0x854b3712
    ensures Apply(0, 0x8bac3051, 0x854b3712, 0x928d99f6, 0x207dc67b, 0, 0x8b44f7af, 12) == 0x74e2f284
    ensures Apply(0, 0x207dc67b, 0x74e2f284, 0x854b3712, 0x928d99f6, 0, 0xffff5bb1, 17) == 0x3020401c
    ensures Apply(0, 0x928d99f6, 0x3020401c, 0x74e2f284, 0x854b3712, 0, 0x895cd7be, 22) == 0x5ed49596
  {
  }

  lemma Turn2()
    requires Steps(8, ABC, START) == Registers(0xc73741ef, 0x928d99f6, 0x207dc67b, 0x8bac3051)
    ensures Steps(12, ABC, START) == Registers(0x854b3712, 0x5ed49596, 0x3020401c, 0x74e2f284)
  {
    Table2();
    Words2();
    hide ORDER, SINES, ABC, START, Steps, Apply, Rotation;
    FourSteps(8, Registers(0xc73741ef, 0x928d99f6, 0x207dc67b, 0x8bac3051),
              0x854b3712, 0x74e2f284, 0x3020401c, 0x5ed49596);
  }

  lemma Table3()
    ensures |ORDER| == |SINES| == 64 && |ABC| == 16
    ensures ORDER[12] == 12 && ABC[12] == 0 && SINES[12] == 0x6b901122 && Rotation(12) == 7
    ensures ORDER[13] == 13 && ABC[13] == 0 && SINES[13] == 0xfd987193 && Rotation(13) == 12
    ensures ORDER[14] == 14 && ABC[14] == 0x00000018 && SINES[14] == 0xa679438e && Rotation(14) == 17
    ensures ORDER[15] == 15 && ABC[15] == 0 && SINES[15] == 0x49b40821 && Rotation(15) == 22
  {
    hide ORDER, SINES;
    FourRows(12);
  }

  lemma Words3()
    ensures Apply(0, 0x854b3712, 0x5ed49596, 0x3020401c, 0x74e2f284, 0, 0x6b901122, 7) == 0xdda9b9a6
    ensures Apply(0, 0x74e2f284, 0xdda9b9a6, 0x5ed49596, 0x3020401c, 0, 0xfd987193, 12) == 0xa1051895
    ensures Apply(0, 0x3020401c, 0xa1051895, 0xdda9b9a6, 0x5ed49596, 0x00000018, 0xa679438e, 17) == 0xe396856b
    ensures Apply(0, 0x5ed49596, 0xe396856b, 0xa1051895, 0xdda9b9a6, 0, 0x49b40821, 22) == 0x72aff2e0
  {
  }

  lemma Turn3()
    requires Steps(12, ABC, START) == Registers(0x854b3712, 0x5ed49596, 0x3020401c, 0x74e2f284)
    ensures Steps(16, ABC, START) == Registers(0xdda9b9a6, 0x72aff2e0, 0xe396856b, 0xa1051895)
  {
    Table3();
    Words3();
    hide ORDER, SINES, ABC, START, Steps, Apply, Rotation;
    FourSteps(12, Registers(0x854b3712, 0x5ed49596, 0x3020401c, 0x74e2f284),
              0xdda9b9a6, 0xa1051895, 0xe396856b, 0x72aff2e0);
  }

  // ---- round 2 ----

  lemma Table4()
    ensures |ORDER| == |SINES| == 64 && |ABC| == 16
    ensures ORDER[16] == 1 && ABC[1] == 0 && SINES[16] == 0xf61e2562 && Rotation(16) == 5
    ensures ORDER[17] == 6 && ABC[6] == 0 && SINES[17] == 0xc040b340 && Rotation(17) == 9
    ensures ORDER[18] == 11 && ABC[11] == 0 && SINES[18] == 0x265e5a51 && Rotation(18) == 14
    ensures ORDER[19] == 0 && ABC[0] == 0x80636261 && SINES[19] == 0xe9b6c7aa && Rotation(19) == 20
  {
    hide ORDER, SINES;
    FourRows(16);
  }

  lemma Words4()
    ensures Apply(1, 0xdda9b9a6, 0x72aff2e0, 0xe396856b, 0xa1051895, 0, 0xf61e2562, 5) == 0x3e9e9126
    ensures Apply(1, 0xa1051895, 0x3e9e9126, 0x72aff2e0, 0xe396856b, 0, 0xc040b340, 9) == 0x4a1d804e
    ensures Apply(1, 0xe396856b, 0x4a1d804e, 0x3e9e9126, 0x72aff2e0, 0, 0x265e5a51, 14) == 0xe25e1652
    ensures Apply(1, 0x72aff2e0, 0xe25e1652, 0x4a1d804e, 0x3e9e9126, 0x80636261, 0xe9b6c7aa, 20) == 0xb5b204e4
  {
  }

  lemma Turn4()
    requires Steps(16, ABC, START) == Registers(0xdda9b9a6, 0x72aff2e0, 0xe396856b, 0xa1051895)
    ensures Steps(20, ABC, START) == Registers(0x3e9e9126, 0xb5b204e4, 0xe25e1652, 0x4a1d804e)
  {
    Table4();
    Words4();
    hide ORDER, SINES, ABC, START, Steps, Apply, Rotation;
    FourSteps(16, Registers(0xdda9b9a6, 0x72aff2e0, 0xe396856b, 0xa1051895),
              0x3e9e9126, 0x4a1d804e, 0xe25e1652, 0xb5b204e4);
  }

  lemma Table5()
    ensures |ORDER| == |SINES| == 64 && |ABC| == 16
    ensures ORDER[20] == 5 && ABC[5] == 0 && SINES[20] == 0xd62f105d && Rotation(20) == 5
    ensures ORDER[21] == 10 && ABC[10] == 0 && SINES[21] == 0x02441453 && Rotation(21) == 9
    ensures ORDER[22] == 15 && ABC[15] == 0 && SINES[22] == 0xd8a1e681 && Rotation(22) == 14
    ensures ORDER[23] == 4 && ABC[4] == 0 && SINES[23] == 0xe7d3fbc8 && Rotation(23) == 20
  {
    hide ORDER, SINES;
    FourRows(20);
  }

  lemma Words5()
    ensures Apply(1, 0x3e9e9126, 0xb5b204e4, 0xe25e1652, 0x4a1d804e, 0, 0xd62f105d, 5) == 0x59a8ffda
    ensures Apply(1, 0x4a1d804e, 0x59a8ffda, 0xb5b204e4, 0xe25e1652, 0, 0x02441453, 9) == 0x6d002f1e
    ensures Apply(1, 0xe25e1652, 0x6d002f1e, 0x59a8ffda, 0xb5b204e4, 0, 0xd8a1e681, 14) == 0xabfc7920
    ensures Apply(1, 0xb5b204e4, 0xabfc7920, 0x6d002f1e, 0x59a8ffda, 0, 0xe7d3fbc8, 20) == 0x47092c07
  {
  }

  lemma Turn5()
    requires Steps(20, ABC, START) == Registers(0x3e9e9126, 0xb5b204e4, 0xe25e1652, 0x4a1d804e)
    ensures Steps(24, ABC, START) == Registers(0x59a8ffda, 0x47092c07, 0xabfc7920, 0x6d002f1e)
  {
    Table5();
    Words5();
    hide ORDER, SINES, ABC, START, Steps, Apply, Rotation;
    FourSteps(20, Registers(0x3e9e9126, 0xb5b204e4, 0xe25e1652, 0x4a1d804e),
              0x59a8ffda, 0x6d002f1e, 0xabfc7920, 0x47092c07);
  }

  lemma Table6()
    ensures |ORDER| == |SINES| == 64 && |ABC| == 16
    ensures ORDER[24] == 9 && ABC[9] == 0 && SINES[24] == 0x21e1cde6 && Rotation(24) == 5
    ensures ORDER[25] == 14 && ABC[14] == 0x00000018 && SINES[25] == 0xc33707d6 && Rotation(25) == 9
    ensures ORDER[26] == 3 && ABC[3] == 0 && SINES[26] == 0xf4d50d87 && Rotation(26) == 14
    ensures ORDER[27] == 8 && ABC[8] == 0 && SINES[27] == 0x455a14ed && Rotation(27) == 20
  {
    hide ORDER, SINES;
    FourRows(24);
  }

  lemma Words6()
    ensures Apply(1, 0x59a8ffda, 0x47092c07, 0xabfc7920, 0x6d002f1e, 0, 0x21e1cde6, 5) == 0xb7f268cf
    ensures Apply(1, 0x6d002f1e, 0xb7f268cf, 0x47092c07, 0xabfc7920, 0x00000018, 0xc33707d6, 9) == 0x09388eff
    ensures Apply(1, 0xabfc7920, 0x09388eff, 0xb7f268cf, 0x47092c07, 0, 0xf4d50d87, 14) == 0xfe1623b1
    ensures Apply(1, 0x47092c07, 0xfe1623b1, 0x09388eff, 0xb7f268cf, 0, 0x455a14ed, 20) == 0x786acb8f
  {
  }

  lemma Turn6()
    requires Steps(24, ABC, START) == Registers(0x59a8ffda, 0x47092c07, 0xabfc7920, 0x6d002f1e)
    ensures Steps(28, ABC, START) == Registers(0xb7f268cf, 0x786acb8f, 0xfe1623b1, 0x09388eff)
  {
    Table6();
    Words6();
    hide ORDER, SINES, ABC, START, Steps, Apply, Rotation;
    FourSteps(24, Registers(0x59a8ffda, 0x47092c07, 0xabfc7920, 0x6d002f1e),
              0xb7f268cf, 0x09388eff, 0xfe1623b1, 0x786acb8f);
  }

  lemma Table7()
    ensures |ORDER| == |SINES| == 64 && |ABC| == 16
    ensures ORDER[28] == 13 && ABC[13] == 0 && SINES[28] == 0xa9e3e905 && Rotation(28) == 5
    ensures ORDER[29] == 2 && ABC[2] == 0 && SINES[29] == 0xfcefa3f8 && Rotation(29) == 9
    ensures ORDER[30] == 7 && ABC[7] == 0 && SINES[30] == 0x676f02d9 && Rotation(30) == 14
    ensures ORDER[31] == 12 && ABC[12] == 0 && SINES[31] == 0x8d2a4c8a && Rotation(31) == 20
  {
    hide ORDER, SINES;
    FourRows(28);
  }

  lemma Words7()
    ensures Apply(1, 0xb7f268cf, 0x786acb8f, 0xfe1623b1, 0x09388eff, 0, 0xa9e3e905, 5) == 0x790a77fb
    ensures Apply(1, 0x09388eff, 0x790a77fb, 0x786acb8f, 0xfe1623b1, 0, 0xfcefa3f8, 9) == 0x9f47e4f8
    ensures Apply(1, 0xfe1623b1, 0x9f47e4f8, 0x790a77fb, 0x786acb8f, 0, 0x676f02d9, 14) == 0xa62884aa
    ensures Apply(1, 0x786acb8f, 0xa62884aa, 0x9f47e4f8, 0x790a77fb, 0, 0x8d2a4c8a, 20) == 0x726342d3
  {
  }

  lemma Turn7()
    requires Steps(28, ABC, START) == Registers(0xb7f268cf, 0x786acb8f, 0xfe1623b1, 0x09388eff)
    ensures Steps(32, ABC, START) == Registers(0x790a77fb, 0x726342d3, 0xa62884aa, 0x9f47e4f8)
  {
    Table7();
    Words7();
    hide ORDER, SINES, ABC, START, Steps, Apply, Rotation;
    FourSteps(28, Registers(0xb7f268cf, 0x786acb8f, 0xfe1623b1, 0x09388eff),
              0x790a77fb, 0x9f47e4f8, 0xa62884aa, 0x726342d3);
  }

  // ---- round 3 ----

  lemma Table8()
    ensures |ORDER| == |SINES| == 64 && |ABC| == 16
    ensures ORDER[32] == 5 && ABC[5] == 0 && SINES[32] == 0xfffa3942 && Rotation(32) == 4
    ensures ORDER[33] == 8 && ABC[8] == 0 && SINES[33] == 0x8771f681 && Rotation(33) == 11
    ensures ORDER[34] == 11 && ABC[11] == 0 && SINES[34] == 0x6d9d6122 && Rotation(34) == 16
    ensures ORDER[35] == 14 && ABC[14] == 0x00000018 && SINES[35] == 0xfde5380c && Rotation(35) == 23
  {
    hide ORDER, SINES;
    FourRows(32);
  }

  lemma Words8()
    ensures Apply(2, 0x790a77fb, 0x726342d3, 0xa62884aa, 0x9f47e4f8, 0, 0xfffa3942, 4) == 0xb3707ebf
    ensures Apply(2, 0x9f47e4f8, 0xb3707ebf, 0x726342d3, 0xa62884aa, 0, 0x8771f681, 11) == 0x60127b2e
    ensures Apply(2, 0xa62884aa, 0x60127b2e, 0xb3707ebf, 0x726342d3, 0, 0x6d9d6122, 16) == 0x8d212ff5
    ensures Apply(2, 0x726342d3, 0x8d212ff5, 0x60127b2e, 0xb3707ebf, 0x00000018, 0xfde5380c, 23) == 0x3b0875c7
  {
  }

  lemma Turn8()
    requires Steps(32, ABC, START) == Registers(0x790a77fb, 0x726342d3, 0xa62884aa, 0x9f47e4f8)
    ensures Steps(36, ABC, START) == Registers(0xb3707ebf, 0x3b0875c7, 0x8d212ff5, 0x60127b2e)
  {
    Table8();
    Words8();
    hide ORDER, SINES, ABC, START, Steps, Apply, Rotation;
    FourSteps(32, Registers(0x790a77fb, 0x726342d3, 0xa62884aa, 0x9f47e4f8),
              0xb3707ebf, 0x60127b2e, 0x8d212ff5, 0x3b0875c7);
  }

  lemma Table9()
    ensures |ORDER| == |SINES| == 64 && |ABC| == 16
    ensures ORDER[36] == 1 && ABC[1] == 0 && SINES[36] == 0xa4beea44 && Rotation(36) == 4
    ensures ORDER[37] == 4 && ABC[4] == 0 && SINES[37] == 0x4bdecfa9 && Rotation(37) == 11
    ensures ORDER[38] == 7 && ABC[7] == 0 && SINES[38] == 0xf6bb4b60 && Rotation(38) == 16
    ensures ORDER[39] == 10 && ABC[10] == 0 && SINES[39] == 0xbebfbc70 && Rotation(39) == 23
  {
    hide ORDER, SINES;
    FourRows(36);
  }

  lemma Words9()
    ensures Apply(2, 0xb3707ebf, 0x3b0875c7, 0x8d212ff5, 0x60127b2e, 0, 0xa4beea44, 4) == 0x21b117b9
    ensures Apply(2, 0x60127b2e, 0x21b117b9, 0x3b0875c7, 0x8d212ff5, 0, 0x4bdecfa9, 11) == 0x6e7429d5
    ensures Apply(2, 0x8d212ff5, 0x6e7429d5, 0x21b117b9, 0x3b0875c7, 0, 0xf6bb4b60, 16) == 0x3575227e
    ensures Apply(2, 0x3b0875c7, 0x3575227e, 0x6e7429d5, 0x21b117b9, 0, 0xbebfbc70, 23) == 0x5a2f5ea5
  {
  }

  lemma Turn9()
    requires Steps(36, ABC, START) == Registers(0xb3707ebf, 0x3b0875c7, 0x8d212ff5, 0x60127b2e)
    ensures Steps(40, ABC, START) == Registers(0x21b117b9, 0x5a2f5ea5, 0x3575227e, 0x6e7429d5)
  {
    Table9();
    Words9();
    hide ORDER, SINES, ABC, START, Steps, Apply, Rotation;
    FourSteps(36, Registers(0xb3707ebf, 0x3b0875c7, 0x8d212ff5, 0x60127b2e),
              0x21b117b9, 0x6e7429d5, 0x3575227e, 0x5a2f5ea5);
  }

  lemma Table10()
    ensures |ORDER| == |SINES| == 64 && |ABC| == 16
    ensures ORDER[40] == 13 && ABC[13] == 0 && SINES[40] == 0x289b7ec6 && Rotation(40) == 4
    ensures ORDER[41] == 0 && ABC[0] == 0x80636261 && SINES[41] == 0xeaa127fa && Rotation(41) == 11
    ensures ORDER[42] == 3 && ABC[3] == 0 && SINES[42] == 0xd4ef3085 && Rotation(42) == 16
    ensures ORDER[43] == 6 && ABC[6] == 0 && SINES[43] == 0x04881d05 && Rotation(43) == 23
  {
    hide ORDER, SINES;
    FourRows(40);
  }

  lemma Words10()
    ensures Apply(2, 0x21b117b9, 0x5a2f5ea5, 0x3575227e, 0x6e7429d5, 0, 0x289b7ec6, 4) == 0x11de1779
    ensures Apply(2, 0x6e7429d5, 0x11de1779, 0x5a2f5ea5, 0x3575227e, 0x80636261, 0xeaa127fa, 11) == 0xfadcaa38
    ensures Apply(2, 0x3575227e, 0xfadcaa38, 0x11de1779, 0x5a2f5ea5, 0, 0xd4ef3085, 16) == 0x31c465ca
    ensures Apply(2, 0x5a2f5ea5, 0x31c465ca, 0xfadcaa38, 0x11de1779, 0, 0x04881d05, 23) == 0x4c6124f4
  {
  }

  lemma Turn10()
    requires Steps(40, ABC, START) == Registers(0x21b117b9, 0x5a2f5ea5, 0x3575227e, 0x6e7429d5)
    ensures Steps(44, ABC, START) == Registers(0x11de1779, 0x4c6124f4, 0x31c465ca, 0xfadcaa38)
  {
    Table10();
    Words10();
    hide ORDER, SINES, ABC, START, Steps, Apply, Rotation;
    FourSteps(40, Registers(0x21b117b9, 0x5a2f5ea5, 0x3575227e, 0x6e7429d5),
              0x11de1779, 0xfadcaa38, 0x31c465ca, 0x4c6124f4);
  }

  lemma Table11()
    ensures |ORDER| == |SINES| == 64 && |ABC| == 16
    ensures ORDER[44] == 9 && ABC[9] == 0 && SINES[44] == 0xd9d4d039 && Rotation(44) == 4
    ensures ORDER[45] == 12 && ABC[12] == 0 && SINES[45] == 0xe6db99e5 && Rotation(45) == 11
    ensures ORDER[46] == 15 && ABC[15] == 0 && SINES[46] == 0x1fa27cf8 && Rotation(46) == 16
    ensures ORDER[47] == 2 && ABC[2] == 0 && SINES[47] == 0xc4ac5665 && Rotation(47) == 23
  {
    hide ORDER, SINES;
    FourRows(44);
  }

  lemma Words11()
    ensures Apply(2, 0x11de1779, 0x4c6124f4, 0x31c465ca, 0xfadcaa38, 0, 0xd9d4d039, 4) == 0x7f2e507b
    ensures Apply(2, 0xfadcaa38, 0x7f2e507b, 0x4c6124f4, 0x31c465ca, 0, 0xe6db99e5, 11) == 0x99d9679d
    ensures Apply(2, 0x31c465ca, 0x99d9679d, 0x7f2e507b, 0x4c6124f4, 0, 0x1fa27cf8, 16) == 0x8fae6399
    ensures Apply(2, 0x4c6124f4, 0x8fae6399, 0x99d9679d, 0x7f2e507b, 0, 0xc4ac5665, 23) == 0x7beb9700
  {
  }

  lemma Turn11()
    requires Steps(44, ABC, START) == Registers(0x11de1779, 0x4c6124f4, 0x31c465ca, 0xfadcaa38)
    ensures Steps(48, ABC, START) == Registers(0x7f2e507b, 0x7beb9700, 0x8fae6399, 0x99d9679d)
  {
    Table11();
    Words11();
    hide ORDER, SINES, ABC, START, Steps, Apply, Rotation;
    FourSteps(44, Registers(0x11de1779, 0x4c6124f4, 0x31c465ca, 0xfadcaa38),
              0x7f2e507b, 0x99d9679d, 0x8fae6399, 0x7beb9700);
  }

  // ---- round 4 ----

  lemma Table12()
    ensures |ORDER| == |SINES| == 64 && |ABC| == 16
    ensures ORDER[48] == 0 && ABC[0] == 0x80636261 && SINES[48] == 0xf4292244 && Rotation(48) == 6
    ensures ORDER[49] == 7 && ABC[7] == 0 && SINES[49] == 0x432aff97 && Rotation(49) == 10
    ensures ORDER[50] == 14 && ABC[14] == 0x00000018 && SINES[50] == 0xab9423a7 && Rotation(50) == 15
    ensures ORDER[51] == 5 && ABC[5] == 0 && SINES[51] == 0xfc93a039 && Rotation(51) == 21
  {
    hide ORDER, SINES;
    FourRows(48);
  }

  lemma Words12()
    ensures Apply(3, 0x7f2e507b, 0x7beb9700, 0x8fae6399, 0x99d9679d, 0x80636261, 0xf4292244, 6) == 0x7b201df8
    ensures Apply(3, 0x99d9679d, 0x7b201df8, 0x7beb9700, 0x8fae6399, 0, 0x432aff97, 10) == 0xf4e8e96e
    ensures Apply(3, 0x8fae6399, 0xf4e8e96e, 0x7b201df8, 0x7beb9700, 0x00000018, 0xab9423a7, 15) == 0xb298cefd
    ensures Apply(3, 0x7beb9700, 0xb298cefd, 0xf4e8e96e, 0x7b201df8, 0, 0xfc93a039, 21) == 0x8bf025c4
  {
  }

  lemma Turn12()
    requires Steps(48, ABC, START) == Registers(0x7f2e507b, 0x7beb9700, 0x8fae6399, 0x99d9679d)
    ensures Steps(52, ABC, START) == Registers(0x7b201df8, 0x8bf025c4, 0xb298cefd, 0xf4e8e96e)
  {
    Table12();
    Words12();
    hide ORDER, SINES, ABC, START, Steps, Apply, Rotation;
    FourSteps(48, Registers(0x7f2e507b, 0x7beb9700, 0x8fae6399, 0x99d9679d),
              0x7b201df8, 0xf4e8e96e, 0xb298cefd, 0x8bf025c4);
  }

  lemma Table13()
    ensures |ORDER| == |SINES| == 64 && |ABC| == 16
    ensures ORDER[52] == 12 && ABC[12] == 0 && SINES[52] == 0x655b59c3 && Rotation(52) == 6
    ensures ORDER[53] == 3 && ABC[3] == 0 && SINES[53] == 0x8f0ccc92 && Rotation(53) == 10
    ensures ORDER[54] == 10 && ABC[10] == 0 && SINES[54] == 0xffeff47d && Rotation(54) == 15
    ensures ORDER[55] == 1 && ABC[1] == 0 && SINES[55] == 0x85845dd1 && Rotation(55) == 21
  {
    hide ORDER, SINES;
    FourRows(52);
  }

  lemma Words13()
    ensures Apply(3, 0x7b201df8, 0x8bf025c4, 0xb298cefd, 0xf4e8e96e, 0, 0x655b59c3, 6) == 0x06cc5e8a
    ensures Apply(3, 0xf4e8e96e, 0x06cc5e8a, 0x8bf025c4, 0xb298cefd, 0, 0x8f0ccc92, 10) == 0x5b0d97aa
    ensures Apply(3, 0xb298cefd, 0x5b0d97aa, 0x06cc5e8a, 0x8bf025c4, 0, 0xffeff47d, 15) == 0x7d632dd0
    ensures Apply(3, 0x8bf025c4, 0x7d632dd0, 0x5b0d97aa, 0x06cc5e8a, 0, 0x85845dd1, 21) == 0x3bfa2c27
  {
  }

  lemma Turn13()
    requires Steps(52, ABC, START) == Registers(0x7b201df8, 0x8bf025c4, 0xb298cefd, 0xf4e8e96e)
    ensures Steps(56, ABC, START) == Registers(0x06cc5e8a, 0x3bfa2c27, 0x7d632dd0, 0x5b0d97aa)
  {
    Table13();
    Words13();
    hide ORDER, SINES, ABC, START, Steps, Apply, Rotation;
    FourSteps(52, Registers(0x7b201df8, 0x8bf025c4, 0xb298cefd, 0xf4e8e96e),
              0x06cc5e8a, 0x5b0d97aa, 0x7d632dd0, 0x3bfa2c27);
  }

  lemma Table14()
    ensures |ORDER| == |SINES| == 64 && |ABC| == 16
    ensures ORDER[56] == 8 && ABC[8] == 0 && SINES[56] == 0x6fa87e4f && Rotation(56) == 6
    ensures ORDER[57] == 15 && ABC[15] == 0 && SINES[57] == 0xfe2ce6e0 && Rotation(57) == 10
    ensures ORDER[58] == 6 && ABC[6] == 0 && SINES[58] == 0xa3014314 && Rotation(58) == 15
    ensures ORDER[59] == 13 && ABC[13] == 0 && SINES[59] == 0x4e0811a1 && Rotation(59) == 21
  {
    hide ORDER, SINES;
    FourRows(56);
  }

  lemma Words14()
    ensures Apply(3, 0x06cc5e8a, 0x3bfa2c27, 0x7d632dd0, 0x5b0d97aa, 0, 0x6fa87e4f, 6) == 0x7f81cc35
    ensures Apply(3, 0x5b0d97aa, 0x7f81cc35, 0x3bfa2c27, 0x7d632dd0, 0, 0xfe2ce6e0, 10) == 0x094454ab
    ensures Apply(3, 0x7d632dd0, 0x094454ab, 0x7f81cc35, 0x3bfa2c27, 0, 0xa3014314, 15) == 0x4f9dbe3f
    ensures Apply(3, 0x3bfa2c27, 0x4f9dbe3f, 0x094454ab, 0x7f81cc35, 0, 0x4e0811a1, 21) == 0x7327d604
  {
  }

  lemma Turn14()
    requires Steps(56, ABC, START) == Registers(0x06cc5e8a, 0x3bfa2c27, 0x7d632dd0, 0x5b0d97aa)
    ensures Steps(60, ABC, START) == Registers(0x7f81cc35, 0x7327d604, 0x4f9dbe3f, 0x094454ab)
  {
    Table14();
    Words14();
    hide ORDER, SINES, ABC, START, Steps, Apply, Rotation;
    FourSteps(56, Registers(0x06cc5e8a, 0x3bfa2c27, 0x7d632dd0, 0x5b0d97aa),
              0x7f81cc35, 0x094454ab, 0x4f9dbe3f, 0x7327d604);
  }

  lemma Table15()
    ensures |ORDER| == |SINES| == 64 && |ABC| == 16
    ensures ORDER[60] == 4 && ABC[4] == 0 && SINES[60] == 0xf7537e82 && Rotation(60) == 6
    ensures ORDER[61] == 11 && ABC[11] == 0 && SINES[61] == 0xbd3af235 && Rotation(61) == 10
    ensures ORDER[62] == 2 && ABC[2] == 0 && SINES[62] == 0x2ad7d2bb && Rotation(62) == 15
    ensures ORDER[63] == 9 && ABC[9] == 0 && SINES[63] == 0xeb86d391 && Rotation(63) == 21
  {
    hide ORDER, SINES;
    FourRows(60);
  }

  lemma Words15()
    ensures Apply(3, 0x7f81cc35, 0x7327d604, 0x4f9dbe3f, 0x094454ab, 0, 0xf7537e82, 6) == 0x310ade8f
    ensures Apply(3, 0x094454ab, 0x310ade8f, 0x7327d604, 0x4f9dbe3f, 0, 0xbd3af235, 10) == 0x624d8cb2
    ensures Apply(3, 0x4f9dbe3f, 0x624d8cb2, 0x310ade8f, 0x7327d604, 0, 0x2ad7d2bb, 15) == 0xe484b9d8
    ensures Apply(3, 0x7327d604, 0xe484b9d8, 0x624d8cb2, 0x310ade8f, 0, 0xeb86d391, 21) == 0xc08226b3
  {
  }

  lemma Turn15()
    requires Steps(60, ABC, START) == Registers(0x7f81cc35, 0x7327d604, 0x4f9dbe3f, 0x094454ab)
    ensures Steps(64, ABC, START) == Registers(0x310ade8f, 0xc08226b3, 0xe484b9d8, 0x624d8cb2)
  {
    Table15();
    Words15();
    hide ORDER, SINES, ABC, START, Steps, Apply, Rotation;
    FourSteps(60, Registers(0x7f81cc35, 0x7327d604, 0x4f9dbe3f, 0x094454ab),
              0x310ade8f, 0x624d8cb2, 0xe484b9d8, 0xc08226b3);
  }

  // ---- the digest ----

  lemma AllSteps()
    ensures Steps(64, ABC, START) == Registers(0x310ade8f, 0xc08226b3, 0xe484b9d8, 0x624d8cb2)
  {
    assert Steps(0, ABC, START) == START;
    hide Steps, ABC;
    Turn0();
    Turn1();
    Turn2();
    Turn3();
    Turn4();
    Turn5();
    Turn6();
    Turn7();
    Turn8();
    Turn9();
    Turn10();
    Turn11();
    Turn12();
    Turn13();
    Turn14();
    Turn15();
  }

  lemma Added()
    ensures Block(ABC, START) == Registers(0x98500190, 0xb04fd23c, 0x7d3f96d6, 0x727fe128)
  {
    AllSteps();
    hide Steps, ABC;
  }

  function Padded(): seq<byte> {
    [97, 98, 99] + [0x80] + Zeros(52) + LeBytes(24, 8)
  }

  lemma PaddedIs()
    ensures IsPadded([97, 98, 99], Padded()) && |Padded()| == 64
  {
    var message: seq<byte> := [97, 98, 99];
    hide LeBytes;
    forall fewer | 0 <= fewer < 52 ensures !Fills(3, fewer) {
      assert (3 + 1 + fewer) % 64 == 4 + fewer;
    }
    assert IsFill(|message|, 52) && |message| * 8 % U64 == 24;
  }

  lemma PaddedBytes(k: nat)
    requires k < 64
    ensures |Padded()| == 64
    ensures Padded()[k] == if k == 0 then 97 else if k == 1 then 98 else if k == 2 then 99 else if k == 3 then 0x80
                           else if k == 56 then 24 else 0
  {
    EightBytes();
    hide LeBytes;
  }

  lemma EightBytes()
    ensures LeBytes(24, 8) == [24, 0, 0, 0, 0, 0, 0, 0]
  {
    assert LeBytes(0, 4) == [0, 0, 0, 0];
    assert LeBytes(0, 7) == [0, 0, 0] + LeBytes(0, 4);
  }

  lemma WordAt(k: nat)
    requires k < 16
    ensures |Padded()| == 64 && |ABC| == 16 && WordOf(Padded()[4 * k..4 * k + 4]) == ABC[k]
  {
    var word := Padded()[4 * k..4 * k + 4];
    PaddedBytes(4 * k);
    PaddedBytes(4 * k + 1);
    PaddedBytes(4 * k + 2);
    PaddedBytes(4 * k + 3);
    hide Padded;
    assert word == if k == 0 then [97, 98, 99, 0x80] else if k == 14 then [24, 0, 0, 0] else [0, 0, 0, 0];
    Fours();
    AbcAt(k);
  }

  lemma AbcAt(k: nat)
    requires k < 16
    ensures |ABC| == 16 && ABC[k] == if k == 0 then 0x80636261 else if k == 14 then 0x18 else 0
  {
  }

  lemma WordIs(s: seq<byte>, w: bv32)
    requires |s| == 4
    requires s[0] as nat + 0x100 * s[1] as nat + 0x1_0000 * s[2] as nat + 0x100_0000 * s[3] as nat == w as nat
    ensures WordOf(s) == w
  {
    LeDigits(s);
    WordBytesIs(w, s[0], s[1], s[2], s[3]);
    hide Le, LeBytes, WordBytes;
    assert s == [s[0], s[1], s[2], s[3]];
    WordOfBytes(w);
  }

  lemma WordOfBytes(w: bv32)
    ensures WordOf(WordBytes(w)) == w
  {
    assert Pow256(4) == 0x1_0000_0000;
    hide LeBytes, Le;
    LeOfLeBytes(w as nat, 4);
  }

  lemma Fours()
    ensures WordOf([97, 98, 99, 0x80]) == 0x80636261 && WordOf([24, 0, 0, 0]) == 0x18 && WordOf([0, 0, 0, 0]) == 0
  {
    hide WordOf;
    WordIs([97, 98, 99, 0x80], 0x80636261);
    WordIs([24, 0, 0, 0], 0x18);
    WordIs([0, 0, 0, 0], 0);
  }

  lemma PaddedWords()
    ensures |Padded()| == 64 && Words(Padded()) == ABC
  {
    PaddedIs();
    hide Padded, ABC, WordOf;
    var x := Words(Padded());
    WordAt(0);
    forall k | 0 <= k < 16 ensures x[k] == ABC[k] {
      WordAt(k);
    }
  }

  lemma WordBytesIs(w: bv32, b0: byte, b1: byte, b2: byte, b3: byte)
    requires w as nat == b0 as nat + 0x100 * b1 as nat + 0x1_0000 * b2 as nat + 0x100_0000 * b3 as nat
    ensures WordBytes(w) == [b0, b1, b2, b3]
  {
    var s := [b0, b1, b2, b3];
    LeDigits(s);
    LeBytesOfLe(s);
    hide LeBytes, Le;
  }

  lemma {:induction false} HexConcat(a: seq<byte>, b: seq<byte>)
    ensures Hex(a + b) == Hex(a) + Hex(b)
  {
    if a == [] {
      assert a + b == b;
    } else {
      HexConcat(a[1..], b);
      assert (a + b)[1..] == a[1..] + b;
    }
  }

  lemma HexOfFour(a: seq<byte>, b: seq<byte>, c: seq<byte>, d: seq<byte>)
    ensures Hex(a + b + c + d) == Hex(a) + Hex(b) + Hex(c) + Hex(d)
  {
    hide Hex;
    HexConcat(a + b + c, d);
    HexConcat(a + b, c);
    HexConcat(a, b);
  }

  lemma HexByte(b: byte)
    ensures Hex([b]) == [HexDigit(b / 16), HexDigit(b % 16)]
  {
    hide HexDigit;
    assert [b][1..] == [];
  }

  lemma HexWord(a: byte, b: byte, c: byte, d: byte)
    ensures Hex([a, b, c, d])
         == [HexDigit(a / 16), HexDigit(a % 16)] + [HexDigit(b / 16), HexDigit(b % 16)]
            + [HexDigit(c / 16), HexDigit(c % 16)] + [HexDigit(d / 16), HexDigit(d % 16)]
  {
    hide HexDigit, Hex;
    HexOfFour([a], [b], [c], [d]);
    assert [a] + [b] + [c] + [d] == [a, b, c, d];
    HexByte(a);
    HexByte(b);
    HexByte(c);
    HexByte(d);
  }

  lemma HexFirst()
    ensures Hex([144, 1, 80, 152]) == "90015098"
  {
    HexWord(144, 1, 80, 152);
    hide Hex;
  }

  lemma HexSecond()
    ensures Hex([60, 210, 79, 176]) == "3cd24fb0"
  {
    HexWord(60, 210, 79, 176);
    hide Hex;
  }

  lemma HexThird()
    ensures Hex([214, 150, 63, 125]) == "d6963f7d"
  {
    HexWord(214, 150, 63, 125);
    hide Hex;
  }

  lemma HexFourth()
    ensures Hex([40, 225, 127, 114]) == "28e17f72"
  {
    HexWord(40, 225, 127, 114);
    hide Hex;
  }

  lemma OneBlock(padded: seq<byte>)
    requires |padded| == 64
    ensures Blocks(padded) == Block(Words(padded), START)
  {
    hide Block, Words;
    assert padded[0..] == padded && padded[..0] == [];
    assert Blocks([]) == START;
  }

  /** MD5("abc") = 900150983cd24fb0d6963f7d28e17f72 (RFC 1321, appendix A.5). */
  lemma AbcDigest()
    ensures IsDigest([97, 98, 99], "900150983cd24fb0d6963f7d28e17f72")
  {
    PaddedIs();
    hide Blocks, Block, Words, Output, Padded, Hex, IsPadded, WordBytes, ABC, START;
    PaddedWords();
    OneBlock(Padded());
    Added();
    DigestHex();
    assert Hex(Output(Blocks(Padded()))) == "900150983cd24fb0d6963f7d28e17f72";
  }

  lemma DigestHex()
    ensures Hex(Output(Registers(0x98500190, 0xb04fd23c, 0x7d3f96d6, 0x727fe128)))
         == "90015098" + "3cd24fb0" + "d6963f7d" + "28e17f72"
  {
    hide Hex, WordBytes;
    var r := Registers(0x98500190, 0xb04fd23c, 0x7d3f96d6, 0x727fe128);
    WordBytesIs(r.a, 144, 1, 80, 152);
    WordBytesIs(r.b, 60, 210, 79, 176);
    WordBytesIs(r.c, 214, 150, 63, 125);
    WordBytesIs(r.d, 40, 225, 127, 114);
    HexFirst();
    HexSecond();
    HexThird();
    HexFourth();
    var a, b, c, d := WordBytes(r.a), WordBytes(r.b), WordBytes(r.c), WordBytes(r.d);
    HexOfFour(a, b, c, d);
  }
}
