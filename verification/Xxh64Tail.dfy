/** After the stripes XXH64 loses nothing: each step can be undone, so inputs that differ in one chunk of the
    remainder never collide. */
module Xxh64Tail {
  import opened Xxh64Spec

  // ---- multiplication by the odd primes ----

  function Over1(x: bv64): bv64 {
    x * 614540362697595703
  }

  function Over2(x: bv64): bv64 {
    x * 839798700976720815
  }

  function Over3(x: bv64): bv64 {
    x * 16855272203555305545
  }

  function Over5(x: bv64): bv64 {
    x * 14236653164957433613
  }

  lemma Undo1(x: bv64)
    ensures Over1(x * 11_400_714_785_074_694_791) == x
  {
  }

  lemma Undo2(x: bv64)
    ensures Over2(x * 14_029_467_366_897_019_727) == x
  {
  }

  lemma Undo3(x: bv64)
    ensures Over3(x * 1_609_587_929_392_839_161) == x
  {
  }

  lemma Undo5(x: bv64)
    ensures Over5(x * 2_870_177_450_012_600_261) == x
  {
  }

  lemma Products(x: bv64)
    ensures Product(x, P1) == x * 11_400_714_785_074_694_791
    ensures Product(x, P2) == x * 14_029_467_366_897_019_727
    ensures Product(x, P3) == x * 1_609_587_929_392_839_161
    ensures Product(x, P5) == x * 2_870_177_450_012_600_261
  {
  }

  lemma ProductCancels(x: bv64, y: bv64, p: bv64)
    requires p == P1 || p == P2 || p == P3 || p == P5
    requires Product(x, p) == Product(y, p)
    ensures x == y
  {
    hide Product, P1, P2, P3, P5, Over1, Over2, Over3, Over5;
    Products(x);
    Products(y);
    if p == P1 {
      Undo1(x);
      Undo1(y);
    } else if p == P2 {
      Undo2(x);
      Undo2(y);
    } else if p == P3 {
      Undo3(x);
      Undo3(y);
    } else {
      Undo5(x);
      Undo5(y);
    }
  }

  // ---- rotations, shifts, sums ----

  function RotateBack(a: bv64, s: bv64): bv64
    requires s < 64
  {
    (a >> s) | (a << (64 - s))
  }

  lemma RotateUndone31(x: bv64)
    ensures RotateBack(Rotate(x, 31), 31) == x
  {
  }

  lemma RotateUndone27(x: bv64)
    ensures RotateBack(Rotate(x, 27), 27) == x
  {
  }

  lemma RotateUndone23(x: bv64)
    ensures RotateBack(Rotate(x, 23), 23) == x
  {
  }

  lemma RotateUndone11(x: bv64)
    ensures RotateBack(Rotate(x, 11), 11) == x
  {
  }

  lemma RotateCancels(x: bv64, y: bv64, s: bv64)
    requires s == 31 || s == 27 || s == 23 || s == 11
    requires Rotate(x, s) == Rotate(y, s)
    ensures x == y
  {
    hide Rotate, RotateBack;
    if s == 31 {
      RotateUndone31(x);
      RotateUndone31(y);
    } else if s == 27 {
      RotateUndone27(x);
      RotateUndone27(y);
    } else if s == 23 {
      RotateUndone23(x);
      RotateUndone23(y);
    } else {
      RotateUndone11(x);
      RotateUndone11(y);
    }
  }

  function Unshift33(x: bv64): bv64 {
    x ^ (x >> 33)
  }

  function Unshift29(x: bv64): bv64 {
    x ^ (x >> 29) ^ (x >> 58)
  }

  function Unshift32(x: bv64): bv64 {
    x ^ (x >> 32)
  }

  lemma Unshifts33(x: bv64)
    ensures Unshift33(x ^ (x >> 33)) == x
  {
  }

  lemma ShiftIs33(x: bv64)
    ensures XorShift33(x) == x ^ (x >> 33)
  {
  }

  lemma Undoes33(x: bv64)
    ensures Unshift33(XorShift33(x)) == x
  {
    hide XorShift33, Unshift33;
    ShiftIs33(x);
    Unshifts33(x);
  }

  lemma Unshifts29(x: bv64)
    ensures Unshift29(x ^ (x >> 29)) == x
  {
  }

  lemma ShiftIs29(x: bv64)
    ensures XorShift29(x) == x ^ (x >> 29)
  {
  }

  lemma Undoes29(x: bv64)
    ensures Unshift29(XorShift29(x)) == x
  {
    hide XorShift29, Unshift29;
    ShiftIs29(x);
    Unshifts29(x);
  }

  lemma Unshifts32(x: bv64)
    ensures Unshift32(x ^ (x >> 32)) == x
  {
  }

  lemma ShiftIs32(x: bv64)
    ensures XorShift32(x) == x ^ (x >> 32)
  {
  }

  lemma Undoes32(x: bv64)
    ensures Unshift32(XorShift32(x)) == x
  {
    hide XorShift32, Unshift32;
    ShiftIs32(x);
    Unshifts32(x);
  }

  lemma XorCancels(x: bv64, a: bv64, b: bv64)
    ensures Xor(x, a) == Xor(x, b) ==> a == b
    ensures Xor(a, x) == Xor(b, x) ==> a == b
  {
  }

  function Minus(t: bv64, x: bv64): bv64 {
    t - x
  }

  lemma MinusUndoes(a: bv64, x: bv64)
    ensures Minus(a + x, x) == a
  {
  }

  lemma SumIs(a: bv64, x: bv64)
    ensures Sum(a, x) == a + x
    ensures Sum(x, a) == a + x
  {
  }

  lemma SumCancels(x: bv64, a: bv64, b: bv64)
    ensures Sum(x, a) == Sum(x, b) ==> a == b
    ensures Sum(a, x) == Sum(b, x) ==> a == b
  {
    hide Sum, Minus;
    SumIs(a, x);
    SumIs(b, x);
    MinusUndoes(a, x);
    MinusUndoes(b, x);
  }

  // ---- the steps ----

  lemma AvalancheInjective(x: bv64, y: bv64)
    requires Avalanche(x) == Avalanche(y)
    ensures x == y
  {
    hide XorShift33, XorShift29, XorShift32, Unshift33, Unshift29, Unshift32, Product, P1, P2, P3, P5;
    var a, b := Product(XorShift33(x), P2), Product(XorShift33(y), P2);
    var c, d := Product(XorShift29(a), P3), Product(XorShift29(b), P3);
    Undoes32(c);
    Undoes32(d);
    ProductCancels(XorShift29(a), XorShift29(b), P3);
    Undoes29(a);
    Undoes29(b);
    ProductCancels(XorShift33(x), XorShift33(y), P2);
    Undoes33(x);
    Undoes33(y);
  }

  lemma RoundInjective(acc: bv64, x: bv64, y: bv64)
    requires Round(acc, x) == Round(acc, y)
    ensures x == y
  {
    hide Sum, Rotate, Product, P1, P2, P3, P5;
    var a, b := Sum(acc, Product(x, P2)), Sum(acc, Product(y, P2));
    ProductCancels(Rotate(a, 31), Rotate(b, 31), P1);
    RotateCancels(a, b, 31);
    SumCancels(acc, Product(x, P2), Product(y, P2));
    ProductCancels(x, y, P2);
  }

  /** What a chunk adds to the accumulator before the mixing. */
  function Addend(chunk: seq<bv8>): bv64 {
    if |chunk| == 8 then Round(0, Lane(chunk))
    else if |chunk| == 4 then Product(Lane(chunk), P1)
    else Product(Lane(chunk), P5)
  }

  lemma MixingInjective(acc: bv64, chunk: seq<bv8>, other: bv64, chunk': seq<bv8>)
    requires |chunk| == |chunk'|
    requires TakeChunk(acc, chunk) == TakeChunk(other, chunk')
    ensures Xor(acc, Addend(chunk)) == Xor(other, Addend(chunk'))
  {
    hide Sum, Rotate, Product, Xor, Round, Lane, P1, P2, P3, P4, P5;
    var x, y := Xor(acc, Addend(chunk)), Xor(other, Addend(chunk'));
    if |chunk| == 8 {
      SumCancels(P4, Product(Rotate(x, 27), P1), Product(Rotate(y, 27), P1));
      ProductCancels(Rotate(x, 27), Rotate(y, 27), P1);
      RotateCancels(x, y, 27);
    } else if |chunk| == 4 {
      SumCancels(P3, Product(Rotate(x, 23), P2), Product(Rotate(y, 23), P2));
      ProductCancels(Rotate(x, 23), Rotate(y, 23), P2);
      RotateCancels(x, y, 23);
    } else {
      ProductCancels(Rotate(x, 11), Rotate(y, 11), P1);
      RotateCancels(x, y, 11);
    }
  }

  lemma TakeChunkKeepsApart(acc: bv64, other: bv64, chunk: seq<bv8>)
    requires TakeChunk(acc, chunk) == TakeChunk(other, chunk)
    ensures acc == other
  {
    hide TakeChunk, Addend, Xor;
    MixingInjective(acc, chunk, other, chunk);
    XorCancels(Addend(chunk), acc, other);
  }

  lemma LittleInjective(
    a0: bv8, a1: bv8, a2: bv8, a3: bv8, a4: bv8, a5: bv8, a6: bv8, a7: bv8,
    b0: bv8, b1: bv8, b2: bv8, b3: bv8, b4: bv8, b5: bv8, b6: bv8, b7: bv8)
    requires Little(a0, a1, a2, a3, a4, a5, a6, a7) == Little(b0, b1, b2, b3, b4, b5, b6, b7)
    ensures a0 == b0 && a1 == b1 && a2 == b2 && a3 == b3 && a4 == b4 && a5 == b5 && a6 == b6 && a7 == b7
  {
  }

  lemma BitIs(s: seq<bv8>, k: nat)
    requires k < |s|
    ensures Bits(s, k) == s[k]
  {
  }

  lemma LaneInjective(s: seq<bv8>, t: seq<bv8>)
    requires |s| == |t| <= 8 && Lane(s) == Lane(t)
    ensures s == t
  {
    hide Little, Bits;
    LittleInjective(
      Bits(s, 0), Bits(s, 1), Bits(s, 2), Bits(s, 3), Bits(s, 4), Bits(s, 5), Bits(s, 6), Bits(s, 7),
      Bits(t, 0), Bits(t, 1), Bits(t, 2), Bits(t, 3), Bits(t, 4), Bits(t, 5), Bits(t, 6), Bits(t, 7));
    forall k | 0 <= k < |s| ensures s[k] == t[k] {
      BitIs(s, k);
      BitIs(t, k);
    }
  }

  lemma TakeChunkInjective(acc: bv64, chunk: seq<bv8>, chunk': seq<bv8>)
    requires |chunk| == |chunk'| && (|chunk| == 8 || |chunk| == 4 || |chunk| == 1)
    requires TakeChunk(acc, chunk) == TakeChunk(acc, chunk')
    ensures chunk == chunk'
  {
    hide TakeChunk, Xor, Round, Product, Lane, P1, P2, P3, P5;
    MixingInjective(acc, chunk, acc, chunk');
    XorCancels(acc, Addend(chunk), Addend(chunk'));
    if |chunk| == 8 {
      RoundInjective(0, Lane(chunk), Lane(chunk'));
    } else if |chunk| == 4 {
      ProductCancels(Lane(chunk), Lane(chunk'), P1);
    } else {
      ProductCancels(Lane(chunk), Lane(chunk'), P5);
    }
    LaneInjective(chunk, chunk');
  }

  lemma {:induction false} TakeChunksKeepsApart(acc: bv64, other: bv64, chunks: seq<seq<bv8>>)
    requires TakeChunks(acc, chunks) == TakeChunks(other, chunks)
    ensures acc == other
    decreases |chunks|
  {
    hide TakeChunk;
    if chunks != [] {
      TakeChunksKeepsApart(TakeChunk(acc, chunks[0]), TakeChunk(other, chunks[0]), chunks[1..]);
      TakeChunkKeepsApart(acc, other, chunks[0]);
    }
  }

  /** The lists agree everywhere but at one place, where the chunks have the same size. */
  predicate DifferAt(a: seq<seq<bv8>>, b: seq<seq<bv8>>, i: nat) {
    && |a| == |b| && i < |a| && a[..i] == b[..i] && a[i + 1..] == b[i + 1..]
    && a[i] != b[i] && |a[i]| == |b[i]| && (|a[i]| == 8 || |a[i]| == 4 || |a[i]| == 1)
  }

  lemma {:induction false} OneChunkShows(acc: bv64, a: seq<seq<bv8>>, b: seq<seq<bv8>>, i: nat)
    requires DifferAt(a, b, i)
    ensures TakeChunks(acc, a) != TakeChunks(acc, b)
    decreases i
  {
    hide TakeChunk;
    if i == 0 {
      if TakeChunk(acc, a[0]) == TakeChunk(acc, b[0]) {
        TakeChunkInjective(acc, a[0], b[0]);
      }
      if TakeChunks(acc, a) == TakeChunks(acc, b) {
        TakeChunksKeepsApart(TakeChunk(acc, a[0]), TakeChunk(acc, b[0]), a[1..]);
      }
    } else {
      DifferLater(a, b, i);
      OneChunkShows(TakeChunk(acc, a[0]), a[1..], b[1..], i - 1);
    }
  }

  lemma DifferLater(a: seq<seq<bv8>>, b: seq<seq<bv8>>, i: nat)
    requires DifferAt(a, b, i) && i > 0
    ensures a[0] == b[0] && DifferAt(a[1..], b[1..], i - 1)
  {
    assert a[0] == a[..i][0] && b[0] == b[..i][0];
    assert a[1..][..i - 1] == a[..i][1..] && b[1..][..i - 1] == b[..i][1..];
    assert a[1..][i..] == a[i + 1..] && b[1..][i..] == b[i + 1..];
  }

  /** Inputs of one length with the same stripes whose remainders differ in a single chunk have different hashes. */
  lemma SingleChunkNeverCollides(seed: bv64, a: seq<bv8>, b: seq<bv8>, i: nat)
    requires |a| == |b| && Stripes(a) == Stripes(b)
    requires DifferAt(Chunks(Rest(a)), Chunks(Rest(b)), i)
    ensures Digest(seed, a) != Digest(seed, b)
  {
    hide Stripes, Chunks, Rest, TakeChunks, TakeStripes, Avalanche, DifferAt, Sum, Word, Initial, Converge;
    var start := Sum(BeforeLength(seed, a), Word(|a|));
    OneChunkShows(start, Chunks(Rest(a)), Chunks(Rest(b)), i);
    if Digest(seed, a) == Digest(seed, b) {
      AvalancheInjective(TakeChunks(start, Chunks(Rest(a))), TakeChunks(start, Chunks(Rest(b))));
    }
  }
}
