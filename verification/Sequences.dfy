/** Sequences of sequences, end to end. */
module Sequences {

  function Concat<T>(parts: seq<seq<T>>): seq<T> {
    if parts == [] then [] else parts[0] + Concat(parts[1..])
  }

  lemma {:induction false} ConcatConcat<T>(a: seq<seq<T>>, b: seq<seq<T>>)
    ensures Concat(a + b) == Concat(a) + Concat(b)
  {
    if a == [] {
      assert a + b == b;
    } else {
      ConcatConcat(a[1..], b);
      assert (a + b)[0] == a[0] && (a + b)[1..] == a[1..] + b;
      Associates(a[0], Concat(a[1..]), Concat(b));
    }
  }

  lemma ConcatOne<T>(part: seq<T>)
    ensures Concat([part]) == part
  {
    assert [part][1..] == [];
  }

  lemma Associates<T>(a: seq<T>, b: seq<T>, c: seq<T>)
    ensures a + (b + c) == (a + b) + c
  {
  }

  lemma NothingConcat<T>()
    ensures Concat<T>([]) == []
  {
  }

  lemma SliceOfSlice<T>(s: seq<T>, from: nat, size: nat, at: nat, n: nat)
    requires from + size <= |s| && at + n <= size
    ensures s[from..from + size][at..at + n] == s[from + at..from + at + n]
  {
    var part := s[from..from + size];
    var own, direct := part[at..at + n], s[from + at..from + at + n];
    forall k | 0 <= k < n ensures own[k] == direct[k] {
      assert own[k] == part[at + k] == s[from + (at + k)] == direct[k];
    }
    assert own == direct;
  }
}
