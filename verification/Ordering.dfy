/** The order Rust gives strings, the ascending enumeration of an ordered set, and a stable sort. */
module Ordering {

  // ---- strings ----

  /** Lexicographic order by code point, which is also the order of the UTF-8 bytes. */
  predicate Less(a: string, b: string) {
    b != "" && (a == "" || a[0] < b[0] || (a[0] == b[0] && Less(a[1..], b[1..])))
  }

  lemma {:induction false} LessIrreflexive(a: string)
    ensures !Less(a, a)
  {
    if a != "" {
      LessIrreflexive(a[1..]);
    }
  }

  lemma {:induction false} LessTotal(a: string, b: string)
    ensures a == b || Less(a, b) || Less(b, a)
  {
    if a != "" && b != "" && a[0] == b[0] {
      LessTotal(a[1..], b[1..]);
      if a[1..] == b[1..] {
        assert a == [a[0]] + a[1..] && b == [b[0]] + b[1..];
      }
    }
  }

  lemma {:induction false} LessTransitive(a: string, b: string, c: string)
    requires Less(a, b) && Less(b, c)
    ensures Less(a, c)
  {
    if a != "" && a[0] == b[0] && b[0] == c[0] {
      LessTransitive(a[1..], b[1..], c[1..]);
    }
  }

  lemma LessAsymmetric(a: string, b: string)
    requires Less(a, b)
    ensures !Less(b, a)
  {
    if Less(b, a) {
      LessTransitive(a, b, a);
      LessIrreflexive(a);
    }
  }

  lemma NotLessTransitive(a: string, b: string, c: string)
    requires !Less(b, a) && !Less(c, b)
    ensures !Less(c, a)
    ensures a == c ==> b == a
  {
    hide Less;
    LessTotal(a, b);
    LessTotal(b, c);
    if a != b && b != c {
      LessTransitive(a, b, c);
      LessAsymmetric(a, c);
      if a == c {
        LessIrreflexive(a);
      }
    }
  }

  /** The two agree up to a place where the first ends or has the smaller letter. */
  ghost predicate Precedes(a: string, b: string) {
    exists k: nat :: DifferAt(a, b, k)
  }

  predicate DifferAt(a: string, b: string, k: nat) {
    k <= |a| && k < |b| && a[..k] == b[..k] && (k < |a| ==> a[k] < b[k])
  }

  lemma {:induction false} LessIff(a: string, b: string)
    ensures Less(a, b) <==> Precedes(a, b)
  {
    if b != "" && a != "" && a[0] == b[0] {
      LessIff(a[1..], b[1..]);
      forall k: nat ensures DifferAt(a[1..], b[1..], k) <==> DifferAt(a, b, k + 1) {
        if k < |b| - 1 && k <= |a| - 1 {
          assert a[..k + 1] == [a[0]] + a[1..][..k] && b[..k + 1] == [b[0]] + b[1..][..k];
        }
      }
      if k: nat :| DifferAt(a[1..], b[1..], k) {
        assert DifferAt(a, b, k + 1);
      }
      if k: nat :| DifferAt(a, b, k) {
        assert k > 0;
        assert DifferAt(a[1..], b[1..], k - 1) <==> DifferAt(a, b, k - 1 + 1);
      }
    } else if Less(a, b) {
      assert DifferAt(a, b, 0);
    } else if k: nat :| DifferAt(a, b, k) && k > 0 {
      FirstAgrees(a, b, k);
    }
  }

  lemma FirstAgrees(a: string, b: string, k: nat)
    requires DifferAt(a, b, k) && k > 0
    ensures a != "" && b != "" && a[0] == b[0]
  {
    assert a[..k][0] == b[..k][0];
  }

  // ---- ascending enumeration of a set ----

  predicate Ascends(s: seq<string>) {
    forall i, j :: 0 <= i < j < |s| ==> Less(s[i], s[j])
  }

  ghost predicate Enumerates(list: seq<string>, s: set<string>) {
    Ascends(list) && forall x :: x in list <==> x in s
  }

  /** A set has one ascending enumeration. */
  lemma {:induction false} EnumerationUnique(a: seq<string>, b: seq<string>, s: set<string>)
    requires Enumerates(a, s) && Enumerates(b, s)
    ensures a == b
    decreases |a|
  {
    assert a != [] ==> a[0] in a;
    assert b != [] ==> b[0] in b;
    if a != [] {
      var i :| 0 <= i < |b| && b[i] == a[0];
      var j :| 0 <= j < |a| && a[j] == b[0];
      assert a[0] == b[0] by {
        if i > 0 && j > 0 {
          LessAsymmetric(a[0], b[0]);
        }
      }
      TailEnumerates(a, s);
      TailEnumerates(b, s);
      EnumerationUnique(a[1..], b[1..], s - {a[0]});
    }
  }

  lemma TailEnumerates(list: seq<string>, s: set<string>)
    requires list != [] && Enumerates(list, s)
    ensures Enumerates(list[1..], s - {list[0]})
  {
    hide Less;
    forall k | 1 <= k < |list| ensures list[k] != list[0] {
      LessIrreflexive(list[0]);
    }
    assert forall x :: x in list <==> x == list[0] || x in list[1..];
  }

  /** Put one more element into an ascending list. */
  function Insert(x: string, list: seq<string>): seq<string> {
    if list == [] then [x]
    else if Less(list[0], x) then [list[0]] + Insert(x, list[1..])
    else [x] + list
  }

  lemma {:induction false} InsertEnumerates(x: string, list: seq<string>, s: set<string>)
    requires Enumerates(list, s) && x !in s
    ensures Enumerates(Insert(x, list), s + {x})
    decreases |list|
  {
    hide Less;
    if list != [] {
      var y := list[0];
      assert y in list;
      if Less(y, x) {
        TailEnumerates(list, s);
        InsertEnumerates(x, list[1..], s - {y});
        var r := Insert(x, list[1..]);
        forall k | 0 <= k < |r| ensures Less(y, r[k]) {
          assert r[k] in r;
          if r[k] != x {
            var m :| 0 <= m < |list| && list[m] == r[k];
          }
        }
        assert Insert(x, list) == [y] + r;
      } else {
        LessTotal(y, x);
        forall k | 0 < k < |list| ensures Less(x, list[k]) {
          LessTransitive(x, y, list[k]);
        }
      }
    }
  }

  /** Iteration over a B-tree set. */
  method Enumerate(s: set<string>) returns (list: seq<string>)
    ensures Enumerates(list, s)
  {
    hide Less, Insert;
    list := [];
    var rest := s;
    ghost var done: set<string> := {};
    while rest != {}
      invariant rest <= s && done == s - rest
      invariant Enumerates(list, done)
      decreases |rest|
    {
      var x :| x in rest;
      InsertEnumerates(x, list, done);
      list := Insert(x, list);
      rest := rest - {x};
      done := done + {x};
    }
  }

  lemma {:induction false} EnumerationExists(s: set<string>) returns (list: seq<string>)
    ensures Enumerates(list, s)
    decreases |s|
  {
    if s == {} {
      list := [];
    } else {
      var x :| x in s;
      var rest := EnumerationExists(s - {x});
      InsertEnumerates(x, rest, s - {x});
      assert s - {x} + {x} == s;
      list := Insert(x, rest);
    }
  }

  /** The ascending enumeration as a function. */
  ghost function Listing(s: set<string>): (list: seq<string>)
    ensures Enumerates(list, s)
  {
    assert exists list :: Enumerates(list, s) by {
      var list := EnumerationExists(s);
    }
    var list :| Enumerates(list, s);
    list
  }

  // ---- stable sort ----

  /** A strict weak order: what `sort_by` asks of its comparison. */
  ghost predicate StrictWeak<T(!new)>(before: (T, T) -> bool) {
    && (forall x :: !before(x, x))
    && (forall x, y :: before(x, y) ==> !before(y, x))
    && (forall x, y, z :: !before(y, x) && !before(z, y) ==> !before(z, x))
  }

  predicate SortedBy<T>(before: (T, T) -> bool, s: seq<T>) {
    forall i, j :: 0 <= i < j < |s| ==> !before(s[j], s[i])
  }

  function Place<T>(before: (T, T) -> bool, x: T, s: seq<T>): seq<T> {
    if s == [] then [x]
    else if before(s[0], x) then [s[0]] + Place(before, x, s[1..])
    else [x] + s
  }

  function Sort<T>(before: (T, T) -> bool, s: seq<T>): seq<T> {
    if s == [] then [] else Place(before, s[0], Sort(before, s[1..]))
  }

  lemma {:induction false} PlaceMultiset<T>(before: (T, T) -> bool, x: T, s: seq<T>)
    ensures multiset(Place(before, x, s)) == multiset(s) + multiset{x}
  {
    if s != [] {
      assert s == [s[0]] + s[1..];
      PlaceMultiset(before, x, s[1..]);
    }
  }

  lemma {:induction false} SortMultiset<T>(before: (T, T) -> bool, s: seq<T>)
    ensures multiset(Sort(before, s)) == multiset(s)
  {
    if s != [] {
      assert s == [s[0]] + s[1..];
      SortMultiset(before, s[1..]);
      PlaceMultiset(before, s[0], Sort(before, s[1..]));
    }
  }

  lemma {:induction false} PlaceSorted<T(!new)>(before: (T, T) -> bool, x: T, s: seq<T>)
    requires StrictWeak(before) && SortedBy(before, s)
    ensures SortedBy(before, Place(before, x, s))
  {
    if s != [] && before(s[0], x) {
      PlaceSorted(before, x, s[1..]);
      var r := Place(before, x, s[1..]);
      PlaceMultiset(before, x, s[1..]);
      forall k | 0 <= k < |r| ensures !before(r[k], s[0]) {
        assert r[k] in multiset(r);
        if r[k] != x {
          assert r[k] in s[1..];
        }
      }
    }
  }

  lemma {:induction false} SortSorted<T(!new)>(before: (T, T) -> bool, s: seq<T>)
    requires StrictWeak(before)
    ensures SortedBy(before, Sort(before, s))
  {
    if s != [] {
      SortSorted(before, s[1..]);
      PlaceSorted(before, s[0], Sort(before, s[1..]));
    }
  }

  lemma SortMembers<T>(before: (T, T) -> bool, s: seq<T>)
    ensures |Sort(before, s)| == |s| && forall x :: x in Sort(before, s) <==> x in s
  {
    SortMultiset(before, s);
    assert |multiset(s)| == |s| && |multiset(Sort(before, s))| == |Sort(before, s)|;
    forall x ensures x in Sort(before, s) <==> x in s {
      assert x in s <==> x in multiset(s);
      assert x in Sort(before, s) <==> x in multiset(Sort(before, s));
    }
  }

  /** Sorting leaves a sorted list alone. */
  lemma {:induction false} SortFixed<T>(before: (T, T) -> bool, s: seq<T>)
    requires SortedBy(before, s)
    ensures Sort(before, s) == s
  {
    if s != [] {
      SortFixed(before, s[1..]);
      assert s == [s[0]] + s[1..];
    }
  }

  /** Different members are never tied. */
  predicate NoTies<T(==)>(before: (T, T) -> bool, s: seq<T>) {
    forall i, j :: 0 <= i < |s| && 0 <= j < |s| && s[i] != s[j] ==> before(s[i], s[j]) || before(s[j], s[i])
  }

  lemma SortedHead<T(!new)>(before: (T, T) -> bool, s: seq<T>, t: seq<T>)
    requires StrictWeak(before) && SortedBy(before, s) && SortedBy(before, t) && NoTies(before, s)
    requires s != [] && t != [] && s[0] in t && t[0] in s
    ensures s[0] == t[0]
  {
    var i :| 0 <= i < |t| && t[i] == s[0];
    var j :| 0 <= j < |s| && s[j] == t[0];
    assert i > 0 ==> !before(t[i], t[0]);
    assert j > 0 ==> !before(s[j], s[0]);
  }

  lemma TailMultiset<T>(s: seq<T>)
    requires s != []
    ensures multiset(s[1..]) == multiset(s) - multiset{s[0]}
  {
    assert s == [s[0]] + s[1..];
  }

  lemma SortedTail<T>(before: (T, T) -> bool, s: seq<T>)
    requires s != []
    ensures SortedBy(before, s) ==> SortedBy(before, s[1..])
    ensures NoTies(before, s) ==> NoTies(before, s[1..])
  {
  }

  /** A list without ties has one sorted arrangement. */
  lemma {:induction false} SortedUnique<T(!new)>(before: (T, T) -> bool, s: seq<T>, t: seq<T>)
    requires StrictWeak(before) && SortedBy(before, s) && SortedBy(before, t) && NoTies(before, s)
    requires multiset(s) == multiset(t)
    ensures s == t
    decreases |s|
  {
    hide SortedBy, NoTies, StrictWeak;
    assert |s| == |multiset(s)| && |t| == |multiset(t)|;
    if s != [] {
      assert s[0] in multiset(t) && t[0] in multiset(s);
      SortedHead(before, s, t);
      TailMultiset(s);
      TailMultiset(t);
      SortedTail(before, s);
      SortedTail(before, t);
      SortedUnique(before, s[1..], t[1..]);
      assert s == [s[0]] + s[1..] && t == [t[0]] + t[1..];
    }
  }

  /** Two different members that tie are told apart by the order in which they are placed. */
  lemma {:induction false} PlaceTied<T(!new)>(before: (T, T) -> bool, x: T, y: T, s: seq<T>)
    requires StrictWeak(before) && x != y && !before(x, y) && !before(y, x)
    ensures Place(before, x, Place(before, y, s)) != Place(before, y, Place(before, x, s))
  {
    if s == [] {
      assert Place(before, x, [y]) == [x, y] && Place(before, y, [x]) == [y, x];
    } else {
      var z := s[0];
      assert before(z, x) <==> before(z, y);
      if before(z, x) {
        PlaceTied(before, x, y, s[1..]);
        var xy, yx := Place(before, x, Place(before, y, s[1..])), Place(before, y, Place(before, x, s[1..]));
        assert ([z] + xy)[1..] == xy && ([z] + yx)[1..] == yx;
      } else {
        assert ([x] + ([y] + s))[0] != ([y] + ([x] + s))[0];
      }
    }
  }

  lemma SortTied<T(!new)>(before: (T, T) -> bool, x: T, y: T, rest: seq<T>)
    requires StrictWeak(before) && x != y && !before(x, y) && !before(y, x)
    ensures Sort(before, [x, y] + rest) != Sort(before, [y, x] + rest)
  {
    hide StrictWeak, Place;
    PlaceTied(before, x, y, Sort(before, rest));
    SortTwo(before, x, y, rest);
    SortTwo(before, y, x, rest);
  }

  lemma SortTwo<T>(before: (T, T) -> bool, x: T, y: T, rest: seq<T>)
    ensures Sort(before, [x, y] + rest) == Place(before, x, Place(before, y, Sort(before, rest)))
  {
    hide Place;
    assert ([x, y] + rest)[1..] == [y] + rest && ([y] + rest)[1..] == rest;
  }

  /** Any two members can be brought to the front, in either order. */
  lemma TwoToFront<T>(s: seq<T>, i: nat, j: nat) returns (rest: seq<T>)
    requires i < j < |s|
    ensures multiset([s[i], s[j]] + rest) == multiset(s) == multiset([s[j], s[i]] + rest)
  {
    rest := s[..i] + s[i + 1..j] + s[j + 1..];
    assert s == s[..i] + [s[i]] + s[i + 1..j] + [s[j]] + s[j + 1..];
  }

  /** Under an order that tells nothing, sorting does nothing. */
  lemma {:induction false} SortNothing<T>(before: (T, T) -> bool, s: seq<T>)
    requires forall x, y :: x in s && y in s ==> !before(x, y)
    ensures Sort(before, s) == s
  {
    if s != [] {
      SortNothing(before, s[1..]);
      assert s == [s[0]] + s[1..];
    }
  }

  // ---- stability ----

  predicate Tied<T>(before: (T, T) -> bool, x: T, y: T) {
    !before(x, y) && !before(y, x)
  }

  /** The members tied with `x`, in order. */
  function TiedWith<T>(before: (T, T) -> bool, x: T, s: seq<T>): seq<T> {
    if s == [] then [] else (if Tied(before, x, s[0]) then [s[0]] else []) + TiedWith(before, x, s[1..])
  }

  lemma NotBothTied<T(!new)>(before: (T, T) -> bool, x: T, y: T, z: T)
    requires StrictWeak(before) && before(y, z)
    ensures !(Tied(before, x, y) && Tied(before, x, z))
  {
  }

  lemma TiedCons<T>(before: (T, T) -> bool, x: T, head: T, rest: seq<T>)
    ensures TiedWith(before, x, [head] + rest) == (if Tied(before, x, head) then [head] else []) + TiedWith(before, x, rest)
  {
    assert ([head] + rest)[1..] == rest;
  }

  lemma {:induction false} PlaceStable<T(!new)>(before: (T, T) -> bool, x: T, y: T, s: seq<T>)
    requires StrictWeak(before)
    ensures TiedWith(before, x, Place(before, y, s)) == TiedWith(before, x, [y] + s)
  {
    hide StrictWeak, Tied, TiedWith;
    if s == [] {
      assert [y] + s == [y];
    } else if before(s[0], y) {
      var z, rest := s[0], s[1..];
      PlaceStable(before, x, y, rest);
      NotBothTied(before, x, z, y);
      TiedCons(before, x, z, Place(before, y, rest));
      TiedCons(before, x, y, rest);
      TiedCons(before, x, y, s);
      assert s == [z] + rest;
      TiedCons(before, x, z, rest);
    }
  }

  /** Members that tie stay in their order. */
  lemma {:induction false} SortStable<T(!new)>(before: (T, T) -> bool, x: T, s: seq<T>)
    requires StrictWeak(before)
    ensures TiedWith(before, x, Sort(before, s)) == TiedWith(before, x, s)
  {
    hide StrictWeak, Tied, TiedWith, Place;
    if s != [] {
      SortStable(before, x, s[1..]);
      PlaceStable(before, x, s[0], Sort(before, s[1..]));
      TiedCons(before, x, s[0], Sort(before, s[1..]));
      TiedCons(before, x, s[0], s[1..]);
      assert s == [s[0]] + s[1..];
    }
  }
}
