/** The dynamic table: which entries count, and where the string table is. */
module ElfDynamic {
  import opened Wrappers
  import opened Octet
  import opened ElfBytes
  import opened ElfParser

  datatype StringRef = StringRef(tag: nat, index: nat, offset: nat)

  datatype Dynamic = Dynamic(address: nat, size: nat, strings: seq<StringRef>)

  predicate InTable(dyn: seq<byte>, n: nat) {
    n * 16 <= |dyn|
  }

  function Tag(dyn: seq<byte>, i: nat): nat
    requires InTable(dyn, i + 1)
  {
    U64At(dyn, 16 * i)
  }

  function Value(dyn: seq<byte>, i: nat): nat
    requires InTable(dyn, i + 1)
  {
    U64At(dyn, 16 * i + 8)
  }

  predicate IsStringTag(tag: nat) {
    tag in {DT_NEEDED, DT_SONAME, DT_RPATH, DT_RUNPATH}
  }

  /** The entries among the first `n` that name strings, in order. */
  function StringRefs(dyn: seq<byte>, n: nat): seq<StringRef>
    requires InTable(dyn, n)
  {
    if n == 0 then []
    else
      var tag := Tag(dyn, n - 1);
      StringRefs(dyn, n - 1) + if IsStringTag(tag) then [StringRef(tag, n - 1, Value(dyn, n - 1))] else []
  }

  predicate Absent(dyn: seq<byte>, n: nat, tag: nat)
    requires InTable(dyn, n)
  {
    forall j :: 0 <= j < n ==> Tag(dyn, j) != tag
  }

  predicate AtMostOnce(dyn: seq<byte>, n: nat, tag: nat)
    requires InTable(dyn, n)
  {
    forall i, j :: 0 <= i < j < n ==> !(Tag(dyn, i) == tag && Tag(dyn, j) == tag)
  }

  /** Exactly one entry of this tag, with this value. */
  ghost predicate Once(dyn: seq<byte>, n: nat, tag: nat, value: nat)
    requires InTable(dyn, n)
  {
    AtMostOnce(dyn, n, tag) && exists i :: 0 <= i < n && Tag(dyn, i) == tag && Value(dyn, i) == value
  }

  ghost predicate Maybe(dyn: seq<byte>, n: nat, tag: nat, value: Option<nat>)
    requires InTable(dyn, n)
  {
    if value.Some? then Once(dyn, n, tag, value.value) else Absent(dyn, n, tag)
  }

  predicate SingletonsOnce(dyn: seq<byte>, n: nat)
    requires InTable(dyn, n)
  {
    AtMostOnce(dyn, n, DT_SONAME) && AtMostOnce(dyn, n, DT_RPATH) && AtMostOnce(dyn, n, DT_RUNPATH)
  }

  /** The table ends at its first null entry `t`. */
  predicate EndsAt(dyn: seq<byte>, t: nat) {
    InTable(dyn, t + 1) && Tag(dyn, t) == DT_NULL && Absent(dyn, t, DT_NULL)
  }

  /** Only entries before the first null count: one string table address, one size, each singleton at most
      once, and the string entries in order. */
  ghost predicate IsDynamic(dyn: seq<byte>, d: Dynamic) {
    && |dyn| / 16 <= MAX_DYNAMIC_ENTRIES
    && (exists t: nat ::
          && EndsAt(dyn, t)
          && Once(dyn, t, DT_STRTAB, d.address) && Once(dyn, t, DT_STRSZ, d.size)
          && SingletonsOnce(dyn, t)
          && d.strings == StringRefs(dyn, t))
  }

  datatype Tally = Tally(address: Option<nat>, size: Option<nat>, strings: seq<StringRef>)

  ghost predicate Tallied(dyn: seq<byte>, n: nat, s: Tally) {
    && InTable(dyn, n)
    && Absent(dyn, n, DT_NULL)
    && Maybe(dyn, n, DT_STRTAB, s.address)
    && Maybe(dyn, n, DT_STRSZ, s.size)
    && SingletonsOnce(dyn, n)
    && s.strings == StringRefs(dyn, n)
  }

  ghost predicate Hopeless(dyn: seq<byte>) {
    forall d :: !IsDynamic(dyn, d)
  }

  /** Entry `n`, before any null, has the tag of an entry before it. */
  predicate Repeats(dyn: seq<byte>, n: nat, tag: nat) {
    InTable(dyn, n + 1) && Absent(dyn, n + 1, DT_NULL) && Tag(dyn, n) == tag && !Absent(dyn, n, tag)
  }

  ghost predicate EndsWithout(dyn: seq<byte>, tag: nat) {
    exists t: nat :: EndsAt(dyn, t) && Absent(dyn, t, tag)
  }

  /** What each error says of the table, which starts at `base` in the file. */
  ghost predicate DynamicFault(dyn: seq<byte>, base: nat, e: ElfError) {
    match e
    case DynamicEntryCountExceeded(n) => n == |dyn| / 16 && n > MAX_DYNAMIC_ENTRIES
    case DynamicNotTerminated(o) => o == base && Absent(dyn, |dyn| / 16, DT_NULL)
    case MissingStringTable => EndsWithout(dyn, DT_STRTAB)
    case MissingStringTableSize => EndsWithout(dyn, DT_STRSZ)
    case DuplicateStringTable(n) => Repeats(dyn, n, DT_STRTAB)
    case DuplicateStringTableSize(n) => Repeats(dyn, n, DT_STRSZ)
    case DuplicateSingletonTag(tag, n) => tag in {DT_SONAME, DT_RPATH, DT_RUNPATH} && Repeats(dyn, n, tag)
    case _ => false
  }

  lemma OtherTag(dyn: seq<byte>, n: nat, tag: nat, value: Option<nat>)
    requires InTable(dyn, n + 1) && Tag(dyn, n) != tag
    ensures Maybe(dyn, n, tag, value) ==> Maybe(dyn, n + 1, tag, value)
    ensures AtMostOnce(dyn, n, tag) ==> AtMostOnce(dyn, n + 1, tag)
    ensures Absent(dyn, n, tag) ==> Absent(dyn, n + 1, tag)
  {
    hide Tag, Value;
  }

  lemma FirstOfTag(dyn: seq<byte>, n: nat, tag: nat)
    requires InTable(dyn, n + 1) && Tag(dyn, n) == tag && Absent(dyn, n, tag)
    ensures Once(dyn, n + 1, tag, Value(dyn, n)) && AtMostOnce(dyn, n + 1, tag)
  {
    hide Tag, Value;
  }

  /** A repeated entry before the first null spoils the table for good. */
  lemma RepeatSpoils(dyn: seq<byte>, n: nat, i: nat, tag: nat)
    requires InTable(dyn, n + 1) && Absent(dyn, n + 1, DT_NULL)
    requires i < n && Tag(dyn, i) == tag && Tag(dyn, n) == tag
    requires tag in {DT_STRTAB, DT_STRSZ, DT_SONAME, DT_RPATH, DT_RUNPATH}
    ensures Hopeless(dyn)
  {
    hide Tag, Value, StringRefs;
    forall t: nat | EndsAt(dyn, t) ensures !AtMostOnce(dyn, t, tag) {
      assert n < t;
    }
  }

  predicate HasTag(refs: seq<StringRef>, tag: nat) {
    exists k :: 0 <= k < |refs| && refs[k].tag == tag
  }

  /** A singleton was seen before exactly when one of its entries is among the string entries. */
  lemma {:induction false} SeenBefore(dyn: seq<byte>, n: nat, tag: nat)
    requires InTable(dyn, n) && IsStringTag(tag)
    ensures HasTag(StringRefs(dyn, n), tag) <==> !Absent(dyn, n, tag)
  {
    hide Tag, Value;
    if n > 0 {
      SeenBefore(dyn, n - 1, tag);
      var before, refs := StringRefs(dyn, n - 1), StringRefs(dyn, n);
      assert forall k :: 0 <= k < |before| ==> refs[k] == before[k];
      if Tag(dyn, n - 1) == tag {
        assert refs[|refs| - 1].tag == tag;
      } else {
        assert forall k :: |before| <= k < |refs| ==> refs[k].tag != tag;
      }
    }
  }

  /** One entry that is not the terminator. */
  method ScanEntry(dyn: seq<byte>, n: nat, s: Tally) returns (r: Result<Tally, ElfError>)
    requires InTable(dyn, n + 1) && Tallied(dyn, n, s) && Tag(dyn, n) != DT_NULL
    ensures r.Success? ==> Tallied(dyn, n + 1, r.value)
    ensures r.Failure? ==> Hopeless(dyn)
    ensures r.Failure? ==> forall base :: DynamicFault(dyn, base, r.error)
  {
    hide Tag, Value, Maybe, AtMostOnce, Absent, Hopeless, HasTag, EndsWithout;
    var tag, value := Tag(dyn, n), Value(dyn, n);
    OtherTag(dyn, n, DT_NULL, None);
    if tag !in {DT_SONAME, DT_RPATH, DT_RUNPATH} { StaysOnce(dyn, n); }
    if tag != DT_STRTAB { OtherTag(dyn, n, DT_STRTAB, s.address); }
    if tag != DT_STRSZ { OtherTag(dyn, n, DT_STRSZ, s.size); }
    if tag == DT_STRTAB {
      if s.address.Some? {
        RepeatedValue(dyn, n, tag, s.address);
        return Failure(DuplicateStringTable(n));
      }
      FirstValue(dyn, n, tag);
      return Success(s.(address := Some(value)));
    } else if tag == DT_STRSZ {
      if s.size.Some? {
        RepeatedValue(dyn, n, tag, s.size);
        return Failure(DuplicateStringTableSize(n));
      }
      FirstValue(dyn, n, tag);
      return Success(s.(size := Some(value)));
    } else if IsStringTag(tag) {
      SeenBefore(dyn, n, tag);
      if tag != DT_NEEDED && HasTag(s.strings, tag) {
        RepeatedTag(dyn, n, tag);
        return Failure(DuplicateSingletonTag(tag, n));
      }
      StillOnce(dyn, n);
      return Success(s.(strings := s.strings + [StringRef(tag, n, value)]));
    }
    return Success(s);
  }

  lemma StaysOnce(dyn: seq<byte>, n: nat)
    requires InTable(dyn, n + 1) && SingletonsOnce(dyn, n) && Tag(dyn, n) !in {DT_SONAME, DT_RPATH, DT_RUNPATH}
    ensures SingletonsOnce(dyn, n + 1)
  {
    hide Tag, Value;
  }

  lemma StillOnce(dyn: seq<byte>, n: nat)
    requires InTable(dyn, n + 1) && SingletonsOnce(dyn, n)
    requires Tag(dyn, n) == DT_NEEDED || Absent(dyn, n, Tag(dyn, n))
    ensures SingletonsOnce(dyn, n + 1)
  {
    hide Tag, Value;
  }

  lemma FirstValue(dyn: seq<byte>, n: nat, tag: nat)
    requires InTable(dyn, n + 1) && Tag(dyn, n) == tag && Maybe(dyn, n, tag, None)
    ensures Maybe(dyn, n + 1, tag, Some(Value(dyn, n)))
  {
    FirstOfTag(dyn, n, tag);
  }

  lemma RepeatedValue(dyn: seq<byte>, n: nat, tag: nat, value: Option<nat>)
    requires InTable(dyn, n + 1) && Absent(dyn, n + 1, DT_NULL)
    requires Tag(dyn, n) == tag && tag in {DT_STRTAB, DT_STRSZ} && value.Some? && Maybe(dyn, n, tag, value)
    ensures Hopeless(dyn) && Repeats(dyn, n, tag)
  {
    hide Tag, Value, Hopeless;
    var i :| 0 <= i < n && Tag(dyn, i) == tag && Value(dyn, i) == value.value;
    RepeatSpoils(dyn, n, i, tag);
  }

  lemma RepeatedTag(dyn: seq<byte>, n: nat, tag: nat)
    requires InTable(dyn, n + 1) && Absent(dyn, n + 1, DT_NULL)
    requires Tag(dyn, n) == tag && tag in {DT_SONAME, DT_RPATH, DT_RUNPATH} && !Absent(dyn, n, tag)
    ensures Hopeless(dyn) && Repeats(dyn, n, tag)
  {
    hide Tag, Value, Hopeless;
    var i :| 0 <= i < n && Tag(dyn, i) == tag;
    RepeatSpoils(dyn, n, i, tag);
  }

  method ScanDynamic(dyn: seq<byte>, base: nat) returns (r: Result<Dynamic, ElfError>)
    requires |dyn| <= MAX_INPUT
    ensures r.Success? ==> IsDynamic(dyn, r.value)
    ensures r.Failure? ==> Hopeless(dyn)
    ensures r.Failure? ==> DynamicFault(dyn, base, r.error)
  {
    hide Field, Maybe, AtMostOnce, Absent, Hopeless, Repeats, EndsWithout;
    var count := |dyn| / 16;
    if count > MAX_DYNAMIC_ENTRIES {
      TooMany(dyn);
      return Failure(DynamicEntryCountExceeded(count));
    }
    var s := Tally(None, None, []);
    NothingScanned(dyn);
    var terminated := false;
    var index := 0;
    while index < count
      invariant index <= count && Tallied(dyn, index, s)
      invariant !terminated
    {
      var tag := ReadU64(dyn, Plus(index * 16, 0), "dynamic-entry").value;
      var _ := ReadU64(dyn, Plus(index * 16, 8), "dynamic-entry").value;
      if tag == DT_NULL {
        terminated := true;
        break;
      }
      s :- ScanEntry(dyn, index, s);
      index := index + 1;
    }
    if !terminated {
      NeverEnds(dyn, count);
      return Failure(DynamicNotTerminated(base));
    }
    if s.address.None? {
      Lacking(dyn, index, s);
      return Failure(MissingStringTable);
    }
    if s.size.None? {
      Lacking(dyn, index, s);
      return Failure(MissingStringTableSize);
    }
    Complete(dyn, index, s);
    return Success(Dynamic(s.address.value, s.size.value, s.strings));
  }

  lemma NothingScanned(dyn: seq<byte>)
    ensures Tallied(dyn, 0, Tally(None, None, []))
  {
  }

  lemma TooMany(dyn: seq<byte>)
    requires |dyn| / 16 > MAX_DYNAMIC_ENTRIES
    ensures Hopeless(dyn)
  {
    hide Tag, Value;
  }

  lemma NeverEnds(dyn: seq<byte>, n: nat)
    requires n == |dyn| / 16 && Absent(dyn, n, DT_NULL)
    ensures Hopeless(dyn)
  {
    hide Tag, Value;
  }

  lemma EndUnique(dyn: seq<byte>, t: nat, u: nat)
    requires EndsAt(dyn, t) && EndsAt(dyn, u)
    ensures t == u
  {
    hide Tag;
  }

  lemma Lacking(dyn: seq<byte>, t: nat, s: Tally)
    requires InTable(dyn, t + 1) && Tag(dyn, t) == DT_NULL && Tallied(dyn, t, s)
    requires s.address.None? || s.size.None?
    ensures Hopeless(dyn)
    ensures s.address.None? ==> EndsWithout(dyn, DT_STRTAB)
    ensures s.size.None? ==> EndsWithout(dyn, DT_STRSZ)
  {
    hide Tag, Value, StringRefs, AtMostOnce;
    assert EndsAt(dyn, t);
    forall u: nat | EndsAt(dyn, u) ensures u == t {
      EndUnique(dyn, t, u);
    }
  }

  lemma Complete(dyn: seq<byte>, t: nat, s: Tally)
    requires |dyn| / 16 <= MAX_DYNAMIC_ENTRIES
    requires InTable(dyn, t + 1) && Tag(dyn, t) == DT_NULL && Tallied(dyn, t, s)
    requires s.address.Some? && s.size.Some?
    ensures IsDynamic(dyn, Dynamic(s.address.value, s.size.value, s.strings))
  {
    hide Tag, Value, StringRefs, AtMostOnce, Absent, Once, SingletonsOnce;
    assert EndsAt(dyn, t);
  }

  lemma OnceUnique(dyn: seq<byte>, n: nat, tag: nat, v: nat, w: nat)
    requires InTable(dyn, n) && Once(dyn, n, tag, v) && Once(dyn, n, tag, w)
    ensures v == w
  {
    hide Tag, Value;
  }

  /** A table has at most one reading. */
  lemma DynamicUnique(dyn: seq<byte>, d: Dynamic, e: Dynamic)
    requires IsDynamic(dyn, d) && IsDynamic(dyn, e)
    ensures d == e
  {
    hide Tag, Value, StringRefs, Once, SingletonsOnce, Absent;
    var t: nat :| EndsAt(dyn, t) && Once(dyn, t, DT_STRTAB, d.address) && Once(dyn, t, DT_STRSZ, d.size)
                  && SingletonsOnce(dyn, t) && d.strings == StringRefs(dyn, t);
    var u: nat :| EndsAt(dyn, u) && Once(dyn, u, DT_STRTAB, e.address) && Once(dyn, u, DT_STRSZ, e.size)
                  && SingletonsOnce(dyn, u) && e.strings == StringRefs(dyn, u);
    EndUnique(dyn, t, u);
    OnceUnique(dyn, t, DT_STRTAB, d.address, e.address);
    OnceUnique(dyn, t, DT_STRSZ, d.size, e.size);
  }
}
