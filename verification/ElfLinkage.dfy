/** Reading the linkage of an ELF64 shared object: the declarative relation and the reader that meets it. */
module ElfLinkage {
  import opened Wrappers
  import opened Octet
  import opened Utf8
  import opened ElfBytes
  import opened ElfParser
  import opened ElfDynamic

  // ---- locating the string table ----

  predicate Covers(l: LoadSegment, address: nat) {
    l.address + l.size < U64 && l.address <= address < l.address + l.size
  }

  /** The first LOAD segment whose mapped bytes contain the address places it in the file. */
  ghost predicate IsMapped(loads: seq<LoadSegment>, address: nat, offset: nat) {
    exists k :: 0 <= k < |loads| && Covers(loads[k], address)
                && (forall j :: 0 <= j < k ==> !Covers(loads[j], address))
                && offset == loads[k].offset + (address - loads[k].address)
  }

  predicate LoadFits(input: seq<byte>, l: LoadSegment) {
    InFile(input, l.offset, l.size)
  }

  /** `find_map` over the segments. The last checked addition cannot fail: the sum is a file offset. */
  method Locate(input: seq<byte>, loads: seq<LoadSegment>, address: nat) returns (r: Option<nat>)
    requires |input| <= MAX_INPUT && forall k :: 0 <= k < |loads| ==> LoadFits(input, loads[k])
    ensures r.Some? ==> IsMapped(loads, address, r.value)
    ensures r.None? ==> forall offset :: !IsMapped(loads, address, offset)
  {
    for k := 0 to |loads|
      invariant forall j :: 0 <= j < k ==> !Covers(loads[j], address)
    {
      var load := loads[k];
      assert LoadFits(input, loads[k]);
      var end := CheckedAdd(load.address, load.size);
      if end.Some? && load.address <= address < end.value {
        assert Covers(loads[k], address);
        return Some(Plus(load.offset, address - load.address));
      }
    }
    return None;
  }

  // ---- strings ----

  /** A NUL within reach of `offset`, at most 4096 bytes on, with UTF-8 before it. */
  predicate IsTextAt(table: seq<byte>, offset: nat, text: Text) {
    && offset + |text| < |table|
    && table[offset..offset + |text|] == text
    && table[offset + |text|] == 0
    && 0 !in text
    && |text| <= MAX_STRING
    && IsUtf8(text)
  }

  /** What each error of a string entry says of the table. */
  predicate TextFault(table: seq<byte>, s: StringRef, e: ElfError) {
    match e
    case StringOffsetOutOfBounds(t, i, o) => StringRef(t, i, o) == s && o > |table|
    case StringNotTerminated(t, i, o) => StringRef(t, i, o) == s && o <= |table| && 0 !in table[o..]
    case StringTooLong(t, i, o) =>
      StringRef(t, i, o) == s && o + MAX_STRING < |table| && 0 !in table[o..o + MAX_STRING + 1] && 0 in table[o..]
    case StringNotUtf8(t, i, o) =>
      StringRef(t, i, o) == s
      && exists end :: o <= end < |table| && table[end] == 0 && 0 !in table[o..end] && !IsUtf8(table[o..end])
    case _ => false
  }

  /** The first entry whose string cannot be read, and why. */
  ghost predicate TextsFault(table: seq<byte>, refs: seq<StringRef>, e: ElfError) {
    exists k, texts :: 0 <= k < |refs| && AreTexts(table, refs[..k], texts) && TextFault(table, refs[k], e)
  }

  lemma TextUnique(table: seq<byte>, offset: nat, a: Text, b: Text)
    requires IsTextAt(table, offset, a) && IsTextAt(table, offset, b)
    ensures a == b
  {
    hide IsUtf8;
    assert forall i :: 0 <= i < |a| ==> a[i] == table[offset + i];
    assert forall i :: 0 <= i < |b| ==> b[i] == table[offset + i];
    assert |a| == |b|;
  }

  method ReadText(table: seq<byte>, s: StringRef) returns (r: Result<Text, ElfError>)
    ensures r.Success? ==> IsTextAt(table, s.offset, r.value)
    ensures r.Failure? ==> forall text :: !IsTextAt(table, s.offset, text)
    ensures r.Failure? ==> TextFault(table, s, r.error)
  {
    hide IsUtf8;
    if s.offset > |table| {
      return Failure(StringOffsetOutOfBounds(s.tag, s.index, s.offset));
    }
    var end := s.offset;
    while end < |table| && table[end] != 0
      invariant s.offset <= end <= |table|
      invariant forall i :: s.offset <= i < end ==> table[i] != 0
    {
      end := end + 1;
    }
    var value := table[s.offset..end];
    if end == |table| {
      return Failure(StringNotTerminated(s.tag, s.index, s.offset));
    }
    forall text | IsTextAt(table, s.offset, text) ensures text == value {
      assert forall i :: 0 <= i < |text| ==> text[i] == table[s.offset + i];
      assert |text| == |value|;
    }
    if |value| > MAX_STRING {
      return Failure(StringTooLong(s.tag, s.index, s.offset));
    }
    if !IsUtf8(value) {
      return Failure(StringNotUtf8(s.tag, s.index, s.offset));
    }
    return Success(value);
  }

  /** `texts` are the strings of the first `n` entries. */
  predicate AreTexts(table: seq<byte>, refs: seq<StringRef>, texts: seq<Text>) {
    |texts| == |refs| && forall k :: 0 <= k < |refs| ==> IsTextAt(table, refs[k].offset, texts[k])
  }

  /** The strings of the entries with this tag, in order. */
  function Tagged(refs: seq<StringRef>, texts: seq<Text>, tag: nat): seq<Text>
    requires |texts| == |refs|
  {
    if refs == [] then []
    else
      var n := |refs| - 1;
      Tagged(refs[..n], texts[..n], tag) + if refs[n].tag == tag then [texts[n]] else []
  }

  function LastOf(texts: seq<Text>): Option<Text> {
    if texts == [] then None else Some(texts[|texts| - 1])
  }

  /** The count of DT_NEEDED entries. */
  function NeededCount(refs: seq<StringRef>): nat {
    if refs == [] then 0
    else NeededCount(refs[..|refs| - 1]) + if refs[|refs| - 1].tag == DT_NEEDED then 1 else 0
  }

  function Strings(machine: nat, interpreter: Text, refs: seq<StringRef>, texts: seq<Text>): Linkage
    requires |texts| == |refs|
  {
    Linkage(3, machine, interpreter,
            Tagged(refs, texts, DT_NEEDED),
            LastOf(Tagged(refs, texts, DT_SONAME)),
            LastOf(Tagged(refs, texts, DT_RPATH)),
            LastOf(Tagged(refs, texts, DT_RUNPATH)))
  }

  method ReadStrings(table: seq<byte>, refs: seq<StringRef>, machine: nat, interpreter: Text)
    returns (r: Result<Linkage, ElfError>)
    requires forall k :: 0 <= k < |refs| ==> IsStringTag(refs[k].tag)
    ensures r.Success? ==> exists texts :: AreTexts(table, refs, texts)
                                           && r.value == Strings(machine, interpreter, refs, texts)
    ensures r.Failure? ==> forall texts :: !AreTexts(table, refs, texts)
    ensures r.Failure? ==> TextsFault(table, refs, r.error)
  {
    hide IsTextAt, TextFault;
    var needed: seq<Text> := [];
    var soname: Option<Text>, rpath: Option<Text>, runpath: Option<Text> := None, None, None;
    ghost var texts: seq<Text> := [];
    for k := 0 to |refs|
      invariant AreTexts(table, refs[..k], texts)
      invariant Linkage(3, machine, interpreter, needed, soname, rpath, runpath)
             == Strings(machine, interpreter, refs[..k], texts)
    {
      var s := refs[k];
      var text := ReadText(table, s);
      if text.Failure? {
        return Failure(text.error);
      }
      var value := text.value;
      StringsStep(machine, interpreter, refs, k, texts, value);
      texts := texts + [value];
      if s.tag == DT_NEEDED {
        needed := needed + [value];
      } else if s.tag == DT_SONAME {
        soname := Some(value);
      } else if s.tag == DT_RPATH {
        rpath := Some(value);
      } else if s.tag == DT_RUNPATH {
        runpath := Some(value);
      } else {
        assert false;
      }
    }
    assert refs[..|refs|] == refs;
    return Success(Linkage(3, machine, interpreter, needed, soname, rpath, runpath));
  }

  lemma TaggedStep(refs: seq<StringRef>, k: nat, texts: seq<Text>, value: Text, tag: nat)
    requires k < |refs| && |texts| == k
    ensures Tagged(refs[..k + 1], texts + [value], tag)
         == Tagged(refs[..k], texts, tag) + if refs[k].tag == tag then [value] else []
  {
    assert refs[..k + 1][..k] == refs[..k];
    assert (texts + [value])[..k] == texts;
  }

  lemma StringsStep(machine: nat, interpreter: Text, refs: seq<StringRef>, k: nat, texts: seq<Text>, value: Text)
    requires k < |refs| && |texts| == k
    ensures var before := Strings(machine, interpreter, refs[..k], texts);
            var after := Strings(machine, interpreter, refs[..k + 1], texts + [value]);
            && after.elfType == 3 && after.machine == machine && after.interpreter == interpreter
            && after.needed == before.needed + (if refs[k].tag == DT_NEEDED then [value] else [])
            && after.soname == (if refs[k].tag == DT_SONAME then Some(value) else before.soname)
            && after.rpath == (if refs[k].tag == DT_RPATH then Some(value) else before.rpath)
            && after.runpath == (if refs[k].tag == DT_RUNPATH then Some(value) else before.runpath)
  {
    hide Tagged;
    TaggedStep(refs, k, texts, value, DT_NEEDED);
    TaggedStep(refs, k, texts, value, DT_SONAME);
    TaggedStep(refs, k, texts, value, DT_RPATH);
    TaggedStep(refs, k, texts, value, DT_RUNPATH);
  }

  // ---- the whole reader ----

  /** The string table: its start is mapped by a LOAD segment, its end is only checked against the file. */
  ghost predicate IsTable(input: seq<byte>, s: Segments, d: Dynamic, table: seq<byte>) {
    && d.size <= MAX_STRING_TABLE
    && exists offset: nat :: IsMapped(s.loads, d.address, offset)
                             && InFile(input, offset, d.size) && table == input[offset..offset + d.size]
  }

  function DynamicBytes(input: seq<byte>, d: Segment): seq<byte>
    requires InFile(input, d.offset, d.size)
  {
    input[d.offset..d.offset + d.size]
  }

  ghost predicate SegmentsOf(input: seq<byte>, h: Header, s: Segments) {
    IsHeader(input, h) && IsSegments(input, h, s) && InFile(input, s.dynamic.offset, s.dynamic.size)
  }

  ghost predicate LinksBy(input: seq<byte>, h: Header, s: Segments, d: Dynamic, table: seq<byte>, texts: seq<Text>,
                          x: Linkage) {
    && SegmentsOf(input, h, s)
    && IsDynamic(DynamicBytes(input, s.dynamic), d)
    && IsTable(input, s, d, table)
    && NeededCount(d.strings) <= MAX_NEEDED
    && AreTexts(table, d.strings, texts)
    && x == Strings(h.machine, s.interpreter, d.strings, texts)
  }

  /** The file is a shared object whose dynamic linkage is `x`. */
  ghost predicate Links(input: seq<byte>, x: Linkage) {
    exists h, s, d, table, texts :: LinksBy(input, h, s, d, table, texts, x)
  }

  lemma SegmentsInFile(input: seq<byte>, h: Header, s: Segments)
    requires IsHeader(input, h) && IsSegments(input, h, s)
    ensures SegmentsOf(input, h, s)
    ensures forall k :: 0 <= k < |s.loads| ==> LoadFits(input, s.loads[k])
  {
    hide Ph, IsInterpreter, OnlyOne, NoneOf, IsIdent, HeaderFields;
    LoadsFit(input, h, h.count);
  }

  lemma {:induction false} LoadsFit(input: seq<byte>, h: Header, n: nat)
    requires InFile(input, h.tableOffset, h.count * 56) && n <= h.count && LoadsInFile(input, h, n)
    ensures forall k :: 0 <= k < |Loads(input, h, n)| ==> LoadFits(input, Loads(input, h, n)[k])
  {
    hide Ph;
    if n > 0 {
      LoadsFit(input, h, n - 1);
    }
  }

  lemma StringRefsTagged(dyn: seq<byte>, n: nat)
    requires InTable(dyn, n)
    ensures forall k :: 0 <= k < |StringRefs(dyn, n)| ==> IsStringTag(StringRefs(dyn, n)[k].tag)
  {
    hide Tag, Value;
    if n > 0 {
      StringRefsTagged(dyn, n - 1);
    }
  }

  lemma DynamicTagged(dyn: seq<byte>, d: Dynamic)
    requires IsDynamic(dyn, d)
    ensures forall k :: 0 <= k < |d.strings| ==> IsStringTag(d.strings[k].tag)
  {
    hide StringRefs, Once, SingletonsOnce, IsStringTag, Tag;
    var t: nat :| EndsAt(dyn, t) && d.strings == StringRefs(dyn, t);
    StringRefsTagged(dyn, t);
  }

  method CountNeeded(refs: seq<StringRef>) returns (n: nat)
    ensures n == NeededCount(refs)
  {
    n := 0;
    for k := 0 to |refs|
      invariant n == NeededCount(refs[..k])
    {
      assert refs[..k + 1][..k] == refs[..k];
      if refs[k].tag == DT_NEEDED {
        n := n + 1;
      }
    }
    assert refs[..|refs|] == refs;
  }

  // ---- one reading per file ----

  lemma HeaderUnique(input: seq<byte>, h: Header, h': Header)
    requires IsHeader(input, h) && IsHeader(input, h')
    ensures h == h'
  {
  }

  lemma TableUnique(input: seq<byte>, s: Segments, d: Dynamic, table: seq<byte>, table': seq<byte>)
    requires IsTable(input, s, d, table) && IsTable(input, s, d, table')
    ensures table == table'
  {
    hide Covers;
  }

  lemma TextsUnique(table: seq<byte>, refs: seq<StringRef>, texts: seq<Text>, texts': seq<Text>)
    requires AreTexts(table, refs, texts) && AreTexts(table, refs, texts')
    ensures texts == texts'
  {
    hide IsTextAt;
    forall k | 0 <= k < |refs| ensures texts[k] == texts'[k] {
      TextUnique(table, refs[k].offset, texts[k], texts'[k]);
    }
  }

  lemma SameParts(input: seq<byte>, h: Header, s: Segments, h': Header, s': Segments)
    requires SegmentsOf(input, h, s) && SegmentsOf(input, h', s')
    ensures h == h' && s == s'
  {
    hide IsIdent, HeaderFields, IsSegments;
    HeaderUnique(input, h, h');
    SegmentsUnique(input, h, s, s');
  }

  /** Whatever linkage a file has, it goes through the one header, segment list, table and text list found. */
  lemma LinksByUnique(input: seq<byte>, h: Header, s: Segments, d: Dynamic, table: seq<byte>, texts: seq<Text>,
                      x: Linkage, h': Header, s': Segments, d': Dynamic, table': seq<byte>, texts': seq<Text>, x': Linkage)
    requires LinksBy(input, h, s, d, table, texts, x) && LinksBy(input, h', s', d', table', texts', x')
    ensures h == h' && s == s' && d == d' && table == table' && texts == texts' && x == x'
  {
    hide SegmentsOf, IsDynamic, IsTable, AreTexts, NeededCount, Strings;
    SameParts(input, h, s, h', s');
    assert InFile(input, s.dynamic.offset, s.dynamic.size) by { SegmentsOfInFile(input, h, s); }
    DynamicUnique(DynamicBytes(input, s.dynamic), d, d');
    TableUnique(input, s, d, table, table');
    TextsUnique(table, d.strings, texts, texts');
  }

  lemma SegmentsOfInFile(input: seq<byte>, h: Header, s: Segments)
    requires SegmentsOf(input, h, s)
    ensures InFile(input, s.dynamic.offset, s.dynamic.size) && |input| <= MAX_INPUT
  {
    hide IsSegments, IsIdent, HeaderFields;
  }

  /** No file has two linkages. */
  lemma LinksUnique(input: seq<byte>, x: Linkage, y: Linkage)
    requires Links(input, x) && Links(input, y)
    ensures x == y
  {
    hide LinksBy;
    var h, s, d, table, texts :| LinksBy(input, h, s, d, table, texts, x);
    var h', s', d', table', texts' :| LinksBy(input, h', s', d', table', texts', y);
    LinksByUnique(input, h, s, d, table, texts, x, h', s', d', table', texts', y);
  }

  ghost predicate NoLinkage(input: seq<byte>) {
    forall x :: !Links(input, x)
  }

  lemma StuckAtHeader(input: seq<byte>)
    requires forall h :: !IsHeader(input, h)
    ensures NoLinkage(input)
  {
    hide IsHeader, IsSegments, IsDynamic, IsTable, AreTexts, Strings, NeededCount;
  }

  lemma StuckAtSegments(input: seq<byte>, h: Header)
    requires IsHeader(input, h) && forall s :: !IsSegments(input, h, s)
    ensures NoLinkage(input)
  {
    hide IsSegments, IsIdent, HeaderFields, IsDynamic, IsTable, AreTexts, Strings, NeededCount;
  }

  /** Failing at a later stage, with the earlier stages settled. */
  lemma StuckLater(input: seq<byte>, h: Header, s: Segments)
    requires SegmentsOf(input, h, s)
    requires forall d, table, texts, x :: !LinksBy(input, h, s, d, table, texts, x)
    ensures NoLinkage(input)
  {
    hide SegmentsOf, IsDynamic, IsTable, AreTexts, Strings, NeededCount;
    forall h', s', d, table, texts, x | LinksBy(input, h', s', d, table, texts, x) ensures false {
      SameParts(input, h, s, h', s');
    }
  }

  lemma StuckAtDynamic(input: seq<byte>, h: Header, s: Segments)
    requires SegmentsOf(input, h, s) && InFile(input, s.dynamic.offset, s.dynamic.size)
    requires forall d :: !IsDynamic(DynamicBytes(input, s.dynamic), d)
    ensures NoLinkage(input)
  {
    hide SegmentsOf, IsDynamic, IsTable, AreTexts, Strings, NeededCount, NoLinkage;
    StuckLater(input, h, s);
  }

  lemma StuckAfterDynamic(input: seq<byte>, h: Header, s: Segments, d: Dynamic)
    requires SegmentsOf(input, h, s) && InFile(input, s.dynamic.offset, s.dynamic.size)
    requires IsDynamic(DynamicBytes(input, s.dynamic), d)
    requires || (forall table :: !IsTable(input, s, d, table))
             || NeededCount(d.strings) > MAX_NEEDED
             || (exists table :: IsTable(input, s, d, table) && forall texts :: !AreTexts(table, d.strings, texts))
    ensures NoLinkage(input)
  {
    hide SegmentsOf, IsDynamic, IsTable, AreTexts, Strings, NeededCount, NoLinkage;
    forall d', table, texts, x | LinksBy(input, h, s, d', table, texts, x) ensures false {
      DynamicUnique(DynamicBytes(input, s.dynamic), d, d');
      if table' :| IsTable(input, s, d, table') && forall texts' :: !AreTexts(table', d.strings, texts') {
        TableUnique(input, s, d, table, table');
      }
    }
    StuckLater(input, h, s);
  }

  /** What each error of the table lookup says. */
  ghost predicate TableFault(input: seq<byte>, s: Segments, d: Dynamic, e: ElfError) {
    match e
    case StringTableAddressUnmapped(a) => a == d.address && forall offset :: !IsMapped(s.loads, a, offset)
    case StringTableOutOfBounds(a) =>
      if d.size > MAX_STRING_TABLE then a == d.address
      else IsMapped(s.loads, d.address, a) && !InFile(input, a, d.size)
    case _ => false
  }

  /** What an error met after the segments says of them. */
  ghost predicate LinkFault(input: seq<byte>, s: Segments, e: ElfError)
    requires InFile(input, s.dynamic.offset, s.dynamic.size)
  {
    var dyn := DynamicBytes(input, s.dynamic);
    || DynamicFault(dyn, s.dynamic.offset, e)
    || exists d :: IsDynamic(dyn, d) && (TableFault(input, s, d, e) || StringsFault(input, s, d, e))
  }

  ghost predicate StringsFault(input: seq<byte>, s: Segments, d: Dynamic, e: ElfError) {
    exists table :: IsTable(input, s, d, table)
      && (if NeededCount(d.strings) > MAX_NEEDED then e == NeededCountExceeded(NeededCount(d.strings))
          else TextsFault(table, d.strings, e))
  }

  /** Every error names the first stage that failed and says truly why it did. */
  ghost predicate Explains(input: seq<byte>, e: ElfError) {
    || HeaderFault(input, e)
    || exists h :: IsHeader(input, h)
         && (SegmentFault(input, h, e) || exists s :: SegmentsOf(input, h, s) && LinkFault(input, s, e))
  }

  method ReadTable(input: seq<byte>, s: Segments, d: Dynamic) returns (r: Result<seq<byte>, ElfError>)
    requires |input| <= MAX_INPUT && forall k :: 0 <= k < |s.loads| ==> LoadFits(input, s.loads[k])
    ensures r.Success? ==> IsTable(input, s, d, r.value)
    ensures r.Failure? ==> forall table :: !IsTable(input, s, d, table)
    ensures r.Failure? ==> TableFault(input, s, d, r.error)
  {
    hide Covers;
    if d.size > MAX_STRING_TABLE {
      return Failure(StringTableOutOfBounds(d.address));
    }
    var offset := Locate(input, s.loads, d.address);
    if offset.None? {
      return Failure(StringTableAddressUnmapped(d.address));
    }
    var table := Bytes(input, offset.value, d.size, "string-table");
    if table.Failure? {
      forall other | IsMapped(s.loads, d.address, other) ensures other == offset.value {
        MappedUnique(s.loads, d.address, other, offset.value);
      }
      return Failure(StringTableOutOfBounds(offset.value));
    }
    return Success(table.value);
  }

  lemma MappedUnique(loads: seq<LoadSegment>, address: nat, a: nat, b: nat)
    requires IsMapped(loads, address, a) && IsMapped(loads, address, b)
    ensures a == b
  {
    hide Covers;
  }

  /** Some program header places its bytes at `o` and ends beyond 64 bits. */
  ghost predicate EndsBeyond(input: seq<byte>, o: nat) {
    exists h, n :: IsHeader(input, h) && 0 <= n < h.count && Ph(input, h, n).offset == o
                   && o + Ph(input, h, n).size >= U64
  }

  lemma EntryOverflow(input: seq<byte>, h: Header, n: nat, region: string, i: nat, o: nat)
    requires InFile(input, h.tableOffset, h.count * 56) && n < h.count
    requires EntryFault(input, h, n, IntegerOverflow(region, i, o))
    ensures i == 0 && Ph(input, h, n).offset == o && o + Ph(input, h, n).size >= U64
  {
    hide Ph, Terminated, NoneOf;
  }

  lemma SegmentOverflow(input: seq<byte>, h: Header, region: string, i: nat, o: nat)
    requires IsHeader(input, h) && SegmentFault(input, h, IntegerOverflow(region, i, o))
    ensures i == 0 && EndsBeyond(input, o)
  {
    HeaderTable(input, h);
    hide Ph, IsHeader, EntryFault, Scanned;
    var n :| 0 <= n < h.count && FaultyAt(input, h, n, IntegerOverflow(region, i, o));
    EntryOverflow(input, h, n, region, i, o);
  }

  /** An overflow is always reported with index 0, whichever header it was, and the offset is that header's. */
  lemma OverflowNamesNoHeader(input: seq<byte>, region: string, i: nat, o: nat)
    requires Explains(input, IntegerOverflow(region, i, o))
    ensures i == 0 && EndsBeyond(input, o)
  {
    hide IsIdent, HeaderFields, SegmentFault, LinkFault, EndsBeyond, IsSegments;
    var e := IntegerOverflow(region, i, o);
    var h :| IsHeader(input, h)
             && (SegmentFault(input, h, e) || exists s :: SegmentsOf(input, h, s) && LinkFault(input, s, e));
    if SegmentFault(input, h, e) {
      SegmentOverflow(input, h, region, i, o);
    } else {
      var s :| SegmentsOf(input, h, s) && LinkFault(input, s, e);
      NoLateOverflow(input, s, region, i, o);
      assert false;
    }
  }

  lemma NoLateOverflow(input: seq<byte>, s: Segments, region: string, i: nat, o: nat)
    requires InFile(input, s.dynamic.offset, s.dynamic.size)
    ensures !LinkFault(input, s, IntegerOverflow(region, i, o))
  {
    hide IsDynamic, IsTable, AreTexts, NeededCount;
  }

  lemma HeaderExplains(input: seq<byte>, e: ElfError)
    requires HeaderFault(input, e)
    ensures Explains(input, e)
  {
    hide HeaderFault, IsHeader;
  }

  lemma SegmentsExplain(input: seq<byte>, h: Header, e: ElfError)
    requires IsHeader(input, h) && SegmentFault(input, h, e)
    ensures Explains(input, e)
  {
    hide HeaderFault, IsHeader, SegmentFault;
    assert InFile(input, h.tableOffset, h.count * 56) by { HeaderTable(input, h); }
  }

  lemma HeaderTable(input: seq<byte>, h: Header)
    requires IsHeader(input, h)
    ensures InFile(input, h.tableOffset, h.count * 56)
  {
    hide IsIdent, HeaderFields;
  }

  lemma LinkExplains(input: seq<byte>, h: Header, s: Segments, e: ElfError)
    requires SegmentsOf(input, h, s) && InFile(input, s.dynamic.offset, s.dynamic.size) && LinkFault(input, s, e)
    ensures Explains(input, e)
  {
    hide HeaderFault, IsIdent, HeaderFields, IsSegments, SegmentFault, LinkFault;
  }

  /** The reader accepts exactly the files that have a linkage, and returns it. */
  method ParseElf64(input: seq<byte>) returns (r: Result<Linkage, ElfError>)
    ensures r.Success? ==> Links(input, r.value)
    ensures r.Failure? ==> forall x :: !Links(input, x)
    ensures r.Failure? ==> Explains(input, r.error)
  {
    hide IsHeader, IsSegments, IsDynamic, IsTable, AreTexts, Strings, LoadFits, IsStringTag, SegmentsOf, Explains;
    hide HeaderFault, SegmentFault, LinkFault;
    var header := ReadHeader(input);
    if header.Failure? {
      StuckAtHeader(input);
      HeaderExplains(input, header.error);
      return Failure(header.error);
    }
    var h := header.value;
    var segments := ReadSegments(input, h);
    if segments.Failure? {
      SegmentsExplain(input, h, segments.error);
      return Failure(segments.error);
    }
    r := ReadLinkage(input, h, segments.value);
    if r.Failure? {
      LinkExplains(input, h, segments.value, r.error);
    }
  }

  method ReadSegments(input: seq<byte>, h: Header) returns (r: Result<Segments, ElfError>)
    requires IsHeader(input, h)
    ensures r.Success? ==> SegmentsOf(input, h, r.value)
    ensures r.Success? ==> forall k :: 0 <= k < |r.value.loads| ==> LoadFits(input, r.value.loads[k])
    ensures r.Failure? ==> NoLinkage(input)
    ensures r.Failure? ==> InFile(input, h.tableOffset, h.count * 56) && SegmentFault(input, h, r.error)
  {
    HeaderTable(input, h);
    hide SegmentFault, IsSegments, IsIdent, HeaderFields, LoadFits, SegmentsOf, NoLinkage;
    r := ScanSegments(input, h);
    if r.Success? {
      SegmentsInFile(input, h, r.value);
    } else {
      StuckAtSegments(input, h);
    }
  }

  method ReadLinkage(input: seq<byte>, h: Header, s: Segments) returns (r: Result<Linkage, ElfError>)
    requires SegmentsOf(input, h, s)
    requires forall k :: 0 <= k < |s.loads| ==> LoadFits(input, s.loads[k])
    ensures r.Success? ==> Links(input, r.value)
    ensures r.Failure? ==> NoLinkage(input)
    ensures r.Failure? ==> InFile(input, s.dynamic.offset, s.dynamic.size) && LinkFault(input, s, r.error)
  {
    hide DynamicFault, TableFault, TextsFault, SegmentsOf, IsDynamic, IsTable, IsTextAt, Strings, NeededCount, NoLinkage, LoadFits, IsStringTag;
    SegmentsOfInFile(input, h, s);
    var scanned := ScanDynamic(DynamicBytes(input, s.dynamic), s.dynamic.offset);
    if scanned.Failure? {
      StuckAtDynamic(input, h, s);
      return Failure(scanned.error);
    }
    var d := scanned.value;
    DynamicTagged(DynamicBytes(input, s.dynamic), d);
    var found := ReadTable(input, s, d);
    if found.Failure? {
      StuckAfterDynamic(input, h, s, d);
      return Failure(found.error);
    }
    var needed := CountNeeded(d.strings);
    if needed > MAX_NEEDED {
      StuckAfterDynamic(input, h, s, d);
      return Failure(NeededCountExceeded(needed));
    }
    r := ReadStrings(found.value, d.strings, h.machine, s.interpreter);
    if r.Failure? {
      StuckAfterDynamic(input, h, s, d);
    } else {
      ghost var texts :| AreTexts(found.value, d.strings, texts)
                         && r.value == Strings(h.machine, s.interpreter, d.strings, texts);
      assert LinksBy(input, h, s, d, found.value, texts, r.value);
    }
  }
}
