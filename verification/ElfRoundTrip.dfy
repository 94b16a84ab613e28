/** Parsing a built image gives back the linkage it was built from. */
module ElfRoundTrip {
  import opened Wrappers
  import opened Octet
  import opened Utf8
  import opened ElfBytes
  import opened ElfParser
  import opened ElfDynamic
  import opened ElfLinkage
  import opened ElfImage

  // ---- what is where in an image ----

  predicate Chained(ps: seq<Patch>) {
    forall i :: 0 <= i < |ps| - 1 ==> ps[i].End() <= ps[i + 1].at
  }

  lemma {:induction false} ChainedAscends(ps: seq<Patch>, i: nat, j: nat)
    requires Chained(ps) && i < j < |ps|
    ensures ps[i].End() <= ps[j].at
  {
    if i + 1 < j {
      ChainedAscends(ps, i, j - 1);
      assert ps[j - 1].End() <= ps[j - 1 + 1].at;
    }
  }

  lemma FixedChained(machine: nat, interpreter: Text, total: nat, strings: nat)
    ensures Chained(FixedPatches(machine, interpreter, total, strings))
  {
    hide LeBytes;
  }

  function Fixed(l: Linkage): seq<Patch> {
    FixedPatches(l.machine, l.interpreter, Total(l), |StringsOf(l)|)
  }

  /** A header field is in the image as written. */
  lemma FixedHolds(l: Linkage, k: nat)
    requires Fits(l) && k < |Fixed(l)|
    ensures Fixed(l)[k].End() <= DYNAMIC && |Image(l)| == Total(l)
    ensures Image(l)[Fixed(l)[k].at..Fixed(l)[k].End()] == Fixed(l)[k].data
  {
    hide LeBytes, Table, StringsOf, FixedPatches, Write, WriteAll;
    PatchesFit(l);
    FixedFit(l.machine, l.interpreter, Total(l), |StringsOf(l)|);
    FixedChained(l.machine, l.interpreter, Total(l), |StringsOf(l)|);
    var ps, fixed := Patches(l), Fixed(l);
    assert ps[k] == fixed[k];
    forall j | k < j < |ps| ensures Apart(ps[k].at, |ps[k].data|, ps[j]) {
      if j < |fixed| {
        ChainedAscends(fixed, k, j);
      }
    }
    Survives(Zeros(Total(l)), ps, k);
  }

  /** So is every half of a dynamic entry below the string table. */
  lemma EntryHolds(l: Linkage, j: nat)
    requires Fits(l) && j < 2 * |Entries(l)| && DYNAMIC + 8 * j + 8 <= STRINGS
    ensures |Image(l)| == Total(l)
    ensures Image(l)[DYNAMIC + 8 * j..DYNAMIC + 8 * j + 8] == EntryPatch(Entries(l), j).data
  {
    hide LeBytes, Table, StringsOf, FixedPatches, Write, WriteAll, Entries;
    PatchesFit(l);
    var ps, k := Patches(l), |Fixed(l)| + j;
    assert ps[k] == EntryPatch(Entries(l), j);
    Survives(Zeros(Total(l)), ps, k);
  }

  lemma TableIsThere(l: Linkage)
    requires Fits(l)
    ensures |Image(l)| == Total(l) && Image(l)[STRINGS..] == Table(StringsOf(l))
  {
    hide LeBytes, Table, StringsOf, FixedPatches, Write, WriteAll, Entries, EntryPatches;
    PatchesFit(l);
    var ps := Patches(l);
    Survives(Zeros(Total(l)), ps, |ps| - 1);
  }

  lemma FixedApartFrom(machine: nat, interpreter: Text, total: nat, strings: nat)
    ensures forall k :: 0 <= k < |FixedPatches(machine, interpreter, total, strings)| ==>
              Apart(PH + 8, 8, FixedPatches(machine, interpreter, total, strings)[k])
  {
    hide LeBytes;
  }

  /** The file offset of the LOAD header is never written and stays zero. */
  lemma LoadOffsetIsZero(l: Linkage)
    requires Fits(l)
    ensures |Image(l)| == Total(l) && U64At(Image(l), PH + 8) == 0
  {
    hide LeBytes, Table, StringsOf, FixedPatches, Write, WriteAll, Entries;
    PatchesFit(l);
    FixedApartFrom(l.machine, l.interpreter, Total(l), |StringsOf(l)|);
    var zeros := Zeros(Total(l));
    Untouched(zeros, Patches(l), PH + 8, 8);
    assert zeros[PH + 8..PH + 16] == Zeros(8);
    ZerosAreZero(8);
  }

  lemma {:induction false} ZerosAreZero(n: nat)
    ensures Le(Zeros(n)) == 0
  {
    if n > 0 {
      assert Zeros(n)[1..] == Zeros(n - 1);
      ZerosAreZero(n - 1);
    }
  }

  lemma Powers()
    ensures Pow256(2) == 0x1_0000 && Pow256(4) == 0x1_0000_0000 && Pow256(8) == U64
  {
    assert Pow256(4) == 0x1_0000_0000;
  }

  lemma FieldIs(image: seq<byte>, at: nat, v: nat, n: nat)
    requires at + n <= |image| && image[at..at + n] == LeBytes(v, n) && v < Pow256(n)
    ensures Field(image, at, n) == v
  {
    LeOfLeBytes(v, n);
  }

  // ---- which linkages can be read back ----

  predicate IsText(text: Text) {
    0 !in text && IsUtf8(text)
  }

  predicate IsString(text: Text) {
    IsText(text) && |text| <= MAX_STRING
  }

  /** NUL-free UTF-8 throughout, dynamic strings of at most 4096 bytes, and a shipped machine. */
  predicate WellFormed(l: Linkage) {
    && l.elfType == 3 && l.machine in {62, 183}
    && IsText(l.interpreter)
    && forall text :: text in StringsOf(l) ==> IsString(text)
  }

  lemma {:induction false} TaggedFrom(refs: seq<StringRef>, texts: seq<Text>, tag: nat)
    requires |refs| == |texts|
    ensures forall text :: text in Tagged(refs, texts, tag) ==> text in texts
  {
    if refs != [] {
      var n := |refs| - 1;
      TaggedFrom(refs[..n], texts[..n], tag);
      assert forall text :: text in texts[..n] ==> text in texts;
      assert texts[n] in texts;
    }
  }

  lemma StringsFrom(l: Linkage, refs: seq<StringRef>, texts: seq<Text>)
    requires |refs| == |texts| && l == Strings(l.machine, l.interpreter, refs, texts)
    ensures forall text :: text in StringsOf(l) ==> text in texts
  {
    hide Tagged;
    TaggedFrom(refs, texts, DT_NEEDED);
    TaggedFrom(refs, texts, DT_SONAME);
    TaggedFrom(refs, texts, DT_RPATH);
    TaggedFrom(refs, texts, DT_RUNPATH);
  }

  /** Every linkage the reader reports is well formed. */
  lemma LinkageWellFormed(input: seq<byte>, x: Linkage)
    requires Links(input, x)
    ensures WellFormed(x)
  {
    hide IsDynamic, IsTable, Strings, IsUtf8, NeededCount, Ph, IsIdent;
    var h, s, d, table, texts :| LinksBy(input, h, s, d, table, texts, x);
    assert x.machine == h.machine && x.interpreter == s.interpreter && x.elfType == 3 by {
      StringsHead(h.machine, s.interpreter, d.strings, texts);
    }
    StringsFrom(x, d.strings, texts);
    forall text | text in texts ensures IsString(text) {
      var k :| 0 <= k < |texts| && texts[k] == text;
      assert IsTextAt(table, d.strings[k].offset, texts[k]);
    }
  }

  lemma StringsHead(machine: nat, interpreter: Text, refs: seq<StringRef>, texts: seq<Text>)
    requires |refs| == |texts|
    ensures var x := Strings(machine, interpreter, refs, texts);
            x.elfType == 3 && x.machine == machine && x.interpreter == interpreter
  {
  }

  // ---- header ----

  lemma HeaderField(l: Linkage, k: nat, at: nat, v: nat, n: nat)
    requires Fits(l) && k < |Fixed(l)| && Fixed(l)[k] == Patch(at, LeBytes(v, n)) && v < Pow256(n)
    ensures at + n <= |Image(l)| && Field(Image(l), at, n) == v
  {
    hide LeBytes, Table, StringsOf, FixedPatches, Image;
    FixedHolds(l, k);
    FieldIs(Image(l), at, v, n);
  }

  lemma {:induction false} TableBound(ss: seq<Text>)
    requires forall text :: text in ss ==> |text| <= MAX_STRING
    ensures |Table(ss)| <= 1 + 4097 * |ss|
  {
    if ss != [] {
      var n := |ss| - 1;
      assert forall text :: text in ss[..n] ==> text in ss;
      assert ss[n] in ss;
      TableBound(ss[..n]);
    }
  }

  predicate Sound(l: Linkage) {
    Fits(l) && WellFormed(l)
  }

  lemma SizeBound(l: Linkage)
    requires Sound(l)
    ensures Total(l) <= 70000 && |Table(StringsOf(l))| > |StringsOf(l)|
  {
    hide Table, IsUtf8, StringsOf;
    TableBound(StringsOf(l));
    TableLength(StringsOf(l));
  }

  function ImageHeader(l: Linkage): Header {
    Header(l.machine, PH, 3)
  }

  lemma IdentIsThere(l: Linkage)
    requires Fits(l)
    ensures IsIdent(Image(l))
  {
    hide LeBytes, Table, StringsOf, Image;
    FixedHolds(l, 0);
    var image := Image(l);
    assert image[0..7] == [0x7F, 0x45, 0x4C, 0x46, 2, 1, 1];
    assert image[0..4] == image[0..7][0..4];
    assert image[4] == image[0..7][4] && image[5] == image[0..7][5] && image[6] == image[0..7][6];
  }

  lemma HeaderFieldsAreThere(l: Linkage)
    requires Sound(l)
    ensures HeaderFields(Image(l)) && U16(Image(l), 18) == l.machine && U16(Image(l), 56) == 3
    ensures U64At(Image(l), 32) == PH
  {
    hide LeBytes, Table, StringsOf, Image, Pow256, Field, IsUtf8;
    Powers();
    HeaderField(l, 1, 16, 3, 2);
    HeaderField(l, 2, 18, l.machine, 2);
    HeaderField(l, 4, 32, PH, 8);
    HeaderField(l, 5, 52, 64, 2);
    HeaderField(l, 6, 54, 56, 2);
    HeaderField(l, 7, 56, 3, 2);
  }

  lemma ImageHasHeader(l: Linkage)
    requires Sound(l)
    ensures IsHeader(Image(l), ImageHeader(l)) && |Image(l)| == Total(l)
  {
    hide LeBytes, Table, StringsOf, Image, Field, IsIdent, HeaderFields, WellFormed;
    SizeBound(l);
    LoadOffsetIsZero(l);
    IdentIsThere(l);
    HeaderFieldsAreThere(l);
  }

  // ---- segments ----

  lemma LoadHeader(l: Linkage)
    requires Sound(l) && IsHeader(Image(l), ImageHeader(l))
    ensures Ph(Image(l), ImageHeader(l), 0) == ProgramHeader(PT_LOAD, 0, BASE, Total(l))
  {
    hide LeBytes, Table, StringsOf, Image, Pow256, Field, IsIdent, HeaderFields, WellFormed;
    Powers();
    SizeBound(l);
    HeaderField(l, 8, PH, PT_LOAD, 4);
    LoadOffsetIsZero(l);
    HeaderField(l, 9, PH + 16, BASE, 8);
    HeaderField(l, 10, PH + 32, Total(l), 8);
  }

  lemma InterpreterHeader(l: Linkage)
    requires Sound(l) && IsHeader(Image(l), ImageHeader(l))
    ensures var p := Ph(Image(l), ImageHeader(l), 1);
            p.kind == PT_INTERP && p.offset == INTERP && p.size == |l.interpreter| + 1
  {
    hide LeBytes, Table, StringsOf, Image, Pow256, Field, IsIdent, HeaderFields, WellFormed;
    Powers();
    HeaderField(l, 12, PH + 56, PT_INTERP, 4);
    HeaderField(l, 13, PH + 64, INTERP, 8);
    HeaderField(l, 14, PH + 88, |l.interpreter| + 1, 8);
  }

  function DynamicSize(l: Linkage): nat {
    (|StringsOf(l)| + 3) * 16
  }

  lemma DynamicHeader(l: Linkage)
    requires Sound(l) && IsHeader(Image(l), ImageHeader(l))
    ensures var p := Ph(Image(l), ImageHeader(l), 2);
            p.kind == PT_DYNAMIC && p.offset == DYNAMIC && p.size == DynamicSize(l)
  {
    hide LeBytes, Table, StringsOf, Image, Pow256, Field, IsIdent, HeaderFields, WellFormed;
    Powers();
    HeaderField(l, 15, PH + 112, PT_DYNAMIC, 4);
    HeaderField(l, 16, PH + 120, DYNAMIC, 8);
    HeaderField(l, 17, PH + 144, DynamicSize(l), 8);
  }

  lemma InterpreterIsThere(l: Linkage)
    requires Sound(l) && IsHeader(Image(l), ImageHeader(l)) && |Image(l)| == Total(l)
    ensures IsInterpreter(Image(l), Ph(Image(l), ImageHeader(l), 1), l.interpreter)
  {
    hide LeBytes, Table, StringsOf, Image, IsIdent, HeaderFields, IsUtf8, Ph;
    InterpreterHeader(l);
    FixedHolds(l, 18);
    var image, n := Image(l), |l.interpreter|;
    assert image[INTERP..INTERP + n + 1] == l.interpreter + [0];
    assert image[INTERP..INTERP + n] == image[INTERP..INTERP + n + 1][..n];
    assert image[INTERP + n] == image[INTERP..INTERP + n + 1][n];
  }

  function ImageSegments(l: Linkage): Segments {
    Segments([LoadSegment(0, BASE, Total(l))], l.interpreter, Segment(2, DYNAMIC, DynamicSize(l)))
  }

  lemma ThreeLoads(input: seq<byte>, h: Header)
    requires InFile(input, h.tableOffset, h.count * 56) && h.count == 3
    requires Ph(input, h, 0).kind == PT_LOAD && Ph(input, h, 1).kind != PT_LOAD && Ph(input, h, 2).kind != PT_LOAD
    ensures var p := Ph(input, h, 0); Loads(input, h, 3) == [LoadSegment(p.offset, p.address, p.size)]
  {
    hide Ph;
    assert Loads(input, h, 0) == [];
    assert Loads(input, h, 1) == [LoadSegment(Ph(input, h, 0).offset, Ph(input, h, 0).address, Ph(input, h, 0).size)];
    assert Loads(input, h, 2) == Loads(input, h, 1);
  }

  lemma ImageHasSegments(l: Linkage)
    requires Sound(l)
    ensures SegmentsOf(Image(l), ImageHeader(l), ImageSegments(l))
  {
    hide LeBytes, Table, StringsOf, Image, IsIdent, HeaderFields, IsUtf8, Ph, Loads, IsInterpreter, WellFormed;
    ImageHasHeader(l);
    SizeBound(l);
    LoadHeader(l);
    InterpreterHeader(l);
    DynamicHeader(l);
    InterpreterIsThere(l);
    var image, h, s := Image(l), ImageHeader(l), ImageSegments(l);
    ThreeLoads(image, h);
    assert Scanned(image, h, 3, ElfParser.Scan(s.loads, Some((1, s.interpreter)), Some(s.dynamic)));
  }

  // ---- dynamic entries ----

  function ImageDynamic(l: Linkage): seq<byte>
    requires Sound(l)
  {
    ImageHasSegments(l);
    DynamicBytes(Image(l), ImageSegments(l).dynamic)
  }

  lemma DynamicSlice(l: Linkage, at: nat)
    requires Sound(l) && at + 8 <= DynamicSize(l)
    ensures |Image(l)| == Total(l) && DYNAMIC + at + 8 <= Total(l)
    ensures |ImageDynamic(l)| == DynamicSize(l)
    ensures ImageDynamic(l)[at..at + 8] == Image(l)[DYNAMIC + at..DYNAMIC + at + 8]
  {
    hide LeBytes, Table, StringsOf, Image, WellFormed, SegmentsOf;
    ImageHasSegments(l);
    SegmentsOfInFile(Image(l), ImageHeader(l), ImageSegments(l));
    LoadOffsetIsZero(l);
  }

  lemma EntryData(entries: seq<(nat, nat)>, i: nat, half: nat)
    requires i < |entries| && half < 2
    ensures EntryPatch(entries, 2 * i + half).data == LeBytes(if half == 0 then entries[i].0 else entries[i].1, 8)
  {
    hide LeBytes;
    assert (2 * i + half) / 2 == i && (2 * i + half) % 2 == half;
  }

  lemma DynamicField(l: Linkage, i: nat, half: nat)
    requires Sound(l) && half < 2 && i < |Entries(l)| && (half == 0 || i < |Entries(l)| - 1)
    ensures var dyn, v := ImageDynamic(l), if half == 0 then Entries(l)[i].0 else Entries(l)[i].1;
            InTable(dyn, i + 1) && (v < U64 ==> U64At(dyn, 16 * i + 8 * half) == v)
  {
    hide LeBytes, Table, StringsOf, Image, WellFormed, Pow256, ImageDynamic, EntryPatch, Entries, Field;
    Powers();
    var at := 16 * i + 8 * half;
    DynamicSlice(l, at);
    EntryHolds(l, 2 * i + half);
    EntryData(Entries(l), i, half);
    var v := if half == 0 then Entries(l)[i].0 else Entries(l)[i].1;
    assert DYNAMIC + 8 * (2 * i + half) == DYNAMIC + at;
    if v < U64 {
      FieldIs(ImageDynamic(l), at, v, 8);
    }
  }

  lemma EntriesSmall(l: Linkage, i: nat)
    requires Sound(l) && i < |Entries(l)|
    ensures Entries(l)[i].0 < U64 && Entries(l)[i].1 < U64
  {
    hide Table, StringsOf, WellFormed;
    SizeBound(l);
    if 2 <= i < |Entries(l)| - 1 {
      TablePrefix(StringsOf(l), i - 2);
      TagKnown(l, i - 2);
    }
  }

  lemma TagKnown(l: Linkage, k: nat)
    requires k < |StringsOf(l)|
    ensures IsStringTag(TagsOf(l)[k])
  {
  }

  /** The dynamic table read back: entry by entry, but for the terminator's value. */
  lemma EntryIs(l: Linkage, i: nat)
    requires Sound(l) && i < |Entries(l)|
    ensures InTable(ImageDynamic(l), i + 1) && Tag(ImageDynamic(l), i) == Entries(l)[i].0
    ensures i < |Entries(l)| - 1 ==> Value(ImageDynamic(l), i) == Entries(l)[i].1
  {
    hide Table, StringsOf, WellFormed, ImageDynamic, Entries, Field;
    EntriesSmall(l, i);
    DynamicField(l, i, 0);
    if i < |Entries(l)| - 1 {
      DynamicField(l, i, 1);
    }
  }

  function RefsOf(l: Linkage): (r: seq<StringRef>)
    ensures |r| == |StringsOf(l)|
  {
    seq(|StringsOf(l)|, k requires 0 <= k < |StringsOf(l)| => StringRef(TagsOf(l)[k], k + 2, OffsetAt(StringsOf(l), k)))
  }

  lemma EntryShape(l: Linkage, i: nat)
    requires i < |Entries(l)|
    ensures i == 0 ==> Entries(l)[i] == (DT_STRTAB, BASE + STRINGS)
    ensures i == 1 ==> Entries(l)[i] == (DT_STRSZ, |Table(StringsOf(l))|)
    ensures 2 <= i < |Entries(l)| - 1 ==>
              Entries(l)[i] == (RefsOf(l)[i - 2].tag, RefsOf(l)[i - 2].offset) && IsStringTag(Entries(l)[i].0)
    ensures i == |Entries(l)| - 1 ==> Entries(l)[i].0 == DT_NULL
  {
    hide Table, StringsOf, OffsetAt;
    if 2 <= i < |Entries(l)| - 1 {
      TagKnown(l, i - 2);
    }
  }

  lemma {:induction false} RefsRead(l: Linkage, k: nat)
    requires Sound(l) && k <= |RefsOf(l)|
    ensures InTable(ImageDynamic(l), k + 2) && StringRefs(ImageDynamic(l), k + 2) == RefsOf(l)[..k]
  {
    hide Table, StringsOf, WellFormed, ImageDynamic, Entries, Tag, Value, OffsetAt, TagsOf;
    var dyn := ImageDynamic(l);
    EntryIs(l, k + 1);
    EntryShape(l, k + 1);
    if k == 0 {
      EntryIs(l, 0);
      EntryShape(l, 0);
      assert StringRefs(dyn, 0) == [];
      assert StringRefs(dyn, 1) == [];
    } else {
      RefsRead(l, k - 1);
      assert RefsOf(l)[..k] == RefsOf(l)[..k - 1] + [RefsOf(l)[k - 1]];
    }
  }

  lemma TagsAscend(l: Linkage, i: nat, j: nat)
    requires i < j < |StringsOf(l)|
    ensures TagsOf(l)[i] == TagsOf(l)[j] ==> TagsOf(l)[i] == DT_NEEDED
  {
  }

  lemma TagAt(l: Linkage, i: nat)
    requires Sound(l) && i < |Entries(l)|
    ensures InTable(ImageDynamic(l), i + 1)
    ensures Tag(ImageDynamic(l), i) ==
            if i == 0 then DT_STRTAB else if i == 1 then DT_STRSZ
            else if i < |Entries(l)| - 1 then TagsOf(l)[i - 2] else DT_NULL
  {
    hide Table, StringsOf, WellFormed, ImageDynamic, Entries, Tag, Value, OffsetAt, TagsOf;
    EntryIs(l, i);
    EntryShape(l, i);
  }

  lemma ImageSingletons(l: Linkage, t: nat, tag: nat)
    requires Sound(l) && t == |Entries(l)| - 1 && InTable(ImageDynamic(l), t)
    requires tag in {DT_STRTAB, DT_STRSZ, DT_SONAME, DT_RPATH, DT_RUNPATH}
    ensures AtMostOnce(ImageDynamic(l), t, tag)
  {
    hide Table, StringsOf, WellFormed, ImageDynamic, Tag, Value, TagsOf;
    forall i, j | 0 <= i < j < t ensures !(Tag(ImageDynamic(l), i) == tag && Tag(ImageDynamic(l), j) == tag) {
      TagAt(l, i);
      TagAt(l, j);
      if j >= 2 { TagKnown(l, j - 2); }
      if i >= 2 {
        TagsAscend(l, i - 2, j - 2);
      }
    }
  }

  function ImageStrings(l: Linkage): Dynamic {
    Dynamic(BASE + STRINGS, |Table(StringsOf(l))|, RefsOf(l))
  }

  lemma ImageHasDynamic(l: Linkage)
    requires Sound(l)
    ensures IsDynamic(ImageDynamic(l), ImageStrings(l))
  {
    hide Table, StringsOf, WellFormed, Tag, Value, TagsOf, ImageDynamic, AtMostOnce, Entries, StringRefs;
    var dyn, t := ImageDynamic(l), |RefsOf(l)| + 2;
    SizeOfDynamic(l);
    TagAt(l, t);
    forall i | 0 <= i < t ensures Tag(dyn, i) != DT_NULL {
      TagAt(l, i);
      if i >= 2 { TagKnown(l, i - 2); }
    }
    assert EndsAt(dyn, t);
    ImageSingletons(l, t, DT_STRTAB);
    ImageSingletons(l, t, DT_STRSZ);
    ImageSingletons(l, t, DT_SONAME);
    ImageSingletons(l, t, DT_RPATH);
    ImageSingletons(l, t, DT_RUNPATH);
    EntryIs(l, 0);
    EntryShape(l, 0);
    EntryIs(l, 1);
    EntryShape(l, 1);
    assert Tag(dyn, 0) == DT_STRTAB && Value(dyn, 0) == BASE + STRINGS;
    assert Tag(dyn, 1) == DT_STRSZ && Value(dyn, 1) == |Table(StringsOf(l))|;
    assert Once(dyn, t, DT_STRTAB, BASE + STRINGS);
    assert Once(dyn, t, DT_STRSZ, |Table(StringsOf(l))|);
    RefsRead(l, |RefsOf(l)|);
    assert RefsOf(l)[..|RefsOf(l)|] == RefsOf(l);
  }

  lemma SizeOfDynamic(l: Linkage)
    requires Sound(l)
    ensures |ImageDynamic(l)| == DynamicSize(l)
  {
    hide Table, StringsOf, WellFormed, Image, SegmentsOf;
    ImageHasSegments(l);
    SegmentsOfInFile(Image(l), ImageHeader(l), ImageSegments(l));
  }

  // ---- strings ----

  lemma ImageHasTable(l: Linkage)
    requires Sound(l)
    ensures IsTable(Image(l), ImageSegments(l), ImageStrings(l), Table(StringsOf(l)))
  {
    hide Table, StringsOf, WellFormed, Image;
    SizeBound(l);
    TableIsThere(l);
    var s, d, image := ImageSegments(l), ImageStrings(l), Image(l);
    assert Covers(s.loads[0], d.address);
    assert IsMapped(s.loads, d.address, STRINGS);
    assert image[STRINGS..STRINGS + d.size] == image[STRINGS..];
  }

  lemma ImageHasTexts(l: Linkage)
    requires Sound(l)
    ensures AreTexts(Table(StringsOf(l)), RefsOf(l), StringsOf(l))
  {
    hide Table, StringsOf, TagsOf, IsUtf8;
    var ss := StringsOf(l);
    forall k | 0 <= k < |ss| ensures IsTextAt(Table(ss), RefsOf(l)[k].offset, ss[k]) {
      TableHolds(ss, k);
      assert ss[k] in ss;
    }
  }

  lemma {:induction false} TaggedConcat(a: seq<StringRef>, ta: seq<Text>, b: seq<StringRef>, tb: seq<Text>, tag: nat)
    requires |a| == |ta| && |b| == |tb|
    ensures Tagged(a + b, ta + tb, tag) == Tagged(a, ta, tag) + Tagged(b, tb, tag)
  {
    if b == [] {
      assert a + b == a && ta + tb == ta;
    } else {
      var n := |b| - 1;
      TaggedConcat(a, ta, b[..n], tb[..n], tag);
      assert (a + b)[..|a| + n] == a + b[..n];
      assert (ta + tb)[..|a| + n] == ta + tb[..n];
    }
  }

  /** A stretch of entries of one tag gives all its strings to that tag and none to any other. */
  lemma {:induction false} TaggedUniform(refs: seq<StringRef>, texts: seq<Text>, tag: nat, wanted: nat)
    requires |refs| == |texts| && forall k :: 0 <= k < |refs| ==> refs[k].tag == tag
    ensures Tagged(refs, texts, wanted) == if tag == wanted then texts else []
  {
    if refs != [] {
      var n := |refs| - 1;
      TaggedUniform(refs[..n], texts[..n], tag, wanted);
      assert texts == texts[..n] + [texts[n]];
    }
  }

  /** The four stretches of the entry list. */
  lemma TaggedParts(l: Linkage, wanted: nat)
    requires IsStringTag(wanted)
    ensures Tagged(RefsOf(l), StringsOf(l), wanted) ==
            if wanted == DT_NEEDED then l.needed
            else if wanted == DT_SONAME then Opt(l.soname)
            else if wanted == DT_RPATH then Opt(l.rpath)
            else Opt(l.runpath)
  {
    hide Tagged, OffsetAt, Opt;
    var refs, n := RefsOf(l), |l.needed|;
    var i, j := n + |Opt(l.soname)|, n + |Opt(l.soname)| + |Opt(l.rpath)|;
    var a, b, c, d := refs[..n], refs[n..i], refs[i..j], refs[j..];
    TaggedUniform(a, l.needed, DT_NEEDED, wanted);
    TaggedUniform(b, Opt(l.soname), DT_SONAME, wanted);
    TaggedUniform(c, Opt(l.rpath), DT_RPATH, wanted);
    TaggedUniform(d, Opt(l.runpath), DT_RUNPATH, wanted);
    TaggedConcat(a, l.needed, b, Opt(l.soname), wanted);
    TaggedConcat(a + b, l.needed + Opt(l.soname), c, Opt(l.rpath), wanted);
    TaggedConcat(a + b + c, l.needed + Opt(l.soname) + Opt(l.rpath), d, Opt(l.runpath), wanted);
    assert refs == a + b + c + d;
  }

  lemma ImageStringsAre(l: Linkage)
    requires l.elfType == 3
    ensures Strings(l.machine, l.interpreter, RefsOf(l), StringsOf(l)) == l
  {
    hide Tagged, RefsOf, StringsOf;
    TaggedParts(l, DT_NEEDED);
    TaggedParts(l, DT_SONAME);
    TaggedParts(l, DT_RPATH);
    TaggedParts(l, DT_RUNPATH);
  }

  lemma {:induction false} CountBound(refs: seq<StringRef>)
    ensures NeededCount(refs) <= |refs|
  {
    if refs != [] {
      CountBound(refs[..|refs| - 1]);
    }
  }

  lemma ImageLinks(l: Linkage)
    requires Sound(l)
    ensures Links(Image(l), l)
  {
    hide Image, Table, StringsOf, RefsOf, Strings, SegmentsOf, IsDynamic, IsTable, AreTexts, NeededCount, IsUtf8;
    ImageHasSegments(l);
    ImageHasDynamic(l);
    ImageHasTable(l);
    ImageHasTexts(l);
    ImageStringsAre(l);
    CountBound(RefsOf(l));
    assert LinksBy(Image(l), ImageHeader(l), ImageSegments(l), ImageStrings(l), Table(StringsOf(l)), StringsOf(l), l);
  }

  /** For every linkage that fits the layout: the image built from it has that linkage, and by uniqueness no
      other, exactly when the linkage is well formed. */
  lemma ImageLinksIff(l: Linkage)
    requires Fits(l)
    ensures Links(Image(l), l) <==> WellFormed(l)
  {
    hide Image, WellFormed, Fits;
    if WellFormed(l) {
      ImageLinks(l);
    }
    if Links(Image(l), l) {
      LinkageWellFormed(Image(l), l);
    }
  }

  /** Build, then parse. */
  method RoundTrip(l: Linkage) returns (r: Result<Linkage, ElfError>)
    requires Fits(l)
    ensures r == Success(l) <==> WellFormed(l)
  {
    hide Image, WellFormed, Links;
    var image := Build(l);
    r := ParseElf64(image);
    ImageLinksIff(l);
    if r.Success? && WellFormed(l) {
      LinksUnique(image, r.value, l);
    }
  }
}
