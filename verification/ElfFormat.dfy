/** The linkage of a file in the numbers of the ELF specification, without the reader's constants or its parts. */
module ElfFormat {
  import opened Wrappers
  import opened Octet
  import opened Sequences
  import opened Utf8
  import opened ElfBytes
  import opened ElfParser
  import opened ElfDynamic
  import opened ElfLinkage

  /** Where things are: the program header table, three of its headers, and in the dynamic table the number of entries
      before the first null and the two entries of the string table. */
  datatype Layout = Layout(
    headers: nat, count: nat, load: nat, interpreter: nat, dynamic: nat, last: nat, address: nat, size: nat)

  // ---- the header and the program headers ----

  predicate HeaderAt(input: seq<byte>, y: Layout) {
    && 58 <= |input| <= 268_435_456
    && input[..7] == [0x7F, 0x45, 0x4C, 0x46, 2, 1, 1]
    && U16(input, 16) == 3
    && U16(input, 18) in {62, 183}
    && U16(input, 52) == 64
    && U16(input, 54) == 56
    && y.headers == U64At(input, 32)
    && y.count == U16(input, 56) <= 4096
    && y.headers + 56 * y.count <= |input|
  }

  predicate HeaderIn(input: seq<byte>, y: Layout, i: nat) {
    y.headers + 56 * i + 56 <= |input|
  }

  function KindOf(input: seq<byte>, y: Layout, i: nat): nat
    requires HeaderIn(input, y, i)
  {
    U32(input, y.headers + 56 * i)
  }

  function OffsetOf(input: seq<byte>, y: Layout, i: nat): nat
    requires HeaderIn(input, y, i)
  {
    U64At(input, y.headers + 56 * i + 8)
  }

  function AddressOf(input: seq<byte>, y: Layout, i: nat): nat
    requires HeaderIn(input, y, i)
  {
    U64At(input, y.headers + 56 * i + 16)
  }

  function SizeOf(input: seq<byte>, y: Layout, i: nat): nat
    requires HeaderIn(input, y, i)
  {
    U64At(input, y.headers + 56 * i + 32)
  }

  /** Every segment of the three kinds is in the file. */
  predicate SegmentsIn(input: seq<byte>, y: Layout)
    requires HeaderAt(input, y)
  {
    forall i :: 0 <= i < y.count && KindOf(input, y, i) in {1, 2, 3} ==>
      OffsetOf(input, y, i) + SizeOf(input, y, i) <= |input|
  }

  predicate OnlyOf(input: seq<byte>, y: Layout, i: nat, kind: nat)
    requires HeaderAt(input, y)
  {
    i < y.count && forall j :: 0 <= j < y.count ==> (KindOf(input, y, j) == kind <==> j == i)
  }

  /** The interpreter: a NUL ends it and is nowhere else. */
  predicate InterpreterAt(input: seq<byte>, y: Layout)
    requires HeaderAt(input, y)
  {
    && OnlyOf(input, y, y.interpreter, 3)
    && var from, size := OffsetOf(input, y, y.interpreter), SizeOf(input, y, y.interpreter);
    && 0 < size && from + size <= |input|
    && input[from + size - 1] == 0
    && 0 !in input[from..from + size - 1]
    && IsUtf8(input[from..from + size - 1])
  }

  // ---- the dynamic table ----

  predicate EntryIn(input: seq<byte>, y: Layout, k: nat) {
    && HeaderIn(input, y, y.dynamic) && OffsetOf(input, y, y.dynamic) + 16 * k + 16 <= |input|
  }

  function TagOf(input: seq<byte>, y: Layout, k: nat): nat
    requires EntryIn(input, y, k)
  {
    U64At(input, OffsetOf(input, y, y.dynamic) + 16 * k)
  }

  function ValueOf(input: seq<byte>, y: Layout, k: nat): nat
    requires EntryIn(input, y, k)
  {
    U64At(input, OffsetOf(input, y, y.dynamic) + 16 * k + 8)
  }

  /** The entries before the first of tag 0: one of tag 5, one of tag 10, at most one each of tags 14, 15 and 29. */
  predicate TableAt(input: seq<byte>, y: Layout)
    requires HeaderAt(input, y)
  {
    && OnlyOf(input, y, y.dynamic, 2)
    && EntryIn(input, y, y.last)
    && 16 * y.last + 16 <= SizeOf(input, y, y.dynamic) < 16 * 65_537
    && TagOf(input, y, y.last) == 0
    && (forall k :: 0 <= k < y.last ==> TagOf(input, y, k) != 0)
    && y.address < y.last && (forall k :: 0 <= k < y.last ==> (TagOf(input, y, k) == 5 <==> k == y.address))
    && y.size < y.last && (forall k :: 0 <= k < y.last ==> (TagOf(input, y, k) == 10 <==> k == y.size))
    && (forall j, k :: 0 <= j < k < y.last && TagOf(input, y, j) == TagOf(input, y, k) ==>
          TagOf(input, y, j) !in {14, 15, 29})
  }

  // ---- the string table ----

  predicate Holds(input: seq<byte>, y: Layout, i: nat, address: nat)
    requires HeaderIn(input, y, i)
  {
    var from, size := AddressOf(input, y, i), SizeOf(input, y, i);
    KindOf(input, y, i) == 1 && from + size < 0x1_0000_0000_0000_0000 && from <= address < from + size
  }

  /** The first LOAD segment that holds the address of the table places it in the file. */
  predicate StringsAt(input: seq<byte>, y: Layout)
    requires HeaderAt(input, y) && TableAt(input, y)
  {
    && y.load < y.count
    && Holds(input, y, y.load, ValueOf(input, y, y.address))
    && (forall j :: 0 <= j < y.load ==> !Holds(input, y, j, ValueOf(input, y, y.address)))
    && ValueOf(input, y, y.size) <= 16_777_216
    && StringsFrom(input, y) + ValueOf(input, y, y.size) <= |input|
  }

  function StringsFrom(input: seq<byte>, y: Layout): (at: nat)
    requires HeaderAt(input, y) && TableAt(input, y)
    requires y.load < y.count && Holds(input, y, y.load, ValueOf(input, y, y.address))
  {
    OffsetOf(input, y, y.load) + (ValueOf(input, y, y.address) - AddressOf(input, y, y.load))
  }

  function StringTable(input: seq<byte>, y: Layout): seq<byte>
    requires HeaderAt(input, y) && TableAt(input, y) && StringsAt(input, y)
  {
    input[StringsFrom(input, y)..StringsFrom(input, y) + ValueOf(input, y, y.size)]
  }

  function UpToNul(s: seq<byte>): (r: seq<byte>)
    ensures r <= s && 0 !in r && (r == s || s[|r|] == 0)
  {
    if s == [] || s[0] == 0 then [] else [s[0]] + UpToNul(s[1..])
  }

  /** The text at an offset: a NUL at most 4096 bytes on, UTF-8 before it. */
  predicate TextAt(table: seq<byte>, offset: nat) {
    && offset < |table|
    && |UpToNul(table[offset..])| <= 4096
    && offset + |UpToNul(table[offset..])| < |table|
    && IsUtf8(UpToNul(table[offset..]))
  }

  /** The texts of the first `n` entries that have this tag, in order. */
  function Named(input: seq<byte>, y: Layout, table: seq<byte>, n: nat, tag: nat): seq<Text>
    requires n > 0 ==> EntryIn(input, y, n - 1)
  {
    if n == 0 then []
    else
      Named(input, y, table, n - 1, tag)
      + if TagOf(input, y, n - 1) == tag && ValueOf(input, y, n - 1) <= |table|
        then [UpToNul(table[ValueOf(input, y, n - 1)..])] else []
  }

  predicate TextsAt(input: seq<byte>, y: Layout)
    requires HeaderAt(input, y) && TableAt(input, y) && StringsAt(input, y)
  {
    && (forall k :: 0 <= k < y.last && TagOf(input, y, k) in {1, 14, 15, 29} ==>
          TextAt(StringTable(input, y), ValueOf(input, y, k)))
    && |Named(input, y, StringTable(input, y), y.last, 1)| <= 128
  }

  predicate LaidOut(input: seq<byte>, y: Layout) {
    && HeaderAt(input, y) && SegmentsIn(input, y) && InterpreterAt(input, y)
    && TableAt(input, y) && StringsAt(input, y) && TextsAt(input, y)
  }

  function InterpreterOf(input: seq<byte>, y: Layout): Text
    requires HeaderAt(input, y) && InterpreterAt(input, y)
  {
    var from, size := OffsetOf(input, y, y.interpreter), SizeOf(input, y, y.interpreter);
    input[from..from + size - 1]
  }

  /** What the file says when it is laid out this way. */
  predicate Says(input: seq<byte>, y: Layout, x: Linkage)
    requires LaidOut(input, y)
  {
    var table := StringTable(input, y);
    && x.elfType == 3
    && x.machine == U16(input, 18)
    && x.interpreter == InterpreterOf(input, y)
    && x.needed == Named(input, y, table, y.last, 1)
    && x.soname == LastOf(Named(input, y, table, y.last, 14))
    && x.rpath == LastOf(Named(input, y, table, y.last, 15))
    && x.runpath == LastOf(Named(input, y, table, y.last, 29))
  }

  // ---- the two relations agree ----

  lemma SliceField(input: seq<byte>, from: nat, size: nat, at: nat, n: nat)
    requires from + size <= |input| && at + n <= size
    ensures Field(input[from..from + size], at, n) == Field(input, from + at, n)
  {
    SliceOfSlice(input, from, size, at, n);
  }

  function HeaderOf(input: seq<byte>, y: Layout): Header
    requires |input| >= 58
  {
    Header(U16(input, 18), y.headers, y.count)
  }

  lemma HeadersAgree(input: seq<byte>, y: Layout)
    ensures |input| >= 58 ==> (IsHeader(input, HeaderOf(input, y)) <==> HeaderAt(input, y))
    ensures forall h :: IsHeader(input, h) ==> |input| >= 58
  {
    hide Field;
    if |input| >= 58 {
      assert input[0..4] == input[..4];
      assert input[..7] == input[..4] + [input[4], input[5], input[6]];
    }
  }

  lemma PhAgrees(input: seq<byte>, y: Layout, i: nat)
    requires HeaderAt(input, y) && i < y.count
    ensures HeaderIn(input, y, i)
    ensures Ph(input, HeaderOf(input, y), i)
         == ProgramHeader(KindOf(input, y, i), OffsetOf(input, y, i), AddressOf(input, y, i), SizeOf(input, y, i))
  {
    hide Field;
  }

  lemma OnlyAgrees(input: seq<byte>, y: Layout, i: nat, kind: nat)
    requires HeaderAt(input, y)
    ensures |input| >= 58 && InFile(input, HeaderOf(input, y).tableOffset, HeaderOf(input, y).count * 56)
    ensures OnlyOne(input, HeaderOf(input, y), y.count, kind, i) <==> OnlyOf(input, y, i, kind)
  {
    CountIs(input, y);
    hide KindOf, OffsetOf, AddressOf, SizeOf, Ph, HeaderAt;
    forall j | 0 <= j < y.count
      ensures HeaderIn(input, y, j) && Ph(input, HeaderOf(input, y), j).kind == KindOf(input, y, j)
    {
      PhAgrees(input, y, j);
    }
  }

  lemma InterpreterAgrees(input: seq<byte>, y: Layout, text: Text)
    requires HeaderAt(input, y) && y.interpreter < y.count
    requires OnlyOf(input, y, y.interpreter, 3)
    ensures |input| >= 58 && InFile(input, HeaderOf(input, y).tableOffset, HeaderOf(input, y).count * 56)
    ensures IsInterpreter(input, Ph(input, HeaderOf(input, y), y.interpreter), text)
            <==> InterpreterAt(input, y) && text == InterpreterOf(input, y)
  {
    CountIs(input, y);
    PhAgrees(input, y, y.interpreter);
    hide KindOf, OffsetOf, AddressOf, SizeOf, Ph, IsUtf8, HeaderAt, OnlyOf;
  }

  /** The loads, the interpreter and the dynamic table are all the segments of the three kinds. */
  lemma SegmentsInAgree(input: seq<byte>, y: Layout)
    requires HeaderAt(input, y) && OnlyOf(input, y, y.interpreter, 3) && OnlyOf(input, y, y.dynamic, 2)
    ensures |input| >= 58 && InFile(input, HeaderOf(input, y).tableOffset, HeaderOf(input, y).count * 56)
    ensures HeaderIn(input, y, y.interpreter) && HeaderIn(input, y, y.dynamic)
    ensures SegmentsIn(input, y) <==>
      && LoadsInFile(input, HeaderOf(input, y), y.count)
      && InFile(input, OffsetOf(input, y, y.interpreter), SizeOf(input, y, y.interpreter))
      && InFile(input, OffsetOf(input, y, y.dynamic), SizeOf(input, y, y.dynamic))
  {
    CountIs(input, y);
    hide KindOf, OffsetOf, AddressOf, SizeOf, Ph, HeaderAt;
    forall i | 0 <= i < y.count
      ensures HeaderIn(input, y, i)
           && Ph(input, HeaderOf(input, y), i)
           == ProgramHeader(KindOf(input, y, i), OffsetOf(input, y, i), AddressOf(input, y, i), SizeOf(input, y, i))
    {
      PhAgrees(input, y, i);
    }
  }

  lemma SegmentsAgree(input: seq<byte>, y: Layout, text: Text)
    requires HeaderAt(input, y) && y.interpreter < y.count && y.dynamic < y.count
    ensures |input| >= 58 && InFile(input, HeaderOf(input, y).tableOffset, HeaderOf(input, y).count * 56)
    ensures HeaderIn(input, y, y.dynamic)
    ensures var h := HeaderOf(input, y);
            var d := Segment(y.dynamic, OffsetOf(input, y, y.dynamic), SizeOf(input, y, y.dynamic));
            Scanned(input, h, y.count, Scan(Loads(input, h, y.count), Some((y.interpreter, text)), Some(d)))
            <==> && SegmentsIn(input, y) && InterpreterAt(input, y) && OnlyOf(input, y, y.dynamic, 2)
                 && text == InterpreterOf(input, y)
  {
    CountIs(input, y);
    PhAgrees(input, y, y.dynamic);
    PhAgrees(input, y, y.interpreter);
    OnlyAgrees(input, y, y.interpreter, 3);
    OnlyAgrees(input, y, y.dynamic, 2);
    InterpreterHasKind(input, y);
    hide KindOf, OffsetOf, AddressOf, SizeOf, Ph, Loads, HeaderAt, OnlyOf, OnlyOne, LoadsInFile, SegmentsIn, InterpreterAt, IsInterpreter;
    if OnlyOf(input, y, y.interpreter, 3) {
      InterpreterAgrees(input, y, text);
      if OnlyOf(input, y, y.dynamic, 2) {
        SegmentsInAgree(input, y);
        InterpreterInFile(input, y, text);
      }
    }
  }

  lemma InterpreterHasKind(input: seq<byte>, y: Layout)
    requires HeaderAt(input, y)
    ensures InterpreterAt(input, y) ==> OnlyOf(input, y, y.interpreter, 3)
  {
    hide OnlyOf, IsUtf8;
  }

  lemma InterpreterInFile(input: seq<byte>, y: Layout, text: Text)
    requires HeaderAt(input, y) && HeaderIn(input, y, y.interpreter)
    ensures InterpreterAt(input, y) ==> InFile(input, OffsetOf(input, y, y.interpreter), SizeOf(input, y, y.interpreter))
  {
    hide OnlyOf, IsUtf8;
  }

  lemma CountIs(input: seq<byte>, y: Layout)
    requires HeaderAt(input, y)
    ensures |input| >= 58 && y.headers + 56 * y.count <= |input|
    ensures InFile(input, HeaderOf(input, y).tableOffset, HeaderOf(input, y).count * 56)
  {
    hide Field;
  }

  // ---- the dynamic table ----

  function TableBytes(input: seq<byte>, y: Layout): seq<byte>
    requires HeaderIn(input, y, y.dynamic)
    requires OffsetOf(input, y, y.dynamic) + SizeOf(input, y, y.dynamic) <= |input|
  {
    input[OffsetOf(input, y, y.dynamic)..OffsetOf(input, y, y.dynamic) + SizeOf(input, y, y.dynamic)]
  }

  lemma EntriesAgree(input: seq<byte>, y: Layout, k: nat)
    requires HeaderIn(input, y, y.dynamic)
    requires OffsetOf(input, y, y.dynamic) + SizeOf(input, y, y.dynamic) <= |input|
    requires 16 * k + 16 <= SizeOf(input, y, y.dynamic)
    ensures EntryIn(input, y, k) && InTable(TableBytes(input, y), k + 1)
    ensures Tag(TableBytes(input, y), k) == TagOf(input, y, k) && Value(TableBytes(input, y), k) == ValueOf(input, y, k)
  {
    hide Field, OffsetOf, SizeOf;
    var from, size := OffsetOf(input, y, y.dynamic), SizeOf(input, y, y.dynamic);
    SliceField(input, from, size, 16 * k, 8);
    SliceField(input, from, size, 16 * k + 8, 8);
  }

  lemma TableAgrees(input: seq<byte>, y: Layout)
    requires HeaderAt(input, y) && OnlyOf(input, y, y.dynamic, 2)
    requires OffsetOf(input, y, y.dynamic) + SizeOf(input, y, y.dynamic) <= |input|
    ensures var dyn := TableBytes(input, y);
            TableAt(input, y) <==>
              && |dyn| / 16 <= MAX_DYNAMIC_ENTRIES
              && EndsAt(dyn, y.last) && SingletonsOnce(dyn, y.last)
              && AtMostOnce(dyn, y.last, DT_STRTAB) && y.address < y.last && Tag(dyn, y.address) == DT_STRTAB
              && AtMostOnce(dyn, y.last, DT_STRSZ) && y.size < y.last && Tag(dyn, y.size) == DT_STRSZ
  {
    CountIs(input, y);
    hide Field, OffsetOf, SizeOf, Tag, TagOf, ValueOf, HeaderAt, KindOf;
    if 16 * y.last + 16 <= SizeOf(input, y, y.dynamic) {
      forall k | 0 <= k <= y.last
        ensures EntryIn(input, y, k) && InTable(TableBytes(input, y), k + 1)
             && Tag(TableBytes(input, y), k) == TagOf(input, y, k)
      {
        EntriesAgree(input, y, k);
      }
    }
  }

  // ---- the string table ----

  predicate FirstHolds(input: seq<byte>, y: Layout, load: nat, address: nat)
    requires HeaderAt(input, y)
  {
    && load < y.count && Holds(input, y, load, address)
    && forall j :: 0 <= j < load ==> !Holds(input, y, j, address)
  }

  /** A header among the first `n` is the first to hold the address, and places it there. */
  predicate Placed(input: seq<byte>, y: Layout, n: nat, address: nat, offset: nat)
    requires HeaderAt(input, y) && n <= y.count
  {
    exists l :: 0 <= l < n && PlacedBy(input, y, l, address, offset)
  }

  predicate PlacedBy(input: seq<byte>, y: Layout, l: nat, address: nat, offset: nat)
    requires HeaderAt(input, y) && l < y.count
  {
    FirstHolds(input, y, l, address) && offset == OffsetOf(input, y, l) + (address - AddressOf(input, y, l))
  }

  predicate NoneHolds(input: seq<byte>, y: Layout, n: nat, address: nat)
    requires HeaderAt(input, y) && n <= y.count
  {
    forall j :: 0 <= j < n ==> !Holds(input, y, j, address)
  }

  lemma PlacedSnoc(input: seq<byte>, y: Layout, n: nat, address: nat, offset: nat)
    requires HeaderAt(input, y) && n < y.count
    ensures NoneHolds(input, y, n + 1, address) <==> NoneHolds(input, y, n, address) && !Holds(input, y, n, address)
    ensures Placed(input, y, n + 1, address, offset) <==>
      || Placed(input, y, n, address, offset)
      || (NoneHolds(input, y, n, address) && Holds(input, y, n, address)
          && offset == OffsetOf(input, y, n) + (address - AddressOf(input, y, n)))
  {
    hide HeaderAt, Holds, OffsetOf, AddressOf, SizeOf;
    if Placed(input, y, n, address, offset) {
      var l :| 0 <= l < n && PlacedBy(input, y, l, address, offset);
      assert PlacedBy(input, y, l, address, offset);
    }
    assert PlacedBy(input, y, n, address, offset) <==>
      NoneHolds(input, y, n, address) && Holds(input, y, n, address)
      && offset == OffsetOf(input, y, n) + (address - AddressOf(input, y, n)) by {
      assert HeaderIn(input, y, n) by { PhAgrees(input, y, n); }
    }
  }

  predicate NoneCovers(loads: seq<LoadSegment>, address: nat) {
    forall k :: 0 <= k < |loads| ==> !Covers(loads[k], address)
  }

  lemma MappedSnoc(loads: seq<LoadSegment>, l: LoadSegment, address: nat, offset: nat)
    ensures IsMapped(loads + [l], address, offset) <==>
      || IsMapped(loads, address, offset)
      || (NoneCovers(loads, address) && Covers(l, address) && offset == l.offset + (address - l.address))
    ensures NoneCovers(loads + [l], address) <==> NoneCovers(loads, address) && !Covers(l, address)
  {
    hide Covers;
    var more := loads + [l];
    assert more[|loads|] == l && forall k :: 0 <= k < |loads| ==> more[k] == loads[k];
    if IsMapped(loads, address, offset) {
      var k :| 0 <= k < |loads| && Covers(loads[k], address) && (forall j :: 0 <= j < k ==> !Covers(loads[j], address))
               && offset == loads[k].offset + (address - loads[k].address);
      assert more[k] == loads[k];
    }
  }

  ghost predicate SamePlaces(input: seq<byte>, y: Layout, h: Header, n: nat, address: nat, offset: nat)
    requires HeaderAt(input, y) && n <= y.count
    requires InFile(input, h.tableOffset, h.count * 56) && h.count == y.count
  {
    && (NoneCovers(Loads(input, h, n), address) <==> NoneHolds(input, y, n, address))
    && (IsMapped(Loads(input, h, n), address, offset) <==> Placed(input, y, n, address, offset))
  }

  lemma SamePlacesNext(input: seq<byte>, y: Layout, h: Header, n: nat, address: nat, offset: nat)
    requires HeaderAt(input, y) && n < y.count && |input| >= 58 && h == HeaderOf(input, y)
    requires InFile(input, h.tableOffset, h.count * 56) && h.count == y.count
    requires SamePlaces(input, y, h, n, address, offset)
    ensures SamePlaces(input, y, h, n + 1, address, offset)
  {
    PlacedSnoc(input, y, n, address, offset);
    LoadsSnoc(input, y, n, address, offset);
    hide HeaderOf, HeaderAt, Loads, IsMapped, NoneCovers, NoneHolds, Placed, Holds, OffsetOf, AddressOf, InFile, HeaderIn;
  }

  lemma {:induction false} SamePlacesAlways(input: seq<byte>, y: Layout, h: Header, n: nat, address: nat, offset: nat)
    requires HeaderAt(input, y) && n <= y.count && |input| >= 58 && h == HeaderOf(input, y)
    requires InFile(input, h.tableOffset, h.count * 56) && h.count == y.count
    ensures SamePlaces(input, y, h, n, address, offset)
  {
    if n == 0 {
      hide HeaderAt, IsMapped, NoneCovers, NoneHolds, Placed;
      NothingMapped(address, offset);
      NothingPlaced(input, y, address, offset);
    } else {
      hide *;
      SamePlacesAlways(input, y, h, n - 1, address, offset);
      SamePlacesNext(input, y, h, n - 1, address, offset);
    }
  }

  lemma LoadsAgree(input: seq<byte>, y: Layout, n: nat, address: nat, offset: nat)
    requires HeaderAt(input, y) && n <= y.count
    ensures |input| >= 58 && InFile(input, HeaderOf(input, y).tableOffset, HeaderOf(input, y).count * 56)
    ensures NoneCovers(Loads(input, HeaderOf(input, y), n), address) <==> NoneHolds(input, y, n, address)
    ensures IsMapped(Loads(input, HeaderOf(input, y), n), address, offset) <==> Placed(input, y, n, address, offset)
  {
    CountIs(input, y);
    hide HeaderAt, Loads, IsMapped, NoneCovers, NoneHolds, Placed;
    SamePlacesAlways(input, y, HeaderOf(input, y), n, address, offset);
  }

  lemma LoadsSnoc(input: seq<byte>, y: Layout, n: nat, address: nat, offset: nat)
    requires HeaderAt(input, y) && n < y.count
    ensures |input| >= 58 && InFile(input, HeaderOf(input, y).tableOffset, HeaderOf(input, y).count * 56)
    ensures n < HeaderOf(input, y).count && HeaderIn(input, y, n)
    ensures var before, after := Loads(input, HeaderOf(input, y), n), Loads(input, HeaderOf(input, y), n + 1);
            && (NoneCovers(after, address) <==> NoneCovers(before, address) && !Holds(input, y, n, address))
            && (IsMapped(after, address, offset) <==>
                  || IsMapped(before, address, offset)
                  || (NoneCovers(before, address) && Holds(input, y, n, address)
                      && offset == OffsetOf(input, y, n) + (address - AddressOf(input, y, n))))
  {
    CountIs(input, y);
    PhAgrees(input, y, n);
    hide *;
    HoldsAgrees(input, y, n, address);
    NextLoads(input, HeaderOf(input, y), n);
    var p, loads := Ph(input, HeaderOf(input, y), n), Loads(input, HeaderOf(input, y), n);
    if p.kind == PT_LOAD {
      MappedSnoc(loads, LoadSegment(p.offset, p.address, p.size), address, offset);
    } else {
      assert loads + [] == loads;
    }
  }

  lemma NextLoads(input: seq<byte>, h: Header, n: nat)
    requires InFile(input, h.tableOffset, h.count * 56) && n < h.count
    ensures var p := Ph(input, h, n);
            Loads(input, h, n + 1)
            == Loads(input, h, n) + if p.kind == PT_LOAD then [LoadSegment(p.offset, p.address, p.size)] else []
  {
    hide Ph;
  }

  lemma HoldsAgrees(input: seq<byte>, y: Layout, i: nat, address: nat)
    requires HeaderAt(input, y) && i < y.count
    ensures |input| >= 58 && InFile(input, HeaderOf(input, y).tableOffset, HeaderOf(input, y).count * 56)
    ensures HeaderIn(input, y, i)
    ensures var p := Ph(input, HeaderOf(input, y), i);
            Holds(input, y, i, address) <==> p.kind == PT_LOAD && Covers(LoadSegment(p.offset, p.address, p.size), address)
  {
    CountIs(input, y);
    PhAgrees(input, y, i);
    hide HeaderAt, KindOf, OffsetOf, AddressOf, SizeOf, Ph;
  }

  lemma NothingPlaced(input: seq<byte>, y: Layout, address: nat, offset: nat)
    requires HeaderAt(input, y)
    ensures NoneHolds(input, y, 0, address) && !Placed(input, y, 0, address, offset)
  {
    hide HeaderAt;
  }

  lemma NothingMapped(address: nat, offset: nat)
    ensures NoneCovers([], address) && !IsMapped([], address, offset)
  {
  }

  // ---- the texts ----

  lemma {:induction false} UpToNulIs(s: seq<byte>, n: nat)
    requires n < |s| && s[n] == 0 && 0 !in s[..n]
    ensures UpToNul(s) == s[..n]
  {
    if n > 0 {
      assert s[0] in s[..n] && s[1..][..n - 1] == s[..n][1..];
      UpToNulIs(s[1..], n - 1);
      assert s[..n] == [s[0]] + s[1..][..n - 1];
    }
  }

  lemma TextAgrees(table: seq<byte>, offset: nat, text: Text)
    ensures IsTextAt(table, offset, text) <==> TextAt(table, offset) && text == UpToNul(table[offset..])
  {
    hide IsUtf8, UpToNul;
    if IsTextAt(table, offset, text) {
      assert table[offset..][..|text|] == table[offset..offset + |text|];
      UpToNulIs(table[offset..], |text|);
    }
  }

  lemma {:induction false} NamedAgrees(
    input: seq<byte>, y: Layout, table: seq<byte>, n: nat, texts: seq<Text>, tag: nat)
    requires HeaderIn(input, y, y.dynamic)
    requires OffsetOf(input, y, y.dynamic) + SizeOf(input, y, y.dynamic) <= |input| && 16 * n <= SizeOf(input, y, y.dynamic)
    requires AreTexts(table, StringRefs(TableBytes(input, y), n), texts) && tag in {1, 14, 15, 29}
    ensures n > 0 ==> EntryIn(input, y, n - 1)
    ensures Tagged(StringRefs(TableBytes(input, y), n), texts, tag) == Named(input, y, table, n, tag)
  {
    hide OffsetOf, SizeOf, Tag, Value, TagOf, ValueOf, TableBytes, TextAt, IsTextAt, UpToNul;
    if n > 0 {
      var dyn := TableBytes(input, y);
      EntriesAgree(input, y, n - 1);
      var refs, before := StringRefs(dyn, n), StringRefs(dyn, n - 1);
      var m := |before|;
      assert refs[..m] == before;
      NamedAgrees(input, y, table, n - 1, texts[..m], tag);
      if |refs| > m {
        assert refs[..|refs| - 1] == before && texts[..|refs| - 1] == texts[..m];
        TextAgrees(table, refs[m].offset, texts[m]);
        TextInTable(table, refs[m].offset);
      } else {
        assert refs == before && texts[..m] == texts;
      }
    }
  }

  lemma TextInTable(table: seq<byte>, offset: nat)
    requires TextAt(table, offset)
    ensures offset <= |table|
  {
    hide IsUtf8;
  }

  lemma {:induction false} CountAgrees(refs: seq<StringRef>, texts: seq<Text>)
    requires |refs| == |texts|
    ensures NeededCount(refs) == |Tagged(refs, texts, 1)|
  {
    if refs != [] {
      CountAgrees(refs[..|refs| - 1], texts[..|refs| - 1]);
    }
  }

  predicate Readable(input: seq<byte>, y: Layout, table: seq<byte>, n: nat)
    requires n > 0 ==> EntryIn(input, y, n - 1)
  {
    forall k :: 0 <= k < n && TagOf(input, y, k) in {1, 14, 15, 29} ==> TextAt(table, ValueOf(input, y, k))
  }

  /** Every entry that names a string names a readable one, or there is no list of texts. */
  lemma {:induction false} TextsAgree(input: seq<byte>, y: Layout, table: seq<byte>, n: nat)
    returns (texts: seq<Text>)
    requires HeaderIn(input, y, y.dynamic)
    requires OffsetOf(input, y, y.dynamic) + SizeOf(input, y, y.dynamic) <= |input| && 16 * n <= SizeOf(input, y, y.dynamic)
    ensures n > 0 ==> EntryIn(input, y, n - 1)
    ensures Readable(input, y, table, n) ==> AreTexts(table, StringRefs(TableBytes(input, y), n), texts)
    ensures !Readable(input, y, table, n) ==>
      forall other :: !AreTexts(table, StringRefs(TableBytes(input, y), n), other)
  {
    hide OffsetOf, SizeOf, Tag, Value, TagOf, ValueOf, TableBytes, TextAt, IsTextAt, UpToNul;
    texts := [];
    if n > 0 {
      var dyn := TableBytes(input, y);
      EntriesAgree(input, y, n - 1);
      var refs, before := StringRefs(dyn, n), StringRefs(dyn, n - 1);
      var m := |before|;
      assert refs[..m] == before;
      texts := TextsAgree(input, y, table, n - 1);
      forall other | AreTexts(table, refs, other) ensures AreTexts(table, before, other[..m]) {
      }
      if |refs| > m {
        var text := UpToNulFrom(table, refs[m].offset);
        forall other | AreTexts(table, refs, other) ensures TextAt(table, refs[m].offset) {
          TextAgrees(table, refs[m].offset, other[m]);
        }
        TextAgrees(table, refs[m].offset, text);
        if TextAt(table, refs[m].offset) {
          TextInTable(table, refs[m].offset);
        }
        texts := texts + [text];
      }
    }
  }

  function UpToNulFrom(table: seq<byte>, offset: nat): seq<byte> {
    if offset <= |table| then UpToNul(table[offset..]) else []
  }

  // ---- the theorem ----

  function SegmentsAt(input: seq<byte>, y: Layout): Segments
    requires HeaderAt(input, y) && InterpreterAt(input, y) && y.dynamic < y.count
  {
    CountIs(input, y);
    Segments(Loads(input, HeaderOf(input, y), y.count), InterpreterOf(input, y),
             Segment(y.dynamic, OffsetOf(input, y, y.dynamic), SizeOf(input, y, y.dynamic)))
  }

  function DynamicAt(input: seq<byte>, y: Layout): Dynamic
    requires HeaderAt(input, y) && TableAt(input, y)
    requires OffsetOf(input, y, y.dynamic) + SizeOf(input, y, y.dynamic) <= |input|
  {
    Dynamic(ValueOf(input, y, y.address), ValueOf(input, y, y.size), StringRefs(TableBytes(input, y), y.last))
  }

  lemma SegmentsRead(input: seq<byte>, y: Layout)
    requires HeaderAt(input, y) && InterpreterAt(input, y) && OnlyOf(input, y, y.dynamic, 2)
    requires SegmentsIn(input, y) && TableAt(input, y) && StringsAt(input, y)
    ensures |input| >= 58 && IsHeader(input, HeaderOf(input, y))
    ensures SegmentsOf(input, HeaderOf(input, y), SegmentsAt(input, y))
  {
    HeadersAgree(input, y);
    CountIs(input, y);
    InterpreterHasKind(input, y);
    SegmentsInAgree(input, y);
    SegmentsAgree(input, y, InterpreterOf(input, y));
    var h, s := HeaderOf(input, y), SegmentsAt(input, y);
    assert s.loads != [] by {
      hide HeaderAt, Field, OffsetOf, AddressOf, SizeOf, ValueOf, TagOf, IsUtf8;
      var address, offset := ValueOf(input, y, y.address), StringsFrom(input, y);
      LoadsAgree(input, y, y.count, address, offset);
      assert PlacedBy(input, y, y.load, address, offset);
      NothingMapped(address, offset);
    }
    hide HeaderAt, Scanned, Loads, IsHeader, OffsetOf, SizeOf;
    assert Scanned(input, h, h.count, Scan(s.loads, Some((y.interpreter, s.interpreter)), Some(s.dynamic)));
  }

  lemma DynamicRead(input: seq<byte>, y: Layout)
    requires HeaderAt(input, y) && TableAt(input, y)
    requires OffsetOf(input, y, y.dynamic) + SizeOf(input, y, y.dynamic) <= |input|
    ensures IsDynamic(TableBytes(input, y), DynamicAt(input, y))
  {
    TableAgrees(input, y);
    EntriesAgree(input, y, y.address);
    EntriesAgree(input, y, y.size);
    hide HeaderAt, OffsetOf, SizeOf, Tag, Value, TagOf, ValueOf, StringRefs;
  }

  lemma StringsRead(input: seq<byte>, y: Layout, s: Segments, d: Dynamic)
    requires HeaderAt(input, y) && TableAt(input, y) && StringsAt(input, y) && |input| >= 58
    requires InFile(input, HeaderOf(input, y).tableOffset, HeaderOf(input, y).count * 56)
    requires s.loads == Loads(input, HeaderOf(input, y), y.count)
    requires d.address == ValueOf(input, y, y.address) && d.size == ValueOf(input, y, y.size)
    ensures IsTable(input, s, d, StringTable(input, y))
  {
    hide HeaderAt, OffsetOf, AddressOf, SizeOf, TagOf, ValueOf, Loads, IsMapped;
    LoadsAgree(input, y, y.count, d.address, StringsFrom(input, y));
    assert PlacedBy(input, y, y.load, d.address, StringsFrom(input, y));
  }

  lemma TextsRead(input: seq<byte>, y: Layout, table: seq<byte>, texts: seq<Text>, interpreter: Text)
    requires HeaderAt(input, y) && TableAt(input, y)
    requires OffsetOf(input, y, y.dynamic) + SizeOf(input, y, y.dynamic) <= |input|
    requires AreTexts(table, StringRefs(TableBytes(input, y), y.last), texts)
    ensures var refs := StringRefs(TableBytes(input, y), y.last);
            && NeededCount(refs) == |Named(input, y, table, y.last, 1)|
            && Strings(U16(input, 18), interpreter, refs, texts)
            == Linkage(3, U16(input, 18), interpreter, Named(input, y, table, y.last, 1),
                       LastOf(Named(input, y, table, y.last, 14)), LastOf(Named(input, y, table, y.last, 15)),
                       LastOf(Named(input, y, table, y.last, 29)))
  {
    hide HeaderAt, OffsetOf, SizeOf, TagOf, ValueOf, Tag, Value, AreTexts, Named, Tagged, NeededCount, StringRefs, U16;
    NamedAgrees(input, y, table, y.last, texts, 1);
    NamedAgrees(input, y, table, y.last, texts, 14);
    NamedAgrees(input, y, table, y.last, texts, 15);
    NamedAgrees(input, y, table, y.last, texts, 29);
    TextsMatch(table, StringRefs(TableBytes(input, y), y.last), texts);
    CountAgrees(StringRefs(TableBytes(input, y), y.last), texts);
  }

  lemma TextsMatch(table: seq<byte>, refs: seq<StringRef>, texts: seq<Text>)
    requires AreTexts(table, refs, texts)
    ensures |texts| == |refs|
  {
  }

  lemma LaidOutLinks(input: seq<byte>, y: Layout, x: Linkage)
    requires LaidOut(input, y) && Says(input, y, x)
    ensures Links(input, x)
  {
    hide IsDynamic, IsTable, SegmentsOf, IsHeader, HeaderAt, SegmentsIn, InterpreterAt, TextsAt, StringsAt, AreTexts, Named;
    hide NeededCount, StringRefs, Strings, TableAt, OnlyOf, OffsetOf, SizeOf, AddressOf, ValueOf, Loads, InterpreterOf;
    DynamicOnly(input, y);
    DynamicInFile(input, y);
    SegmentsRead(input, y);
    DynamicRead(input, y);
    CountIs(input, y);
    TextsReadable(input, y);
    var h, s, d, table := HeaderOf(input, y), SegmentsAt(input, y), DynamicAt(input, y), StringTable(input, y);
    StringsRead(input, y, s, d);
    var texts := TextsAgree(input, y, table, y.last);
    TextsRead(input, y, table, texts, s.interpreter);
    assert DynamicBytes(input, s.dynamic) == TableBytes(input, y);
    assert x == Linkage(3, U16(input, 18), s.interpreter, x.needed, x.soname, x.rpath, x.runpath);
    assert LinksBy(input, h, s, d, table, texts, x);
  }

  lemma DynamicOnly(input: seq<byte>, y: Layout)
    requires HeaderAt(input, y) && TableAt(input, y)
    ensures OnlyOf(input, y, y.dynamic, 2) && y.dynamic < y.count && HeaderIn(input, y, y.dynamic)
  {
    hide Field, TagOf;
  }

  lemma DynamicInFile(input: seq<byte>, y: Layout)
    requires HeaderAt(input, y) && SegmentsIn(input, y) && OnlyOf(input, y, y.dynamic, 2)
    ensures HeaderIn(input, y, y.dynamic) && OffsetOf(input, y, y.dynamic) + SizeOf(input, y, y.dynamic) <= |input|
  {
    hide OffsetOf, SizeOf;
  }

  lemma TextsReadable(input: seq<byte>, y: Layout)
    requires LaidOut(input, y)
    ensures y.last > 0 && EntryIn(input, y, y.last - 1) && 16 * y.last <= SizeOf(input, y, y.dynamic)
    ensures Readable(input, y, StringTable(input, y), y.last)
    ensures |Named(input, y, StringTable(input, y), y.last, 1)| <= 128
  {
    hide HeaderAt, SegmentsIn, InterpreterAt, StringsAt, TextAt, Named, OffsetOf, SizeOf, ValueOf, TagOf;
  }

  // ---- the other way ----

  predicate Framed(dyn: seq<byte>, d: Dynamic, last: nat, address: nat, size: nat) {
    && |dyn| / 16 <= MAX_DYNAMIC_ENTRIES && EndsAt(dyn, last) && SingletonsOnce(dyn, last)
    && AtMostOnce(dyn, last, DT_STRTAB) && address < last && Tag(dyn, address) == DT_STRTAB
    && AtMostOnce(dyn, last, DT_STRSZ) && size < last && Tag(dyn, size) == DT_STRSZ
    && d == Dynamic(Value(dyn, address), Value(dyn, size), StringRefs(dyn, last))
  }

  lemma DynamicLayout(dyn: seq<byte>, d: Dynamic) returns (last: nat, address: nat, size: nat)
    requires IsDynamic(dyn, d)
    ensures Framed(dyn, d, last, address, size)
  {
    hide Tag, Value, StringRefs, SingletonsOnce, AtMostOnce;
    last :| EndsAt(dyn, last) && Once(dyn, last, DT_STRTAB, d.address) && Once(dyn, last, DT_STRSZ, d.size)
            && SingletonsOnce(dyn, last) && d.strings == StringRefs(dyn, last);
    address :| 0 <= address < last && Tag(dyn, address) == DT_STRTAB && Value(dyn, address) == d.address;
    size :| 0 <= size < last && Tag(dyn, size) == DT_STRSZ && Value(dyn, size) == d.size;
  }

  lemma HeaderLayout(input: seq<byte>, h: Header, y: Layout)
    requires IsHeader(input, h) && y.headers == h.tableOffset && y.count == h.count
    ensures |input| >= 58 && h == HeaderOf(input, y) && HeaderAt(input, y)
  {
    HeadersAgree(input, y);
    assert h == HeaderOf(input, y) by { hide Field, IsIdent; }
  }

  lemma SegmentsLayout(input: seq<byte>, h: Header, s: Segments, y: Layout)
    requires IsHeader(input, h) && y.headers == h.tableOffset && y.count == h.count && y.dynamic == s.dynamic.index
    requires InFile(input, h.tableOffset, h.count * 56)
    requires Scanned(input, h, h.count, Scan(s.loads, Some((y.interpreter, s.interpreter)), Some(s.dynamic)))
    ensures |input| >= 58 && h == HeaderOf(input, y) && HeaderAt(input, y)
    ensures SegmentsIn(input, y) && InterpreterAt(input, y) && OnlyOf(input, y, y.dynamic, 2)
    ensures s == SegmentsAt(input, y)
  {
    HeaderLayout(input, h, y);
    IndicesIn(input, h, s, y.interpreter);
    PhAgrees(input, y, y.dynamic);
    SegmentsAgree(input, y, s.interpreter);
    hide HeaderAt, Scanned, Loads, OffsetOf, SizeOf, IsHeader, InterpreterAt, SegmentsIn;
  }

  lemma IndicesIn(input: seq<byte>, h: Header, s: Segments, i: nat)
    requires InFile(input, h.tableOffset, h.count * 56)
    requires Scanned(input, h, h.count, Scan(s.loads, Some((i, s.interpreter)), Some(s.dynamic)))
    ensures i < h.count && s.dynamic.index < h.count && s.loads == Loads(input, h, h.count)
    ensures s.dynamic == Segment(s.dynamic.index, Ph(input, h, s.dynamic.index).offset, Ph(input, h, s.dynamic.index).size)
  {
    hide Ph, Loads, IsInterpreter;
  }

  lemma TableLayout(input: seq<byte>, y: Layout, d: Dynamic)
    requires HeaderAt(input, y) && OnlyOf(input, y, y.dynamic, 2)
    requires OffsetOf(input, y, y.dynamic) + SizeOf(input, y, y.dynamic) <= |input|
    requires Framed(TableBytes(input, y), d, y.last, y.address, y.size)
    ensures TableAt(input, y) && d == DynamicAt(input, y)
  {
    TableAgrees(input, y);
    LastInTable(input, y);
    EntriesAgree(input, y, y.address);
    EntriesAgree(input, y, y.size);
  }

  lemma LastInTable(input: seq<byte>, y: Layout)
    requires HeaderIn(input, y, y.dynamic) && OffsetOf(input, y, y.dynamic) + SizeOf(input, y, y.dynamic) <= |input|
    requires EndsAt(TableBytes(input, y), y.last)
    ensures 16 * y.last + 16 <= SizeOf(input, y, y.dynamic)
  {
    hide OffsetOf, SizeOf, Tag;
  }

  lemma StringsAre(input: seq<byte>, y: Layout, d: Dynamic, table: seq<byte>)
    requires HeaderAt(input, y) && TableAt(input, y)
    requires d.address == ValueOf(input, y, y.address) && d.size == ValueOf(input, y, y.size)
    requires PlacesTable(input, y, d, table)
    ensures StringsAt(input, y) && StringTable(input, y) == table
  {
    hide HeaderAt, OffsetOf, AddressOf, SizeOf, ValueOf, TagOf, TableAt;
  }

  lemma TextsAre(input: seq<byte>, y: Layout, table: seq<byte>, texts: seq<Text>, interpreter: Text)
    requires HeaderAt(input, y) && TableAt(input, y) && StringsAt(input, y) && table == StringTable(input, y)
    requires OffsetOf(input, y, y.dynamic) + SizeOf(input, y, y.dynamic) <= |input|
    requires AreTexts(table, StringRefs(TableBytes(input, y), y.last), texts)
    requires NeededCount(StringRefs(TableBytes(input, y), y.last)) <= MAX_NEEDED
    ensures TextsAt(input, y)
  {
    LastEntry(input, y);
    hide HeaderAt, StringsAt, OffsetOf, SizeOf, ValueOf, TagOf, AreTexts, StringRefs, NeededCount, Named, TextAt;
    var other := TextsAgree(input, y, table, y.last);
    TextsRead(input, y, table, texts, interpreter);
  }

  lemma LastEntry(input: seq<byte>, y: Layout)
    requires HeaderAt(input, y) && TableAt(input, y)
    ensures y.last > 0 && EntryIn(input, y, y.last - 1)
    ensures forall k :: 0 <= k <= y.last ==> EntryIn(input, y, k)
  {
    hide HeaderAt, OffsetOf, SizeOf, ValueOf, TagOf;
  }

  /** The header of `y` places the string table here. */
  predicate PlacesTable(input: seq<byte>, y: Layout, d: Dynamic, table: seq<byte>)
    requires HeaderAt(input, y)
  {
    && y.load < y.count && HeaderIn(input, y, y.load) && FirstHolds(input, y, y.load, d.address)
    && d.size <= MAX_STRING_TABLE
    && var from := OffsetOf(input, y, y.load) + (d.address - AddressOf(input, y, y.load));
    && 0 <= from && from + d.size <= |input| && table == input[from..from + d.size]
  }

  /** Which header is meant by `load` changes nothing about the headers. */
  lemma SameHeaders(input: seq<byte>, y: Layout, load: nat, address: nat)
    requires HeaderAt(input, y) && FirstHolds(input, y, load, address)
    ensures HeaderAt(input, y.(load := load)) && FirstHolds(input, y.(load := load), load, address)
    ensures HeaderIn(input, y, load)
    ensures OffsetOf(input, y, load) == OffsetOf(input, y.(load := load), load)
    ensures AddressOf(input, y, load) == AddressOf(input, y.(load := load), load)
  {
    hide Field;
    var other := y.(load := load);
    forall j | 0 <= j <= load ensures Holds(input, other, j, address) == Holds(input, y, j, address) {
    }
  }

  lemma StringsLayout(input: seq<byte>, y: Layout, s: Segments, d: Dynamic, table: seq<byte>) returns (load: nat)
    requires HeaderAt(input, y) && |input| >= 58
    requires InFile(input, HeaderOf(input, y).tableOffset, HeaderOf(input, y).count * 56)
    requires s.loads == Loads(input, HeaderOf(input, y), y.count) && IsTable(input, s, d, table)
    ensures HeaderAt(input, y.(load := load)) && PlacesTable(input, y.(load := load), d, table)
  {
    hide HeaderAt, OffsetOf, AddressOf, SizeOf, Loads, IsMapped, FirstHolds;
    var offset: nat :| IsMapped(s.loads, d.address, offset)
                       && InFile(input, offset, d.size) && table == input[offset..offset + d.size];
    LoadsAgree(input, y, y.count, d.address, offset);
    load :| 0 <= load < y.count && PlacedBy(input, y, load, d.address, offset);
    SameHeaders(input, y, load, d.address);
  }

  lemma ChooseLayout(input: seq<byte>, h: Header, s: Segments, d: Dynamic, table: seq<byte>) returns (y: Layout)
    requires SegmentsOf(input, h, s) && InFile(input, s.dynamic.offset, s.dynamic.size)
    requires IsDynamic(DynamicBytes(input, s.dynamic), d) && IsTable(input, s, d, table)
    ensures InFile(input, h.tableOffset, h.count * 56) && HeaderAt(input, y)
    ensures y.headers == h.tableOffset && y.count == h.count && y.dynamic == s.dynamic.index
    ensures Scanned(input, h, h.count, Scan(s.loads, Some((y.interpreter, s.interpreter)), Some(s.dynamic)))
    ensures Framed(DynamicBytes(input, s.dynamic), d, y.last, y.address, y.size)
    ensures PlacesTable(input, y, d, table)
  {
    HeaderTable(input, h);
    hide IsDynamic, IsTable, IsHeader, Scanned, HeaderAt, Framed, OffsetOf, AddressOf, SizeOf, FirstHolds, Loads, PlacesTable;
    hide InterpreterAt, SegmentsIn, OnlyOf;
    var i: nat :| Scanned(input, h, h.count, Scan(s.loads, Some((i, s.interpreter)), Some(s.dynamic)));
    var last, address, size := DynamicLayout(DynamicBytes(input, s.dynamic), d);
    var first := Layout(h.tableOffset, h.count, 0, i, s.dynamic.index, last, address, size);
    HeaderLayout(input, h, first);
    IndicesIn(input, h, s, i);
    var load := StringsLayout(input, first, s, d, table);
    y := first.(load := load);
  }

  /** The segments, the dynamic table and the string table of a file have a layout. */
  lemma PartsLaidOut(input: seq<byte>, h: Header, s: Segments, d: Dynamic, table: seq<byte>) returns (y: Layout)
    requires SegmentsOf(input, h, s) && InFile(input, s.dynamic.offset, s.dynamic.size)
    requires IsDynamic(DynamicBytes(input, s.dynamic), d) && IsTable(input, s, d, table)
    ensures Parts(input, y, h, s, d, table)
  {
    hide IsDynamic, IsTable, IsHeader, IsSegments, Scanned, HeaderAt, SegmentsIn, InterpreterAt, TableAt, StringsAt, OnlyOf;
    hide Framed, PlacesTable, StringRefs, OffsetOf, SizeOf, ValueOf, Loads, InterpreterOf;
    y := ChooseLayout(input, h, s, d, table);
    SegmentsLayout(input, h, s, y);
    DynamicInFile(input, y);
    assert TableBytes(input, y) == DynamicBytes(input, s.dynamic);
    TableLayout(input, y, d);
    StringsAre(input, y, d, table);
  }

  predicate Parts(input: seq<byte>, y: Layout, h: Header, s: Segments, d: Dynamic, table: seq<byte>) {
    && HeaderAt(input, y) && SegmentsIn(input, y) && InterpreterAt(input, y) && TableAt(input, y) && StringsAt(input, y)
    && OffsetOf(input, y, y.dynamic) + SizeOf(input, y, y.dynamic) <= |input|
    && h.machine == U16(input, 18) && s.interpreter == InterpreterOf(input, y)
    && d.strings == StringRefs(TableBytes(input, y), y.last) && table == StringTable(input, y)
  }

  /** Whatever linkage a file has, it is laid out so and says so. */
  lemma LinksLaidOut(input: seq<byte>, x: Linkage) returns (y: Layout)
    requires Links(input, x)
    ensures LaidOut(input, y) && Says(input, y, x)
  {
    hide IsDynamic, IsTable, AreTexts, NeededCount, Strings, SegmentsOf, StringRefs, Named;
    hide HeaderAt, SegmentsIn, InterpreterAt, TableAt, StringsAt, TextsAt, OffsetOf, SizeOf;
    var h, s, d, table, texts :| LinksBy(input, h, s, d, table, texts, x);
    SegmentsOfInFile(input, h, s);
    y := PartsLaidOut(input, h, s, d, table);
    TextsAre(input, y, table, texts, s.interpreter);
    TextsRead(input, y, table, texts, s.interpreter);
  }

  /** A file has a linkage exactly when it is laid out as the format asks, and the linkage is what it says: its tags 1,
      14, 15 and 29 give the libraries, the name and the two paths, tags 5 and 10 the string table, and program headers
      of kinds 1, 2 and 3 the loaded segments, the dynamic table and the interpreter. */
  lemma LinksIff(input: seq<byte>, x: Linkage)
    ensures Links(input, x) <==> exists y :: LaidOut(input, y) && Says(input, y, x)
  {
    hide Links, LaidOut, Says;
    if Links(input, x) {
      var y := LinksLaidOut(input, x);
    }
    if y :| LaidOut(input, y) && Says(input, y, x) {
      LaidOutLinks(input, y, x);
    }
  }
}
