/** The bounds-checked reader of ELF64 dynamic linkage. */
module ElfParser {
  import opened Wrappers
  import opened Octet
  import opened Utf8
  import opened ElfBytes

  const MAX_INPUT: nat := 256 * 1024 * 1024
  const MAX_PROGRAM_HEADERS: nat := 4096
  const MAX_DYNAMIC_ENTRIES: nat := 65536
  const MAX_STRING_TABLE: nat := 16 * 1024 * 1024
  const MAX_STRING: nat := 4096
  const MAX_NEEDED: nat := 128

  const PT_LOAD: nat := 1
  const PT_DYNAMIC: nat := 2
  const PT_INTERP: nat := 3
  const DT_NULL: nat := 0
  const DT_NEEDED: nat := 1
  const DT_STRTAB: nat := 5
  const DT_STRSZ: nat := 10
  const DT_SONAME: nat := 14
  const DT_RPATH: nat := 15
  const DT_RUNPATH: nat := 29

  type Text = seq<byte>

  datatype Linkage = Linkage(
    elfType: nat,
    machine: nat,
    interpreter: Text,
    needed: seq<Text>,
    soname: Option<Text>,
    rpath: Option<Text>,
    runpath: Option<Text>)

  datatype ElfError =
    | TooLarge(actual: nat)
    | Truncated(region: string, offset: nat)
    | IntegerOverflow(region: string, index: nat, offset: nat)
    | BadMagic
    | UnsupportedClass(actual: nat)
    | UnsupportedEndian(actual: nat)
    | UnsupportedIdentVersion(actual: nat)
    | UnsupportedType(actual: nat)
    | UnsupportedMachine(actual: nat)
    | InvalidHeaderSize(actual: nat)
    | InvalidProgramHeaderSize(actual: nat)
    | ProgramHeaderCountExceeded(actual: nat)
    | ProgramHeaderOutOfBounds(index: nat, offset: nat)
    | SegmentOutOfBounds(region: string, index: nat, offset: nat)
    | MissingLoadSegment
    | MissingInterpreter
    | DuplicateInterpreter(index: nat)
    | InterpreterNotTerminated(offset: nat)
    | InterpreterNotUtf8(offset: nat)
    | MissingDynamic
    | DuplicateDynamic(index: nat)
    | DynamicEntryCountExceeded(actual: nat)
    | DynamicNotTerminated(offset: nat)
    | MissingStringTable
    | DuplicateStringTable(index: nat)
    | MissingStringTableSize
    | DuplicateStringTableSize(index: nat)
    | StringTableAddressUnmapped(offset: nat)
    | StringTableOutOfBounds(offset: nat)
    | StringOffsetOutOfBounds(tag: nat, index: nat, offset: nat)
    | StringNotTerminated(tag: nat, index: nat, offset: nat)
    | StringNotUtf8(tag: nat, index: nat, offset: nat)
    | StringTooLong(tag: nat, index: nat, offset: nat)
    | NeededCountExceeded(actual: nat)
    | DuplicateSingletonTag(tag: nat, index: nat)

  predicate InFile(input: seq<byte>, offset: nat, size: nat) {
    offset + size <= |input|
  }

  /** The checked slice every access goes through. */
  function Bytes(input: seq<byte>, offset: nat, size: nat, region: string): (r: Result<seq<byte>, ElfError>)
    ensures |input| < U64 ==> (r.Success? <==> InFile(input, offset, size))
    ensures r.Success? ==> InFile(input, offset, size) && r.value == input[offset..offset + size]
    ensures r.Failure? ==>
      r.error == if offset + size >= U64 then IntegerOverflow(region, 0, offset) else Truncated(region, offset)
  {
    match CheckedAdd(offset, size)
    case None => Failure(IntegerOverflow(region, 0, offset))
    case Some(end) => if end <= |input| then Success(input[offset..end]) else Failure(Truncated(region, offset))
  }

  function ReadU16(input: seq<byte>, offset: nat, region: string): (r: Result<nat, ElfError>)
    ensures |input| < U64 ==> (r.Success? <==> InFile(input, offset, 2))
    ensures r.Success? ==> InFile(input, offset, 2) && r.value == U16(input, offset)
  {
    var value :- Bytes(input, offset, 2, region);
    Success(Le(value))
  }

  function ReadU32(input: seq<byte>, offset: nat, region: string): (r: Result<nat, ElfError>)
    ensures |input| < U64 ==> (r.Success? <==> InFile(input, offset, 4))
    ensures r.Success? ==> InFile(input, offset, 4) && r.value == U32(input, offset)
  {
    var value :- Bytes(input, offset, 4, region);
    Success(Le(value))
  }

  function ReadU64(input: seq<byte>, offset: nat, region: string): (r: Result<nat, ElfError>)
    ensures |input| < U64 ==> (r.Success? <==> InFile(input, offset, 8))
    ensures r.Success? ==> InFile(input, offset, 8) && r.value == U64At(input, offset)
  {
    var value :- Bytes(input, offset, 8, region);
    Success(Le(value))
  }

  // ---- the file header ----

  datatype Header = Header(machine: nat, tableOffset: nat, count: nat)

  predicate IsIdent(input: seq<byte>) {
    |input| >= 16 && input[0..4] == [0x7F, 0x45, 0x4C, 0x46] && input[4] == 2 && input[5] == 1 && input[6] == 1
  }

  predicate HeaderFields(input: seq<byte>) {
    && |input| >= 58
    && U16(input, 16) == 3
    && U16(input, 18) in {62, 183}
    && U16(input, 52) == 64
    && U16(input, 54) == 56
    && U16(input, 56) <= MAX_PROGRAM_HEADERS
  }

  /** A shared object for one of the two shipped machines, with its program header table in the file. */
  predicate IsHeader(input: seq<byte>, h: Header) {
    && |input| <= MAX_INPUT
    && IsIdent(input)
    && HeaderFields(input)
    && h == Header(U16(input, 18), U64At(input, 32), U16(input, 56))
    && InFile(input, h.tableOffset, h.count * 56)
  }

  /** What each header error says of the file. */
  predicate HeaderFault(input: seq<byte>, e: ElfError) {
    match e
    case TooLarge(n) => n == |input| && n > MAX_INPUT
    case Truncated(region, o) =>
      if region == "ident" then o == 0 && |input| < 16
      else region == "header" && o in {16, 18, 52, 54, 56} && |input| < o + 2
    case BadMagic => |input| >= 16 && input[0..4] != [0x7F, 0x45, 0x4C, 0x46]
    case UnsupportedClass(n) => |input| >= 16 && n == input[4] && n != 2
    case UnsupportedEndian(n) => |input| >= 16 && n == input[5] && n != 1
    case UnsupportedIdentVersion(n) => |input| >= 16 && n == input[6] && n != 1
    case UnsupportedType(n) => |input| >= 18 && n == U16(input, 16) && n != 3
    case UnsupportedMachine(n) => |input| >= 20 && n == U16(input, 18) && n !in {62, 183}
    case InvalidHeaderSize(n) => |input| >= 54 && n == U16(input, 52) && n != 64
    case InvalidProgramHeaderSize(n) => |input| >= 56 && n == U16(input, 54) && n != 56
    case ProgramHeaderCountExceeded(n) => |input| >= 58 && n == U16(input, 56) && n > MAX_PROGRAM_HEADERS
    case ProgramHeaderOutOfBounds(n, o) =>
      |input| >= 58 && n == U16(input, 56) && o == U64At(input, 32) && !InFile(input, o, n * 56)
    case _ => false
  }

  method ReadIdent(input: seq<byte>) returns (r: Result<(), ElfError>)
    requires |input| <= MAX_INPUT
    ensures r.Success? <==> IsIdent(input)
    ensures r.Failure? ==> HeaderFault(input, r.error)
  {
    hide HeaderFault;
    IdentFaults(input);
    var ident :- Bytes(input, 0, 16, "ident");
    assert ident == input[0..16];
    if ident[0..4] != [0x7F, 0x45, 0x4C, 0x46] {
      assert ident[0..4] == input[0..4];
      return Failure(BadMagic);
    }
    assert ident[0..4] == input[0..4];
    if ident[4] != 2 {
      return Failure(UnsupportedClass(ident[4]));
    }
    if ident[5] != 1 {
      return Failure(UnsupportedEndian(ident[5]));
    }
    if ident[6] != 1 {
      return Failure(UnsupportedIdentVersion(ident[6]));
    }
    return Success(());
  }

  lemma IdentFaults(input: seq<byte>)
    ensures |input| < 16 ==> HeaderFault(input, Truncated("ident", 0))
    ensures |input| >= 16 && input[0..4] != [0x7F, 0x45, 0x4C, 0x46] ==> HeaderFault(input, BadMagic)
    ensures |input| >= 16 && input[4] != 2 ==> HeaderFault(input, UnsupportedClass(input[4]))
    ensures |input| >= 16 && input[5] != 1 ==> HeaderFault(input, UnsupportedEndian(input[5]))
    ensures |input| >= 16 && input[6] != 1 ==> HeaderFault(input, UnsupportedIdentVersion(input[6]))
  {
  }

  /** A two-byte field of the header. */
  function HeaderField(input: seq<byte>, offset: nat): (r: Result<nat, ElfError>)
    requires |input| <= MAX_INPUT && offset in {16, 18, 52, 54, 56}
    ensures r.Success? <==> offset + 2 <= |input|
    ensures r.Success? ==> r.value == U16(input, offset)
    ensures r.Failure? ==> HeaderFault(input, r.error)
  {
    ReadU16(input, offset, "header")
  }

  lemma FieldFaults(input: seq<byte>)
    ensures |input| >= 18 && U16(input, 16) != 3 ==> HeaderFault(input, UnsupportedType(U16(input, 16)))
    ensures |input| >= 20 && U16(input, 18) !in {62, 183} ==> HeaderFault(input, UnsupportedMachine(U16(input, 18)))
    ensures |input| >= 54 && U16(input, 52) != 64 ==> HeaderFault(input, InvalidHeaderSize(U16(input, 52)))
    ensures |input| >= 56 && U16(input, 54) != 56 ==> HeaderFault(input, InvalidProgramHeaderSize(U16(input, 54)))
    ensures |input| >= 58 && U16(input, 56) > MAX_PROGRAM_HEADERS ==>
      HeaderFault(input, ProgramHeaderCountExceeded(U16(input, 56)))
    ensures |input| >= 58 && !InFile(input, U64At(input, 32), U16(input, 56) * 56) ==>
      HeaderFault(input, ProgramHeaderOutOfBounds(U16(input, 56), U64At(input, 32)))
  {
    hide Field;
  }

  method ReadHeader(input: seq<byte>) returns (r: Result<Header, ElfError>)
    ensures r.Success? ==> IsHeader(input, r.value)
    ensures r.Failure? ==> forall h :: !IsHeader(input, h)
    ensures r.Failure? ==> HeaderFault(input, r.error)
  {
    if |input| > MAX_INPUT {
      return Failure(TooLarge(|input|));
    }
    FieldFaults(input);
    hide Field, IsIdent, HeaderFault, U16, U64At;
    var _ :- ReadIdent(input);
    var elfType :- HeaderField(input, 16);
    if elfType != 3 {
      return Failure(UnsupportedType(elfType));
    }
    var machine :- HeaderField(input, 18);
    if machine !in {62, 183} {
      return Failure(UnsupportedMachine(machine));
    }
    var headerSize :- HeaderField(input, 52);
    if headerSize != 64 {
      return Failure(InvalidHeaderSize(headerSize));
    }
    // the field at 52 was readable, so this one is
    var tableOffset := ReadU64(input, 32, "header").value;
    var entrySize :- HeaderField(input, 54);
    if entrySize != 56 {
      return Failure(InvalidProgramHeaderSize(entrySize));
    }
    var count :- HeaderField(input, 56);
    if count > MAX_PROGRAM_HEADERS {
      return Failure(ProgramHeaderCountExceeded(count));
    }
    var table := Bytes(input, tableOffset, count * 56, "program-headers");
    if table.Failure? {
      return Failure(ProgramHeaderOutOfBounds(count, tableOffset));
    }
    return Success(Header(machine, tableOffset, count));
  }

  // ---- program headers ----

  datatype ProgramHeader = ProgramHeader(kind: nat, offset: nat, address: nat, size: nat)

  datatype LoadSegment = LoadSegment(offset: nat, address: nat, size: nat)

  datatype Segment = Segment(index: nat, offset: nat, size: nat)

  /** The fields of program header `i`. */
  function Ph(input: seq<byte>, h: Header, i: nat): ProgramHeader
    requires InFile(input, h.tableOffset, h.count * 56) && i < h.count
  {
    var at := h.tableOffset + 56 * i;
    ProgramHeader(U32(input, at), U64At(input, at + 8), U64At(input, at + 16), U64At(input, at + 32))
  }

  /** The whole table was found to lie in the file, so none of these additions can leave 64 bits and none
      of these reads can fail. */
  method ReadProgramHeader(input: seq<byte>, h: Header, i: nat) returns (p: ProgramHeader)
    requires IsHeader(input, h) && i < h.count
    ensures p == Ph(input, h, i)
  {
    hide Field;
    var offset := Plus(h.tableOffset, i * 56);
    var kind := ReadU32(input, offset, "program-header").value;
    var fileOffset := ReadU64(input, Plus(offset, 8), "program-header").value;
    var address := ReadU64(input, Plus(offset, 16), "program-header").value;
    var size := ReadU64(input, Plus(offset, 32), "program-header").value;
    p := ProgramHeader(kind, fileOffset, address, size);
  }

  /** The LOAD segments among the first `n` program headers, in order. */
  function Loads(input: seq<byte>, h: Header, n: nat): seq<LoadSegment>
    requires InFile(input, h.tableOffset, h.count * 56) && n <= h.count
  {
    if n == 0 then []
    else
      var p := Ph(input, h, n - 1);
      Loads(input, h, n - 1) + if p.kind == PT_LOAD then [LoadSegment(p.offset, p.address, p.size)] else []
  }

  predicate IsInterpreter(input: seq<byte>, p: ProgramHeader, text: Text) {
    && InFile(input, p.offset, p.size) && p.size > 0
    && text == input[p.offset..p.offset + p.size - 1]
    && input[p.offset + p.size - 1] == 0
    && 0 !in text
    && IsUtf8(text)
  }

  /** Header `i` is the only one of its kind among the first `n`. */
  predicate OnlyOne(input: seq<byte>, h: Header, n: nat, kind: nat, i: nat)
    requires InFile(input, h.tableOffset, h.count * 56) && n <= h.count
  {
    && i < n && Ph(input, h, i).kind == kind
    && forall j :: 0 <= j < n && Ph(input, h, j).kind == kind ==> j == i
  }

  predicate NoneOf(input: seq<byte>, h: Header, n: nat, kind: nat)
    requires InFile(input, h.tableOffset, h.count * 56) && n <= h.count
  {
    forall j :: 0 <= j < n ==> Ph(input, h, j).kind != kind
  }

  predicate LoadsInFile(input: seq<byte>, h: Header, n: nat)
    requires InFile(input, h.tableOffset, h.count * 56) && n <= h.count
  {
    forall j :: 0 <= j < n && Ph(input, h, j).kind == PT_LOAD ==>
      InFile(input, Ph(input, h, j).offset, Ph(input, h, j).size)
  }

  /** What the scan has collected; the interpreter is kept with its header's index. */
  datatype Scan = Scan(loads: seq<LoadSegment>, interpreter: Option<(nat, Text)>, dynamic: Option<Segment>)

  predicate Scanned(input: seq<byte>, h: Header, n: nat, s: Scan)
    requires InFile(input, h.tableOffset, h.count * 56) && n <= h.count
  {
    && LoadsInFile(input, h, n)
    && s.loads == Loads(input, h, n)
    && (match s.interpreter
        case None => NoneOf(input, h, n, PT_INTERP)
        case Some((i, text)) => OnlyOne(input, h, n, PT_INTERP, i) && IsInterpreter(input, Ph(input, h, i), text))
    && (match s.dynamic
        case None => NoneOf(input, h, n, PT_DYNAMIC)
        case Some(d) =>
          && OnlyOne(input, h, n, PT_DYNAMIC, d.index)
          && d == Segment(d.index, Ph(input, h, d.index).offset, Ph(input, h, d.index).size)
          && InFile(input, d.offset, d.size))
  }

  datatype Segments = Segments(loads: seq<LoadSegment>, interpreter: Text, dynamic: Segment)

  /** All LOAD segments in the file and at least one of them, exactly one interpreter, exactly one dynamic
      segment. */
  ghost predicate IsSegments(input: seq<byte>, h: Header, s: Segments)
    requires InFile(input, h.tableOffset, h.count * 56)
  {
    && s.loads != []
    && exists i: nat :: Scanned(input, h, h.count, Scan(s.loads, Some((i, s.interpreter)), Some(s.dynamic)))
  }

  method ReadInterpreter(input: seq<byte>, p: ProgramHeader, index: nat) returns (r: Result<Text, ElfError>)
    requires |input| <= MAX_INPUT
    ensures r.Success? ==> IsInterpreter(input, p, r.value)
    ensures r.Failure? ==> forall text :: !IsInterpreter(input, p, text)
    ensures r.Failure? ==> InterpreterFault(input, p, index, r.error)
  {
    hide IsUtf8;
    var value := SegmentSlice(input, Segment(index, p.offset, p.size), "interpreter");
    if value.Failure? {
      return Failure(value.error);
    }
    var v := value.value;
    if v == [] || v[|v| - 1] != 0 {
      return Failure(InterpreterNotTerminated(p.offset));
    }
    var body := v[..|v| - 1];
    assert body == input[p.offset..p.offset + p.size - 1];
    if 0 in body {
      return Failure(InterpreterNotTerminated(p.offset));
    }
    if !IsUtf8(body) {
      return Failure(InterpreterNotUtf8(p.offset));
    }
    return Success(body);
  }

  lemma ScanGrows(input: seq<byte>, h: Header, n: nat, kind: nat, i: nat)
    requires InFile(input, h.tableOffset, h.count * 56) && n < h.count && kind != Ph(input, h, n).kind
    ensures OnlyOne(input, h, n, kind, i) ==> OnlyOne(input, h, n + 1, kind, i)
    ensures NoneOf(input, h, n, kind) ==> NoneOf(input, h, n + 1, kind)
  {
    hide Ph;
  }

  lemma ScanFirst(input: seq<byte>, h: Header, n: nat, kind: nat)
    requires InFile(input, h.tableOffset, h.count * 56) && n < h.count
    requires kind == Ph(input, h, n).kind && NoneOf(input, h, n, kind)
    ensures OnlyOne(input, h, n + 1, kind, n)
  {
    hide Ph;
  }

  /** Two headers of a kind that must be unique. */
  lemma ScanTwice(input: seq<byte>, h: Header, n: nat, kind: nat, i: nat)
    requires InFile(input, h.tableOffset, h.count * 56) && n < h.count
    requires kind == Ph(input, h, n).kind && OnlyOne(input, h, n, kind, i)
    ensures forall j :: !OnlyOne(input, h, h.count, kind, j)
  {
    hide Ph;
  }

  /** A segment whose bytes are not in the file. The checked addition inside the slice does not know which header
      it serves, so an end beyond 64 bits is reported with index 0. */
  predicate SliceFault(input: seq<byte>, region: string, s: Segment, e: ElfError) {
    && !InFile(input, s.offset, s.size)
    && e == if s.offset + s.size >= U64 then IntegerOverflow(region, 0, s.offset)
            else SegmentOutOfBounds(region, s.index, s.offset)
  }

  /** The bytes of a segment; of the two errors of the checked slice only the truncation is rewritten. */
  function SegmentSlice(input: seq<byte>, s: Segment, region: string): (r: Result<seq<byte>, ElfError>)
    ensures |input| < U64 ==> (r.Success? <==> InFile(input, s.offset, s.size))
    ensures r.Success? ==> InFile(input, s.offset, s.size) && r.value == input[s.offset..s.offset + s.size]
    ensures |input| < U64 && r.Failure? ==> SliceFault(input, region, s, r.error)
  {
    match Bytes(input, s.offset, s.size, region)
    case Success(value) => Success(value)
    case Failure(Truncated(_, _)) => Failure(SegmentOutOfBounds(region, s.index, s.offset))
    case Failure(other) => Failure(other)
  }

  /** The bytes of a segment end in their only NUL. */
  predicate Terminated(input: seq<byte>, p: ProgramHeader)
    requires InFile(input, p.offset, p.size)
  {
    p.size > 0 && input[p.offset + p.size - 1] == 0 && 0 !in input[p.offset..p.offset + p.size - 1]
  }

  /** What an error in the interpreter's bytes says of them. */
  predicate InterpreterFault(input: seq<byte>, p: ProgramHeader, index: nat, e: ElfError) {
    if !InFile(input, p.offset, p.size) then SliceFault(input, "interpreter", Segment(index, p.offset, p.size), e)
    else if !Terminated(input, p) then e == InterpreterNotTerminated(p.offset)
    else e == InterpreterNotUtf8(p.offset) && !IsUtf8(input[p.offset..p.offset + p.size - 1])
  }

  /** What the error met at header `n` says of it. */
  predicate EntryFault(input: seq<byte>, h: Header, n: nat, e: ElfError)
    requires InFile(input, h.tableOffset, h.count * 56) && n < h.count
  {
    var p := Ph(input, h, n);
    match p.kind
    case PT_LOAD => SliceFault(input, "load", Segment(n, p.offset, p.size), e)
    case PT_INTERP =>
      if NoneOf(input, h, n, PT_INTERP) then InterpreterFault(input, p, n, e) else e == DuplicateInterpreter(n)
    case PT_DYNAMIC =>
      if NoneOf(input, h, n, PT_DYNAMIC) then
        SliceFault(input, "dynamic", Segment(n, p.offset, p.size), e)
      else e == DuplicateDynamic(n)
    case _ => false
  }

  /** The scan gets to header `n` and meets this error there. */
  ghost predicate FaultyAt(input: seq<byte>, h: Header, n: nat, e: ElfError)
    requires InFile(input, h.tableOffset, h.count * 56) && n < h.count
  {
    EntryFault(input, h, n, e) && exists s :: Scanned(input, h, n, s)
  }

  /** The scan takes every header and finds this lacking. */
  ghost predicate Lacking(input: seq<byte>, h: Header, e: ElfError)
    requires InFile(input, h.tableOffset, h.count * 56)
  {
    exists s :: Scanned(input, h, h.count, s) && Lacks(s, e)
  }

  /** What each error of the segment scan says of the program headers. */
  ghost predicate SegmentFault(input: seq<byte>, h: Header, e: ElfError)
    requires InFile(input, h.tableOffset, h.count * 56)
  {
    (exists n :: 0 <= n < h.count && FaultyAt(input, h, n, e)) || Lacking(input, h, e)
  }

  /** The first of the three segments that a finished scan has not found. */
  predicate Lacks(s: Scan, e: ElfError) {
    if s.loads == [] then e == MissingLoadSegment
    else if s.interpreter.None? then e == MissingInterpreter
    else s.dynamic.None? && e == MissingDynamic
  }

  /** A file whose header `n` cannot be fitted in has no segments to report. */
  ghost predicate Hopeless(input: seq<byte>, h: Header)
    requires InFile(input, h.tableOffset, h.count * 56)
  {
    forall s :: !IsSegments(input, h, s)
  }

  lemma BadLoad(input: seq<byte>, h: Header, n: nat)
    requires InFile(input, h.tableOffset, h.count * 56) && n < h.count
    requires Ph(input, h, n).kind == PT_LOAD && !InFile(input, Ph(input, h, n).offset, Ph(input, h, n).size)
    ensures Hopeless(input, h)
  {
    hide Ph, Loads;
  }

  lemma BadInterpreter(input: seq<byte>, h: Header, n: nat)
    requires InFile(input, h.tableOffset, h.count * 56) && n < h.count
    requires Ph(input, h, n).kind == PT_INTERP && forall text :: !IsInterpreter(input, Ph(input, h, n), text)
    ensures Hopeless(input, h)
  {
    hide Ph, Loads, IsInterpreter;
  }

  lemma BadDynamic(input: seq<byte>, h: Header, n: nat)
    requires InFile(input, h.tableOffset, h.count * 56) && n < h.count
    requires Ph(input, h, n).kind == PT_DYNAMIC && !InFile(input, Ph(input, h, n).offset, Ph(input, h, n).size)
    ensures Hopeless(input, h)
  {
    hide Ph, Loads, IsInterpreter;
  }

  lemma Twice(input: seq<byte>, h: Header, n: nat, kind: nat, i: nat)
    requires InFile(input, h.tableOffset, h.count * 56) && n < h.count
    requires kind == Ph(input, h, n).kind && OnlyOne(input, h, n, kind, i)
    requires kind in {PT_INTERP, PT_DYNAMIC}
    ensures Hopeless(input, h)
  {
    hide Ph, Loads, IsInterpreter, OnlyOne, NoneOf, LoadsInFile;
    ScanTwice(input, h, n, kind, i);
  }

  lemma OneIsSome(input: seq<byte>, h: Header, n: nat, kind: nat, i: nat)
    requires InFile(input, h.tableOffset, h.count * 56) && n <= h.count && OnlyOne(input, h, n, kind, i)
    ensures !NoneOf(input, h, n, kind)
  {
    hide Ph;
  }

  /** One turn of the scan, at header `n`. */
  method ScanHeader(input: seq<byte>, h: Header, n: nat, s: Scan) returns (r: Result<Scan, ElfError>)
    requires IsHeader(input, h) && n < h.count && Scanned(input, h, n, s)
    ensures r.Success? ==> Scanned(input, h, n + 1, r.value)
    ensures r.Failure? ==> Hopeless(input, h)
    ensures r.Failure? ==> EntryFault(input, h, n, r.error)
  {
    hide Ph, IsInterpreter, OnlyOne, NoneOf, Hopeless, IsIdent, HeaderFields, InterpreterFault;
    var p := ReadProgramHeader(input, h, n);
    match s.interpreter {
      case None =>
        if p.kind == PT_INTERP { ScanFirst(input, h, n, PT_INTERP); } else { ScanGrows(input, h, n, PT_INTERP, 0); }
      case Some((i, _)) =>
        if p.kind != PT_INTERP { ScanGrows(input, h, n, PT_INTERP, i); }
    }
    match s.dynamic {
      case None =>
        if p.kind == PT_DYNAMIC { ScanFirst(input, h, n, PT_DYNAMIC); } else { ScanGrows(input, h, n, PT_DYNAMIC, 0); }
      case Some(d) =>
        if p.kind != PT_DYNAMIC { ScanGrows(input, h, n, PT_DYNAMIC, d.index); }
    }
    if p.kind == PT_LOAD {
      var slice := SegmentSlice(input, Segment(n, p.offset, p.size), "load");
      if slice.Failure? {
        BadLoad(input, h, n);
        return Failure(slice.error);
      }
      return Success(s.(loads := s.loads + [LoadSegment(p.offset, p.address, p.size)]));
    } else if p.kind == PT_INTERP {
      if s.interpreter.Some? {
        Twice(input, h, n, PT_INTERP, s.interpreter.value.0);
        OneIsSome(input, h, n, PT_INTERP, s.interpreter.value.0);
        return Failure(DuplicateInterpreter(n));
      }
      var text := ReadInterpreter(input, p, n);
      if text.Failure? {
        BadInterpreter(input, h, n);
        return Failure(text.error);
      }
      return Success(s.(interpreter := Some((n, text.value))));
    } else if p.kind == PT_DYNAMIC {
      if s.dynamic.Some? {
        Twice(input, h, n, PT_DYNAMIC, s.dynamic.value.index);
        OneIsSome(input, h, n, PT_DYNAMIC, s.dynamic.value.index);
        return Failure(DuplicateDynamic(n));
      }
      var slice := SegmentSlice(input, Segment(n, p.offset, p.size), "dynamic");
      if slice.Failure? {
        BadDynamic(input, h, n);
        return Failure(slice.error);
      }
      return Success(s.(dynamic := Some(Segment(n, p.offset, p.size))));
    }
    return Success(s);
  }

  method ScanSegments(input: seq<byte>, h: Header) returns (r: Result<Segments, ElfError>)
    requires IsHeader(input, h)
    ensures r.Success? ==> IsSegments(input, h, r.value)
    ensures r.Failure? ==> Hopeless(input, h)
    ensures r.Failure? ==> SegmentFault(input, h, r.error)
  {
    hide Ph, IsInterpreter, OnlyOne, NoneOf, Hopeless, IsIdent, HeaderFields, LoadsInFile, EntryFault, Loads;
    var s := Scan([], None, None);
    assert Scanned(input, h, 0, s) by {
      NothingScanned(input, h);
    }
    for n := 0 to h.count
      invariant Scanned(input, h, n, s)
    {
      var next := ScanHeader(input, h, n, s);
      if next.Failure? {
        EntryIsSegmentFault(input, h, n, s, next.error);
        return Failure(next.error);
      }
      s := next.value;
    }
    if s.loads == [] {
      NoSegments(input, h, s, MissingLoadSegment);
      return Failure(MissingLoadSegment);
    }
    if s.interpreter.None? {
      NoSegments(input, h, s, MissingInterpreter);
      return Failure(MissingInterpreter);
    }
    if s.dynamic.None? {
      NoSegments(input, h, s, MissingDynamic);
      return Failure(MissingDynamic);
    }
    var result := Segments(s.loads, s.interpreter.value.1, s.dynamic.value);
    assert Scanned(input, h, h.count, Scan(result.loads, Some((s.interpreter.value.0, result.interpreter)), Some(result.dynamic)));
    return Success(result);
  }

  lemma EntryIsSegmentFault(input: seq<byte>, h: Header, n: nat, s: Scan, e: ElfError)
    requires InFile(input, h.tableOffset, h.count * 56) && n < h.count
    requires Scanned(input, h, n, s) && EntryFault(input, h, n, e)
    ensures SegmentFault(input, h, e)
  {
    hide Scanned, EntryFault, Lacking;
    assert FaultyAt(input, h, n, e);
  }

  lemma NothingScanned(input: seq<byte>, h: Header)
    requires InFile(input, h.tableOffset, h.count * 56)
    ensures Scanned(input, h, 0, Scan([], None, None))
  {
  }

  lemma NoSegments(input: seq<byte>, h: Header, s: Scan, e: ElfError)
    requires InFile(input, h.tableOffset, h.count * 56) && Scanned(input, h, h.count, s) && Lacks(s, e)
    ensures Hopeless(input, h) && SegmentFault(input, h, e)
  {
    assert Lacking(input, h, e) by { hide Scanned, Lacks; }
    hide Ph, IsInterpreter, FaultyAt, Lacking;
  }

  // ---- the error is that of the first header at fault ----

  /** A header at fault has no error but its own, and the scan gets no further. */
  lemma FaultStops(input: seq<byte>, h: Header, n: nat, e: ElfError, later: nat, s: Scan)
    requires InFile(input, h.tableOffset, h.count * 56) && n < later <= h.count && EntryFault(input, h, n, e)
    ensures !Scanned(input, h, later, s)
  {
    hide Ph, Loads, IsUtf8;
  }

  lemma SliceFaultUnique(input: seq<byte>, region: string, s: Segment, e: ElfError, e': ElfError)
    requires SliceFault(input, region, s, e) && SliceFault(input, region, s, e')
    ensures e == e'
  {
  }

  lemma InterpreterFaultUnique(input: seq<byte>, p: ProgramHeader, index: nat, e: ElfError, e': ElfError)
    requires InterpreterFault(input, p, index, e) && InterpreterFault(input, p, index, e')
    ensures e == e'
  {
    hide Terminated, IsUtf8, SliceFault;
    if !InFile(input, p.offset, p.size) {
      SliceFaultUnique(input, "interpreter", Segment(index, p.offset, p.size), e, e');
    }
  }

  /** What an entry's fault is, kind by kind. */
  lemma FaultKind(input: seq<byte>, h: Header, n: nat, e: ElfError)
    requires InFile(input, h.tableOffset, h.count * 56) && n < h.count && EntryFault(input, h, n, e)
    ensures var p, first := Ph(input, h, n), NoneOf(input, h, n, Ph(input, h, n).kind);
            if p.kind == PT_LOAD then SliceFault(input, "load", Segment(n, p.offset, p.size), e)
            else if p.kind == PT_INTERP then if first then InterpreterFault(input, p, n, e) else e == DuplicateInterpreter(n)
            else if p.kind == PT_DYNAMIC then
              if first then SliceFault(input, "dynamic", Segment(n, p.offset, p.size), e) else e == DuplicateDynamic(n)
            else false
  {
    hide Ph, NoneOf, SliceFault, InterpreterFault;
  }

  lemma FaultUnique(input: seq<byte>, h: Header, n: nat, e: ElfError, e': ElfError)
    requires InFile(input, h.tableOffset, h.count * 56) && n < h.count
    requires EntryFault(input, h, n, e) && EntryFault(input, h, n, e')
    ensures e == e'
  {
    hide Ph, NoneOf, SliceFault, InterpreterFault, EntryFault;
    FaultKind(input, h, n, e);
    FaultKind(input, h, n, e');
    var p := Ph(input, h, n);
    if p.kind == PT_INTERP && NoneOf(input, h, n, PT_INTERP) {
      InterpreterFaultUnique(input, p, n, e, e');
    } else if p.kind == PT_LOAD {
      SliceFaultUnique(input, "load", Segment(n, p.offset, p.size), e, e');
    } else if p.kind == PT_DYNAMIC && NoneOf(input, h, n, PT_DYNAMIC) {
      SliceFaultUnique(input, "dynamic", Segment(n, p.offset, p.size), e, e');
    }
  }

  lemma ScanUnique(input: seq<byte>, h: Header, n: nat, s: Scan, s': Scan)
    requires InFile(input, h.tableOffset, h.count * 56) && n <= h.count
    requires Scanned(input, h, n, s) && Scanned(input, h, n, s')
    ensures s == s'
  {
    hide Ph, Loads, IsUtf8;
  }

  lemma LackingUnique(input: seq<byte>, h: Header, e: ElfError, e': ElfError)
    requires InFile(input, h.tableOffset, h.count * 56) && Lacking(input, h, e) && Lacking(input, h, e')
    ensures e == e'
  {
    hide Scanned, Lacks;
    var s :| Scanned(input, h, h.count, s) && Lacks(s, e);
    var s' :| Scanned(input, h, h.count, s') && Lacks(s', e');
    ScanUnique(input, h, h.count, s, s');
    LacksUnique(s, e, e');
  }

  lemma LacksUnique(s: Scan, e: ElfError, e': ElfError)
    requires Lacks(s, e) && Lacks(s, e')
    ensures e == e'
  {
  }

  lemma FaultyUnique(input: seq<byte>, h: Header, n: nat, e: ElfError, n': nat, e': ElfError)
    requires InFile(input, h.tableOffset, h.count * 56) && n < h.count && n' < h.count
    requires FaultyAt(input, h, n, e) && FaultyAt(input, h, n', e')
    ensures e == e'
  {
    hide Scanned, EntryFault;
    var s :| Scanned(input, h, n, s);
    var s' :| Scanned(input, h, n', s');
    if n < n' {
      FaultStops(input, h, n, e, n', s');
    } else if n' < n {
      FaultStops(input, h, n', e', n, s);
    } else {
      FaultUnique(input, h, n, e, e');
    }
  }

  lemma FaultyLacksNothing(input: seq<byte>, h: Header, n: nat, e: ElfError, e': ElfError)
    requires InFile(input, h.tableOffset, h.count * 56) && n < h.count && FaultyAt(input, h, n, e)
    ensures !Lacking(input, h, e')
  {
    hide Scanned, EntryFault, Lacks;
    if s :| Scanned(input, h, h.count, s) && Lacks(s, e') {
      FaultStops(input, h, n, e, h.count, s);
    }
  }

  /** The error of the scan is determined by the file. */
  lemma SegmentFaultUnique(input: seq<byte>, h: Header, e: ElfError, e': ElfError)
    requires InFile(input, h.tableOffset, h.count * 56) && SegmentFault(input, h, e) && SegmentFault(input, h, e')
    ensures e == e'
  {
    hide FaultyAt, Lacking;
    if n :| 0 <= n < h.count && FaultyAt(input, h, n, e) {
      FaultyLacksNothing(input, h, n, e, e');
      var n' :| 0 <= n' < h.count && FaultyAt(input, h, n', e');
      FaultyUnique(input, h, n, e, n', e');
    } else if n :| 0 <= n < h.count && FaultyAt(input, h, n, e') {
      FaultyLacksNothing(input, h, n, e', e);
      assert false;
    } else {
      LackingUnique(input, h, e, e');
    }
  }

  /** The segments of a file are determined by the file. */
  lemma SegmentsUnique(input: seq<byte>, h: Header, s: Segments, s': Segments)
    requires InFile(input, h.tableOffset, h.count * 56) && IsSegments(input, h, s) && IsSegments(input, h, s')
    ensures s == s'
  {
    hide Ph;
  }
}
