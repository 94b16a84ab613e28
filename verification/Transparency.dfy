/** The transparency ledger: one canonical line an entry, each bound to the line before it by its digest. */
module TransparencyLedger {
  import opened Wrappers
  import opened Octet
  import opened Text
  import opened Ordering
  import opened Sequences

  type Bytes = seq<byte>

  /** Bytes that fit into memory. */
  type Buffer = b: Bytes | |b| < U64

  type u64 = n: nat | n < U64

  const FEED: byte := 10
  const PRODUCT: string := "solstone-linux"
  const ENTRY_SCHEMA: string := "https://solpbc.org/schemas/transparency-ledger-entry/v1.json"

  datatype Named = Named(name: string, sha256: string, size: u64)

  datatype Entry = Entry(
    artifacts: seq<Named>,
    manifests: seq<Named>,
    proofs: seq<Named>,
    prevSha256: string,
    prevVersion: string,
    product: string,
    publishedUtc: string,
    schema: string,
    number: u64,
    sourceCommit: string,
    version: string)

  /** JSON parsing, canonical JSON, SHA-256 and the exact timestamp format. What a lemma assumes of them it names. */
  datatype Codec = Codec(
    parse: Bytes -> Option<Entry>,
    canonical: Entry -> Option<Bytes>,
    digest: Bytes -> string,
    time: string -> Option<int>)

  datatype ChainError =
    | WrongIdentity
    | InvalidBinding
    | BadTimestamp
    | UnsortedInventory
    | NotLater
    | BrokenLink
    | Overflow
    | BadGenesis
    | PartialLine
    | NotJson
    | NoCanonicalForm
    | NotCanonical
    | TipContradicted
    | LockedContradicted
    | EntryMissing

  // ---- one entry ----

  /** The last number, which has no successor: the checked addition ends the run. */
  const LAST: u64 := U64 - 1

  predicate IsZeroDigest(s: string) {
    |s| == 64 && forall i :: 0 <= i < 64 ==> s[i] == '0'
  }

  predicate ByName(a: Named, b: Named) {
    Less(a.name, b.name)
  }

  function ValidateEntry(c: Codec, e: Entry, previous: Option<Entry>): Result<(), ChainError> {
    if e.schema != ENTRY_SCHEMA || e.product != PRODUCT then Failure(WrongIdentity)
    else if !(|e.sourceCommit| == 40 && IsLowerHex(e.sourceCommit)) || !(|e.prevSha256| == 64 && IsLowerHex(e.prevSha256))
      then Failure(InvalidBinding)
    else if c.time(e.publishedUtc).None? then Failure(BadTimestamp)
    else if Sort(ByName, e.artifacts) != e.artifacts || Sort(ByName, e.manifests) != e.manifests
            || Sort(ByName, e.proofs) != e.proofs
      then Failure(UnsortedInventory)
    else
      match previous
      case None =>
        if e.number == 1 && IsZeroDigest(e.prevSha256) && e.prevVersion == "" then Success(()) else Failure(BadGenesis)
      case Some(p) =>
        match c.canonical(p)
        case None => Failure(NoCanonicalForm)
        case Some(line) =>
          if c.time(p.publishedUtc).None? then Failure(BadTimestamp)
          else if c.time(e.publishedUtc).value <= c.time(p.publishedUtc).value then Failure(NotLater)
          else if p.number == LAST then Failure(Overflow)
          else if e.number != p.number + 1 || e.prevSha256 != c.digest(line) || e.prevVersion != p.version then
            Failure(BrokenLink)
          else Success(())
  }

  /** The inventory test is sortedness by name. */
  lemma InventoryIsSorted(c: Codec, e: Entry, previous: Option<Entry>)
    requires ValidateEntry(c, e, previous).Success?
    ensures SortedBy(ByName, e.artifacts) && SortedBy(ByName, e.manifests) && SortedBy(ByName, e.proofs)
  {
    hide Less, Sort, IsLowerHex, IsZeroDigest;
    ByNameIsWeak();
    SortSorted(ByName, e.artifacts);
    SortSorted(ByName, e.manifests);
    SortSorted(ByName, e.proofs);
  }

  lemma ByNameIsWeak()
    ensures StrictWeak(ByName)
  {
    hide Less;
    forall a ensures !ByName(a, a) {
      LessIrreflexive(a.name);
    }
    forall a, b | ByName(a, b) ensures !ByName(b, a) {
      LessAsymmetric(a.name, b.name);
    }
    forall a, b, c | !ByName(b, a) && !ByName(c, b) ensures !ByName(c, a) {
      NotLessTransitive(a.name, b.name, c.name);
    }
  }

  // ---- lines ----

  /** The length of the first line, its feed included. */
  function LineEnd(b: Bytes): (n: nat)
    requires b != []
    ensures 0 < n <= |b|
  {
    if b[0] == FEED || |b| == 1 then 1 else 1 + LineEnd(b[1..])
  }

  /** Rust's `split_inclusive` at every line feed. */
  function SplitInclusive(b: Bytes): seq<Bytes> {
    if b == [] then [] else [b[..LineEnd(b)]] + SplitInclusive(b[LineEnd(b)..])
  }

  lemma {:induction false} ConcatSplit(b: Bytes)
    ensures Concat(SplitInclusive(b)) == b
    decreases |b|
  {
    hide LineEnd;
    if b != [] {
      ConcatSplit(b[LineEnd(b)..]);
      assert SplitInclusive(b)[1..] == SplitInclusive(b[LineEnd(b)..]);
      assert b == b[..LineEnd(b)] + b[LineEnd(b)..];
    }
  }

  /** A line as the splitter makes them: a feed at its end and nowhere else. */
  predicate IsLine(line: Bytes) {
    line != [] && line[|line| - 1] == FEED && FEED !in line[..|line| - 1]
  }

  lemma {:induction false} LineEndOf(line: Bytes, rest: Bytes)
    requires IsLine(line)
    ensures LineEnd(line + rest) == |line|
  {
    var b := line + rest;
    if |line| == 1 {
      assert b[0] == FEED;
    } else {
      assert line[0] in line[..|line| - 1];
      assert line[..|line| - 1][1..] == line[1..][..|line| - 2];
      assert b[1..] == line[1..] + rest;
      LineEndOf(line[1..], rest);
    }
  }

  lemma SplitFirst(line: Bytes, rest: Bytes)
    requires IsLine(line)
    ensures SplitInclusive(line + rest) == [line] + SplitInclusive(rest)
  {
    LineEndOf(line, rest);
    hide LineEnd;
    var b := line + rest;
    assert b[..|line|] == line && b[|line|..] == rest;
  }

  lemma {:induction false} SplitConcat(lines: seq<Bytes>, rest: Bytes)
    requires forall line :: line in lines ==> IsLine(line)
    ensures SplitInclusive(Concat(lines) + rest) == lines + SplitInclusive(rest)
  {
    hide IsLine, SplitInclusive;
    if lines == [] {
      assert Concat(lines) + rest == rest;
    } else {
      assert lines[0] in lines && forall line :: line in lines[1..] ==> line in lines;
      SplitConcat(lines[1..], rest);
      Associates(lines[0], Concat(lines[1..]), rest);
      SplitFirst(lines[0], Concat(lines[1..]) + rest);
      Associates([lines[0]], lines[1..], SplitInclusive(rest));
      assert lines == [lines[0]] + lines[1..];
    }
  }

  // ---- a chain ----

  /** The entry a line stands for: terminated, readable, and its own canonical form. */
  function EntryOf(c: Codec, line: Bytes): Result<Entry, ChainError> {
    if line == [] || line[|line| - 1] != FEED then Failure(PartialLine)
    else
      match c.parse(line)
      case None => Failure(NotJson)
      case Some(e) =>
        match c.canonical(e)
        case None => Failure(NoCanonicalForm)
        case Some(canonical) => if canonical != line then Failure(NotCanonical) else Success(e)
  }

  function Before(entries: seq<Entry>, i: nat): Option<Entry>
    requires i <= |entries|
  {
    if i == 0 then None else Some(entries[i - 1])
  }

  predicate LinkedAt(c: Codec, lines: seq<Bytes>, entries: seq<Entry>, i: nat)
    requires i < |lines| && i < |entries|
  {
    EntryOf(c, lines[i]) == Success(entries[i]) && ValidateEntry(c, entries[i], Before(entries, i)).Success?
  }

  /** Every line stands for its entry, the first is a genesis and every other follows the one before it. */
  predicate IsChain(c: Codec, lines: seq<Bytes>, entries: seq<Entry>) {
    |lines| == |entries| && forall i :: 0 <= i < |lines| ==> LinkedAt(c, lines, entries, i)
  }

  /** What a link fixes. */
  lemma LinkFacts(c: Codec, lines: seq<Bytes>, entries: seq<Entry>, i: nat)
    requires IsChain(c, lines, entries) && i < |lines|
    ensures c.canonical(entries[i]) == Some(lines[i]) && c.time(entries[i].publishedUtc).Some?
    ensures i == 0 ==> entries[i].number == 1
    ensures i > 0 ==> entries[i].number == entries[i - 1].number + 1 && entries[i].prevSha256 == c.digest(lines[i - 1])
                      && entries[i].prevVersion == entries[i - 1].version
    ensures i > 0 ==> c.time(entries[i - 1].publishedUtc).Some?
                      && c.time(entries[i - 1].publishedUtc).value < c.time(entries[i].publishedUtc).value
  {
    hide Sort, IsLowerHex, IsZeroDigest;
    assert LinkedAt(c, lines, entries, i);
    if i > 0 {
      assert LinkedAt(c, lines, entries, i - 1);
    }
  }

  /** Sequence numbers are positions counted from one. */
  lemma {:induction false} NumbersArePositions(c: Codec, lines: seq<Bytes>, entries: seq<Entry>, i: nat)
    requires IsChain(c, lines, entries) && i < |lines|
    ensures entries[i].number == i + 1
  {
    hide LinkedAt;
    LinkFacts(c, lines, entries, i);
    if i > 0 {
      NumbersArePositions(c, lines, entries, i - 1);
    }
  }

  /** Publication times increase along the whole chain. */
  lemma {:induction false} TimesIncrease(c: Codec, lines: seq<Bytes>, entries: seq<Entry>, i: nat, j: nat)
    requires IsChain(c, lines, entries) && i < j < |lines|
    ensures c.time(entries[i].publishedUtc).Some? && c.time(entries[j].publishedUtc).Some?
    ensures c.time(entries[i].publishedUtc).value < c.time(entries[j].publishedUtc).value
  {
    hide IsChain;
    LinkFacts(c, lines, entries, j);
    LinkFacts(c, lines, entries, i);
    if i < j - 1 {
      TimesIncrease(c, lines, entries, i, j - 1);
    }
  }

  lemma ChainEntries(c: Codec, lines: seq<Bytes>, entries: seq<Entry>, entries': seq<Entry>)
    requires IsChain(c, lines, entries) && IsChain(c, lines, entries')
    ensures entries == entries'
  {
    hide EntryOf, ValidateEntry;
    forall i | 0 <= i < |lines| ensures entries[i] == entries'[i] {
      assert LinkedAt(c, lines, entries, i) && LinkedAt(c, lines, entries', i);
    }
  }

  lemma ChainPrefix(c: Codec, lines: seq<Bytes>, entries: seq<Entry>, k: nat)
    requires IsChain(c, lines, entries) && k <= |lines|
    ensures IsChain(c, lines[..k], entries[..k])
  {
    hide EntryOf, ValidateEntry;
    forall i | 0 <= i < k ensures LinkedAt(c, lines[..k], entries[..k], i) {
      assert LinkedAt(c, lines, entries, i);
    }
  }

  lemma ChainSnoc(c: Codec, lines: seq<Bytes>, entries: seq<Entry>, line: Bytes, e: Entry)
    requires IsChain(c, lines, entries)
    requires EntryOf(c, line) == Success(e) && ValidateEntry(c, e, Before(entries, |entries|)).Success?
    ensures IsChain(c, lines + [line], entries + [e])
  {
    hide EntryOf, ValidateEntry;
    forall i | 0 <= i < |lines| + 1 ensures LinkedAt(c, lines + [line], entries + [e], i) {
      if i < |lines| {
        assert LinkedAt(c, lines, entries, i);
      }
    }
  }

  // ---- which chains there are ----

  ghost predicate InNameOrder(list: seq<Named>) {
    forall j, k :: 0 <= j < k < |list| ==> !Precedes(list[k].name, list[j].name)
  }

  /** What an entry has to be by itself. */
  ghost predicate SoundEntry(c: Codec, e: Entry) {
    && e.schema == "https://solpbc.org/schemas/transparency-ledger-entry/v1.json" && e.product == "solstone-linux"
    && HexDigits(e.sourceCommit, 40) && HexDigits(e.prevSha256, 64)
    && c.time(e.publishedUtc).Some?
    && InNameOrder(e.artifacts) && InNameOrder(e.manifests) && InNameOrder(e.proofs)
  }

  /** What it has to be at its place: numbered from one, bound to the zeros or to the line before it, and later. */
  ghost predicate SoundAt(c: Codec, lines: seq<Bytes>, entries: seq<Entry>, i: nat)
    requires i < |lines| && i < |entries|
  {
    var e := entries[i];
    && SoundEntry(c, e)
    && lines[i] != [] && lines[i][|lines[i]| - 1] == 10
    && c.parse(lines[i]) == Some(e) && c.canonical(e) == Some(lines[i])
    && e.number == i + 1
    && if i == 0 then e.prevVersion == "" && e.prevSha256 == seq(64, _ => '0')
       else
         && e.prevVersion == entries[i - 1].version && e.prevSha256 == c.digest(lines[i - 1])
         && c.time(entries[i - 1].publishedUtc).Some?
         && c.time(entries[i - 1].publishedUtc).value < c.time(e.publishedUtc).value
  }

  ghost predicate SoundChain(c: Codec, lines: seq<Bytes>, entries: seq<Entry>) {
    |lines| == |entries| && forall i :: 0 <= i < |lines| ==> SoundAt(c, lines, entries, i)
  }

  lemma NameOrderIff(list: seq<Named>)
    ensures InNameOrder(list) <==> Sort(ByName, list) == list
  {
    hide Less, Sort, Precedes;
    forall a: string, b: string ensures Less(a, b) <==> Precedes(a, b) {
      LessIff(a, b);
    }
    ByNameIsWeak();
    SortSorted(ByName, list);
    if InNameOrder(list) {
      SortFixed(ByName, list);
    }
  }

  lemma ZerosIff(s: string)
    ensures s == seq(64, _ => '0') <==> IsZeroDigest(s)
  {
  }

  /** An entry is valid at its place exactly when it is sound there, given that its line stands for it and the entry
      before it has its number. */
  lemma SoundIff(c: Codec, lines: seq<Bytes>, entries: seq<Entry>, i: nat)
    requires i < |lines| && i < |entries|
    requires i > 0 ==> c.canonical(entries[i - 1]) == Some(lines[i - 1]) && entries[i - 1].number == i
    ensures LinkedAt(c, lines, entries, i) <==> SoundAt(c, lines, entries, i)
  {
    hide SoundEntry, ValidateEntry, IsZeroDigest;
    ValidIff(c, entries[i], Before(entries, i));
    ZerosIff(entries[i].prevSha256);
  }

  lemma ValidIff(c: Codec, e: Entry, previous: Option<Entry>)
    ensures ValidateEntry(c, e, previous).Success? <==>
      SoundEntry(c, e) &&
      match previous
      case None => e.number == 1 && IsZeroDigest(e.prevSha256) && e.prevVersion == ""
      case Some(p) =>
        && c.canonical(p).Some? && c.time(p.publishedUtc).Some?
        && c.time(p.publishedUtc).value < c.time(e.publishedUtc).value
        && e.number == p.number + 1 && e.prevSha256 == c.digest(c.canonical(p).value) && e.prevVersion == p.version
  {
    hide SoundEntry, IsLowerHex, IsZeroDigest, Sort, ENTRY_SCHEMA, PRODUCT;
    SoundEntryIff(c, e);
  }

  lemma Identity()
    ensures ENTRY_SCHEMA == "https://solpbc.org/schemas/transparency-ledger-entry/v1.json"
    ensures PRODUCT == "solstone-linux"
  {
  }

  lemma SoundEntryIff(c: Codec, e: Entry)
    ensures SoundEntry(c, e) <==>
      && e.schema == ENTRY_SCHEMA && e.product == PRODUCT
      && |e.sourceCommit| == 40 && IsLowerHex(e.sourceCommit) && |e.prevSha256| == 64 && IsLowerHex(e.prevSha256)
      && c.time(e.publishedUtc).Some?
      && Sort(ByName, e.artifacts) == e.artifacts && Sort(ByName, e.manifests) == e.manifests
      && Sort(ByName, e.proofs) == e.proofs
  {
    Identity();
    hide HexDigits, IsLowerHex, InNameOrder, Sort, ENTRY_SCHEMA, PRODUCT;
    HexIff(e.sourceCommit, 40);
    HexIff(e.prevSha256, 64);
    NameOrderIff(e.artifacts);
    NameOrderIff(e.manifests);
    NameOrderIff(e.proofs);
    assert e.schema == ENTRY_SCHEMA <==> e.schema == "https://solpbc.org/schemas/transparency-ledger-entry/v1.json";
    assert e.product == PRODUCT <==> e.product == "solstone-linux";
  }

  lemma {:induction false} SoundUpTo(c: Codec, lines: seq<Bytes>, entries: seq<Entry>, n: nat)
    requires n <= |lines| == |entries|
    ensures (forall i :: 0 <= i < n ==> LinkedAt(c, lines, entries, i))
       <==> (forall i :: 0 <= i < n ==> SoundAt(c, lines, entries, i))
  {
    hide LinkedAt, SoundAt;
    if n > 0 {
      SoundUpTo(c, lines, entries, n - 1);
      if (forall i :: 0 <= i < n - 1 ==> LinkedAt(c, lines, entries, i)) && n > 1 {
        assert SoundAt(c, lines, entries, n - 2);
        SoundGives(c, lines, entries, n - 2);
        SoundIff(c, lines, entries, n - 1);
      } else if n == 1 {
        SoundIff(c, lines, entries, 0);
      }
    }
  }

  lemma SoundGives(c: Codec, lines: seq<Bytes>, entries: seq<Entry>, i: nat)
    requires i < |lines| && i < |entries| && SoundAt(c, lines, entries, i)
    ensures c.canonical(entries[i]) == Some(lines[i]) && entries[i].number == i + 1
  {
    hide SoundEntry;
  }

  lemma ChainIff(c: Codec, lines: seq<Bytes>, entries: seq<Entry>)
    ensures IsChain(c, lines, entries) <==> SoundChain(c, lines, entries)
  {
    hide LinkedAt, SoundAt;
    if |lines| == |entries| {
      SoundUpTo(c, lines, entries, |lines|);
    }
  }

  /** Bytes are a ledger exactly when their lines are the canonical forms of entries that are sound one by one, each at
      its place; every honest chain is accepted. */
  lemma LedgerIff(c: Codec, bytes: Bytes)
    ensures IsLedger(c, bytes) <==> exists entries :: SoundChain(c, SplitInclusive(bytes), entries)
  {
    hide IsChain, SoundChain, SplitInclusive;
    var lines := SplitInclusive(bytes);
    if entries :| IsChain(c, lines, entries) {
      ChainIff(c, lines, entries);
      assert exists es :: SoundChain(c, SplitInclusive(bytes), es);
    }
    if entries :| SoundChain(c, lines, entries) {
      ChainIff(c, lines, entries);
    }
  }

  // ---- the tip pins the ledger ----

  /** Among these lines a digest determines its line. */
  ghost predicate DigestsTell(c: Codec, a: seq<Bytes>, b: seq<Bytes>) {
    forall x, y :: x in a && y in b && c.digest(x) == c.digest(y) ==> x == y
  }

  /** Two chains that agree at one position agree at every position before it. */
  lemma {:induction false} AgreementGoesBack(
    c: Codec, a: seq<Bytes>, ea: seq<Entry>, b: seq<Bytes>, eb: seq<Entry>, i: nat)
    requires IsChain(c, a, ea) && IsChain(c, b, eb) && DigestsTell(c, a, b)
    requires i < |a| && i < |b| && a[i] == b[i]
    ensures a[..i + 1] == b[..i + 1]
  {
    hide EntryOf, ValidateEntry;
    assert LinkedAt(c, a, ea, i) && LinkedAt(c, b, eb, i);
    if i > 0 {
      LinkFacts(c, a, ea, i);
      LinkFacts(c, b, eb, i);
      assert a[i - 1] in a && b[i - 1] in b;
      AgreementGoesBack(c, a, ea, b, eb, i - 1);
      assert a[..i + 1] == a[..i] + [a[i]] && b[..i + 1] == b[..i] + [b[i]];
    } else {
      assert a[..1] == [a[0]] && b[..1] == [b[0]];
    }
  }

  ghost predicate IsLedger(c: Codec, bytes: Bytes) {
    exists entries :: IsChain(c, SplitInclusive(bytes), entries)
  }

  /** `transparency_ledger_has_tip`: the last line is terminated and has this digest. */
  predicate HasTip(c: Codec, bytes: Bytes, tip: string) {
    var lines := SplitInclusive(bytes);
    lines != [] && var last := lines[|lines| - 1]; last != [] && last[|last| - 1] == FEED && c.digest(last) == tip
  }

  /** The digest of the tip pins the whole ledger: two accepted ledgers with the same tip are the same bytes, when
      digests tell the lines of the two apart. */
  lemma TipPinsLedger(c: Codec, x: Bytes, y: Bytes, tip: string)
    requires IsLedger(c, x) && IsLedger(c, y) && HasTip(c, x, tip) && HasTip(c, y, tip)
    requires DigestsTell(c, SplitInclusive(x), SplitInclusive(y))
    ensures x == y
  {
    hide IsChain, SplitInclusive;
    var a, b := SplitInclusive(x), SplitInclusive(y);
    var ea :| IsChain(c, a, ea);
    var eb :| IsChain(c, b, eb);
    SameTipSameLines(c, a, ea, b, eb);
    ConcatSplit(x);
    ConcatSplit(y);
  }

  lemma SameTipSameLines(c: Codec, a: seq<Bytes>, ea: seq<Entry>, b: seq<Bytes>, eb: seq<Entry>)
    requires IsChain(c, a, ea) && IsChain(c, b, eb) && DigestsTell(c, a, b)
    requires a != [] && b != [] && c.digest(a[|a| - 1]) == c.digest(b[|b| - 1])
    ensures a == b
  {
    hide EntryOf, ValidateEntry;
    var m, n := |a| - 1, |b| - 1;
    assert a[m] in a && b[n] in b;
    assert LinkedAt(c, a, ea, m) && LinkedAt(c, b, eb, n);
    NumbersArePositions(c, a, ea, m);
    NumbersArePositions(c, b, eb, n);
    AgreementGoesBack(c, a, ea, b, eb, m);
    assert a[..m + 1] == a && b[..m + 1] == b;
  }

  /** A ledger whose tip occurs anywhere in another ledger is a prefix of it: entries are only ever appended. */
  lemma EarlierTipIsPrefix(c: Codec, x: Bytes, y: Bytes, tip: string, k: nat)
    requires IsLedger(c, x) && IsLedger(c, y) && HasTip(c, x, tip)
    requires k < |SplitInclusive(y)| && c.digest(SplitInclusive(y)[k]) == tip
    requires DigestsTell(c, SplitInclusive(x), SplitInclusive(y))
    ensures x <= y && |SplitInclusive(x)| == k + 1
  {
    hide EntryOf, ValidateEntry, SplitInclusive;
    var a, b := SplitInclusive(x), SplitInclusive(y);
    var ea :| IsChain(c, a, ea);
    var eb :| IsChain(c, b, eb);
    var m := |a| - 1;
    assert a[m] in a && b[k] in b;
    LinkedHere(c, a, ea, m);
    LinkedHere(c, b, eb, k);
    NumbersArePositions(c, a, ea, m);
    NumbersArePositions(c, b, eb, k);
    AgreementGoesBack(c, a, ea, b, eb, k);
    assert a == a[..k + 1] && b == a + b[k + 1..];
    ConcatConcat(a, b[k + 1..]);
    ConcatSplit(x);
    ConcatSplit(y);
  }

  // ---- the validator ----

  lemma StuckAt(c: Codec, lines: seq<Bytes>, entries: seq<Entry>, k: nat)
    requires k < |lines| && IsChain(c, lines[..k], entries)
    requires EntryOf(c, lines[k]).Failure? || ValidateEntry(c, EntryOf(c, lines[k]).value, Before(entries, k)).Failure?
    ensures forall es :: !IsChain(c, lines, es)
  {
    hide EntryOf, ValidateEntry;
    forall es ensures !IsChain(c, lines, es) {
      if IsChain(c, lines, es) {
        ChainPrefix(c, lines, es, k);
        ChainEntries(c, lines[..k], entries, es[..k]);
        LinkedHere(c, lines, es, k);
      }
    }
  }

  lemma LinkedHere(c: Codec, lines: seq<Bytes>, es: seq<Entry>, k: nat)
    requires IsChain(c, lines, es) && k < |lines|
    ensures EntryOf(c, lines[k]) == Success(es[k]) && ValidateEntry(c, es[k], Before(es, k)).Success?
    ensures Before(es, k) == Before(es[..k], k)
  {
    assert LinkedAt(c, lines, es, k);
  }

  /** The common loop of the two readers: succeeds exactly on ledgers, with the entries of their lines. */
  method ReadLedger(c: Codec, bytes: Bytes) returns (r: Result<seq<Entry>, ChainError>)
    ensures r.Success? ==> IsChain(c, SplitInclusive(bytes), r.value)
    ensures r.Failure? ==> !IsLedger(c, bytes)
  {
    hide EntryOf, ValidateEntry, SplitInclusive, IsChain;
    var lines := SplitInclusive(bytes);
    var entries: seq<Entry> := [];
    EmptyChain(c);
    for k := 0 to |lines|
      invariant |entries| == k && IsChain(c, lines[..k], entries)
    {
      var e := EntryOf(c, lines[k]);
      if e.Failure? {
        StuckAt(c, lines, entries, k);
        return Failure(e.error);
      }
      var linked := ValidateEntry(c, e.value, Before(entries, k));
      if linked.Failure? {
        StuckAt(c, lines, entries, k);
        return Failure(linked.error);
      }
      ChainSnoc(c, lines[..k], entries, lines[k], e.value);
      assert lines[..k] + [lines[k]] == lines[..k + 1];
      entries := entries + [e.value];
    }
    assert lines[..|lines|] == lines;
    return Success(entries);
  }

  lemma EmptyChain(c: Codec)
    ensures IsChain(c, [], [])
  {
  }

  /** A list of entries as long as the tip's number ends in the tip. */
  predicate EndsInTip(entries: seq<Entry>, tip: Entry) {
    entries != [] && |entries| == tip.number ==> entries[|entries| - 1] == tip
  }

  lemma TipVerdict(c: Codec, lines: seq<Bytes>, entries: seq<Entry>, tip: Entry)
    requires IsChain(c, lines, entries)
    ensures EndsInTip(entries, tip) <==>
      !(entries != [] && entries[|entries| - 1].number == tip.number && entries[|entries| - 1] != tip)
  {
    hide IsChain;
    ChainLength(c, lines, entries);
    if entries != [] {
      NumbersArePositions(c, lines, entries, |entries| - 1);
    }
  }

  ghost predicate Accepted(c: Codec, bytes: Bytes, tip: Entry) {
    exists entries :: IsChain(c, SplitInclusive(bytes), entries) && EndsInTip(entries, tip)
  }

  /** Accepts exactly the ledgers whose last entry, if it has the number of the tip, is the tip. A ledger that stops
      short of the tip or runs past it is not compared with it here. */
  method ValidateLedger(c: Codec, bytes: Bytes, tip: Entry) returns (r: Result<(), ChainError>)
    ensures r.Success? <==> Accepted(c, bytes, tip)
  {
    hide IsChain, SplitInclusive, EndsInTip;
    if bytes == [] {
      EmptyLedger(c);
      assert IsChain(c, SplitInclusive(bytes), []) && EndsInTip([], tip);
      return Success(());
    }
    var read := ReadLedger(c, bytes);
    if read.Failure? {
      return Failure(read.error);
    }
    var entries := read.value;
    forall es | IsChain(c, SplitInclusive(bytes), es) ensures es == entries {
      ChainEntries(c, SplitInclusive(bytes), entries, es);
    }
    TipVerdict(c, SplitInclusive(bytes), entries, tip);
    if entries != [] {
      var last := entries[|entries| - 1];
      if last.number >= tip.number && last.number == tip.number && last != tip {
        return Failure(TipContradicted);
      }
    }
    return Success(());
  }

  lemma ChainLength(c: Codec, lines: seq<Bytes>, entries: seq<Entry>)
    requires IsChain(c, lines, entries)
    ensures |lines| == |entries|
  {
  }

  lemma EmptyLedger(c: Codec)
    ensures IsChain(c, SplitInclusive([]), []) && forall tip :: EndsInTip([], tip)
  {
  }

  // ---- a fetched ledger against the locked one ----

  /** The reader gets to line `k`: what precedes it is a chain. */
  ghost predicate Reaches(c: Codec, lines: seq<Bytes>, k: nat) {
    k < |lines| && exists entries :: IsChain(c, lines[..k], entries)
  }

  /** The line is terminated and readable, and its entry has no canonical form. */
  predicate Formless(c: Codec, line: Bytes) {
    EntryOf(c, line) == Failure(NoCanonicalForm)
  }

  /** The line has the number of a locked entry and differs from its line. */
  predicate Contradicts(c: Codec, line: Bytes, locked: seq<Bytes>, entries: seq<Entry>)
    requires |locked| == |entries|
  {
    && EntryOf(c, line).Success?
    && exists j :: 0 <= j < |locked| && entries[j].number == EntryOf(c, line).value.number && locked[j] != line
  }

  predicate Refused(c: Codec, line: Bytes, locked: seq<Bytes>, entries: seq<Entry>)
    requires |locked| == |entries|
  {
    Formless(c, line) || Contradicts(c, line, locked, entries)
  }

  ghost predicate NoneRefused(c: Codec, lines: seq<Bytes>, locked: seq<Bytes>, entries: seq<Entry>)
    requires |locked| == |entries|
  {
    forall k: nat :: Reaches(c, lines, k) ==> !Refused(c, lines[k], locked, entries)
  }

  /** The locked bytes are a ledger and no line that is reached is refused. */
  ghost predicate Passes(c: Codec, fetched: Bytes, locked: Bytes) {
    exists entries :: && IsChain(c, SplitInclusive(locked), entries) && |entries| == |SplitInclusive(locked)|
                      && NoneRefused(c, SplitInclusive(fetched), SplitInclusive(locked), entries)
  }

  /** Line `k` is the first refused one, for this reason. */
  ghost predicate FirstRefused(
    c: Codec, lines: seq<Bytes>, locked: seq<Bytes>, entries: seq<Entry>, k: nat, e: ChainError)
    requires |locked| == |entries|
  {
    && Reaches(c, lines, k) && Refused(c, lines[k], locked, entries)
    && (forall i :: 0 <= i < k ==> !Refused(c, lines[i], locked, entries))
    && e == if Formless(c, lines[k]) then NoCanonicalForm else LockedContradicted
  }

  /** The locked line with a number is the one at its position. */
  function LockedLine(locked: seq<Bytes>, number: nat): Option<Bytes> {
    if 0 < number <= |locked| then Some(locked[number - 1]) else None
  }

  lemma ContradictsIff(c: Codec, line: Bytes, locked: seq<Bytes>, entries: seq<Entry>)
    requires IsChain(c, locked, entries) && EntryOf(c, line).Success?
    ensures var expected := LockedLine(locked, EntryOf(c, line).value.number);
            |locked| == |entries|
            && (Contradicts(c, line, locked, entries) <==> expected.Some? && expected.value != line)
  {
    hide EntryOf, LinkedAt;
    forall j | 0 <= j < |locked| ensures entries[j].number == j + 1 {
      NumbersArePositions(c, locked, entries, j);
    }
    var number := EntryOf(c, line).value.number;
    if 0 < number <= |locked| {
      assert entries[number - 1].number == number;
    }
  }

  /** Nothing after a line that cannot be read or linked is reached. */
  lemma NotReached(c: Codec, lines: seq<Bytes>, entries: seq<Entry>, k: nat, later: nat)
    requires k < |lines| && IsChain(c, lines[..k], entries) && k < later
    requires EntryOf(c, lines[k]).Failure? || ValidateEntry(c, EntryOf(c, lines[k]).value, Before(entries, k)).Failure?
    ensures !Reaches(c, lines, later)
  {
    hide EntryOf, ValidateEntry, IsChain;
    if later < |lines| {
      assert lines[..later][..k] == lines[..k] && lines[..later][k] == lines[k];
      StuckAt(c, lines[..later], entries, k);
    }
  }

  lemma {:induction false} SplitLength(b: Bytes)
    ensures |SplitInclusive(b)| <= |b|
    decreases |b|
  {
    hide LineEnd;
    if b != [] {
      SplitLength(b[LineEnd(b)..]);
    }
  }

  /** No ledger in memory has entries enough for the addition to overflow. */
  lemma NoOverflow(c: Codec, fetched: Buffer, entries: seq<Entry>, k: nat, e: Entry)
    requires k < |SplitInclusive(fetched)| && IsChain(c, SplitInclusive(fetched)[..k], entries)
    ensures ValidateEntry(c, e, Before(entries, k)) != Failure(Overflow)
  {
    hide Sort, IsLowerHex, IsZeroDigest, SplitInclusive, LinkedAt;
    SplitLength(fetched);
    if k > 0 {
      NumbersArePositions(c, SplitInclusive(fetched)[..k], entries, k - 1);
    }
  }

  /** Passes exactly when the locked bytes are a ledger and no line that is reached lacks a canonical form or
      contradicts a locked one. A line that is partial, unreadable, not canonical or not linked ends the reading, and
      what precedes it counts. */
  method RejectContradiction(c: Codec, fetched: Buffer, locked: Bytes) returns (r: Result<(), ChainError>)
    ensures r.Success? <==> Passes(c, fetched, locked)
    ensures r.Failure? && IsLedger(c, locked) ==>
      exists k: nat, entries :: |entries| == |SplitInclusive(locked)| && IsChain(c, SplitInclusive(locked), entries)
        && FirstRefused(c, SplitInclusive(fetched), SplitInclusive(locked), entries, k, r.error)
  {
    hide EntryOf, ValidateEntry, SplitInclusive, IsChain, Reaches, Refused, Formless, LockedLine;
    var read := ReadLedger(c, locked);
    if read.Failure? {
      return Failure(read.error);
    }
    var lines, known := SplitInclusive(fetched), SplitInclusive(locked);
    ChainLength(c, known, read.value);
    forall es | IsChain(c, known, es) ensures es == read.value {
      ChainEntries(c, known, read.value, es);
    }
    var entries: seq<Entry> := [];
    EmptyChain(c);
    for k := 0 to |lines|
      invariant |entries| == k && IsChain(c, lines[..k], entries)
      invariant forall i :: 0 <= i < k ==> !Refused(c, lines[i], known, read.value)
    {
      var e := EntryOf(c, lines[k]);
      ReachedHere(c, lines, entries, k);
      RefusedIff(c, lines[k], known, read.value);
      if e == Failure(NoCanonicalForm) {
        assert FirstRefused(c, lines, known, read.value, k, NoCanonicalForm);
        return Failure(NoCanonicalForm);
      }
      if e.Failure? {
        NoneLater(c, lines, entries, k, known, read.value);
        return Success(());
      }
      var expected := LockedLine(known, e.value.number);
      if expected.Some? && expected.value != lines[k] {
        assert FirstRefused(c, lines, known, read.value, k, LockedContradicted);
        return Failure(LockedContradicted);
      }
      NoOverflow(c, fetched, entries, k, e.value);
      var linked := ValidateEntry(c, e.value, Before(entries, k));
      if linked.Failure? {
        NoneLater(c, lines, entries, k, known, read.value);
        return Success(());
      }
      ChainSnoc(c, lines[..k], entries, lines[k], e.value);
      assert lines[..k] + [lines[k]] == lines[..k + 1];
      entries := entries + [e.value];
    }
    forall k: nat | Reaches(c, lines, k) ensures k < |lines| {
      ReachesWithin(c, lines, k);
    }
    return Success(());
  }

  lemma RefusedIff(c: Codec, line: Bytes, locked: seq<Bytes>, entries: seq<Entry>)
    requires IsChain(c, locked, entries) && |locked| == |entries|
    ensures Formless(c, line) <==> EntryOf(c, line) == Failure(NoCanonicalForm)
    ensures Refused(c, line, locked, entries) <==>
      match EntryOf(c, line)
      case Failure(error) => error == NoCanonicalForm
      case Success(e) => LockedLine(locked, e.number).Some? && LockedLine(locked, e.number).value != line
  {
    hide EntryOf, IsChain;
    if EntryOf(c, line).Success? {
      ContradictsIff(c, line, locked, entries);
    }
  }

  lemma ReachedHere(c: Codec, lines: seq<Bytes>, entries: seq<Entry>, k: nat)
    requires k < |lines| && IsChain(c, lines[..k], entries)
    ensures Reaches(c, lines, k)
  {
    hide IsChain;
  }

  lemma ReachesWithin(c: Codec, lines: seq<Bytes>, k: nat)
    requires Reaches(c, lines, k)
    ensures k < |lines|
  {
    hide IsChain;
  }

  lemma NoneLater(c: Codec, lines: seq<Bytes>, entries: seq<Entry>, k: nat, locked: seq<Bytes>, known: seq<Entry>)
    requires k < |lines| && IsChain(c, lines[..k], entries) && |locked| == |known|
    requires EntryOf(c, lines[k]).Failure? || ValidateEntry(c, EntryOf(c, lines[k]).value, Before(entries, k)).Failure?
    requires forall i :: 0 <= i <= k ==> !Refused(c, lines[i], locked, known)
    ensures NoneRefused(c, lines, locked, known)
  {
    hide EntryOf, ValidateEntry, IsChain, Reaches, Refused;
    forall later: nat | Reaches(c, lines, later) ensures later < |lines| && !Refused(c, lines[later], locked, known) {
      if later > k {
        NotReached(c, lines, entries, k, later);
      }
    }
  }

  /** What passing means: as far as the fetched lines are a chain, they are the locked lines, up to the shorter. */
  lemma PassingMeansAgreeing(c: Codec, lines: seq<Bytes>, read: seq<Entry>, n: nat, locked: seq<Bytes>, entries: seq<Entry>)
    requires IsChain(c, locked, entries) && |locked| == |entries| && NoneRefused(c, lines, locked, entries)
    requires n <= |lines| && IsChain(c, lines[..n], read)
    ensures forall i :: 0 <= i < n && i < |locked| ==> lines[i] == locked[i]
  {
    hide EntryOf, ValidateEntry;
    forall i | 0 <= i < n && i < |locked| ensures lines[i] == locked[i] {
      ChainPrefix(c, lines[..n], read, i);
      assert lines[..n][..i] == lines[..i];
      assert LinkedAt(c, lines[..n], read, i) && lines[..n][i] == lines[i];
      NumbersArePositions(c, lines[..n], read, i);
      assert Reaches(c, lines, i);
      ContradictsIff(c, lines[i], locked, entries);
    }
  }

  /** The writer of canonical forms refuses every letter outside ASCII. */
  ghost predicate RefusesNonAscii(c: Codec) {
    forall e: Entry, letter :: letter in e.version && letter as int >= 0x80 ==> c.canonical(e).None?
  }

  /** One first line that reads but has no canonical form is enough: with such a version, the fetched bytes pass
      against no ledger. */
  lemma FormlessNeverPasses(c: Codec, line: Bytes, rest: Bytes, e: Entry, locked: Bytes)
    requires RefusesNonAscii(c) && IsLine(line) && c.parse(line) == Some(e) && e.version == "\U{E9}"
    ensures !Passes(c, line + rest, locked) && !IsLedger(c, line + rest)
  {
    assert '\U{E9}' in e.version;
    assert EntryOf(c, line) == Failure(NoCanonicalForm);
    SplitFirst(line, rest);
    hide EntryOf, SplitInclusive, ValidateEntry;
    var lines := SplitInclusive(line + rest);
    EmptyChain(c);
    assert lines[..0] == [];
    ReachedHere(c, lines, [], 0);
    StuckAt(c, lines, [], 0);
  }

  // ---- deriving the ledger again from locked entries ----

  /** The lines before `current`, fetched one by one along the previous versions. */
  function LinesBefore(c: Codec, store: string -> Option<Bytes>, current: Entry): Result<seq<Bytes>, ChainError>
    decreases current.number
  {
    if current.number == 1 then Success([])
    else
      match store(current.prevVersion)
      case None => Failure(EntryMissing)
      case Some(body) =>
        match c.parse(body)
        case None => Failure(NotJson)
        case Some(previous) =>
          if c.canonical(previous).None? then Failure(NoCanonicalForm)
          else if c.canonical(previous).value != body then Failure(NotCanonical)
          else
            match ValidateEntry(c, current, Some(previous))
            case Failure(error) => Failure(error)
            case Success(_) =>
              match LinesBefore(c, store, previous)
              case Failure(error) => Failure(error)
              case Success(lines) => Success(lines + [body])
  }

  /** Collects the lines backwards from the tip and reverses them at the end. */
  method Rederive(c: Codec, store: string -> Option<Bytes>, tip: Entry, tipBytes: Bytes)
    returns (r: Result<Bytes, ChainError>)
    ensures match LinesBefore(c, store, tip)
            case Failure(error) => r == Failure(error)
            case Success(lines) => r == Success(Concat(lines + [tipBytes]))
  {
    hide ValidateEntry;
    var current := tip;
    var collected: seq<Bytes> := [tipBytes];
    while current.number != 1
      invariant match LinesBefore(c, store, current)
                case Failure(error) => LinesBefore(c, store, tip) == Failure(error)
                case Success(lines) =>
                  LinesBefore(c, store, tip).Success?
                  && lines + Reversed(collected) == LinesBefore(c, store, tip).value + [tipBytes]
      decreases current.number
    {
      var body := store(current.prevVersion);
      if body.None? {
        return Failure(EntryMissing);
      }
      var previous := c.parse(body.value);
      if previous.None? {
        return Failure(NotJson);
      }
      var canonical := c.canonical(previous.value);
      if canonical.None? {
        return Failure(NoCanonicalForm);
      }
      if canonical.value != body.value {
        return Failure(NotCanonical);
      }
      var linked := ValidateEntry(c, current, previous);
      if linked.Failure? {
        return Failure(linked.error);
      }
      LinkDecreases(c, current, previous.value);
      ReversedSnoc(collected, body.value);
      current := previous.value;
      collected := collected + [body.value];
    }
    assert [] + Reversed(collected) == Reversed(collected);
    return Success(Concat(Reversed(collected)));
  }

  lemma LinkDecreases(c: Codec, e: Entry, previous: Entry)
    requires ValidateEntry(c, e, Some(previous)).Success?
    ensures previous.number < e.number
  {
    hide Sort, IsLowerHex;
  }

  function Reversed(lines: seq<Bytes>): (r: seq<Bytes>)
    ensures |r| == |lines|
  {
    if lines == [] then [] else Reversed(lines[1..]) + [lines[0]]
  }

  lemma {:induction false} ReversedSnoc(lines: seq<Bytes>, line: Bytes)
    ensures Reversed(lines + [line]) == [line] + Reversed(lines)
  {
    if lines == [] {
      assert [line][1..] == [];
    } else {
      ReversedSnoc(lines[1..], line);
      assert (lines + [line])[1..] == lines[1..] + [line];
    }
  }

  /** The store holds every line of the chain under its entry's version. */
  predicate Stores(store: string -> Option<Bytes>, lines: seq<Bytes>, entries: seq<Entry>)
    requires |lines| == |entries|
  {
    forall i :: 0 <= i < |lines| ==> store(entries[i].version) == Some(lines[i])
  }

  lemma {:induction false} DerivesPrefix(c: Codec, store: string -> Option<Bytes>, lines: seq<Bytes>, entries: seq<Entry>, i: nat)
    requires IsChain(c, lines, entries) && i < |lines| && Stores(store, lines, entries)
    ensures LinesBefore(c, store, entries[i]) == Success(lines[..i])
  {
    hide ValidateEntry, EntryOf;
    NumbersArePositions(c, lines, entries, i);
    LinkFacts(c, lines, entries, i);
    if i > 0 {
      LinkFacts(c, lines, entries, i - 1);
      LinkedHere(c, lines, entries, i);
      LinkedHere(c, lines, entries, i - 1);
      ParsedHere(c, lines[i - 1], entries[i - 1]);
      DerivesPrefix(c, store, lines, entries, i - 1);
      assert lines[..i] == lines[..i - 1] + [lines[i - 1]];
    }
  }

  lemma ParsedHere(c: Codec, line: Bytes, e: Entry)
    requires EntryOf(c, line) == Success(e)
    ensures c.parse(line) == Some(e)
  {
  }

  /** From a store of a ledger's lines, the ledger is derived again byte for byte, starting from its tip alone. */
  lemma RederivesLedger(c: Codec, store: string -> Option<Bytes>, bytes: Bytes, entries: seq<Entry>)
    requires IsChain(c, SplitInclusive(bytes), entries) && entries != []
    requires |SplitInclusive(bytes)| == |entries| && Stores(store, SplitInclusive(bytes), entries)
    ensures var lines := SplitInclusive(bytes);
            var before := LinesBefore(c, store, entries[|entries| - 1]);
            before.Success? && Concat(before.value + [lines[|lines| - 1]]) == bytes
  {
    hide IsChain, SplitInclusive;
    var lines := SplitInclusive(bytes);
    DerivesPrefix(c, store, lines, entries, |lines| - 1);
    assert lines[..|lines| - 1] + [lines[|lines| - 1]] == lines;
    ConcatSplit(bytes);
  }

  // ---- what the backward walk finds ----

  /** Canonical forms are lines. */
  ghost predicate WritesLines(c: Codec) {
    forall e :: c.canonical(e).Some? ==> IsLine(c.canonical(e).value)
  }

  predicate WalkedAt(c: Codec, lines: seq<Bytes>, entries: seq<Entry>, i: nat)
    requires i < |lines| && i < |entries|
  {
    && IsLine(lines[i]) && EntryOf(c, lines[i]) == Success(entries[i])
    && (i > 0 ==> ValidateEntry(c, entries[i], Some(entries[i - 1])).Success?)
  }

  /** A chain but for the first entry, which has not been validated. */
  predicate Walked(c: Codec, lines: seq<Bytes>, entries: seq<Entry>) {
    |lines| == |entries| > 0 && forall i :: 0 <= i < |lines| ==> WalkedAt(c, lines, entries, i)
  }

  lemma WalkedSnoc(c: Codec, lines: seq<Bytes>, entries: seq<Entry>, line: Bytes, e: Entry)
    requires Walked(c, lines, entries) && IsLine(line) && EntryOf(c, line) == Success(e)
    requires ValidateEntry(c, e, Some(entries[|entries| - 1])).Success?
    ensures Walked(c, lines + [line], entries + [e])
  {
    hide IsLine, EntryOf, ValidateEntry;
    forall i | 0 <= i < |lines| + 1 ensures WalkedAt(c, lines + [line], entries + [e], i) {
      if i < |lines| {
        assert WalkedAt(c, lines, entries, i);
      }
    }
  }

  lemma CanonicalIsEntry(c: Codec, line: Bytes, e: Entry)
    requires WritesLines(c) && c.parse(line) == Some(e) && c.canonical(e) == Some(line)
    ensures IsLine(line) && EntryOf(c, line) == Success(e)
  {
  }

  lemma {:induction false} LinesBeforeWalked(
    c: Codec, store: string -> Option<Bytes>, current: Entry, line: Bytes, before: seq<Bytes>)
    returns (entries: seq<Entry>)
    requires WritesLines(c) && c.parse(line) == Some(current) && c.canonical(current) == Some(line)
    requires LinesBefore(c, store, current) == Success(before)
    ensures Walked(c, before + [line], entries) && entries[|entries| - 1] == current
    decreases current.number
  {
    hide WritesLines, ValidateEntry, EntryOf, IsLine, WalkedAt;
    CanonicalIsEntry(c, line, current);
    if current.number == 1 {
      entries := [current];
      assert WalkedAt(c, [line], [current], 0) by { FirstWalked(c, line, current); }
      assert before + [line] == [line];
    } else {
      var body := store(current.prevVersion).value;
      var previous := c.parse(body).value;
      LinkDecreases(c, current, previous);
      var earlier := before[..|before| - 1];
      assert before == earlier + [body];
      entries := LinesBeforeWalked(c, store, previous, body, earlier);
      WalkedSnoc(c, before, entries, line, current);
      entries := entries + [current];
    }
  }

  lemma FirstWalked(c: Codec, line: Bytes, e: Entry)
    requires IsLine(line) && EntryOf(c, line) == Success(e)
    ensures WalkedAt(c, [line], [e], 0)
  {
  }

  lemma WalkedIsChain(c: Codec, lines: seq<Bytes>, entries: seq<Entry>)
    requires Walked(c, lines, entries)
    ensures IsChain(c, lines, entries) <==> ValidateEntry(c, entries[0], None).Success?
    ensures SplitInclusive(Concat(lines)) == lines && c.parse(lines[0]) == Some(entries[0])
  {
    hide IsLine, ValidateEntry, SplitInclusive;
    forall i | 0 <= i < |lines| ensures LinkedAt(c, lines, entries, i) <==> i > 0 || ValidateEntry(c, entries[0], None).Success? {
      assert WalkedAt(c, lines, entries, i);
    }
    assert IsChain(c, lines, entries) ==> LinkedAt(c, lines, entries, 0);
    assert WalkedAt(c, lines, entries, 0);
    ParsedHere(c, lines[0], entries[0]);
    forall line | line in lines ensures IsLine(line) {
      var i :| 0 <= i < |lines| && lines[i] == line;
      assert WalkedAt(c, lines, entries, i);
    }
    SplitConcat(lines, []);
    NothingSplit();
    assert Concat(lines) + [] == Concat(lines) && lines + [] == lines;
  }

  lemma NothingSplit()
    ensures SplitInclusive([]) == []
  {
  }

  /** The entry that begins the lines would do as a genesis. */
  predicate BeginsWithGenesis(c: Codec, lines: seq<Bytes>) {
    lines != [] && c.parse(lines[0]).Some? && ValidateEntry(c, c.parse(lines[0]).value, None).Success?
  }

  /** A text that reads as an entry is one document: it is not several lines that read as well. */
  ghost predicate ReadsOneDocument(c: Codec) {
    forall text :: c.parse(text).Some? && AllRead(c, SplitInclusive(text)) ==> |SplitInclusive(text)| == 1
  }

  predicate AllRead(c: Codec, lines: seq<Bytes>) {
    forall i :: 0 <= i < |lines| ==> c.parse(lines[i]).Some?
  }

  lemma {:induction false} LinesBeforeAreLines(c: Codec, store: string -> Option<Bytes>, current: Entry, before: seq<Bytes>)
    requires WritesLines(c) && LinesBefore(c, store, current) == Success(before)
    ensures forall line :: line in before ==> IsLine(line)
    decreases current.number
  {
    hide ValidateEntry, IsLine;
    if current.number != 1 {
      var body := store(current.prevVersion).value;
      var previous := c.parse(body).value;
      LinkDecreases(c, current, previous);
      LinesBeforeAreLines(c, store, previous, before[..|before| - 1]);
      assert IsLine(body);
    }
  }

  lemma LedgerReads(c: Codec, lines: seq<Bytes>, entries: seq<Entry>, k: nat)
    requires IsChain(c, lines, entries) && k <= |lines|
    ensures AllRead(c, lines[k..])
  {
    hide ValidateEntry;
    forall i | 0 <= i < |lines| - k ensures c.parse(lines[k..][i]).Some? {
      assert LinkedAt(c, lines, entries, k + i);
    }
  }

  /** If the derived bytes are a ledger, those of the tip are its canonical form: nothing else tests that. */
  lemma LedgerTipIsCanonical(c: Codec, store: string -> Option<Bytes>, tip: Entry, tipBytes: Bytes, before: seq<Bytes>)
    requires WritesLines(c) && ReadsOneDocument(c) && c.parse(tipBytes) == Some(tip)
    requires LinesBefore(c, store, tip) == Success(before) && IsLedger(c, Concat(before + [tipBytes]))
    ensures c.canonical(tip) == Some(tipBytes)
  {
    hide WritesLines, ValidateEntry, LinesBefore, IsLine, SplitInclusive, IsChain, AllRead;
    LinesBeforeAreLines(c, store, tip, before);
    ConcatConcat(before, [tipBytes]);
    ConcatOne(tipBytes);
    SplitConcat(before, tipBytes);
    var lines := SplitInclusive(Concat(before + [tipBytes]));
    var entries :| IsChain(c, lines, entries);
    LedgerReads(c, lines, entries, |before|);
    assert lines[|before|..] == SplitInclusive(tipBytes);
    ConcatSplit(tipBytes);
    ConcatOne(SplitInclusive(tipBytes)[0]);
    assert SplitInclusive(tipBytes) == [SplitInclusive(tipBytes)[0]];
    assert lines[|before|] == tipBytes;
    ChainLength(c, lines, entries);
    LinkedHere(c, lines, entries, |before|);
    ParsedHere(c, tipBytes, entries[|before|]);
  }

  lemma DerivedFromCanonical(c: Codec, store: string -> Option<Bytes>, tip: Entry, tipBytes: Bytes, before: seq<Bytes>)
    requires WritesLines(c) && c.parse(tipBytes) == Some(tip) && c.canonical(tip) == Some(tipBytes)
    requires LinesBefore(c, store, tip) == Success(before)
    ensures var found := Concat(before + [tipBytes]);
            && (IsLedger(c, found) <==> BeginsWithGenesis(c, before + [tipBytes]))
            && (Accepted(c, found, tip) <==> BeginsWithGenesis(c, before + [tipBytes]))
            && HasTip(c, found, c.digest(tipBytes))
  {
    hide WritesLines, ValidateEntry, EntryOf, LinesBefore, SplitInclusive, IsChain, Walked;
    var lines := before + [tipBytes];
    var entries := LinesBeforeWalked(c, store, tip, tipBytes, before);
    WalkedIsChain(c, lines, entries);
    CanonicalIsEntry(c, tipBytes, tip);
    forall es | IsChain(c, lines, es) ensures IsChain(c, lines, entries) {
      GenesisFirst(c, lines, es);
    }
    assert EndsInTip(entries, tip);
  }

  /** The walk does not validate the entry it stops at, nor the form of the tip it starts from: what it finds is a
      ledger, and an accepted one, exactly when the one is a genesis and the other canonical. */
  lemma DerivedAcceptedIff(c: Codec, store: string -> Option<Bytes>, tip: Entry, tipBytes: Bytes, before: seq<Bytes>)
    requires WritesLines(c) && ReadsOneDocument(c) && c.parse(tipBytes) == Some(tip)
    requires LinesBefore(c, store, tip) == Success(before)
    ensures var found, sound := Concat(before + [tipBytes]),
                                c.canonical(tip) == Some(tipBytes) && BeginsWithGenesis(c, before + [tipBytes]);
            && (IsLedger(c, found) <==> sound) && (Accepted(c, found, tip) <==> sound)
  {
    hide WritesLines, ReadsOneDocument, LinesBefore, IsChain, BeginsWithGenesis, HasTip, EndsInTip;
    if c.canonical(tip) == Some(tipBytes) {
      DerivedFromCanonical(c, store, tip, tipBytes, before);
    } else if IsLedger(c, Concat(before + [tipBytes])) {
      LedgerTipIsCanonical(c, store, tip, tipBytes, before);
      assert false;
    }
  }

  lemma GenesisFirst(c: Codec, lines: seq<Bytes>, entries: seq<Entry>)
    requires IsChain(c, lines, entries) && lines != []
    ensures BeginsWithGenesis(c, lines)
  {
    hide ValidateEntry;
    assert LinkedAt(c, lines, entries, 0);
  }

  // ---- fetching the ledger ----

  ghost predicate Taken(c: Codec, fetched: Option<Buffer>, tip: Entry, tipSha: string) {
    fetched.Some? && Accepted(c, fetched.value, tip) && HasTip(c, fetched.value, tipSha)
  }

  /** What a fetch returns: the bytes of the unsigned ledger when they hold up against the signed tip, and otherwise the
      ledger derived from the locked entries, which they must not contradict. */
  ghost predicate Fetches(
    c: Codec, store: string -> Option<Bytes>, fetched: Option<Buffer>, tip: Entry, tipBytes: Bytes, tipSha: string, r: Bytes)
  {
    if Taken(c, fetched, tip, tipSha) then r == fetched.value
    else
      && LinesBefore(c, store, tip).Success? && r == Concat(LinesBefore(c, store, tip).value + [tipBytes])
      && (fetched.Some? ==> Passes(c, fetched.value, r))
      && Accepted(c, r, tip)
  }

  method FetchLedger(
    c: Codec, store: string -> Option<Bytes>, fetched: Option<Buffer>, tip: Entry, tipBytes: Bytes, tipSha: string)
    returns (r: Result<Bytes, ChainError>)
    ensures r.Success? ==> Fetches(c, store, fetched, tip, tipBytes, tipSha, r.value)
    ensures r.Failure? ==> forall x :: !Fetches(c, store, fetched, tip, tipBytes, tipSha, x)
  {
    hide Accepted, HasTip, Passes, LinesBefore, Concat;
    if fetched.Some? {
      var direct := ValidateLedger(c, fetched.value, tip);
      if direct.Success? && HasTip(c, fetched.value, tipSha) {
        return Success(fetched.value);
      }
    }
    var locked :- Rederive(c, store, tip, tipBytes);
    if fetched.Some? {
      var _ :- RejectContradiction(c, fetched.value, locked);
    }
    var _ :- ValidateLedger(c, locked, tip);
    return Success(locked);
  }

  /** Whatever a fetch returns is a ledger, and its last line has the digest of the tip's canonical form, which is the
      one the signed pointer holds. */
  lemma FetchedHasTip(
    c: Codec, store: string -> Option<Bytes>, fetched: Option<Buffer>, tip: Entry, tipBytes: Bytes, form: Bytes, r: Bytes)
    requires WritesLines(c) && ReadsOneDocument(c) && c.parse(tipBytes) == Some(tip) && c.canonical(tip) == Some(form)
    requires Fetches(c, store, fetched, tip, tipBytes, c.digest(form), r)
    ensures IsLedger(c, r) && HasTip(c, r, c.digest(form))
  {
    hide WritesLines, ReadsOneDocument, HasTip, LinesBefore, Concat, Passes, IsChain;
    if !Taken(c, fetched, tip, c.digest(form)) {
      var before := LinesBefore(c, store, tip).value;
      LedgerTipIsCanonical(c, store, tip, tipBytes, before);
      DerivedFromCanonical(c, store, tip, tipBytes, before);
    }
  }

  /** What the unsigned ledger says can make a fetch fail, but never changes what it returns. */
  lemma FetchIsPinned(
    c: Codec, store: string -> Option<Bytes>, store': string -> Option<Bytes>, one: Option<Buffer>, two: Option<Buffer>,
    tip: Entry, tipBytes: Bytes, form: Bytes, r: Bytes, r': Bytes)
    requires WritesLines(c) && ReadsOneDocument(c) && c.parse(tipBytes) == Some(tip) && c.canonical(tip) == Some(form)
    requires Fetches(c, store, one, tip, tipBytes, c.digest(form), r)
    requires Fetches(c, store', two, tip, tipBytes, c.digest(form), r')
    requires DigestsTell(c, SplitInclusive(r), SplitInclusive(r'))
    ensures r == r'
  {
    hide WritesLines, ReadsOneDocument, HasTip, Fetches, IsLedger, DigestsTell;
    FetchedHasTip(c, store, one, tip, tipBytes, form, r);
    FetchedHasTip(c, store', two, tip, tipBytes, form, r');
    TipPinsLedger(c, r, r', c.digest(form));
  }

  /** It does fail on an unsigned ledger that begins with such a line, whatever the locked entries are. */
  lemma FormlessBlocksFetch(
    c: Codec, store: string -> Option<Bytes>, line: Bytes, rest: Bytes, e: Entry, tip: Entry, tipBytes: Bytes,
    tipSha: string, r: Bytes)
    requires RefusesNonAscii(c) && IsLine(line) && c.parse(line) == Some(e) && e.version == "\U{E9}"
    requires |line + rest| < U64
    ensures !Fetches(c, store, Some(line + rest), tip, tipBytes, tipSha, r)
  {
    hide RefusesNonAscii, IsLine, HasTip, LinesBefore, Concat, Passes, IsChain;
    FormlessNeverPasses(c, line, rest, e, r);
  }
}
