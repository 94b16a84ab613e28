/** The builder of minimal ELF64 images: how the bytes are laid down. */
module ElfImage {
  import opened Wrappers
  import opened Octet
  import opened ElfBytes
  import opened ElfParser

  const PH: nat := 64
  const INTERP: nat := 256
  const DYNAMIC: nat := 320
  const STRINGS: nat := 600
  const BASE: nat := 0x400000

  // ---- patches ----

  datatype Patch = Patch(at: nat, data: seq<byte>) {
    function End(): nat {
      at + |data|
    }
  }

  function Write(s: seq<byte>, p: Patch): (r: seq<byte>)
    requires p.End() <= |s|
    ensures |r| == |s|
  {
    s[..p.at] + p.data + s[p.End()..]
  }

  predicate AllFit(ps: seq<Patch>, size: nat) {
    forall k :: 0 <= k < |ps| ==> ps[k].End() <= size
  }

  function WriteAll(s: seq<byte>, ps: seq<Patch>): (r: seq<byte>)
    requires AllFit(ps, |s|)
    ensures |r| == |s|
  {
    if ps == [] then s else Write(WriteAll(s, ps[..|ps| - 1]), ps[|ps| - 1])
  }

  predicate Apart(at: nat, size: nat, p: Patch) {
    at + size <= p.at || p.End() <= at
  }

  lemma WriteApart(s: seq<byte>, p: Patch, at: nat, size: nat)
    requires p.End() <= |s| && at + size <= |s| && Apart(at, size, p)
    ensures Write(s, p)[at..at + size] == s[at..at + size]
  {
  }

  lemma WriteOwn(s: seq<byte>, p: Patch)
    requires p.End() <= |s|
    ensures Write(s, p)[p.at..p.End()] == p.data
  {
  }

  /** A stretch no patch touches keeps its bytes. */
  lemma {:induction false} Untouched(s: seq<byte>, ps: seq<Patch>, at: nat, size: nat)
    requires AllFit(ps, |s|) && at + size <= |s|
    requires forall k :: 0 <= k < |ps| ==> Apart(at, size, ps[k])
    ensures WriteAll(s, ps)[at..at + size] == s[at..at + size]
  {
    hide Write, Apart;
    if ps != [] {
      var n := |ps| - 1;
      Untouched(s, ps[..n], at, size);
      WriteApart(WriteAll(s, ps[..n]), ps[n], at, size);
    }
  }

  /** A patch that no later patch touches is there in the end. */
  lemma {:induction false} Survives(s: seq<byte>, ps: seq<Patch>, k: nat)
    requires AllFit(ps, |s|) && k < |ps|
    requires forall j :: k < j < |ps| ==> Apart(ps[k].at, |ps[k].data|, ps[j])
    ensures WriteAll(s, ps)[ps[k].at..ps[k].End()] == ps[k].data
  {
    hide Write, Apart;
    var n := |ps| - 1;
    if k == n {
      WriteOwn(WriteAll(s, ps[..n]), ps[n]);
    } else {
      Survives(s, ps[..n], k);
      WriteApart(WriteAll(s, ps[..n]), ps[n], ps[k].at, |ps[k].data|);
    }
  }

  method Put(bytes: array<byte>, p: Patch)
    requires p.End() <= bytes.Length
    modifies bytes
    ensures bytes[..] == Write(old(bytes[..]), p)
  {
    for k := 0 to |p.data|
      invariant bytes[..p.at] == old(bytes[..p.at])
      invariant bytes[p.at..p.at + k] == p.data[..k]
      invariant bytes[p.at + k..] == old(bytes[p.at + k..])
    {
      bytes[p.at + k] := p.data[k];
      assert bytes[p.at..p.at + k + 1] == bytes[p.at..p.at + k] + [p.data[k]];
    }
    assert bytes[..] == bytes[..p.at] + bytes[p.at..p.End()] + bytes[p.End()..];
  }

  method PutAll(bytes: array<byte>, ps: seq<Patch>)
    requires AllFit(ps, bytes.Length)
    modifies bytes
    ensures bytes[..] == WriteAll(old(bytes[..]), ps)
  {
    for k := 0 to |ps|
      invariant bytes[..] == WriteAll(old(bytes[..]), ps[..k])
    {
      assert ps[..k + 1][..k] == ps[..k];
      Put(bytes, ps[k]);
    }
    assert ps[..|ps|] == ps;
  }

  // ---- the string table ----

  function Opt(text: Option<Text>): seq<Text> {
    if text.Some? then [text.value] else []
  }

  /** The dynamic strings of a linkage, in the order the builder lays them down. */
  function StringsOf(l: Linkage): seq<Text> {
    l.needed + Opt(l.soname) + Opt(l.rpath) + Opt(l.runpath)
  }

  function Repeat(tag: nat, n: nat): (r: seq<nat>)
    ensures |r| == n && forall k :: 0 <= k < n ==> r[k] == tag
  {
    seq(n, _ => tag)
  }

  function TagsOf(l: Linkage): (r: seq<nat>)
    ensures |r| == |StringsOf(l)|
  {
    Repeat(DT_NEEDED, |l.needed|) + Repeat(DT_SONAME, |Opt(l.soname)|)
    + Repeat(DT_RPATH, |Opt(l.rpath)|) + Repeat(DT_RUNPATH, |Opt(l.runpath)|)
  }

  /** A leading NUL, then each string with its own. */
  function Table(ss: seq<Text>): seq<byte> {
    if ss == [] then [0] else Table(ss[..|ss| - 1]) + ss[|ss| - 1] + [0]
  }

  /** Where string `k` starts. */
  function OffsetAt(ss: seq<Text>, k: nat): nat
    requires k <= |ss|
  {
    |Table(ss[..k])|
  }

  lemma {:induction false} TablePrefix(ss: seq<Text>, k: nat)
    requires k <= |ss|
    ensures Table(ss[..k]) <= Table(ss)
  {
    if k < |ss| {
      var n := |ss| - 1;
      TablePrefix(ss[..n], k);
      assert ss[..n][..k] == ss[..k];
    } else {
      assert ss[..k] == ss;
    }
  }

  /** String `k` is found at its offset, followed by its NUL. */
  lemma TableHolds(ss: seq<Text>, k: nat)
    requires k < |ss|
    ensures OffsetAt(ss, k) + |ss[k]| < |Table(ss)|
    ensures Table(ss)[OffsetAt(ss, k)..OffsetAt(ss, k) + |ss[k]|] == ss[k]
    ensures Table(ss)[OffsetAt(ss, k) + |ss[k]|] == 0
  {
    var upTo := ss[..k + 1];
    assert upTo[..k] == ss[..k];
    assert Table(upTo) == Table(ss[..k]) + ss[k] + [0];
    TablePrefix(ss, k + 1);
    var at := OffsetAt(ss, k);
    assert Table(ss)[..|Table(upTo)|] == Table(upTo);
    assert Table(upTo)[at..at + |ss[k]|] == ss[k];
    assert Table(ss)[at..at + |ss[k]|] == Table(ss)[..|Table(upTo)|][at..at + |ss[k]|];
  }

  method LayOut(ss: seq<Text>) returns (table: seq<byte>, offsets: seq<nat>)
    ensures table == Table(ss)
    ensures |offsets| == |ss| && forall k :: 0 <= k < |ss| ==> offsets[k] == OffsetAt(ss, k)
  {
    table, offsets := [0], [];
    for k := 0 to |ss|
      invariant table == Table(ss[..k])
      invariant |offsets| == k && forall j :: 0 <= j < k ==> offsets[j] == OffsetAt(ss, j)
    {
      assert ss[..k + 1][..k] == ss[..k];
      offsets := offsets + [|table|];
      table := table + ss[k] + [0];
    }
    assert ss[..|ss|] == ss;
  }

  // ---- the image ----

  /** The fixed offsets leave room for an interpreter of 63 bytes and, since nothing reads the value of the
      terminating entry, for fifteen dynamic strings. */
  predicate Fits(l: Linkage) {
    |l.interpreter| <= 63 && |StringsOf(l)| <= 15
  }

  function FixedPatches(machine: nat, interpreter: Text, total: nat, strings: nat): seq<Patch> {
    [ Patch(0, [0x7F, 0x45, 0x4C, 0x46, 2, 1, 1]),
      Patch(16, LeBytes(3, 2)),
      Patch(18, LeBytes(machine, 2)),
      Patch(20, LeBytes(1, 4)),
      Patch(32, LeBytes(PH, 8)),
      Patch(52, LeBytes(64, 2)),
      Patch(54, LeBytes(56, 2)),
      Patch(56, LeBytes(3, 2)),
      Patch(PH, LeBytes(PT_LOAD, 4)),
      Patch(PH + 16, LeBytes(BASE, 8)),
      Patch(PH + 32, LeBytes(total, 8)),
      Patch(PH + 40, LeBytes(total, 8)),
      Patch(PH + 56, LeBytes(PT_INTERP, 4)),
      Patch(PH + 64, LeBytes(INTERP, 8)),
      Patch(PH + 88, LeBytes(|interpreter| + 1, 8)),
      Patch(PH + 112, LeBytes(PT_DYNAMIC, 4)),
      Patch(PH + 120, LeBytes(DYNAMIC, 8)),
      Patch(PH + 144, LeBytes((strings + 3) * 16, 8)),
      Patch(INTERP, interpreter + [0]) ]
  }

  /** The dynamic entries: where the table is, how long, the strings, the terminator. */
  function Entries(l: Linkage): (r: seq<(nat, nat)>)
    ensures |r| == |StringsOf(l)| + 3
  {
    var ss := StringsOf(l);
    [(DT_STRTAB, BASE + STRINGS), (DT_STRSZ, |Table(ss)|)]
    + seq(|ss|, k requires 0 <= k < |ss| => (TagsOf(l)[k], OffsetAt(ss, k)))
    + [(DT_NULL, 0)]
  }

  function EntryPatch(entries: seq<(nat, nat)>, j: nat): Patch
    requires j < 2 * |entries|
  {
    Patch(DYNAMIC + 8 * j, LeBytes(if j % 2 == 0 then entries[j / 2].0 else entries[j / 2].1, 8))
  }

  function EntryPatches(entries: seq<(nat, nat)>): (r: seq<Patch>)
    ensures |r| == 2 * |entries|
  {
    seq(2 * |entries|, j requires 0 <= j < 2 * |entries| => EntryPatch(entries, j))
  }

  function Total(l: Linkage): nat {
    STRINGS + |Table(StringsOf(l))|
  }

  function Patches(l: Linkage): seq<Patch> {
    FixedPatches(l.machine, l.interpreter, Total(l), |StringsOf(l)|)
    + EntryPatches(Entries(l))
    + [Patch(STRINGS, Table(StringsOf(l)))]
  }

  lemma {:induction false} TableLength(ss: seq<Text>)
    ensures |Table(ss)| > |ss|
  {
    if ss != [] {
      TableLength(ss[..|ss| - 1]);
    }
  }

  lemma PatchesFit(l: Linkage)
    requires Fits(l)
    ensures AllFit(Patches(l), Total(l))
  {
    hide LeBytes, Table, StringsOf;
    TableLength(StringsOf(l));
    var fixed := FixedPatches(l.machine, l.interpreter, Total(l), |StringsOf(l)|);
    assert AllFit(fixed, STRINGS) by {
      FixedFit(l.machine, l.interpreter, Total(l), |StringsOf(l)|);
    }
    var entries := EntryPatches(Entries(l));
    assert forall j :: 0 <= j < |entries| ==> entries[j].End() <= Total(l);
  }

  lemma FixedFit(machine: nat, interpreter: Text, total: nat, strings: nat)
    requires |interpreter| <= 63
    ensures AllFit(FixedPatches(machine, interpreter, total, strings), DYNAMIC)
  {
    hide LeBytes;
  }

  /** The image is a zeroed buffer with every field laid into it. */
  function Image(l: Linkage): seq<byte>
    requires Fits(l)
  {
    PatchesFit(l);
    WriteAll(Zeros(Total(l)), Patches(l))
  }

  method Build(l: Linkage) returns (image: seq<byte>)
    requires Fits(l)
    ensures image == Image(l)
  {
    hide LeBytes, Write, Table, FixedPatches, EntryPatch;
    var ss, tags := StringsOf(l), TagsOf(l);
    var table, offsets := LayOut(ss);
    var bytes := new byte[STRINGS + |table|](_ => 0);
    assert bytes[..] == Zeros(Total(l));
    var fixed := FixedPatches(l.machine, l.interpreter, bytes.Length, |ss|);
    var entries: seq<(nat, nat)> := [(DT_STRTAB, BASE + STRINGS), (DT_STRSZ, |table|)];
    for k := 0 to |ss|
      invariant entries == Entries(l)[..k + 2]
    {
      entries := entries + [(tags[k], offsets[k])];
    }
    entries := entries + [(DT_NULL, 0)];
    assert entries == Entries(l);
    PatchesFit(l);
    var patches := fixed + EntryPatches(entries) + [Patch(STRINGS, table)];
    PutAll(bytes, patches);
    image := bytes[..];
  }
}
