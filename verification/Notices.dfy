/** The dependency notices: one buffer reproducing every licence body once, and an index saying where each
    licence member of each external crate is to be found in it. */
module Notices {
  import opened Wrappers
  import opened Octet
  import opened Ordering
  import opened DependencyGraph

  type Text = seq<byte>

  /** SHA-256 stands for any function from bytes to text. */
  type Digest = Text -> string

  const SCHEMA := "solstone-linux.rust-dependency-notices.v1"
  const FILTER_PLATFORM := "x86_64-unknown-linux-gnu"
  const POPULATION_QUERY := "cargo metadata --locked --offline --format-version 1 --filter-platform x86_64-unknown-linux-gnu"

  datatype Member = Member(origin: string, path: string, bytes: Text)

  datatype MemberEntry = MemberEntry(sha256: string, start: nat, end: nat, origin: string, path: string)

  datatype PackageEntry = PackageEntry(
    name: string,
    version: string,
    source: string,
    license: Option<string>,
    members: seq<MemberEntry>)

  datatype Index = Index(
    schema: string,
    cargoLockSha256: string,
    noticesSha256: string,
    populationQuery: string,
    rootPackage: string,
    filterPlatform: string,
    externalPackageCount: nat,
    packages: seq<PackageEntry>)

  /** Everything the generator and the checker read. `licences` finds the licence members of a crate, in its
      archive or among the committed overrides, and fails when there are none; `prebuilts` is the verdict on
      the vendored prebuilt binaries; `header` is the fixed heading. */
  datatype Workspace = Workspace(
    primary: Metadata,
    covered: seq<Metadata>,
    lock: Text,
    runtime: Option<Text>,
    header: Text,
    licences: ExternalCrate -> Option<seq<Member>>,
    prebuilts: seq<ExternalCrate> -> bool)

  datatype NoticeError =
    | Unresolved(error: GraphError)
    | PrebuiltMismatch
    | NoLicence
    | NoRuntimeNotices
    | IndexMissing
    | IndexMismatch
    | LockMismatch
    | NoticesMissing
    | NoticesMismatch
    | RuntimeChanged
    | CountMismatch
    | PackageAbsent
    | SourceMismatch
    | MemberCountMismatch
    | MemberMismatch
    | RangeInvalid
    | CoverageMismatch

  // ---- the bodies ----

  function AddBodies(sha: Digest, ms: seq<Member>, bodies: map<string, Text>): map<string, Text> {
    if ms == [] then bodies
    else
      var last := ms[|ms| - 1];
      AddBodies(sha, ms[..|ms| - 1], bodies)[sha(last.bytes) := last.bytes]
  }

  predicate AllFound(ws: Workspace, crates: seq<ExternalCrate>) {
    forall c :: c in crates ==> ws.licences(c).Some?
  }

  /** One body per digest; a later member replaces an earlier one with its digest. */
  function Bodies(ws: Workspace, sha: Digest, crates: seq<ExternalCrate>): map<string, Text>
    requires AllFound(ws, crates)
  {
    if crates == [] then map[]
    else
      var n := |crates| - 1;
      AddBodies(sha, ws.licences(crates[n]).value, Bodies(ws, sha, crates[..n]))
  }

  // ---- the buffer ----

  function Separator(body: Text): Text {
    if body != [] && body[|body| - 1] == 0x0A then [0x0A] else [0x0A, 0x0A]
  }

  /** The buffer after the first `k` bodies; a separator follows every body but the last. */
  function Buffer(header: Text, keys: seq<string>, bodies: map<string, Text>, k: nat): Text
    requires k <= |keys| && forall x :: x in keys ==> x in bodies
  {
    if k == 0 then header + [0x0A]
    else
      var body := bodies[keys[k - 1]];
      Buffer(header, keys, bodies, k - 1) + body + if k < |keys| then Separator(body) else []
  }

  lemma {:induction false} BufferGrows(header: Text, keys: seq<string>, bodies: map<string, Text>, j: nat, k: nat)
    requires j <= k <= |keys| && forall x :: x in keys ==> x in bodies
    ensures Buffer(header, keys, bodies, j) <= Buffer(header, keys, bodies, k)
  {
    if j < k {
      BufferGrows(header, keys, bodies, j, k - 1);
    }
  }

  datatype Range = Range(start: nat, end: nat)

  function RangeAt(header: Text, keys: seq<string>, bodies: map<string, Text>, k: nat): Range
    requires k < |keys| && forall x :: x in keys ==> x in bodies
  {
    var start := |Buffer(header, keys, bodies, k)|;
    Range(start, start + |bodies[keys[k]]|)
  }

  /** Each recorded range slices exactly its body out of the buffer. */
  lemma RangeHoldsBody(header: Text, keys: seq<string>, bodies: map<string, Text>, k: nat)
    requires k < |keys| && forall x :: x in keys ==> x in bodies
    ensures var r, all := RangeAt(header, keys, bodies, k), Buffer(header, keys, bodies, |keys|);
            r.end <= |all| && all[r.start..r.end] == bodies[keys[k]]
  {
    BufferGrows(header, keys, bodies, k + 1, |keys|);
    var next, all := Buffer(header, keys, bodies, k + 1), Buffer(header, keys, bodies, |keys|);
    var r := RangeAt(header, keys, bodies, k);
    assert next[r.start..r.end] == bodies[keys[k]];
    assert all[r.start..r.end] == all[..|next|][r.start..r.end];
  }

  /** The ranges come in order and do not overlap. */
  lemma RangesDisjoint(header: Text, keys: seq<string>, bodies: map<string, Text>, j: nat, k: nat)
    requires j < k < |keys| && forall x :: x in keys ==> x in bodies
    ensures RangeAt(header, keys, bodies, j).end <= RangeAt(header, keys, bodies, k).start
  {
    BufferGrows(header, keys, bodies, j + 1, k);
  }

  predicate RangesUpTo(header: Text, keys: seq<string>, bodies: map<string, Text>, k: nat, ranges: map<string, Range>)
    requires k <= |keys| && forall x :: x in keys ==> x in bodies
  {
    && (forall x :: x in ranges ==> x in keys[..k])
    && (forall j :: 0 <= j < k ==> keys[j] in ranges && ranges[keys[j]] == RangeAt(header, keys, bodies, j))
  }

  lemma RangesStep(header: Text, keys: seq<string>, bodies: map<string, Text>, k: nat, ranges: map<string, Range>)
    requires k < |keys| && Ascends(keys) && forall x :: x in keys ==> x in bodies
    requires RangesUpTo(header, keys, bodies, k, ranges)
    ensures RangesUpTo(header, keys, bodies, k + 1, ranges[keys[k] := RangeAt(header, keys, bodies, k)])
  {
    hide Less, RangeAt;
    LessIrreflexive(keys[k]);
    assert keys[..k + 1] == keys[..k] + [keys[k]];
  }

  lemma BufferStep(header: Text, keys: seq<string>, bodies: map<string, Text>, k: nat)
    requires k < |keys| && forall x :: x in keys ==> x in bodies
    ensures Buffer(header, keys, bodies, k + 1)
         == Buffer(header, keys, bodies, k) + bodies[keys[k]] + if k + 1 < |keys| then Separator(bodies[keys[k]]) else []
  {
    hide Separator;
  }

  /** What the layout loop leaves behind. */
  ghost predicate LaidOut(header: Text, bodies: map<string, Text>, buffer: Text, ranges: map<string, Range>) {
    var keys := Listing(bodies.Keys);
    && buffer == Buffer(header, keys, bodies, |keys|)
    && ranges.Keys == bodies.Keys
    && RangesUpTo(header, keys, bodies, |keys|, ranges)
  }

  /** The loop that lays the buffer out and records the ranges. */
  method LayOut(header: Text, bodies: map<string, Text>) returns (buffer: Text, ranges: map<string, Range>)
    ensures LaidOut(header, bodies, buffer, ranges)
  {
    hide Less, Separator, Buffer, RangesUpTo, Listing;
    var keys := Enumerate(bodies.Keys);
    EnumerationUnique(keys, Listing(bodies.Keys), bodies.Keys);
    buffer := header + [0x0A];
    ranges := map[];
    StartOf(header, keys, bodies);
    for k := 0 to |keys|
      invariant buffer == Buffer(header, keys, bodies, k)
      invariant RangesUpTo(header, keys, bodies, k, ranges)
    {
      var body := bodies[keys[k]];
      var start := |buffer|;
      buffer := buffer + body;
      var end := |buffer|;
      RangesStep(header, keys, bodies, k, ranges);
      BufferStep(header, keys, bodies, k);
      ranges := ranges[keys[k] := Range(start, end)];
      if k + 1 < |keys| {
        buffer := buffer + Separator(body);
      } else {
        assert buffer + [] == buffer;
      }
    }
    RangesComplete(header, keys, bodies, ranges);
  }

  lemma StartOf(header: Text, keys: seq<string>, bodies: map<string, Text>)
    requires forall x :: x in keys ==> x in bodies
    ensures Buffer(header, keys, bodies, 0) == header + [0x0A]
    ensures RangesUpTo(header, keys, bodies, 0, map[])
  {
  }

  lemma RangesComplete(header: Text, keys: seq<string>, bodies: map<string, Text>, ranges: map<string, Range>)
    requires Enumerates(keys, bodies.Keys) && RangesUpTo(header, keys, bodies, |keys|, ranges)
    ensures ranges.Keys == bodies.Keys
  {
    hide Less, RangeAt;
    forall x ensures x in ranges.Keys <==> x in bodies.Keys {
      if x in keys {
        var j :| 0 <= j < |keys| && keys[j] == x;
      }
    }
  }

  /** After layout, every body is at its recorded range. */
  lemma LaidOutHolds(header: Text, bodies: map<string, Text>, buffer: Text, ranges: map<string, Range>, key: string)
    requires LaidOut(header, bodies, buffer, ranges) && key in bodies
    ensures key in ranges && ranges[key].start <= ranges[key].end <= |buffer|
    ensures buffer[ranges[key].start..ranges[key].end] == bodies[key]
  {
    hide Less, Buffer, Separator;
    var keys := Listing(bodies.Keys);
    assert key in keys;
    var k :| 0 <= k < |keys| && keys[k] == key;
    RangeHoldsBody(header, keys, bodies, k);
  }
}
