/** What the generator writes, field by field. */
module NoticesIndex {
  import opened Wrappers
  import opened Octet
  import opened Ordering
  import opened DependencyGraph
  import opened Notices
  import opened NoticesCheck

  /** The entry of a licence member: its digest, where it came from, and a range of the notices with that digest. */
  predicate MemberSays(sha: Digest, notices: Text, m: Member, e: MemberEntry) {
    && e.sha256 == sha(m.bytes) && e.origin == m.origin && e.path == m.path
    && e.start <= e.end <= |notices| && sha(notices[e.start..e.end]) == e.sha256
  }

  predicate MembersSay(sha: Digest, notices: Text, ms: seq<Member>, es: seq<MemberEntry>) {
    |es| == |ms| && forall k :: 0 <= k < |ms| ==> MemberSays(sha, notices, ms[k], es[k])
  }

  /** The entry of a crate, with the licence members of the last crate of its name and version. */
  ghost predicate PackageSays(ws: Workspace, sha: Digest, crates: seq<ExternalCrate>, notices: Text, c: ExternalCrate,
                              e: PackageEntry) {
    && e.name == c.name && e.version == c.version && e.source == c.source && e.license == c.license
    && exists i :: LastNamed(crates, i, c.name, c.version) && ws.licences(crates[i]).Some?
                   && MembersSay(sha, notices, ws.licences(crates[i]).value, e.members)
  }

  predicate LastNamed(crates: seq<ExternalCrate>, i: int, name: string, version: string) {
    && 0 <= i < |crates| && crates[i].name == name && crates[i].version == version
    && forall j :: i < j < |crates| ==> crates[j].name != name || crates[j].version != version
  }

  /** The first body follows the heading and its line feed, and nothing follows the last. */
  lemma Ends(header: Text, keys: seq<string>, bodies: map<string, Text>, k: nat)
    requires k < |keys| && forall x :: x in keys ==> x in bodies
    ensures var r, all := RangeAt(header, keys, bodies, k), Buffer(header, keys, bodies, |keys|);
            && header + [10] <= all
            && (k == 0 ==> r.start == |header| + 1)
            && (k + 1 == |keys| ==> r.end == |all|)
  {
    BufferGrows(header, keys, bodies, 0, |keys|);
  }

  /** Between two bodies stands one line feed if the first ends in one, and two if it does not. */
  lemma Separated(header: Text, keys: seq<string>, bodies: map<string, Text>, k: nat)
    requires k + 1 < |keys| && forall x :: x in keys ==> x in bodies
    ensures var r, next, all := RangeAt(header, keys, bodies, k), RangeAt(header, keys, bodies, k + 1), Buffer(header, keys, bodies, |keys|);
            r.end <= next.start <= |all|
            && all[r.end..next.start]
            == if bodies[keys[k]] != [] && bodies[keys[k]][|bodies[keys[k]]| - 1] == 10 then [10] else [10, 10]
  {
    hide Buffer;
    BufferGrows(header, keys, bodies, k + 1, |keys|);
    BufferStep(header, keys, bodies, k);
    var before, body := Buffer(header, keys, bodies, k), bodies[keys[k]];
    PrefixSlice(before + body, Separator(body), Buffer(header, keys, bodies, |keys|));
  }

  lemma PrefixSlice(a: Text, b: Text, all: Text)
    requires a + b <= all
    ensures all[|a|..|a| + |b|] == b
  {
    var both := a + b;
    assert all[..|both|] == both && both[|a|..] == b;
    assert all[|a|..|a| + |b|] == all[..|both|][|a|..];
  }

  lemma KeyIsDigest(ws: Workspace, sha: Digest, crates: seq<ExternalCrate>, key: string)
    requires AllFound(ws, crates) && key in Bodies(ws, sha, crates)
    ensures sha(Bodies(ws, sha, crates)[key]) == key
  {
    hide Bodies;
    BodiesAreMembers(ws, sha, crates, key);
  }

  lemma MembersWritten(ws: Workspace, sha: Digest, crates: seq<ExternalCrate>, buffer: Text, rest: Text,
                       ranges: map<string, Range>, ms: seq<Member>, c: ExternalCrate)
    requires AllFound(ws, crates) && LaidOut(ws.header, Bodies(ws, sha, crates), buffer, ranges)
    requires HasRanges(sha, ms, ranges)
    ensures MembersSay(sha, buffer + rest, ms, EntryOf(sha, c, ms, ranges).members)
  {
    hide Bodies, LaidOut;
    forall k | 0 <= k < |ms| ensures MemberSays(sha, buffer + rest, ms[k], EntryOfMember(sha, ms[k], ranges)) {
      var key := sha(ms[k].bytes);
      LaidOutKeys(ws.header, Bodies(ws, sha, crates), buffer, ranges);
      LaidOutHolds(ws.header, Bodies(ws, sha, crates), buffer, ranges, key);
      KeyIsDigest(ws, sha, crates, key);
      var r := ranges[key];
      assert (buffer + rest)[r.start..r.end] == buffer[r.start..r.end];
    }
  }

  lemma PackageWritten(ws: Workspace, sha: Digest, crates: seq<ExternalCrate>, buffer: Text, rest: Text,
                       ranges: map<string, Range>, entries: seq<PackageEntry>, i: nat)
    requires AllFound(ws, crates) && LaidOut(ws.header, Bodies(ws, sha, crates), buffer, ranges) && i < |crates|
    requires Recorded(sha, crates, MembersById(ws, crates), ranges, entries)
    ensures |entries| == |crates| && PackageSays(ws, sha, crates, buffer + rest, crates[i], entries[i])
  {
    hide Bodies, LaidOut, MembersById, HasRanges, MembersSay;
    var c := crates[i];
    var last := LastExists(crates, c);
    LastMembers(ws, crates, last, IdOf(c));
    var ms := MembersById(ws, crates)[IdOf(c)];
    MembersWritten(ws, sha, crates, buffer, rest, ranges, ms, c);
    assert crates[last] in crates;
    assert LastNamed(crates, last, c.name, c.version);
  }

  /** The index names the fixed schema, query, root and platform, the digests of the lock file and of the notices, and
      the crates of the workspace in their order, each with its own fields and its licence members, of which each range
      of the notices has the digest. The notices begin with the heading and end with the runtime notices. */
  lemma IndexSays(ws: Workspace, sha: Digest, notices: Text, index: Index)
    requires CanGenerate(ws) && Generated(ws, sha, notices, index)
    ensures var crates := ExternalCrates(ws.primary).value;
            && index.schema == "solstone-linux.rust-dependency-notices.v1"
            && index.cargoLockSha256 == sha(ws.lock) && index.noticesSha256 == sha(notices)
            && index.populationQuery
            == "cargo metadata --locked --offline --format-version 1 --filter-platform x86_64-unknown-linux-gnu"
            && index.rootPackage == "solstone-linux-window" && index.filterPlatform == "x86_64-unknown-linux-gnu"
            && index.externalPackageCount == |index.packages| == |crates|
            && (forall i :: 0 <= i < |crates| ==> PackageSays(ws, sha, crates, notices, crates[i], index.packages[i]))
            && ws.header + [10] <= notices
            && |ws.runtime.value| <= |notices| && notices[|notices| - |ws.runtime.value|..] == ws.runtime.value
  {
    hide ExternalCrates, Bodies, MembersById, Recorded, PackageSays, Less;
    var crates := ExternalCrates(ws.primary).value;
    var buffer, ranges :| && LaidOut(ws.header, Bodies(ws, sha, crates), buffer, ranges)
                          && notices == buffer + ws.runtime.value
                          && Recorded(sha, crates, MembersById(ws, crates), ranges, index.packages)
                          && index == IndexOf(ws, sha, notices, index.packages);
    BufferStarts(ws.header, Bodies(ws, sha, crates), buffer, ranges);
    RecordedLength(sha, crates, MembersById(ws, crates), ranges, index.packages);
    forall i | 0 <= i < |crates| ensures PackageSays(ws, sha, crates, notices, crates[i], index.packages[i]) {
      PackageWritten(ws, sha, crates, buffer, ws.runtime.value, ranges, index.packages, i);
    }
  }

  lemma BufferStarts(header: Text, bodies: map<string, Text>, buffer: Text, ranges: map<string, Range>)
    requires LaidOut(header, bodies, buffer, ranges)
    ensures header + [10] <= buffer
  {
    var keys := Listing(bodies.Keys);
    BufferGrows(header, keys, bodies, 0, |keys|);
    hide Less;
  }
}
