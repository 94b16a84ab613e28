/** What an accepted notices file guarantees, and exactly when the checker accepts what the generator wrote. */
module NoticesAgree {
  import opened Wrappers
  import opened Octet
  import opened Ordering
  import opened DependencyGraph
  import opened Notices
  import opened NoticesCheck

  // ---- coverage ----

  /** The entry records member `m` of crate `c`, and its range of the notices is the member byte for byte. */
  predicate Reproduces(notices: Text, e: PackageEntry, c: ExternalCrate, m: Member) {
    && e.name == c.name && e.version == c.version && e.source == c.source
    && exists k :: 0 <= k < |e.members|
         && e.members[k].origin == m.origin && e.members[k].path == m.path
         && e.members[k].start <= e.members[k].end <= |notices|
         && notices[e.members[k].start..e.members[k].end] == m.bytes
  }

  lemma {:induction false} LastEntryIsListed(packages: seq<PackageEntry>, name: string, version: string)
    ensures var e := LastEntry(packages, name, version);
            e.Some? ==> e.value in packages && e.value.name == name && e.value.version == version
  {
    if packages != [] {
      LastEntryIsListed(packages[..|packages| - 1], name, version);
    }
  }

  /** If the checker accepts, every licence member of every external crate reachable on the primary platform
      occurs byte for byte at a range the index records for it. Nothing is assumed of the digest. */
  lemma EveryLicenceReproduced(ws: Workspace, sha: Digest, notices: Text, index: Index, c: ExternalCrate)
    requires Accepts(ws, sha, notices, index) && IsShipped(ws.primary, c)
    ensures ws.licences(c).Some?
    ensures forall m :: m in ws.licences(c).value ==>
              exists e :: e in index.packages && Reproduces(notices, e, c, m)
  {
    hide ExternalCrates, IsShipped, IndexHeld, PlatformsCovered;
    ExternalCratesAreReachable(ws.primary);
    assert CrateMatches(ws, sha, notices, index.packages, c);
    LastEntryIsListed(index.packages, c.name, c.version);
    var e := LastEntry(index.packages, c.name, c.version).value;
    var ms := ws.licences(c).value;
    forall m | m in ms ensures Reproduces(notices, e, c, m) {
      var k :| 0 <= k < |ms| && ms[k] == m;
      assert MemberMatches(sha, notices, ms[k], e.members[k]);
    }
  }

  /** If the checker accepts, every external crate reachable on another shipped platform is, by name, version
      and source, one reachable on the primary platform. */
  lemma EveryPlatformCovered(ws: Workspace, sha: Digest, notices: Text, index: Index, d: Metadata, c: ExternalCrate)
    requires Accepts(ws, sha, notices, index) && d in ws.covered && IsShipped(d, c)
    ensures exists p :: IsShipped(ws.primary, p) && Identity(p) == Identity(c)
  {
    hide ExternalCrates, IsShipped, IndexHeld, CrateMatches;
    ExternalCratesAreReachable(ws.primary);
    ExternalCratesAreReachable(d);
    assert Covers(ExternalCrates(ws.primary).value, c);
  }

  // ---- round trip ----

  /** Crates of one name and version agree on source and licence members. */
  predicate IdsDetermineCrates(ws: Workspace, crates: seq<ExternalCrate>) {
    forall c, d :: c in crates && d in crates && IdOf(c) == IdOf(d) ==>
      c.source == d.source && ws.licences(c) == ws.licences(d)
  }

  /** No two licence members of different content share a digest. */
  ghost predicate DigestsDetermineBodies(ws: Workspace, sha: Digest, crates: seq<ExternalCrate>) {
    forall m, n :: IsMember(ws, crates, m) && IsMember(ws, crates, n) && sha(m.bytes) == sha(n.bytes) ==>
      m.bytes == n.bytes
  }

  /** The index entry found for an id is that of the last crate with it. */
  lemma {:induction false} LastEntryIsLast(crates: seq<ExternalCrate>, entries: seq<PackageEntry>, i: nat, id: PackageId)
    requires |entries| == |crates| && LastWithId(crates, i, id)
    requires forall j :: 0 <= j < |crates| ==> (entries[j].name, entries[j].version) == IdOf(crates[j])
    ensures LastEntry(entries, id.0, id.1) == Some(entries[i])
  {
    var n := |crates| - 1;
    if i < n {
      assert IdOf(crates[n]) != id;
      LastEntryIsLast(crates[..n], entries[..n], i, id);
    }
  }

  /** The parts of a generated file that the agreement rests on. */
  ghost predicate Written(ws: Workspace, sha: Digest, crates: seq<ExternalCrate>, buffer: Text,
                          ranges: map<string, Range>, notices: Text, entries: seq<PackageEntry>) {
    && AllFound(ws, crates)
    && LaidOut(ws.header, Bodies(ws, sha, crates), buffer, ranges)
    && buffer <= notices
    && Recorded(sha, crates, MembersById(ws, crates), ranges, entries)
  }

  /** The entry recorded for the crates of an id comes from the last of them. */
  lemma EntryFound(ws: Workspace, sha: Digest, crates: seq<ExternalCrate>, buffer: Text, ranges: map<string, Range>,
                   notices: Text, entries: seq<PackageEntry>, i: nat)
    requires Written(ws, sha, crates, buffer, ranges, notices, entries)
    requires i < |crates| && LastWithId(crates, i, IdOf(crates[i]))
    ensures crates[i] in crates && ws.licences(crates[i]).Some?
    ensures var ms := ws.licences(crates[i]).value;
            && HasRanges(sha, ms, ranges)
            && LastEntry(entries, crates[i].name, crates[i].version) == Some(EntryOf(sha, crates[i], ms, ranges))
  {
    hide MembersById, Bodies, LaidOut, LastEntry;
    LastEntryIsLast(crates, entries, i, IdOf(crates[i]));
    LastMembers(ws, crates, i, IdOf(crates[i]));
  }

  /** The range recorded for a digest slices the body stored under it. */
  lemma RangeSlices(ws: Workspace, sha: Digest, crates: seq<ExternalCrate>, buffer: Text, ranges: map<string, Range>,
                    notices: Text, entries: seq<PackageEntry>, key: string)
    requires Written(ws, sha, crates, buffer, ranges, notices, entries) && key in ranges
    ensures key in Bodies(ws, sha, crates)
    ensures ranges[key].start <= ranges[key].end <= |notices|
    ensures notices[ranges[key].start..ranges[key].end] == Bodies(ws, sha, crates)[key]
  {
    hide MembersById, Bodies, Recorded, Buffer, RangesUpTo;
    var r := ranges[key];
    LaidOutHolds(ws.header, Bodies(ws, sha, crates), buffer, ranges, key);
    assert notices[r.start..r.end] == notices[..|buffer|][r.start..r.end];
  }

  /** Under the two determinacy conditions every crate matches its entry. */
  lemma ConsistentMatches(ws: Workspace, sha: Digest, crates: seq<ExternalCrate>, buffer: Text,
                          ranges: map<string, Range>, notices: Text, entries: seq<PackageEntry>, c: ExternalCrate)
    requires Written(ws, sha, crates, buffer, ranges, notices, entries) && c in crates
    requires IdsDetermineCrates(ws, crates) && DigestsDetermineBodies(ws, sha, crates)
    ensures CrateMatches(ws, sha, notices, entries, c)
  {
    hide MembersById, Bodies, LastEntry, Written, LastWithId, IsMember;
    var i := LastExists(crates, c);
    LastIsIndexed(crates, i, c);
    EntryFound(ws, sha, crates, buffer, ranges, notices, entries, i);
    var ms := ws.licences(c).value;
    var e := EntryOf(sha, crates[i], ms, ranges);
    forall k | 0 <= k < |ms| ensures MemberMatches(sha, notices, ms[k], e.members[k]) {
      assert ms[k] in ms;
      BodyIsMember(ws, sha, crates, buffer, ranges, notices, entries, c, ms[k]);
    }
  }

  lemma LastIsIndexed(crates: seq<ExternalCrate>, i: nat, c: ExternalCrate)
    requires LastWithId(crates, i, IdOf(c))
    ensures i < |crates| && crates[i] in crates && IdOf(crates[i]) == IdOf(c)
    ensures LastWithId(crates, i, IdOf(crates[i]))
  {
  }

  lemma BodyIsMember(ws: Workspace, sha: Digest, crates: seq<ExternalCrate>, buffer: Text, ranges: map<string, Range>,
                     notices: Text, entries: seq<PackageEntry>, c: ExternalCrate, m: Member)
    requires Written(ws, sha, crates, buffer, ranges, notices, entries) && c in crates
    requires DigestsDetermineBodies(ws, sha, crates)
    requires ws.licences(c).Some? && m in ws.licences(c).value && sha(m.bytes) in ranges
    ensures var r := ranges[sha(m.bytes)]; r.start <= r.end <= |notices| && notices[r.start..r.end] == m.bytes
  {
    hide MembersById, Bodies, Written;
    var key := sha(m.bytes);
    RangeSlices(ws, sha, crates, buffer, ranges, notices, entries, key);
    assert AllFound(ws, crates) by { WrittenFound(ws, sha, crates, buffer, ranges, notices, entries); }
    BodiesAreMembers(ws, sha, crates, key);
    assert IsMember(ws, crates, m);
  }

  lemma WrittenFound(ws: Workspace, sha: Digest, crates: seq<ExternalCrate>, buffer: Text, ranges: map<string, Range>,
                     notices: Text, entries: seq<PackageEntry>)
    requires Written(ws, sha, crates, buffer, ranges, notices, entries)
    ensures AllFound(ws, crates)
  {
  }

  /** A crate that matches has exactly the members of the last crate with its id, and each of them is the
      body stored under its digest. */
  lemma MatchPins(ws: Workspace, sha: Digest, crates: seq<ExternalCrate>, buffer: Text, ranges: map<string, Range>,
                  notices: Text, entries: seq<PackageEntry>, c: ExternalCrate, i: nat)
    requires Written(ws, sha, crates, buffer, ranges, notices, entries) && AllFound(ws, crates)
    requires c in crates && LastWithId(crates, i, IdOf(c))
    requires CrateMatches(ws, sha, notices, entries, c)
    ensures i < |crates| && c.source == crates[i].source && ws.licences(crates[i]).Some?
    ensures var ms, last := ws.licences(c).value, ws.licences(crates[i]).value;
            && |ms| == |last|
            && forall k :: 0 <= k < |ms| ==>
                 && ms[k].origin == last[k].origin && ms[k].path == last[k].path
                 && sha(ms[k].bytes) == sha(last[k].bytes)
                 && sha(ms[k].bytes) in Bodies(ws, sha, crates)
                 && ms[k].bytes == Bodies(ws, sha, crates)[sha(ms[k].bytes)]
  {
    hide MembersById, Bodies, LastEntry, Written, LastWithId;
    LastIsIndexed(crates, i, c);
    EntryFound(ws, sha, crates, buffer, ranges, notices, entries, i);
    var ms, last := ws.licences(c).value, ws.licences(crates[i]).value;
    var e := EntryOf(sha, crates[i], last, ranges);
    forall k | 0 <= k < |ms|
      ensures && ms[k].origin == last[k].origin && ms[k].path == last[k].path
              && sha(ms[k].bytes) == sha(last[k].bytes)
              && sha(ms[k].bytes) in Bodies(ws, sha, crates)
              && ms[k].bytes == Bodies(ws, sha, crates)[sha(ms[k].bytes)]
    {
      assert MemberMatches(sha, notices, ms[k], e.members[k]);
      assert last[k] in last;
      RangeSlices(ws, sha, crates, buffer, ranges, notices, entries, sha(last[k].bytes));
    }
  }

  lemma MatchesDetermineCrates(ws: Workspace, sha: Digest, crates: seq<ExternalCrate>, buffer: Text,
                               ranges: map<string, Range>, notices: Text, entries: seq<PackageEntry>)
    requires Written(ws, sha, crates, buffer, ranges, notices, entries) && AllFound(ws, crates)
    requires forall c :: c in crates ==> CrateMatches(ws, sha, notices, entries, c)
    ensures IdsDetermineCrates(ws, crates)
  {
    hide Bodies, Written, CrateMatches, LastWithId;
    forall c, d | c in crates && d in crates && IdOf(c) == IdOf(d)
      ensures c.source == d.source && ws.licences(c) == ws.licences(d)
    {
      var i := LastExists(crates, c);
      MatchPins(ws, sha, crates, buffer, ranges, notices, entries, c, i);
      MatchPins(ws, sha, crates, buffer, ranges, notices, entries, d, i);
      assert ws.licences(c).value == ws.licences(d).value;
    }
  }

  lemma MatchesDetermineBodies(ws: Workspace, sha: Digest, crates: seq<ExternalCrate>, buffer: Text,
                               ranges: map<string, Range>, notices: Text, entries: seq<PackageEntry>)
    requires Written(ws, sha, crates, buffer, ranges, notices, entries) && AllFound(ws, crates)
    requires forall c :: c in crates ==> CrateMatches(ws, sha, notices, entries, c)
    ensures DigestsDetermineBodies(ws, sha, crates)
  {
    hide Bodies, Written, CrateMatches, LastWithId;
    forall m | IsMember(ws, crates, m)
      ensures sha(m.bytes) in Bodies(ws, sha, crates) && m.bytes == Bodies(ws, sha, crates)[sha(m.bytes)]
    {
      var c :| c in crates && ws.licences(c).Some? && m in ws.licences(c).value;
      var k :| 0 <= k < |ws.licences(c).value| && ws.licences(c).value[k] == m;
      var i := LastExists(crates, c);
      MatchPins(ws, sha, crates, buffer, ranges, notices, entries, c, i);
    }
  }

  /** The condition under which the generator's output is accepted. */
  ghost predicate Consistent(ws: Workspace, sha: Digest)
    requires ExternalCrates(ws.primary).Success?
  {
    var crates := ExternalCrates(ws.primary).value;
    && IdsDetermineCrates(ws, crates)
    && DigestsDetermineBodies(ws, sha, crates)
    && PlatformsCovered(ws, crates)
  }

  lemma IndexIsHeld(ws: Workspace, sha: Digest, buffer: Text, notices: Text, entries: seq<PackageEntry>)
    requires HasRuntime(ws) && notices == buffer + ws.runtime.value
    ensures IndexHeld(ws, sha, notices, IndexOf(ws, sha, notices, entries))
  {
  }

  /** The checker accepts what the generator wrote from the same workspace if and only if crates of one name
      and version agree on source and licences, no two different licence bodies share a digest, and every
      other platform's crates are among the primary's. */
  lemma GeneratedAcceptedIff(ws: Workspace, sha: Digest, notices: Text, index: Index)
    requires CanGenerate(ws) && Generated(ws, sha, notices, index)
    ensures Accepts(ws, sha, notices, index) <==> Consistent(ws, sha)
  {
    hide ExternalCrates, LaidOut, Recorded, Bodies, MembersById, IdsDetermineCrates, DigestsDetermineBodies,
         PlatformsCovered, CrateMatches, IndexHeld;
    var crates := ExternalCrates(ws.primary).value;
    var buffer, ranges :|
      && LaidOut(ws.header, Bodies(ws, sha, crates), buffer, ranges)
      && notices == buffer + ws.runtime.value
      && Recorded(sha, crates, MembersById(ws, crates), ranges, index.packages)
      && index == IndexOf(ws, sha, notices, index.packages);
    IndexIsHeld(ws, sha, buffer, notices, index.packages);
    assert Written(ws, sha, crates, buffer, ranges, notices, index.packages);
    RecordedLength(sha, crates, MembersById(ws, crates), ranges, index.packages);
    if forall c :: c in crates ==> CrateMatches(ws, sha, notices, index.packages, c) {
      MatchesDetermineCrates(ws, sha, crates, buffer, ranges, notices, index.packages);
      MatchesDetermineBodies(ws, sha, crates, buffer, ranges, notices, index.packages);
    }
    if IdsDetermineCrates(ws, crates) && DigestsDetermineBodies(ws, sha, crates) {
      forall c | c in crates ensures CrateMatches(ws, sha, notices, index.packages, c) {
        ConsistentMatches(ws, sha, crates, buffer, ranges, notices, index.packages, c);
      }
    }
  }

  /** Generate, then check. */
  method GenerateThenCheck(ws: Workspace, sha: Digest) returns (r: Result<(), NoticeError>)
    ensures r.Success? <==> CanGenerate(ws) && Consistent(ws, sha)
  {
    hide CanGenerate, Generated, Accepts, Consistent;
    var written := Generate(ws, sha);
    if written.Failure? {
      return Failure(written.error);
    }
    var (notices, index) := written.value;
    r := CheckDependencyNotices(ws, sha, Some(notices), Some(index));
    GeneratedAcceptedIff(ws, sha, notices, index);
  }
}
