/** Generating the dependency notices, checking them, and how the two agree. */
module NoticesCheck {
  import opened Wrappers
  import opened Octet
  import opened Ordering
  import opened DependencyGraph
  import opened Notices

  // ---- the generator ----

  type PackageId = (string, string)

  function IdOf(c: ExternalCrate): PackageId {
    (c.name, c.version)
  }

  /** Members by package name and version; a later crate replaces an earlier one with its name and version. */
  function MembersById(ws: Workspace, crates: seq<ExternalCrate>): map<PackageId, seq<Member>>
    requires AllFound(ws, crates)
  {
    if crates == [] then map[]
    else
      var n := |crates| - 1;
      MembersById(ws, crates[..n])[IdOf(crates[n]) := ws.licences(crates[n]).value]
  }

  predicate HasRanges(sha: Digest, ms: seq<Member>, ranges: map<string, Range>) {
    forall m :: m in ms ==> sha(m.bytes) in ranges
  }

  function EntryOf(sha: Digest, c: ExternalCrate, ms: seq<Member>, ranges: map<string, Range>): PackageEntry
    requires HasRanges(sha, ms, ranges)
  {
    PackageEntry(c.name, c.version, c.source, c.license,
                 seq(|ms|, k requires 0 <= k < |ms| => EntryOfMember(sha, ms[k], ranges)))
  }

  function EntryOfMember(sha: Digest, m: Member, ranges: map<string, Range>): MemberEntry
    requires sha(m.bytes) in ranges
  {
    var r := ranges[sha(m.bytes)];
    MemberEntry(sha(m.bytes), r.start, r.end, m.origin, m.path)
  }

  predicate Recorded(sha: Digest, crates: seq<ExternalCrate>, members: map<PackageId, seq<Member>>,
                     ranges: map<string, Range>, entries: seq<PackageEntry>) {
    && |entries| == |crates|
    && forall i :: 0 <= i < |crates| ==>
         && IdOf(crates[i]) in members
         && HasRanges(sha, members[IdOf(crates[i])], ranges)
         && entries[i] == EntryOf(sha, crates[i], members[IdOf(crates[i])], ranges)
  }

  function IndexOf(ws: Workspace, sha: Digest, notices: Text, entries: seq<PackageEntry>): Index {
    Index(SCHEMA, sha(ws.lock), sha(notices), POPULATION_QUERY, ROOT_PACKAGE, FILTER_PLATFORM, |entries|, entries)
  }

  predicate HasRuntime(ws: Workspace) {
    ws.runtime.Some? && ws.runtime.value != []
  }

  /** What the generator needs of the workspace. */
  ghost predicate CanGenerate(ws: Workspace) {
    && ExternalCrates(ws.primary).Success?
    && ws.prebuilts(ExternalCrates(ws.primary).value)
    && AllFound(ws, ExternalCrates(ws.primary).value)
    && HasRuntime(ws)
  }

  /** The notices and index are what the generator writes from this workspace. */
  ghost predicate Generated(ws: Workspace, sha: Digest, notices: Text, index: Index)
    requires CanGenerate(ws)
  {
    var crates := ExternalCrates(ws.primary).value;
    exists buffer, ranges ::
      && LaidOut(ws.header, Bodies(ws, sha, crates), buffer, ranges)
      && notices == buffer + ws.runtime.value
      && Recorded(sha, crates, MembersById(ws, crates), ranges, index.packages)
      && index == IndexOf(ws, sha, notices, index.packages)
  }

  lemma {:induction false} AddedBodies(sha: Digest, ms: seq<Member>, bodies: map<string, Text>, key: string)
    ensures key in AddBodies(sha, ms, bodies) <==> key in bodies || exists m :: m in ms && sha(m.bytes) == key
    ensures key in AddBodies(sha, ms, bodies) ==>
              || (key in bodies && AddBodies(sha, ms, bodies)[key] == bodies[key])
              || exists m :: m in ms && sha(m.bytes) == key && AddBodies(sha, ms, bodies)[key] == m.bytes
  {
    if ms != [] {
      var init, last := ms[..|ms| - 1], ms[|ms| - 1];
      AddedBodies(sha, init, bodies, key);
      assert forall m :: m in ms <==> m in init || m == last;
    }
  }

  /** `m` is a licence member of one of the crates. */
  ghost predicate IsMember(ws: Workspace, crates: seq<ExternalCrate>, m: Member) {
    exists c :: c in crates && ws.licences(c).Some? && m in ws.licences(c).value
  }

  /** The digests of the licence members are exactly the keys of the bodies, and each body is the content of
      some member with its digest. */
  lemma {:induction false} BodiesAreMembers(ws: Workspace, sha: Digest, crates: seq<ExternalCrate>, key: string)
    requires AllFound(ws, crates)
    ensures key in Bodies(ws, sha, crates) <==> exists m :: IsMember(ws, crates, m) && sha(m.bytes) == key
    ensures key in Bodies(ws, sha, crates) ==>
              exists m :: IsMember(ws, crates, m) && sha(m.bytes) == key && Bodies(ws, sha, crates)[key] == m.bytes
  {
    hide AddBodies;
    if crates != [] {
      var n := |crates| - 1;
      var init, last := crates[..n], crates[n];
      assert forall c :: c in crates <==> c in init || c == last;
      assert last in crates;
      BodiesAreMembers(ws, sha, init, key);
      AddedBodies(sha, ws.licences(last).value, Bodies(ws, sha, init), key);
      forall m ensures IsMember(ws, crates, m) <==> IsMember(ws, init, m) || m in ws.licences(last).value {
      }
    }
  }

  method AddMembers(sha: Digest, ms: seq<Member>, bodies: map<string, Text>) returns (bodies': map<string, Text>)
    ensures bodies' == AddBodies(sha, ms, bodies)
  {
    bodies' := bodies;
    for k := 0 to |ms|
      invariant bodies' == AddBodies(sha, ms[..k], bodies)
    {
      assert ms[..k + 1][..k] == ms[..k];
      bodies' := bodies'[sha(ms[k].bytes) := ms[k].bytes];
    }
    assert ms[..|ms|] == ms;
  }

  method CollectMembers(ws: Workspace, sha: Digest, crates: seq<ExternalCrate>)
    returns (r: Result<(map<string, Text>, map<PackageId, seq<Member>>), NoticeError>)
    ensures r.Success? <==> AllFound(ws, crates)
    ensures r.Success? ==> r.value == (Bodies(ws, sha, crates), MembersById(ws, crates))
  {
    hide AddBodies;
    var bodies: map<string, Text> := map[];
    var members: map<PackageId, seq<Member>> := map[];
    for k := 0 to |crates|
      invariant AllFound(ws, crates[..k])
      invariant bodies == Bodies(ws, sha, crates[..k]) && members == MembersById(ws, crates[..k])
    {
      assert crates[k] in crates;
      var found := ws.licences(crates[k]);
      if found.None? {
        return Failure(NoLicence);
      }
      assert crates[..k + 1][..k] == crates[..k];
      assert crates[..k + 1] == crates[..k] + [crates[k]];
      bodies := AddMembers(sha, found.value, bodies);
      members := members[IdOf(crates[k]) := found.value];
    }
    assert crates[..|crates|] == crates;
    return Success((bodies, members));
  }

  predicate LastWithId(crates: seq<ExternalCrate>, i: int, id: PackageId) {
    0 <= i < |crates| && IdOf(crates[i]) == id && forall j :: i < j < |crates| ==> IdOf(crates[j]) != id
  }

  lemma {:induction false} LastExists(crates: seq<ExternalCrate>, c: ExternalCrate) returns (i: nat)
    requires c in crates
    ensures LastWithId(crates, i, IdOf(c))
  {
    var n := |crates| - 1;
    if IdOf(crates[n]) == IdOf(c) {
      i := n;
    } else {
      assert c in crates[..n];
      i := LastExists(crates[..n], c);
    }
  }

  lemma LastEarlier(crates: seq<ExternalCrate>, i: int, id: PackageId)
    requires crates != [] && IdOf(crates[|crates| - 1]) != id
    ensures LastWithId(crates, i, id) <==> LastWithId(crates[..|crates| - 1], i, id)
  {
  }

  /** The members recorded under an id are those of the last crate with that id. */
  lemma {:induction false} LastMembers(ws: Workspace, crates: seq<ExternalCrate>, i: nat, id: PackageId)
    requires AllFound(ws, crates) && LastWithId(crates, i, id)
    ensures id in MembersById(ws, crates) && MembersById(ws, crates)[id] == ws.licences(crates[i]).value
  {
    var n := |crates| - 1;
    assert crates[n] in crates && forall c :: c in crates[..n] ==> c in crates;
    if i < n {
      assert IdOf(crates[n]) != id;
      LastEarlier(crates, i, id);
      LastMembers(ws, crates[..n], i, id);
    }
  }

  /** Every member the index records has a range, so the generator's missing-range error cannot occur. */
  lemma MembersHaveRanges(ws: Workspace, sha: Digest, crates: seq<ExternalCrate>, ranges: map<string, Range>, i: nat)
    requires AllFound(ws, crates) && ranges.Keys == Bodies(ws, sha, crates).Keys && i < |crates|
    ensures IdOf(crates[i]) in MembersById(ws, crates)
    ensures HasRanges(sha, MembersById(ws, crates)[IdOf(crates[i])], ranges)
  {
    hide Bodies, MembersById;
    var id := IdOf(crates[i]);
    var k := LastExists(crates, crates[i]);
    LastMembers(ws, crates, k, id);
    assert crates[k] in crates;
    forall m | m in MembersById(ws, crates)[id] ensures sha(m.bytes) in ranges {
      assert IsMember(ws, crates, m);
      BodiesAreMembers(ws, sha, crates, sha(m.bytes));
    }
  }

  method RecordEntries(ws: Workspace, sha: Digest, crates: seq<ExternalCrate>, members: map<PackageId, seq<Member>>,
                       ranges: map<string, Range>) returns (entries: seq<PackageEntry>)
    requires AllFound(ws, crates) && members == MembersById(ws, crates)
    requires ranges.Keys == Bodies(ws, sha, crates).Keys
    ensures Recorded(sha, crates, members, ranges, entries)
  {
    hide Bodies, MembersById, HasRanges;
    entries := [];
    for i := 0 to |crates|
      invariant Recorded(sha, crates[..i], members, ranges, entries)
    {
      MembersHaveRanges(ws, sha, crates, ranges, i);
      entries := entries + [EntryOf(sha, crates[i], members[IdOf(crates[i])], ranges)];
    }
    assert crates[..|crates|] == crates;
  }

  method Generate(ws: Workspace, sha: Digest) returns (r: Result<(Text, Index), NoticeError>)
    ensures r.Success? <==> CanGenerate(ws)
    ensures r.Success? ==> Generated(ws, sha, r.value.0, r.value.1)
  {
    hide Bodies, MembersById, LaidOut, Recorded, ExternalCrates;
    var resolved := ResolveExternalCrates(ws.primary);
    if resolved.Failure? {
      return Failure(Unresolved(resolved.error));
    }
    var crates := resolved.value;
    if !ws.prebuilts(crates) {
      return Failure(PrebuiltMismatch);
    }
    var collected := CollectMembers(ws, sha, crates);
    if collected.Failure? {
      return Failure(collected.error);
    }
    var (bodies, members) := collected.value;
    var buffer, ranges := LayOut(ws.header, bodies);
    if ws.runtime.None? || ws.runtime.value == [] {
      return Failure(NoRuntimeNotices);
    }
    var notices := buffer + ws.runtime.value;
    LaidOutKeys(ws.header, bodies, buffer, ranges);
    var entries := RecordEntries(ws, sha, crates, members, ranges);
    var index := IndexOf(ws, sha, notices, entries);
    assert index.packages == entries;
    return Success((notices, index));
  }

  lemma LaidOutKeys(header: Text, bodies: map<string, Text>, buffer: Text, ranges: map<string, Range>)
    requires LaidOut(header, bodies, buffer, ranges)
    ensures ranges.Keys == bodies.Keys
  {
  }

  // ---- the checker ----

  function LastEntry(packages: seq<PackageEntry>, name: string, version: string): Option<PackageEntry> {
    if packages == [] then None
    else
      var last := packages[|packages| - 1];
      if last.name == name && last.version == version then Some(last)
      else LastEntry(packages[..|packages| - 1], name, version)
  }

  predicate EndsWith(s: Text, suffix: Text) {
    |suffix| <= |s| && s[|s| - |suffix|..] == suffix
  }

  /** The member is the one recorded, and the recorded range of the notices is its content byte for byte. */
  predicate MemberMatches(sha: Digest, notices: Text, m: Member, e: MemberEntry) {
    && m.origin == e.origin && m.path == e.path
    && sha(m.bytes) == e.sha256
    && e.start <= e.end <= |notices|
    && sha(notices[e.start..e.end]) == e.sha256
    && notices[e.start..e.end] == m.bytes
  }

  predicate CrateMatches(ws: Workspace, sha: Digest, notices: Text, packages: seq<PackageEntry>, c: ExternalCrate) {
    var e := LastEntry(packages, c.name, c.version);
    var ms := ws.licences(c);
    && e.Some? && e.value.source == c.source
    && ms.Some? && |ms.value| == |e.value.members|
    && forall k :: 0 <= k < |ms.value| ==> MemberMatches(sha, notices, ms.value[k], e.value.members[k])
  }

  function Identity(c: ExternalCrate): (string, string, string) {
    (c.name, c.version, c.source)
  }

  predicate Covers(primary: seq<ExternalCrate>, c: ExternalCrate) {
    exists p :: p in primary && Identity(p) == Identity(c)
  }

  /** Every crate of the other shipped platforms is one of the primary platform's. */
  ghost predicate PlatformsCovered(ws: Workspace, primary: seq<ExternalCrate>) {
    forall d :: d in ws.covered ==>
      ExternalCrates(d).Success? && forall c :: c in ExternalCrates(d).value ==> Covers(primary, c)
  }

  predicate IndexHeld(ws: Workspace, sha: Digest, notices: Text, index: Index) {
    && index.schema == SCHEMA && index.populationQuery == POPULATION_QUERY
    && index.rootPackage == ROOT_PACKAGE && index.filterPlatform == FILTER_PLATFORM
    && sha(ws.lock) == index.cargoLockSha256
    && sha(notices) == index.noticesSha256
    && HasRuntime(ws) && EndsWith(notices, ws.runtime.value)
  }

  ghost predicate Accepts(ws: Workspace, sha: Digest, notices: Text, index: Index) {
    && IndexHeld(ws, sha, notices, index)
    && ExternalCrates(ws.primary).Success?
    && var crates := ExternalCrates(ws.primary).value;
       && ws.prebuilts(crates)
       && |crates| == index.externalPackageCount
       && (forall c :: c in crates ==> CrateMatches(ws, sha, notices, index.packages, c))
       && PlatformsCovered(ws, crates)
  }

  method CheckMembers(sha: Digest, notices: Text, ms: seq<Member>, es: seq<MemberEntry>)
    returns (r: Result<(), NoticeError>)
    requires |ms| == |es|
    ensures r.Success? <==> forall k :: 0 <= k < |ms| ==> MemberMatches(sha, notices, ms[k], es[k])
  {
    for k := 0 to |ms|
      invariant forall j :: 0 <= j < k ==> MemberMatches(sha, notices, ms[j], es[j])
    {
      var m, e := ms[k], es[k];
      if m.origin != e.origin || m.path != e.path || sha(m.bytes) != e.sha256 {
        return Failure(MemberMismatch);
      }
      if e.end > |notices| || e.start > e.end {
        return Failure(RangeInvalid);
      }
      var slice := notices[e.start..e.end];
      if sha(slice) != e.sha256 || slice != m.bytes {
        return Failure(RangeInvalid);
      }
    }
    return Success(());
  }

  method CheckCrate(ws: Workspace, sha: Digest, notices: Text, packages: seq<PackageEntry>, c: ExternalCrate)
    returns (r: Result<(), NoticeError>)
    ensures r.Success? <==> CrateMatches(ws, sha, notices, packages, c)
  {
    var entry := LastEntry(packages, c.name, c.version);
    if entry.None? {
      return Failure(PackageAbsent);
    }
    if c.source != entry.value.source {
      return Failure(SourceMismatch);
    }
    var ms := ws.licences(c);
    if ms.None? {
      return Failure(NoLicence);
    }
    if |ms.value| != |entry.value.members| {
      return Failure(MemberCountMismatch);
    }
    r := CheckMembers(sha, notices, ms.value, entry.value.members);
  }

  method CheckCovered(ws: Workspace, primary: seq<ExternalCrate>) returns (r: Result<(), NoticeError>)
    ensures r.Success? <==> PlatformsCovered(ws, primary)
  {
    hide ExternalCrates;
    for i := 0 to |ws.covered|
      invariant forall j :: 0 <= j < i ==>
        ExternalCrates(ws.covered[j]).Success?
        && forall c :: c in ExternalCrates(ws.covered[j]).value ==> Covers(primary, c)
    {
      var resolved := ResolveExternalCrates(ws.covered[i]);
      assert ws.covered[i] in ws.covered;
      if resolved.Failure? {
        return Failure(Unresolved(resolved.error));
      }
      var covered := resolved.value;
      for k := 0 to |covered|
        invariant forall j :: 0 <= j < k ==> Covers(primary, covered[j])
      {
        assert covered[k] in covered;
        if !(exists p :: p in primary && Identity(p) == Identity(covered[k])) {
          return Failure(CoverageMismatch);
        }
      }
    }
    return Success(());
  }

  method CheckIndex(ws: Workspace, sha: Digest, notices: Option<Text>, index: Option<Index>)
    returns (r: Result<(), NoticeError>)
    ensures r.Success? <==> notices.Some? && index.Some? && IndexHeld(ws, sha, notices.value, index.value)
  {
    if index.None? {
      return Failure(IndexMissing);
    }
    var i := index.value;
    if i.schema != SCHEMA || i.populationQuery != POPULATION_QUERY
       || i.rootPackage != ROOT_PACKAGE || i.filterPlatform != FILTER_PLATFORM {
      return Failure(IndexMismatch);
    }
    if sha(ws.lock) != i.cargoLockSha256 {
      return Failure(LockMismatch);
    }
    if notices.None? {
      return Failure(NoticesMissing);
    }
    if sha(notices.value) != i.noticesSha256 {
      return Failure(NoticesMismatch);
    }
    if ws.runtime.None? || ws.runtime.value == [] {
      return Failure(NoRuntimeNotices);
    }
    if !EndsWith(notices.value, ws.runtime.value) {
      return Failure(RuntimeChanged);
    }
    return Success(());
  }

  method CheckDependencyNotices(ws: Workspace, sha: Digest, notices: Option<Text>, index: Option<Index>)
    returns (r: Result<(), NoticeError>)
    ensures r.Success? <==> notices.Some? && index.Some? && Accepts(ws, sha, notices.value, index.value)
  {
    hide ExternalCrates, IndexHeld, CrateMatches, PlatformsCovered;
    var held := CheckIndex(ws, sha, notices, index);
    if held.Failure? {
      return held;
    }
    var resolved := ResolveExternalCrates(ws.primary);
    if resolved.Failure? {
      return Failure(Unresolved(resolved.error));
    }
    var crates := resolved.value;
    if !ws.prebuilts(crates) {
      return Failure(PrebuiltMismatch);
    }
    if |crates| != index.value.externalPackageCount {
      return Failure(CountMismatch);
    }
    for k := 0 to |crates|
      invariant forall j :: 0 <= j < k ==> CrateMatches(ws, sha, notices.value, index.value.packages, crates[j])
    {
      assert crates[k] in crates;
      var checked := CheckCrate(ws, sha, notices.value, index.value.packages, crates[k]);
      if checked.Failure? {
        return checked;
      }
    }
    r := CheckCovered(ws, crates);
  }

  lemma RecordedLength(sha: Digest, crates: seq<ExternalCrate>, members: map<PackageId, seq<Member>>,
                       ranges: map<string, Range>, entries: seq<PackageEntry>)
    requires Recorded(sha, crates, members, ranges, entries)
    ensures |entries| == |crates|
  {
  }
}
