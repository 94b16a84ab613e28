/** The package population of a release: the closure of the root package over dependencies that are not
    development-only, read off the output of `cargo metadata`. */
module DependencyGraph {
  import opened Wrappers
  import opened Ordering

  const ROOT_PACKAGE := "solstone-linux-window"

  // Fields of the JSON document that may be missing or of another type are options.

  datatype Dep = Dep(kinds: Option<seq<Option<string>>>, pkg: Option<string>)

  datatype MetaNode = MetaNode(id: Option<string>, deps: Option<seq<Dep>>)

  datatype Package = Package(
    id: Option<string>,
    name: Option<string>,
    version: Option<string>,
    source: Option<string>,
    license: Option<string>,
    crateDir: Option<string>)

  datatype Metadata = Metadata(packages: Option<seq<Package>>, nodes: Option<seq<MetaNode>>)

  datatype ExternalCrate = ExternalCrate(
    name: string,
    version: string,
    source: string,
    license: Option<string>,
    crateDir: string)

  datatype GraphError =
    | MissingPackages
    | MissingNodes
    | MissingRoot
    | RootWithoutId
    | UnknownPackage(id: string)
    | IncompletePackage(id: string)
    | NoExternalPackages

  // ---- the graph ----

  /** A dependency counts unless every one of its kinds is given and is neither normal nor build. */
  predicate IsNonDev(d: Dep) {
    match d.kinds
    case None => true
    case Some(kinds) =>
      kinds == []
      || exists k :: 0 <= k < |kinds| && (kinds[k].None? || kinds[k].value == "normal" || kinds[k].value == "build")
  }

  /** The table of nodes by id; a later node replaces an earlier one with its id. */
  function NodesById(nodes: seq<MetaNode>): (m: map<string, MetaNode>) {
    if nodes == [] then map[]
    else
      var last := nodes[|nodes| - 1];
      var before := NodesById(nodes[..|nodes| - 1]);
      if last.id.Some? then before[last.id.value := last] else before
  }

  function PackagesById(packages: seq<Package>): (m: map<string, Package>) {
    if packages == [] then map[]
    else
      var last := packages[|packages| - 1];
      var before := PackagesById(packages[..|packages| - 1]);
      if last.id.Some? then before[last.id.value := last] else before
  }

  type Graph = map<string, MetaNode>

  predicate Follows(d: Dep, id: string) {
    IsNonDev(d) && d.pkg == Some(id)
  }

  predicate Edge(g: Graph, a: string, b: string) {
    a in g && g[a].deps.Some? && exists k :: 0 <= k < |g[a].deps.value| && Follows(g[a].deps.value[k], b)
  }

  ghost predicate IsPath(g: Graph, path: seq<string>, a: string, b: string) {
    path != [] && path[0] == a && path[|path| - 1] == b
    && forall i :: 0 <= i < |path| - 1 ==> Edge(g, path[i], path[i + 1])
  }

  ghost predicate Reachable(g: Graph, a: string, b: string) {
    exists path :: IsPath(g, path, a, b)
  }

  lemma ReachableSelf(g: Graph, a: string)
    ensures Reachable(g, a, a)
  {
    assert IsPath(g, [a], a, a);
  }

  lemma ReachableStep(g: Graph, a: string, b: string, c: string)
    requires Reachable(g, a, b) && Edge(g, b, c)
    ensures Reachable(g, a, c)
  {
    hide Edge;
    var path :| IsPath(g, path, a, b);
    assert IsPath(g, path + [c], a, c);
  }

  /** A set holding the root and closed under edges holds everything reachable. */
  lemma {:induction false} ClosedHoldsPath(g: Graph, s: set<string>, path: seq<string>, a: string, b: string)
    requires a in s && forall x, y :: x in s && Edge(g, x, y) ==> y in s
    requires IsPath(g, path, a, b)
    ensures b in s
    decreases |path|
  {
    hide Edge;
    if |path| > 1 {
      var n := |path| - 1;
      assert Edge(g, path[n - 1], path[n - 1 + 1]);
      ClosedHoldsPath(g, s, path[..n], a, path[n - 1]);
    }
  }

  /** Every id a dependency mentions, and the root. */
  ghost function Mentioned(g: Graph, root: string): set<string> {
    {root}
    + set id, k | id in g && g[id].deps.Some? && 0 <= k < |g[id].deps.value| && g[id].deps.value[k].pkg.Some?
        :: g[id].deps.value[k].pkg.value
  }

  /** What is reachable, as a set. */
  ghost function Closure(g: Graph, root: string): set<string> {
    set id | id in Mentioned(g, root) && Reachable(g, root, id)
  }

  lemma ReachableIsMentioned(g: Graph, root: string, id: string)
    requires Reachable(g, root, id)
    ensures id in Mentioned(g, root)
  {
    var path :| IsPath(g, path, root, id);
    if |path| > 1 {
      var n := |path| - 1;
      assert Edge(g, path[n - 1], path[n - 1 + 1]);
    }
  }

  lemma ClosureIff(g: Graph, root: string, id: string)
    ensures id in Closure(g, root) <==> Reachable(g, root, id)
  {
    if Reachable(g, root, id) {
      ReachableIsMentioned(g, root, id);
    }
  }

  // ---- the worklist ----

  /** Visit the dependencies of one node: what is new goes into both the visited set and the queue. */
  method VisitDeps(g: Graph, root: string, curr: string, visited: set<string>, queue: seq<string>)
    returns (visited': set<string>, queue': seq<string>)
    requires curr in g && g[curr].deps.Some?
    requires forall x :: x in queue ==> x in visited
    ensures visited <= visited'
    ensures forall x :: x in visited' <==> x in visited || Edge(g, curr, x)
    ensures forall x :: x in queue' <==> x in queue || (x in visited' && x !in visited)
    ensures visited' == visited ==> queue' == queue
  {
    visited', queue' := visited, queue;
    var deps := g[curr].deps.value;
    for k := 0 to |deps|
      invariant visited <= visited'
      invariant forall x :: x in visited' <==> x in visited || exists j :: 0 <= j < k && Follows(deps[j], x)
      invariant forall x :: x in queue' <==> x in queue || (x in visited' && x !in visited)
      invariant visited' == visited ==> queue' == queue
    {
      var d := deps[k];
      assert forall x :: Follows(d, x) ==> d.pkg == Some(x);
      if IsNonDev(d) && d.pkg.Some? && d.pkg.value !in visited' {
        visited' := visited' + {d.pkg.value};
        queue' := queue' + [d.pkg.value];
        assert Follows(deps[k], d.pkg.value);
      }
    }
  }

  /** The worklist terminates with exactly the reachable ids visited, whatever the order of nodes and deps. */
  method Visit(g: Graph, root: string) returns (visited: set<string>)
    ensures visited == Closure(g, root)
  {
    hide Edge, Mentioned;
    visited := {root};
    var queue := [root];
    ReachableSelf(g, root);
    while queue != []
      invariant root in visited
      invariant forall x :: x in queue ==> x in visited
      invariant forall x :: x in visited ==> Reachable(g, root, x)
      invariant forall x, y :: x in visited && x !in queue && Edge(g, x, y) ==> y in visited
      decreases Closure(g, root) - visited, |queue|
    {
      var curr := queue[|queue| - 1];
      ghost var before := visited;
      ghost var rest := queue[..|queue| - 1];
      assert queue == rest + [curr];
      queue := queue[..|queue| - 1];
      if curr in g && g[curr].deps.Some? {
        visited, queue := VisitDeps(g, root, curr, visited, queue);
      } else {
        NoEdges(g, curr);
      }
      forall x | x in visited ensures Reachable(g, root, x) && x in Closure(g, root) {
        if x !in before {
          ReachableStep(g, root, curr, x);
        }
        ClosureIff(g, root, x);
      }
      assert visited != before ==> exists x :: x in visited && x !in before;
    }
    forall id ensures id in visited <==> id in Closure(g, root) {
      ClosureIff(g, root, id);
      if id in Closure(g, root) {
        var path :| IsPath(g, path, root, id);
        ClosedHoldsPath(g, visited, path, root, id);
      }
    }
  }

  lemma NoEdges(g: Graph, a: string)
    requires a !in g || g[a].deps.None?
    ensures forall b :: !Edge(g, a, b)
  {
  }

  // ---- the external crates ----

  /** What a reachable id contributes: nothing when its package has no source, else a crate. */
  function CrateOf(byId: map<string, Package>, id: string): Result<Option<ExternalCrate>, GraphError> {
    if id !in byId then Failure(UnknownPackage(id))
    else
      var p := byId[id];
      if p.source.None? then Success(None)
      else if p.name.None? || p.version.None? || p.crateDir.None? then Failure(IncompletePackage(id))
      else Success(Some(ExternalCrate(p.name.value, p.version.value, p.source.value, p.license, p.crateDir.value)))
  }

  function Collect(byId: map<string, Package>, ids: seq<string>): Result<seq<ExternalCrate>, GraphError> {
    if ids == [] then Success([])
    else
      var before :- Collect(byId, ids[..|ids| - 1]);
      var last :- CrateOf(byId, ids[|ids| - 1]);
      Success(before + if last.Some? then [last.value] else [])
  }

  predicate ByNameVersion(a: ExternalCrate, b: ExternalCrate) {
    Less(a.name, b.name) || (a.name == b.name && Less(a.version, b.version))
  }

  lemma ByNameVersionTransitive(a: ExternalCrate, b: ExternalCrate, c: ExternalCrate)
    requires !ByNameVersion(b, a) && !ByNameVersion(c, b)
    ensures !ByNameVersion(c, a)
  {
    hide Less;
    NotLessTransitive(a.name, b.name, c.name);
    if a.name == c.name {
      NotLessTransitive(a.version, b.version, c.version);
    }
  }

  lemma ByNameVersionIsWeak()
    ensures StrictWeak(ByNameVersion)
  {
    hide Less;
    forall a ensures !ByNameVersion(a, a) {
      LessIrreflexive(a.name);
      LessIrreflexive(a.version);
    }
    forall a, b | ByNameVersion(a, b) ensures !ByNameVersion(b, a) {
      LessIrreflexive(a.name);
      if Less(a.name, b.name) { LessAsymmetric(a.name, b.name); }
      if Less(a.version, b.version) { LessAsymmetric(a.version, b.version); }
    }
    forall a, b, c | !ByNameVersion(b, a) && !ByNameVersion(c, b) ensures !ByNameVersion(c, a) {
      ByNameVersionTransitive(a, b, c);
    }
  }

  /** The first package carrying the root's name. */
  function FindRoot(packages: seq<Package>): Option<Package> {
    if packages == [] then None
    else if packages[0].name == Some(ROOT_PACKAGE) then Some(packages[0])
    else FindRoot(packages[1..])
  }

  function RootId(m: Metadata): Result<string, GraphError> {
    if m.packages.None? then Failure(MissingPackages)
    else if m.nodes.None? then Failure(MissingNodes)
    else
      match FindRoot(m.packages.value)
      case None => Failure(MissingRoot)
      case Some(root) => if root.id.None? then Failure(RootWithoutId) else Success(root.id.value)
  }

  /** The ids the release depends on. */
  ghost function Population(m: Metadata): set<string>
    requires RootId(m).Success?
  {
    Closure(NodesById(m.nodes.value), RootId(m).value)
  }

  ghost function ExternalCrates(m: Metadata): Result<seq<ExternalCrate>, GraphError> {
    var root :- RootId(m);
    var crates :- Collect(PackagesById(m.packages.value), Listing(Population(m)));
    if crates == [] then Failure(NoExternalPackages) else Success(Sort(ByNameVersion, crates))
  }

  method ResolveExternalCrates(m: Metadata) returns (r: Result<seq<ExternalCrate>, GraphError>)
    ensures r == ExternalCrates(m)
  {
    hide Closure, NodesById, PackagesById, FindRoot, CrateOf, Sort;
    var root := RootId(m);
    if root.Failure? {
      return Failure(root.error);
    }
    var byId := PackagesById(m.packages.value);
    var visited := Visit(NodesById(m.nodes.value), root.value);
    var ids := Enumerate(visited);
    EnumerationUnique(ids, Listing(visited), visited);
    var crates: seq<ExternalCrate> := [];
    for k := 0 to |ids|
      invariant Collect(byId, ids[..k]) == Success(crates)
    {
      assert ids[..k + 1][..k] == ids[..k];
      var crate := CrateOf(byId, ids[k]);
      if crate.Failure? {
        assert Collect(byId, ids[..k + 1]) == Failure(crate.error);
        CollectStops(byId, ids, k + 1);
        return Failure(crate.error);
      }
      assert crates + [] == crates;
      if crate.value.Some? {
        crates := crates + [crate.value.value];
      }
    }
    assert ids[..|ids|] == ids;
    if crates == [] {
      return Failure(NoExternalPackages);
    }
    return Success(Sort(ByNameVersion, crates));
  }

  lemma {:induction false} CollectStops(byId: map<string, Package>, ids: seq<string>, k: nat)
    requires k <= |ids| && Collect(byId, ids[..k]).Failure?
    ensures Collect(byId, ids) == Collect(byId, ids[..k])
    decreases |ids|
  {
    hide CrateOf;
    if k == |ids| {
      assert ids[..k] == ids;
    } else {
      var init := ids[..|ids| - 1];
      assert init[..k] == ids[..k];
      CollectStops(byId, init, k);
    }
  }

  lemma {:induction false} CollectHolds(byId: map<string, Package>, ids: seq<string>, c: ExternalCrate)
    requires Collect(byId, ids).Success?
    ensures c in Collect(byId, ids).value <==> exists id :: id in ids && CrateOf(byId, id) == Success(Some(c))
  {
    hide CrateOf;
    if ids != [] {
      var init, last := ids[..|ids| - 1], ids[|ids| - 1];
      CollectHolds(byId, init, c);
      assert forall id :: id in ids <==> id in init || id == last;
    }
  }

  lemma {:induction false} CollectSucceeds(byId: map<string, Package>, ids: seq<string>)
    ensures Collect(byId, ids).Success? <==> forall id :: id in ids ==> CrateOf(byId, id).Success?
  {
    hide CrateOf;
    if ids != [] {
      var init, last := ids[..|ids| - 1], ids[|ids| - 1];
      CollectSucceeds(byId, init);
      assert forall id :: id in ids <==> id in init || id == last;
    }
  }

  /** `c` is the crate of a package reachable from the root over dependencies that are not dev-only. */
  ghost predicate IsShipped(m: Metadata, c: ExternalCrate) {
    && RootId(m).Success?
    && exists id :: Reachable(NodesById(m.nodes.value), RootId(m).value, id)
                    && CrateOf(PackagesById(m.packages.value), id) == Success(Some(c))
  }

  /** The resolved population is exactly the crates of the reachable packages with a source, sorted by name
      and version. */
  lemma ExternalCratesAreReachable(m: Metadata)
    requires ExternalCrates(m).Success?
    ensures var crates := ExternalCrates(m).value;
            && SortedBy(ByNameVersion, crates)
            && forall c :: c in crates <==> IsShipped(m, c)
  {
    hide Closure, NodesById, PackagesById, FindRoot, CrateOf, Sort, Reachable, ByNameVersion, Collect;
    var byId := PackagesById(m.packages.value);
    var ids := Listing(Population(m));
    var unsorted := Collect(byId, ids).value;
    ByNameVersionIsWeak();
    SortSorted(ByNameVersion, unsorted);
    SortMembers(ByNameVersion, unsorted);
    forall c ensures c in unsorted <==> IsShipped(m, c) {
      CollectHolds(byId, ids, c);
      forall id ensures id in ids <==> Reachable(NodesById(m.nodes.value), RootId(m).value, id) {
        ClosureIff(NodesById(m.nodes.value), RootId(m).value, id);
      }
    }
  }

  /** Resolution fails exactly when the document has no usable root, a reachable id has no package, a
      reachable package with a source lacks a field, or nothing external is reachable. */
  lemma ResolutionSucceedsIff(m: Metadata)
    ensures ExternalCrates(m).Success? <==>
            && RootId(m).Success?
            && (forall id :: id in Population(m) ==> CrateOf(PackagesById(m.packages.value), id).Success?)
            && (exists c :: IsShipped(m, c))
  {
    hide Closure, NodesById, PackagesById, FindRoot, CrateOf, Sort, Reachable, ByNameVersion, Collect;
    if RootId(m).Success? {
      var byId, ids := PackagesById(m.packages.value), Listing(Population(m));
      CollectSucceeds(byId, ids);
      if Collect(byId, ids).Success? {
        var unsorted := Collect(byId, ids).value;
        forall c ensures c in unsorted <==> IsShipped(m, c) {
          CollectHolds(byId, ids, c);
          forall id ensures id in ids <==> Reachable(NodesById(m.nodes.value), RootId(m).value, id) {
            ClosureIff(NodesById(m.nodes.value), RootId(m).value, id);
          }
        }
        if unsorted != [] {
          assert unsorted[0] in unsorted;
        }
      }
    }
  }
}
