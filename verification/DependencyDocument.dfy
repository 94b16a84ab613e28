/** The package population in terms of the metadata document itself: its packages, its nodes and the kinds of their
    dependencies. */
module DependencyDocument {
  import opened Wrappers
  import opened Ordering
  import opened DependencyGraph

  /** Entry `k` is the last with this id, the one that counts. */
  predicate LastNode(nodes: seq<MetaNode>, k: nat, id: string) {
    k < |nodes| && nodes[k].id == Some(id) && forall j :: k < j < |nodes| ==> nodes[j].id != Some(id)
  }

  predicate LastPackage(packages: seq<Package>, k: nat, id: string) {
    k < |packages| && packages[k].id == Some(id) && forall j :: k < j < |packages| ==> packages[j].id != Some(id)
  }

  /** No list of kinds, an empty one, or one with a kind that is null, "normal" or "build". */
  predicate Ships(d: Dep) {
    d.kinds.None? || d.kinds.value == [] || None in d.kinds.value || Some("normal") in d.kinds.value
    || Some("build") in d.kinds.value
  }

  /** The node of `a` lists `b` among the dependencies that ship. */
  ghost predicate Depends(nodes: seq<MetaNode>, a: string, b: string) {
    exists k: nat :: LastNode(nodes, k, a) && nodes[k].deps.Some?
                     && exists d :: d in nodes[k].deps.value && d.pkg == Some(b) && Ships(d)
  }

  /** The first package with the name of the window application has this id. */
  ghost predicate IsRoot(packages: seq<Package>, id: string) {
    exists k: nat :: k < |packages| && packages[k].name == Some("solstone-linux-window") && packages[k].id == Some(id)
                     && forall j :: 0 <= j < k ==> packages[j].name != Some("solstone-linux-window")
  }

  ghost predicate Route(nodes: seq<MetaNode>, route: seq<string>, a: string, b: string) {
    route != [] && route[0] == a && route[|route| - 1] == b
    && forall i :: 0 <= i < |route| - 1 ==> Depends(nodes, route[i], route[i + 1])
  }

  /** The package is what the crate says. */
  predicate Describes(p: Package, c: ExternalCrate) {
    && p.name == Some(c.name) && p.version == Some(c.version) && p.source == Some(c.source)
    && p.license == c.license && p.crateDir == Some(c.crateDir)
  }

  /** Some package describes the crate, and a route leads from the root to it. */
  ghost predicate IsPopulation(m: Metadata, k: nat, c: ExternalCrate)
    requires m.packages.Some? && m.nodes.Some?
  {
    exists root, route, id ::
      && IsRoot(m.packages.value, root) && Route(m.nodes.value, route, root, id)
      && LastPackage(m.packages.value, k, id) && Describes(m.packages.value[k], c)
  }

  // ---- the tables are the last entries ----

  lemma {:induction false} NodeTable(nodes: seq<MetaNode>, id: string)
    ensures id in NodesById(nodes) ==> exists k: nat :: LastNode(nodes, k, id) && nodes[k] == NodesById(nodes)[id]
    ensures forall k: nat :: LastNode(nodes, k, id) ==> id in NodesById(nodes) && NodesById(nodes)[id] == nodes[k]
  {
    if nodes != [] {
      var n := |nodes| - 1;
      var before := nodes[..n];
      NodeTable(before, id);
      if nodes[n].id == Some(id) {
        assert LastNode(nodes, n, id);
      } else {
        forall k: nat ensures LastNode(nodes, k, id) <==> LastNode(before, k, id) {
        }
        if id in NodesById(before) {
          var k: nat :| LastNode(before, k, id) && before[k] == NodesById(before)[id];
          assert LastNode(nodes, k, id);
        }
      }
    }
  }

  lemma {:induction false} PackageTable(packages: seq<Package>, id: string)
    ensures id in PackagesById(packages) ==>
      exists k: nat :: LastPackage(packages, k, id) && packages[k] == PackagesById(packages)[id]
    ensures forall k: nat :: LastPackage(packages, k, id) ==>
      id in PackagesById(packages) && PackagesById(packages)[id] == packages[k]
  {
    if packages != [] {
      var n := |packages| - 1;
      var before := packages[..n];
      PackageTable(before, id);
      if packages[n].id == Some(id) {
        assert LastPackage(packages, n, id);
      } else {
        forall k: nat ensures LastPackage(packages, k, id) <==> LastPackage(before, k, id) {
        }
        if id in PackagesById(before) {
          var k: nat :| LastPackage(before, k, id) && before[k] == PackagesById(before)[id];
          assert LastPackage(packages, k, id);
        }
      }
    }
  }

  lemma ShipsIff(d: Dep)
    ensures Ships(d) <==> IsNonDev(d)
  {
    if d.kinds.Some? {
      var kinds := d.kinds.value;
      if Ships(d) && kinds != [] {
        var kind :| kind in kinds && kind in {None, Some("normal"), Some("build")};
        var i :| 0 <= i < |kinds| && kinds[i] == kind;
        assert kinds[i].None? || kinds[i].value == "normal" || kinds[i].value == "build";
      }
      if k :| 0 <= k < |kinds| && (kinds[k].None? || kinds[k].value == "normal" || kinds[k].value == "build") {
        var kind := kinds[k];
        assert kind in kinds;
        assert kind.Some? ==> kind == Some(kind.value);
      }
    }
  }

  lemma DependsIff(nodes: seq<MetaNode>, a: string, b: string)
    ensures Edge(NodesById(nodes), a, b) <==> Depends(nodes, a, b)
  {
    hide NodesById, Ships, IsNonDev, LastNode;
    NodeTable(nodes, a);
    forall d: Dep ensures Ships(d) <==> IsNonDev(d) {
      ShipsIff(d);
    }
    if a in NodesById(nodes) && NodesById(nodes)[a].deps.Some? {
      var deps := NodesById(nodes)[a].deps.value;
      assert forall d :: d in deps ==> exists i :: 0 <= i < |deps| && deps[i] == d;
    }
  }

  lemma {:induction false} RootFound(packages: seq<Package>)
    ensures FindRoot(packages).Some? ==>
      exists k: nat :: k < |packages| && packages[k] == FindRoot(packages).value && FirstNamed(packages, k)
    ensures forall k: nat :: FirstNamed(packages, k) ==> FindRoot(packages) == Some(packages[k])
  {
    if packages != [] && packages[0].name != Some(ROOT_PACKAGE) {
      var rest := packages[1..];
      RootFound(rest);
      forall k: nat | FirstNamed(packages, k) ensures FindRoot(packages) == Some(packages[k]) {
        assert k > 0 && FirstNamed(rest, k - 1);
      }
      if FindRoot(rest).Some? {
        var k: nat :| k < |rest| && rest[k] == FindRoot(rest).value && FirstNamed(rest, k);
        var next := k + 1;
        assert FirstNamed(packages, next) && packages[next] == rest[k];
      }
    } else if packages != [] {
      assert FirstNamed(packages, 0);
    }
  }

  predicate FirstNamed(packages: seq<Package>, k: nat) {
    && k < |packages| && packages[k].name == Some("solstone-linux-window")
    && forall j :: 0 <= j < k ==> packages[j].name != Some("solstone-linux-window")
  }

  lemma RootIff(m: Metadata, id: string)
    requires m.packages.Some? && m.nodes.Some?
    ensures RootId(m) == Success(id) <==> IsRoot(m.packages.value, id)
  {
    hide FindRoot;
    var packages := m.packages.value;
    RootFound(packages);
    if IsRoot(packages, id) {
      var k: nat :| k < |packages| && packages[k].name == Some("solstone-linux-window") && packages[k].id == Some(id)
                    && forall j :: 0 <= j < k ==> packages[j].name != Some("solstone-linux-window");
      assert FirstNamed(packages, k);
    }
    if RootId(m) == Success(id) {
      var k: nat :| k < |packages| && packages[k] == FindRoot(packages).value && FirstNamed(packages, k);
    }
  }

  lemma RouteIff(nodes: seq<MetaNode>, a: string, b: string)
    ensures Reachable(NodesById(nodes), a, b) <==> exists route :: Route(nodes, route, a, b)
  {
    hide Edge, Depends, NodesById;
    forall x, y ensures Edge(NodesById(nodes), x, y) <==> Depends(nodes, x, y) {
      DependsIff(nodes, x, y);
    }
    if path :| IsPath(NodesById(nodes), path, a, b) {
      assert Route(nodes, path, a, b);
    }
    if route :| Route(nodes, route, a, b) {
      assert IsPath(NodesById(nodes), route, a, b);
    }
  }

  // ---- the crates ----

  lemma CrateIff(byId: map<string, Package>, id: string, c: ExternalCrate)
    ensures CrateOf(byId, id) == Success(Some(c)) <==> id in byId && Describes(byId[id], c)
  {
  }

  lemma ShippedIff(m: Metadata, c: ExternalCrate)
    requires RootId(m).Success?
    ensures IsShipped(m, c) <==> exists k: nat :: IsPopulation(m, k, c)
  {
    hide CrateOf, Route, IsRoot, Reachable, NodesById, PackagesById, Describes, RootId;
    HasLists(m);
    var nodes, packages, root := m.nodes.value, m.packages.value, RootId(m).value;
    var byId := PackagesById(packages);
    RootIff(m, root);
    if IsShipped(m, c) {
      var id :| Reachable(NodesById(nodes), root, id) && CrateOf(byId, id) == Success(Some(c));
      RouteIff(nodes, root, id);
      CrateIff(byId, id, c);
      PackageTable(packages, id);
      var k: nat :| LastPackage(packages, k, id) && packages[k] == byId[id];
      var route :| Route(nodes, route, root, id);
      assert IsPopulation(m, k, c);
    }
    if k: nat :| IsPopulation(m, k, c) {
      var other, route, id :| IsRoot(packages, other) && Route(nodes, route, other, id)
                              && LastPackage(packages, k, id) && Describes(packages[k], c);
      RootIff(m, other);
      RouteIff(nodes, root, id);
      PackageTable(packages, id);
      CrateIff(byId, id, c);
    }
  }

  lemma HasLists(m: Metadata)
    requires RootId(m).Success?
    ensures m.packages.Some? && m.nodes.Some?
  {
  }

  /** The crates are exactly those that the package entries reached from the root describe, field by field. */
  lemma CratesDescribed(m: Metadata, c: ExternalCrate)
    requires ExternalCrates(m).Success?
    ensures m.packages.Some? && m.nodes.Some?
    ensures c in ExternalCrates(m).value <==> exists k: nat :: IsPopulation(m, k, c)
  {
    hide RootId, IsShipped, IsPopulation, Collect, Sort;
    ExternalCratesAreReachable(m);
    HasLists(m);
    ShippedIff(m, c);
  }

  /** An id that a route leads to has a package; if that has a source, it has a name, a version and a directory. */
  ghost predicate IsUsable(m: Metadata, id: string)
    requires m.packages.Some?
  {
    exists k: nat :: LastPackage(m.packages.value, k, id)
      && var p := m.packages.value[k];
         p.source.Some? ==> p.name.Some? && p.version.Some? && p.crateDir.Some?
  }

  lemma UsableIff(m: Metadata, id: string)
    requires m.packages.Some?
    ensures CrateOf(PackagesById(m.packages.value), id).Success? <==> IsUsable(m, id)
  {
    hide PackagesById, LastPackage;
    PackageTable(m.packages.value, id);
  }

  /** The resolution succeeds exactly when there is a root, every id reached from it is usable, and some package entry
      reached has a source. */
  lemma ResolvesIff(m: Metadata)
    ensures ExternalCrates(m).Success? <==>
      && m.packages.Some? && m.nodes.Some?
      && (exists root :: IsRoot(m.packages.value, root)
            && forall id, route :: Route(m.nodes.value, route, root, id) ==> IsUsable(m, id))
      && exists k: nat, c :: IsPopulation(m, k, c)
  {
    hide RootId, CrateOf, IsShipped, IsPopulation, IsUsable, IsRoot, Route, Reachable, NodesById, PackagesById;
    hide Collect, Mentioned;
    ResolutionSucceedsIff(m);
    if m.packages.Some? && m.nodes.Some? {
      if root :| IsRoot(m.packages.value, root) {
        RootIff(m, root);
      }
      if RootId(m).Success? {
        var root := RootId(m).value;
        RootIff(m, root);
        forall other | IsRoot(m.packages.value, other) ensures other == root {
          RootIff(m, other);
        }
        forall id ensures id in Population(m) <==> exists route :: Route(m.nodes.value, route, root, id) {
          ClosureIff(NodesById(m.nodes.value), root, id);
          RouteIff(m.nodes.value, root, id);
        }
        forall id ensures CrateOf(PackagesById(m.packages.value), id).Success? <==> IsUsable(m, id) {
          UsableIff(m, id);
        }
        forall c ensures IsShipped(m, c) <==> exists k: nat :: IsPopulation(m, k, c) {
          ShippedIff(m, c);
        }
        assert (forall id :: id in Population(m) ==> CrateOf(PackagesById(m.packages.value), id).Success?)
          <==> forall id, route :: Route(m.nodes.value, route, root, id) ==> IsUsable(m, id);
        if c :| IsShipped(m, c) {
          var k: nat :| IsPopulation(m, k, c);
        }
        if k: nat, c :| IsPopulation(m, k, c) {
          assert IsShipped(m, c);
        }
      }
    } else if RootId(m).Success? {
      HasLists(m);
    }
  }

  // ---- one crate an id ----

  /** The reached ids whose package has a source. */
  ghost function Sourced(byId: map<string, Package>, ids: set<string>): set<string> {
    set id | id in ids && id in byId && byId[id].source.Some?
  }

  ghost function Members(ids: seq<string>): set<string> {
    set id | id in ids
  }

  lemma LastIsNew(ids: seq<string>)
    requires Ascends(ids) && ids != []
    ensures var n := |ids| - 1;
            Ascends(ids[..n]) && ids[n] !in Members(ids[..n]) && Members(ids) == Members(ids[..n]) + {ids[n]}
  {
    hide Less;
    var n := |ids| - 1;
    assert ids == ids[..n] + [ids[n]];
    if ids[n] in ids[..n] {
      var j :| 0 <= j < n && ids[j] == ids[n];
      LessIrreflexive(ids[n]);
    }
  }

  lemma SourcedSnoc(byId: map<string, Package>, ids: set<string>, id: string)
    requires id !in ids
    ensures |Sourced(byId, ids + {id})|
         == |Sourced(byId, ids)| + if id in byId && byId[id].source.Some? then 1 else 0
  {
    var before, all := Sourced(byId, ids), Sourced(byId, ids + {id});
    if id in byId && byId[id].source.Some? {
      assert all == before + {id};
    } else {
      assert all == before;
    }
  }

  lemma {:induction false} CollectCounts(byId: map<string, Package>, ids: seq<string>)
    requires Ascends(ids) && Collect(byId, ids).Success?
    ensures |Collect(byId, ids).value| == |Sourced(byId, Members(ids))|
  {
    hide Ascends, Members, Sourced;
    if ids == [] {
      NothingSourced(byId);
    } else {
      var n := |ids| - 1;
      LastIsNew(ids);
      CollectCounts(byId, ids[..n]);
      SourcedSnoc(byId, Members(ids[..n]), ids[n]);
    }
  }

  lemma NothingSourced(byId: map<string, Package>)
    ensures Sourced(byId, Members([])) == {}
  {
  }

  /** As many crates as reached ids whose package has a source. */
  lemma OneCrateAnId(m: Metadata)
    requires ExternalCrates(m).Success?
    ensures RootId(m).Success? && m.packages.Some?
    ensures |ExternalCrates(m).value| == |Sourced(PackagesById(m.packages.value), Population(m))|
  {
    hide RootId, Collect, Sort, Closure, PackagesById, Less;
    HasLists(m);
    var byId, ids := PackagesById(m.packages.value), Listing(Population(m));
    CollectCounts(byId, ids);
    SortMembers(ByNameVersion, Collect(byId, ids).value);
    assert Members(ids) == Population(m);
  }
}
