/** The shape of the source archive: one root directory, and paths that can all stand side by side. */
module TarTopology {
  import opened Wrappers
  import opened Text

  type Path = seq<string>

  datatype Kind = Regular | Directory

  /** A member that passed the checks of its own header; it has at least one component. */
  datatype Member = Member(components: Path, kind: Kind)

  datatype TarError = RootInventory | Topology(index: nat) | Duplicate(index: nat) | Collision(index: nat)

  /** ASCII case folding, component by component. */
  function Folded(p: Path): (r: Path)
    ensures |r| == |p|
  {
    seq(|p|, i requires 0 <= i < |p| => Lower(p[i]))
  }

  predicate IsRegular(members: seq<Member>, p: Path) {
    exists m :: m in members && m.kind == Regular && m.components == p
  }

  /** Member `i` is no file at the top and lies below no file. */
  predicate WellPlaced(members: seq<Member>, i: nat)
    requires i < |members|
  {
    var m := members[i];
    && !(m.kind == Regular && |m.components| == 1)
    && forall depth :: 1 <= depth < |m.components| ==> !IsRegular(members, m.components[..depth])
  }

  predicate FoldedApart(members: seq<Member>, n: nat)
    requires n <= |members|
  {
    forall i, j :: 0 <= i < j < n ==> Folded(members[i].components) != Folded(members[j].components)
  }

  predicate AllNamed(members: seq<Member>) {
    forall m :: m in members ==> m.components != []
  }

  /** There are members, and all of them lie at or below one root. */
  predicate OneRoot(members: seq<Member>, root: string) {
    members != [] && forall m :: m in members ==> m.components != [] && m.components[0] == root
  }

  /** One root, every member well placed, and no two paths that differ in case at most. */
  ghost predicate IsTopology(members: seq<Member>) {
    && (exists root :: OneRoot(members, root))
    && (forall i :: 0 <= i < |members| ==> WellPlaced(members, i))
    && FoldedApart(members, |members|)
  }

  /** What each error says of the members. */
  ghost predicate Fault(members: seq<Member>, e: TarError) {
    match e
    case RootInventory => !exists root :: OneRoot(members, root)
    case Topology(i) =>
      i < |members| && (!WellPlaced(members, i)
                        || exists j :: 0 <= j < i && members[j].components == members[i].components
                                       && members[j].kind != members[i].kind)
    case Duplicate(i) => i < |members| && exists j :: 0 <= j < i && members[j] == members[i]
    case Collision(i) =>
      i < |members| && exists j :: 0 <= j < i && Folded(members[j].components) == Folded(members[i].components)
  }

  /** The set of first components. */
  method Roots(members: seq<Member>) returns (roots: set<string>)
    ensures forall root :: root in roots <==> exists m :: m in members && m.components != [] && m.components[0] == root
  {
    roots := {};
    for k := 0 to |members|
      invariant forall root :: root in roots <==>
        exists m :: m in members[..k] && m.components != [] && m.components[0] == root
    {
      assert members[..k + 1] == members[..k] + [members[k]];
      if members[k].components != [] {
        assert members[k] in members[..k + 1];
        roots := roots + {members[k].components[0]};
      }
    }
    assert members[..|members|] == members;
  }

  lemma Singleton(s: set<string>, x: string)
    requires |s| == 1 && x in s
    ensures s == {x}
  {
    assert |s - {x}| == 0;
  }

  lemma OneRootIff(members: seq<Member>, roots: set<string>)
    requires AllNamed(members)
    requires forall root :: root in roots <==> exists m :: m in members && m.components != [] && m.components[0] == root
    ensures |roots| == 1 <==> exists root :: OneRoot(members, root)
    ensures |roots| == 1 ==> exists root :: roots == {root} && OneRoot(members, root)
  {
    if |roots| == 1 {
      var root :| root in roots;
      Singleton(roots, root);
      forall m | m in members ensures m.components[0] == root {
        assert m.components[0] in roots;
      }
      assert OneRoot(members, root) && roots == {root};
    }
    if root :| OneRoot(members, root) {
      assert members[0] in members;
      assert roots == {root};
    }
  }

  /** The maps built from the members seen so far. */
  ghost predicate Seen(members: seq<Member>, k: nat, paths: map<Path, Kind>, folded: set<Path>)
    requires k <= |members|
  {
    && (forall p :: p in paths <==> exists j :: 0 <= j < k && members[j].components == p)
    && (forall j :: 0 <= j < k ==> members[j].components in paths && paths[members[j].components] == members[j].kind)
    && (forall p :: p in folded <==> exists j :: 0 <= j < k && Folded(members[j].components) == p)
  }

  lemma SeenMore(members: seq<Member>, k: nat, paths: map<Path, Kind>, folded: set<Path>)
    requires k < |members| && Seen(members, k, paths, folded) && members[k].components !in paths
    ensures Seen(members, k + 1, paths[members[k].components := members[k].kind], folded + {Folded(members[k].components)})
  {
    hide Folded;
  }

  lemma ApartMore(members: seq<Member>, k: nat)
    requires k < |members| && FoldedApart(members, k)
    ensures FoldedApart(members, k + 1) <==>
      forall j :: 0 <= j < k ==> Folded(members[j].components) != Folded(members[k].components)
  {
    hide Folded;
  }

  /** Whether the path of one member runs through a regular one. */
  method BelowRegular(members: seq<Member>, regular: set<Path>, m: Member) returns (found: bool)
    requires m.components != [] && forall p :: p in regular <==> IsRegular(members, p)
    ensures found <==> exists depth :: 1 <= depth < |m.components| && IsRegular(members, m.components[..depth])
  {
    hide IsRegular;
    found := false;
    for depth := 1 to |m.components|
      invariant !found
      invariant forall d :: 1 <= d < depth ==> !IsRegular(members, m.components[..d])
    {
      if m.components[..depth] in regular {
        return true;
      }
    }
  }

  /** Accepts exactly the topologies, and every refusal at a member states a true reason. */
  method CheckTopology(members: seq<Member>) returns (r: Result<string, TarError>)
    requires AllNamed(members)
    ensures r.Success? <==> IsTopology(members)
    ensures r.Success? ==> OneRoot(members, r.value)
    ensures r.Failure? ==> Fault(members, r.error)
  {
    hide Folded, WellPlaced, Fault, Seen, FoldedApart;
    var roots := Roots(members);
    OneRootIff(members, roots);
    if |roots| != 1 {
      RootFault(members);
      return Failure(RootInventory);
    }
    var root :| root in roots;
    var regular := set m | m in members && m.kind == Regular :: m.components;
    assert forall p :: p in regular <==> IsRegular(members, p);
    var paths: map<Path, Kind> := map[];
    var folded: set<Path> := {};
    NothingSeen(members);
    for k := 0 to |members|
      invariant Seen(members, k, paths, folded) && FoldedApart(members, k)
      invariant forall i :: 0 <= i < k ==> WellPlaced(members, i)
    {
      var m := members[k];
      assert m in members;
      var below := BelowRegular(members, regular, m);
      PlacedIff(members, k, below);
      if m.kind == Regular && |m.components| == 1 {
        TopologyFault(members, k);
        return Failure(Topology(k));
      }
      if m.components in paths {
        SeenPath(members, k, paths, folded);
        RepeatFault(members, k, paths[m.components]);
        return Failure(if paths[m.components] == m.kind then Duplicate(k) else Topology(k));
      }
      ApartMore(members, k);
      if Folded(m.components) in folded {
        SeenFolded(members, k, paths, folded);
        CollisionFault(members, k);
        return Failure(Collision(k));
      }
      SeenFolded(members, k, paths, folded);
      if below {
        TopologyFault(members, k);
        return Failure(Topology(k));
      }
      SeenMore(members, k, paths, folded);
      paths := paths[m.components := m.kind];
      folded := folded + {Folded(m.components)};
    }
    return Success(root);
  }

  lemma RootFault(members: seq<Member>)
    requires !exists root :: OneRoot(members, root)
    ensures Fault(members, RootInventory)
  {
  }

  lemma NothingSeen(members: seq<Member>)
    ensures Seen(members, 0, map[], {}) && FoldedApart(members, 0)
  {
  }

  lemma PlacedIff(members: seq<Member>, k: nat, below: bool)
    requires k < |members|
    requires below <==> exists depth :: 1 <= depth < |members[k].components|
                                        && IsRegular(members, members[k].components[..depth])
    ensures WellPlaced(members, k) <==> !below && !(members[k].kind == Regular && |members[k].components| == 1)
  {
    hide IsRegular;
  }

  lemma TopologyFault(members: seq<Member>, k: nat)
    requires k < |members| && !WellPlaced(members, k)
    ensures Fault(members, Topology(k))
  {
    hide WellPlaced;
  }

  lemma SeenPath(members: seq<Member>, k: nat, paths: map<Path, Kind>, folded: set<Path>)
    requires k < |members| && Seen(members, k, paths, folded) && members[k].components in paths
    ensures exists j :: 0 <= j < k && members[j] == Member(members[k].components, paths[members[k].components])
  {
    hide Folded;
    var j :| 0 <= j < k && members[j].components == members[k].components;
    assert members[j] == Member(members[k].components, paths[members[k].components]);
  }

  lemma RepeatFault(members: seq<Member>, k: nat, kind: Kind)
    requires k < |members| && exists j :: 0 <= j < k && members[j] == Member(members[k].components, kind)
    ensures Fault(members, if kind == members[k].kind then Duplicate(k) else Topology(k))
    ensures !FoldedApart(members, |members|)
  {
    hide Folded, WellPlaced;
  }

  lemma SeenFolded(members: seq<Member>, k: nat, paths: map<Path, Kind>, folded: set<Path>)
    requires k < |members| && Seen(members, k, paths, folded)
    ensures Folded(members[k].components) in folded <==>
      exists j :: 0 <= j < k && Folded(members[j].components) == Folded(members[k].components)
  {
    hide Folded;
  }

  lemma CollisionFault(members: seq<Member>, k: nat)
    requires k < |members| && exists j :: 0 <= j < k && Folded(members[j].components) == Folded(members[k].components)
    ensures Fault(members, Collision(k)) && !FoldedApart(members, |members|)
  {
    hide Folded;
  }

  // ---- what a topology excludes, and what it does not ----

  lemma BelowFileMisplaced(members: seq<Member>, i: nat, j: nat)
    requires i < |members| && j < |members| && members[i].kind == Regular && members[i].components != []
    requires members[i].components < members[j].components
    ensures !WellPlaced(members, j)
  {
    var p, q := members[i].components, members[j].components;
    assert members[i] in members;
    assert q[..|p|] == p && IsRegular(members, p);
  }

  /** No file of the archive lies on the way to another member, and no two members share a path. */
  lemma TopologyIsTree(members: seq<Member>, i: nat, j: nat)
    requires IsTopology(members) && i < |members| && j < |members| && i != j
    ensures members[i].components != members[j].components
    ensures members[i].kind == Regular ==> !(members[i].components <= members[j].components)
  {
    hide Folded;
    var p, q := members[i].components, members[j].components;
    assert Folded(p) != Folded(q);
    assert members[i] in members && members[j] in members;
    assert p != q && WellPlaced(members, j);
    if members[i].kind == Regular && p <= q {
      BelowFileMisplaced(members, i, j);
    }
  }

  /** Only whole folded paths are compared: a file whose name is an ancestor of another member but for its case is
      accepted. */
  lemma FoldedAncestorAccepted()
    ensures IsTopology([Member(["r", "A"], Regular), Member(["r", "a", "b"], Regular)])
    ensures Folded(["r", "A"]) <= Folded(["r", "a", "b"])
  {
    var members := [Member(["r", "A"], Regular), Member(["r", "a", "b"], Regular)];
    assert OneRoot(members, "r");
    assert Lower("A") == "a" == Lower("a") && Lower("r") == "r";
    assert Folded(["r", "A"]) == ["r", "a"];
    assert Folded(["r", "a", "b"])[..2] == ["r", "a"];
    assert |Folded(["r", "a", "b"])| == 3;
    assert WellPlaced(members, 0) by {
      assert ["r", "A"][..1] == ["r"];
    }
    assert WellPlaced(members, 1) by {
      assert ["r", "a", "b"][..1] == ["r"] && ["r", "a", "b"][..2] == ["r", "a"];
      assert "A"[0] != "a"[0] && ["r", "A"][1] != ["r", "a"][1];
    }
  }
}
