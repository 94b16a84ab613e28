/** The reserved-release boundary: resolving a reserved path against the checkout without following
    links, and the handful of filesystem calls made on what was resolved. */
module Boundary {
  import opened Wrappers
  import opened FileTrees
  import opened PortablePaths
  import opened ReservedPaths
  import opened ReservedPathsPortable

  datatype ExpectedLeaf = AnyLeaf | AbsentLeaf | DirectoryLeaf | RegularLeaf

  datatype Resolved = Resolved(path: Path, parentIdentity: Identity, identity: Option<Identity>)

  datatype Presence = Absent(resolved: Resolved) | Present(resolved: Resolved)

  datatype BoundaryError =
    | AnchorReplaced
    | AncestorAbsent(depth: nat)
    | AncestorNotDirectory(depth: nat)
    | LeafAbsent
    | LeafWrongType
    | IdentityReplaced
    | DuplicateTarget
    | OverlappingTarget
    | BarrierFailed
    | RenameFailed
    | RemoveFailed
    | CreateFailed

  /** What a filesystem call did, and to which node. */
  datatype Effect =
    | Renamed(stat: Stat, from: Path, to: Path)
    | Removed(stat: Stat, at: Path)
    | PartlyRemoved(stat: Stat, at: Path)
    | Created(at: Path)

  predicate Matches(expected: ExpectedLeaf, kind: Kind) {
    match expected
    case AnyLeaf => true
    case AbsentLeaf => false
    case DirectoryLeaf => kind == DirectoryKind
    case RegularLeaf => kind == RegularKind
  }

  predicate AnchorHeld(tree: Node, anchor: Identity) {
    StatOf(tree) == Stat(DirectoryKind, anchor)
  }

  /** The first proper prefix length from `k` on that is not a real directory, or the whole length. */
  function Gap(tree: Node, p: Path, k: nat): (d: nat)
    requires k <= |p|
    ensures k <= d <= |p|
    ensures forall j :: k <= j < d ==> RealDirectory(tree, p[..j])
    ensures d < |p| ==> !RealDirectory(tree, p[..d])
    decreases |p| - k
  {
    if k == |p| || !RealDirectory(tree, p[..k]) then k else Gap(tree, p, k + 1)
  }

  function IdentityAt(tree: Node, p: Path): Identity
    requires StatAt(tree, p).Some?
  {
    StatAt(tree, p).value.id
  }

  /** Resolution of a path in a tree that holds still. */
  function Resolve(tree: Node, anchor: Identity, p: Path, expected: ExpectedLeaf, allowAbsent: bool)
    : Result<Presence, BoundaryError>
    requires p != []
  {
    if !AnchorHeld(tree, anchor) then Failure(AnchorReplaced)
    else
      var d := Gap(tree, p, 0);
      assert p[..0] == [];
      assert RealDirectory(tree, p[..d - 1]);
      var parent := IdentityAt(tree, p[..d - 1]);
      if d < |p| then
        if StatAt(tree, p[..d]).Some? then Failure(AncestorNotDirectory(d))
        else if allowAbsent then Success(Absent(Resolved(p, parent, None)))
        else Failure(AncestorAbsent(d))
      else
        match StatAt(tree, p)
        case None =>
          if expected == AbsentLeaf || allowAbsent then Success(Absent(Resolved(p, parent, None)))
          else Failure(LeafAbsent)
        case Some(stat) =>
          if Matches(expected, stat.kind) then Success(Present(Resolved(p, parent, Some(stat.id))))
          else Failure(LeafWrongType)
  }

  /** A path is reported present exactly when the anchor is in place, every ancestor is a real directory
      and the leaf is of the expected kind; the identities reported are the leaf's and its parent's own. */
  lemma PresentIff(tree: Node, anchor: Identity, p: Path, expected: ExpectedLeaf, allowAbsent: bool, r: Resolved)
    requires p != []
    ensures Resolve(tree, anchor, p, expected, allowAbsent) == Success(Present(r))
       <==> && AnchorHeld(tree, anchor)
            && RealAncestors(tree, p)
            && StatAt(tree, p).Some? && Matches(expected, StatAt(tree, p).value.kind)
            && r.path == p
            && r.identity == Some(IdentityAt(tree, p))
            && StatAt(tree, p[..|p| - 1]) == Some(Stat(DirectoryKind, r.parentIdentity))
  {
    if AnchorHeld(tree, anchor) {
      var d := Gap(tree, p, 0);
      assert d == |p| <==> RealAncestors(tree, p);
    }
  }

  /** A path is reported absent exactly when it is missing below an unbroken chain of real directories, and either the
      caller tolerates absence or only the leaf itself is missing and was expected to be; the parent reported is the last
      directory of the chain. */
  lemma AbsentIff(tree: Node, anchor: Identity, p: Path, expected: ExpectedLeaf, allowAbsent: bool, r: Resolved)
    requires p != []
    ensures Resolve(tree, anchor, p, expected, allowAbsent) == Success(Absent(r))
       <==> && AnchorHeld(tree, anchor)
            && (exists d :: MissingAt(tree, p, d)
                            && (allowAbsent || (d == |p| && expected == AbsentLeaf))
                            && StatAt(tree, p[..d - 1]) == Some(Stat(DirectoryKind, r.parentIdentity)))
            && r.path == p && r.identity == None
  {
    hide StatAt, Lookup;
    assert p[..|p|] == p && p[..0] == [];
    if AnchorHeld(tree, anchor) {
      RootIsReal(tree, anchor);
      var d := Gap(tree, p, 0);
      assert d > 0 && RealDirectory(tree, p[..d - 1]);
      assert MissingAt(tree, p, d) <==> StatAt(tree, p[..d]).None?;
      if e :| MissingAt(tree, p, e) {
        MissingIsGap(tree, p, e);
      }
    }
  }

  /** The first `d - 1` components lead through real directories, and the one after them is not there. */
  predicate MissingAt(tree: Node, p: Path, d: nat) {
    0 < d <= |p| && (forall j :: 0 <= j < d ==> RealDirectory(tree, p[..j])) && StatAt(tree, p[..d]).None?
  }

  lemma RootIsReal(tree: Node, anchor: Identity)
    requires AnchorHeld(tree, anchor)
    ensures RealDirectory(tree, [])
  {
  }

  lemma MissingIsGap(tree: Node, p: Path, d: nat)
    requires MissingAt(tree, p, d)
    ensures Gap(tree, p, 0) == d
  {
    hide StatAt;
    assert forall j :: 0 <= j < Gap(tree, p, 0) ==> RealDirectory(tree, p[..j]);
  }

  /** What each refusal of the resolver says. */
  lemma RefusedIff(tree: Node, anchor: Identity, p: Path, expected: ExpectedLeaf, allowAbsent: bool, e: BoundaryError)
    requires p != []
    ensures Resolve(tree, anchor, p, expected, allowAbsent) == Failure(e) <==>
      match e
      case AnchorReplaced => !AnchorHeld(tree, anchor)
      case AncestorAbsent(d) => AnchorHeld(tree, anchor) && !allowAbsent && d < |p| && MissingAt(tree, p, d)
      case AncestorNotDirectory(d) =>
        && AnchorHeld(tree, anchor) && d < |p| && (forall j :: 0 <= j < d ==> RealDirectory(tree, p[..j]))
        && StatAt(tree, p[..d]).Some? && !RealDirectory(tree, p[..d])
      case LeafAbsent =>
        && AnchorHeld(tree, anchor) && RealAncestors(tree, p) && StatAt(tree, p).None?
        && expected != AbsentLeaf && !allowAbsent
      case LeafWrongType =>
        && AnchorHeld(tree, anchor) && RealAncestors(tree, p)
        && StatAt(tree, p).Some? && !Matches(expected, StatAt(tree, p).value.kind)
      case _ => false
  {
    hide StatAt, Lookup;
    assert p[..|p|] == p && p[..0] == [];
    if AnchorHeld(tree, anchor) {
      RootIsReal(tree, anchor);
      var d := Gap(tree, p, 0);
      assert d == |p| <==> RealAncestors(tree, p);
      if e.AncestorNotDirectory? && e.depth < |p| && (forall j :: 0 <= j < e.depth ==> RealDirectory(tree, p[..j]))
         && !RealDirectory(tree, p[..e.depth]) {
        assert d == e.depth;
      }
      if e.AncestorAbsent? && MissingAt(tree, p, e.depth) {
        MissingIsGap(tree, p, e.depth);
      }
    }
  }

  function ResolveOwned(tree: Node, anchor: Identity, p: Path, expected: ExpectedLeaf, owned: Identity)
    : Result<Resolved, BoundaryError>
    requires p != []
  {
    var presence :- Resolve(tree, anchor, p, expected, false);
    if presence.resolved.identity == Some(owned) then Success(presence.resolved) else Failure(IdentityReplaced)
  }

  /** The node at `p` is of the expected kind and carries the owned identity. */
  predicate Owned(tree: Node, p: Path, expected: ExpectedLeaf, owned: Identity) {
    var stat := StatAt(tree, p);
    stat.Some? && Matches(expected, stat.value.kind) && stat.value.id == owned
  }

  lemma OwnedIff(tree: Node, anchor: Identity, p: Path, expected: ExpectedLeaf, owned: Identity)
    requires p != []
    ensures ResolveOwned(tree, anchor, p, expected, owned).Success?
       <==> AnchorHeld(tree, anchor) && Owned(tree, p, expected, owned)
    ensures ResolveOwned(tree, anchor, p, expected, owned).Success? ==> RealAncestors(tree, p)
  {
    if Lookup(tree, p).Some? {
      FoundHasRealAncestors(tree, p);
    }
    if AnchorHeld(tree, anchor) {
      assert Gap(tree, p, 0) == |p| <==> RealAncestors(tree, p);
    }
  }

  /** `resolve_for_create` with an absent leaf. */
  lemma VacantIff(tree: Node, anchor: Identity, p: Path)
    requires p != []
    ensures Resolve(tree, anchor, p, AbsentLeaf, false).Success?
       <==> AnchorHeld(tree, anchor) && RealAncestors(tree, p) && StatAt(tree, p).None?
  {
    if AnchorHeld(tree, anchor) {
      assert Gap(tree, p, 0) == |p| <==> RealAncestors(tree, p);
    }
  }

  class Checkout {
    var tree: Node
    const anchor: Identity
    var log: seq<Effect>

    constructor (tree: Node, anchor: Identity)
      ensures this.tree == tree && this.anchor == anchor && log == []
    {
      this.tree := tree;
      this.anchor := anchor;
      this.log := [];
    }

    /** One step of the walk: the parent must be unchanged before and after the child is looked at.
        While the tree holds still neither test can fail, and the kernel never meets a link. */
    method ChildState(parent: Path, parentIdentity: Identity, component: string) returns (state: Walked)
      requires StatAt(tree, parent) == Some(Stat(DirectoryKind, parentIdentity))
      ensures state == NoFollow(StatAt(tree, parent + [component]))
    {
      LstatOfFound(tree, parent);
      var parentBefore := Lstat(tree, parent);
      if parentBefore != Found(Stat(DirectoryKind, parentIdentity)) {
        assert false;
      }
      var current := parent + [component];
      assert current[..|current| - 1] == parent;
      LstatOfChild(tree, current);
      state := Lstat(tree, current);
      var parentAfter := Lstat(tree, current[..|current| - 1]);
      if parentAfter != Found(Stat(DirectoryKind, parentIdentity)) {
        assert false;
      }
    }

    method ResolvePresence(reserved: ReservedPath, expected: ExpectedLeaf, allowAbsent: bool)
      returns (r: Result<Presence, BoundaryError>)
      ensures r == Resolve(tree, anchor, reserved.Components(), expected, allowAbsent)
    {
      ComponentsPlain(reserved);
      r := ResolveComponents(reserved.Components(), expected, allowAbsent);
    }

    method ResolveComponents(components: Path, expected: ExpectedLeaf, allowAbsent: bool)
      returns (r: Result<Presence, BoundaryError>)
      requires components != [] && AllPlain(components)
      ensures r == Resolve(tree, anchor, components, expected, allowAbsent)
    {
      var root := Lstat(tree, []);
      if root != Found(Stat(DirectoryKind, anchor)) {
        return Failure(AnchorReplaced);
      }
      var current: Path := [];
      var parentIdentity := anchor;
      var index := 0;
      while true
        invariant index < |components|
        invariant current == components[..index]
        invariant AnchorHeld(tree, anchor)
        invariant StatAt(tree, current) == Some(Stat(DirectoryKind, parentIdentity))
        invariant Gap(tree, components, 0) == Gap(tree, components, index)
        decreases |components| - index
      {
        var component := components[index];
        assert component in components;
        if !PortableComponent(component) {
          assert false;
        }
        var state := ChildState(current, parentIdentity, component);
        current := current + [component];
        assert current == components[..index + 1];
        GapStep(tree, components, index);
        if index + 1 == |components| {
          assert components[..index + 1] == components;
          r := Leaf(components, parentIdentity, state, expected, allowAbsent);
          return;
        }
        match state {
          case Found(stat) =>
            if stat.kind != DirectoryKind {
              return Failure(AncestorNotDirectory(index + 1));
            }
            parentIdentity := stat.id;
            index := index + 1;
          case NotFound =>
            if allowAbsent {
              return Success(Absent(Resolved(components, parentIdentity, None)));
            }
            return Failure(AncestorAbsent(index + 1));
          case Fault =>
            assert false;
        }
      }
    }

    /** The verdict on the last component. */
    method Leaf(components: Path, parentIdentity: Identity, state: Walked, expected: ExpectedLeaf, allowAbsent: bool)
      returns (r: Result<Presence, BoundaryError>)
      requires components != [] && AnchorHeld(tree, anchor)
      requires Gap(tree, components, 0) == |components|
      requires StatAt(tree, components[..|components| - 1]) == Some(Stat(DirectoryKind, parentIdentity))
      requires state == NoFollow(StatAt(tree, components))
      ensures r == Resolve(tree, anchor, components, expected, allowAbsent)
    {
      match state {
        case Found(stat) =>
          if Matches(expected, stat.kind) {
            return Success(Present(Resolved(components, parentIdentity, Some(stat.id))));
          }
          return Failure(LeafWrongType);
        case NotFound =>
          if expected == AbsentLeaf || allowAbsent {
            return Success(Absent(Resolved(components, parentIdentity, None)));
          }
          return Failure(LeafAbsent);
      }
    }

    method ResolveIdentity(reserved: ReservedPath, expected: ExpectedLeaf, owned: Identity)
      returns (r: Result<Resolved, BoundaryError>)
      ensures r == ResolveOwned(tree, anchor, reserved.Components(), expected, owned)
    {
      var presence :- ResolvePresence(reserved, expected, false);
      if presence.resolved.identity != Some(owned) {
        return Failure(IdentityReplaced);
      }
      return Success(presence.resolved);
    }

    // The calls below demand a link-free way to what they touch: whoever makes them has resolved it first.

    method Rename(from: Path, to: Path)
      requires from != [] && to != [] && RealAncestors(tree, from) && RealAncestors(tree, to)
      requires StatAt(tree, from).Some? && StatAt(tree, to).None?
      modifies this
      ensures tree == Move(old(tree), from, to)
      ensures log == old(log) + [Renamed(StatAt(old(tree), from).value, from, to)]
    {
      log := log + [Renamed(StatAt(tree, from).value, from, to)];
      tree := Move(tree, from, to);
    }

    /** `remove_dir_all` of a directory, `remove_file` of a file. */
    method Remove(at: Path)
      requires at != [] && RealAncestors(tree, at) && StatAt(tree, at).Some?
      modifies this
      ensures tree == Detach(old(tree), at)
      ensures log == old(log) + [Removed(StatAt(old(tree), at).value, at)]
    {
      log := log + [Removed(StatAt(tree, at).value, at)];
      tree := Detach(tree, at);
    }

    method CreateDirectory(at: Path, id: Identity)
      requires at != [] && RealAncestors(tree, at) && StatAt(tree, at).None?
      modifies this
      ensures tree == Attach(old(tree), at, Directory(id, map[]))
      ensures log == old(log) + [Created(at)]
    {
      log := log + [Created(at)];
      tree := Attach(tree, at, Directory(id, map[]));
    }

    /** Exclusive creation of an empty file. */
    method CreateFile(at: Path, id: Identity)
      requires at != [] && RealAncestors(tree, at) && StatAt(tree, at).None?
      modifies this
      ensures tree == Attach(old(tree), at, Regular(id, ""))
      ensures log == old(log) + [Created(at)]
    {
      log := log + [Created(at)];
      tree := Attach(tree, at, Regular(id, ""));
    }

    /** A removal that fails after some of the descendants are gone. */
    method RemovePartly(at: Path, gone: seq<(string, Path)>)
      requires at != [] && RealAncestors(tree, at) && StatAt(tree, at).Some?
      modifies this
      ensures tree == DetachAll(old(tree), Below(at, gone))
      ensures log == old(log) + [PartlyRemoved(StatAt(old(tree), at).value, at)]
    {
      log := log + [PartlyRemoved(StatAt(tree, at).value, at)];
      tree := DetachAll(tree, Below(at, gone));
    }

    /** Another process rewrites the checkout. */
    method Interfere(tree': Node)
      modifies this`tree
      ensures tree == tree'
    {
      tree := tree';
    }
  }

  /** Proper descendants of `at`, each given by its path below. */
  function Below(at: Path, gone: seq<(string, Path)>): (r: seq<Path>)
    ensures |r| == |gone|
    ensures forall p :: p in r ==> at < p
  {
    seq(|gone|, i requires 0 <= i < |gone| => at + [gone[i].0] + gone[i].1)
  }

  lemma LstatOfFound(tree: Node, p: Path)
    requires StatAt(tree, p).Some?
    ensures Lstat(tree, p) == Found(StatAt(tree, p).value)
  {
    FoundHasRealAncestors(tree, p);
    LstatBelowRealDirectories(tree, p);
  }

  lemma LstatOfChild(tree: Node, p: Path)
    requires p != [] && RealDirectory(tree, p[..|p| - 1])
    ensures RealAncestors(tree, p) && Lstat(tree, p) == NoFollow(StatAt(tree, p))
  {
    var parent := p[..|p| - 1];
    FoundHasRealAncestors(tree, parent);
    forall k | 0 <= k < |p| ensures RealDirectory(tree, p[..k]) {
      if k < |parent| {
        assert p[..k] == parent[..k];
      }
    }
    LstatBelowRealDirectories(tree, p);
  }

  lemma GapStep(tree: Node, p: Path, k: nat)
    requires k < |p| && RealDirectory(tree, p[..k])
    ensures Gap(tree, p, k) == Gap(tree, p, k + 1)
    ensures k + 1 == |p| || !RealDirectory(tree, p[..k + 1]) ==> Gap(tree, p, k) == k + 1
  {
  }
}
