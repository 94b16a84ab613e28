/** The candidate lock as the code holds it: a file created exclusively at a reserved path, remembered by
    the identity of the open file, and removed only while that identity is still at the path. */
module CandidateLocks {
  import opened Wrappers
  import opened FileTrees
  import opened ReservedPaths
  import opened Boundary

  datatype LockError = Refused(error: BoundaryError) | NotExclusive | Missing | Replaced | NotRemoved

  /** What the kernel hands out and which calls succeed. */
  datatype Kernel = Kernel(distIdentity: Identity, lockIdentity: Identity, distOk: bool, lockOk: bool)

  function DistPath(): Path {
    ReservedPath.Dist.Components()
  }

  function LockPath(): Path {
    ReservedPath.Lock.Components()
  }

  /** The checkout with its `dist` directory made if it was missing. */
  function WithDist(tree: Node, id: Identity): Node {
    if StatAt(tree, DistPath()).None? then Attach(tree, DistPath(), Directory(id, map[])) else tree
  }

  lemma PathShapes()
    ensures |DistPath()| == 1 && |LockPath()| == 2 && LockPath()[..1] == DistPath()
  {
  }

  /** A path with one component has the root as its only ancestor. */
  lemma ShallowAncestors(tree: Node, p: Path)
    requires tree.Directory?
    ensures |p| == 1 ==> RealAncestors(tree, p)
    ensures |p| == 2 && RealDirectory(tree, p[..1]) ==> RealAncestors(tree, p)
  {
    forall k | 0 <= k < |p| && k == 0 ensures p[..k] == [] {
    }
  }

  /** Acquisition can only fail because the anchor moved, `dist` is not a real directory, something is
      already at the lock path, or a call failed. */
  predicate CanAcquire(tree: Node, anchor: Identity, k: Kernel) {
    && AnchorHeld(tree, anchor)
    && (if StatAt(tree, DistPath()).None? then k.distOk
        else RealDirectory(tree, DistPath()) && StatAt(tree, LockPath()).None?)
    && k.lockOk
  }

  class CandidateLock {
    const checkout: Checkout
    const file: Identity
    var released: bool

    constructor (checkout: Checkout, file: Identity)
      ensures this.checkout == checkout && this.file == file && !released
    {
      this.checkout := checkout;
      this.file := file;
      this.released := false;
    }

    /** `remove_owned`: look at the path as the kernel resolves it now, links and all, and remove what is
        there only if it is the file this lock created. */
    method RemoveOwned(ok: bool) returns (r: Result<(), LockError>)
      modifies checkout
      ensures var found := Lstat(old(checkout.tree), LockPath());
              && (r.Success? <==> found.Found? && found.stat.id == file && ok)
              && (r.Failure? ==> checkout.tree == old(checkout.tree) && checkout.log == old(checkout.log))
      ensures r.Success? ==>
                exists at: Path ::
                  && Destination(old(checkout.tree), [], LockPath(), MAX_LINKS) == Some(at)
                  && StatAt(old(checkout.tree), at).Some? && StatAt(old(checkout.tree), at).value.id == file
                  && checkout.tree == Detach(old(checkout.tree), at)
                  && checkout.log == old(checkout.log) + [Removed(StatAt(old(checkout.tree), at).value, at)]
    {
      hide Detach, Lookup, ReservedPath.Components;
      var found := Lstat(checkout.tree, LockPath());
      WalkReachesDestination(checkout.tree, [], LockPath(), MAX_LINKS);
      if !found.Found? {
        return Failure(Missing);
      }
      if found.stat.id != file {
        return Failure(Replaced);
      }
      if !ok {
        return Failure(NotRemoved);
      }
      var at := Destination(checkout.tree, [], LockPath(), MAX_LINKS).value;
      FoundHasRealAncestors(checkout.tree, at);
      checkout.Remove(at);
      return Success(());
    }

    /** `acquire`: make `dist` if it is missing, then create the lock file exclusively. */
    static method Acquire(checkout: Checkout, k: Kernel) returns (r: Result<CandidateLock, LockError>)
      modifies checkout
      ensures r.Success? <==> CanAcquire(old(checkout.tree), checkout.anchor, k)
      ensures r.Success? ==>
                && fresh(r.value) && r.value.checkout == checkout
                && r.value.file == k.lockIdentity && !r.value.released
                && checkout.tree == Locked(old(checkout.tree), k)
      ensures r.Failure? ==>
                checkout.tree == old(checkout.tree) || checkout.tree == WithDist(old(checkout.tree), k.distIdentity)
    {
      hide Attach, Lookup, ReservedPath.Components, Resolve;
      PathShapes();
      var dist := checkout.ResolvePresence(ReservedPath.Dist, DirectoryLeaf, true);
      DistPresence(checkout.tree, checkout.anchor);
      if dist.Failure? {
        return Failure(Refused(dist.error));
      }
      if dist.value.Absent? {
        if !k.distOk {
          return Failure(NotExclusive);
        }
        ShallowAncestors(checkout.tree, DistPath());
        checkout.CreateDirectory(DistPath(), k.distIdentity);
      }
      WithDistReady(old(checkout.tree), checkout.anchor, k);
      VacantIff(checkout.tree, checkout.anchor, LockPath());
      var vacant := checkout.ResolvePresence(ReservedPath.Lock, AbsentLeaf, false);
      if vacant.Failure? {
        return Failure(Refused(vacant.error));
      }
      if !k.lockOk {
        return Failure(NotExclusive);
      }
      checkout.CreateFile(LockPath(), k.lockIdentity);
      var lock := new CandidateLock(checkout, k.lockIdentity);
      return Success(lock);
    }

    /** `release`, and the drop that follows a failed one. `first` and `second` say whether either removal
        call succeeds. The lock ends released, or whatever is at the path is not its file, or both calls failed. */
    method Release(first: bool, second: bool) returns (r: Result<(), LockError>)
      requires !released && checkout as object != this
      modifies this, checkout
      ensures var found := Lstat(old(checkout.tree), LockPath());
              var owned := found.Found? && found.stat.id == file;
              && (r.Success? <==> owned && first)
              && released == r.Success?
              && (checkout.tree == old(checkout.tree)
                  || (owned && (first || second) && Unlocked(old(checkout.tree), file, checkout.tree)))
              && (owned && (first || second) ==> Unlocked(old(checkout.tree), file, checkout.tree))
    {
      hide Detach, Lookup, ReservedPath.Components, Walk, Destination;
      r := RemoveOwned(first);
      if r.Success? {
        released := true;
      } else {
        Drop(second);
      }
    }

    /** `drop`: an unreleased lock removes its own file, and only that, ignoring failures. */
    method Drop(ok: bool)
      requires checkout as object != this
      modifies checkout
      ensures var found := Lstat(old(checkout.tree), LockPath());
              if !released && found.Found? && found.stat.id == file && ok
              then Unlocked(old(checkout.tree), file, checkout.tree)
              else checkout.tree == old(checkout.tree)
    {
      hide Detach, Lookup, ReservedPath.Components, Walk, Destination;
      if !released {
        var _ := RemoveOwned(ok);
      }
    }
  }

  /** `after` is `before` without the file of this identity that the lock path leads to. */
  ghost predicate Unlocked(before: Node, file: Identity, after: Node) {
    exists at: Path ::
      && Destination(before, [], LockPath(), MAX_LINKS) == Some(at)
      && StatAt(before, at).Some? && StatAt(before, at).value.id == file
      && after == Detach(before, at)
  }

  /** The checkout right after acquisition. */
  function Locked(tree: Node, k: Kernel): Node {
    Attach(WithDist(tree, k.distIdentity), LockPath(), Regular(k.lockIdentity, ""))
  }

  lemma DistPresence(tree: Node, anchor: Identity)
    ensures var r := Resolve(tree, anchor, DistPath(), DirectoryLeaf, true);
            && (r.Success? <==> AnchorHeld(tree, anchor)
                                && (StatAt(tree, DistPath()).None? || RealDirectory(tree, DistPath())))
            && (r.Success? ==> (r.value.Absent? <==> StatAt(tree, DistPath()).None?))
  {
    hide ReservedPath.Components, Lookup;
    PathShapes();
    if AnchorHeld(tree, anchor) {
      ShallowAncestors(tree, DistPath());
      assert Gap(tree, DistPath(), 0) == 1;
      assert DistPath()[..1] == DistPath();
    }
  }

  /** With `dist` in place the lock path has real ancestors, and making `dist` leaves it vacant. */
  lemma WithDistReady(tree: Node, anchor: Identity, k: Kernel)
    requires AnchorHeld(tree, anchor)
    requires StatAt(tree, DistPath()).None? || RealDirectory(tree, DistPath())
    ensures var t := WithDist(tree, k.distIdentity);
            && AnchorHeld(t, anchor) && RealAncestors(t, LockPath())
            && StatAt(t, LockPath()) == if StatAt(tree, DistPath()).None? then None else StatAt(tree, LockPath())
  {
    hide ReservedPath.Components, Attach, Lookup;
    PathShapes();
    var t, d, l := WithDist(tree, k.distIdentity), DistPath(), LockPath();
    if StatAt(tree, d).None? {
      var made := Directory(k.distIdentity, map[]);
      RootIsReal(tree, d);
      AttachStat(tree, d, made, d);
      AttachStat(tree, d, made, l);
      AttachStat(tree, d, made, []);
      EmptyDirectory(k.distIdentity, l[1..]);
      NodeItself(made);
      assert d <= l && d <= d && d[1..] == [] && l[1..] != [];
      NodeItself(t);
      NodeItself(tree);
      assert !(d <= []);
    }
    ShallowAncestors(t, l);
  }

  lemma RootIsReal(tree: Node, p: Path)
    requires tree.Directory? && |p| == 1
    ensures RealDirectory(tree, p[..|p| - 1])
  {
    assert p[..0] == [];
  }

  lemma NodeItself(tree: Node)
    ensures StatAt(tree, []) == Some(StatOf(tree))
  {
  }

  /** Releasing right after acquiring finds the lock's own file at the path and undoes the acquisition, up to
      the `dist` directory it may have made. */
  lemma ReleaseUndoesAcquire(tree: Node, anchor: Identity, k: Kernel)
    requires CanAcquire(tree, anchor, k)
    ensures var t := Locked(tree, k);
            && Lstat(t, LockPath()) == Found(Stat(RegularKind, k.lockIdentity))
            && Destination(t, [], LockPath(), MAX_LINKS) == Some(LockPath())
            && Detach(t, LockPath()) == WithDist(tree, k.distIdentity)
  {
    hide ReservedPath.Components, Attach, Detach, Lookup, Walk, Destination;
    PathShapes();
    var base, l := WithDist(tree, k.distIdentity), LockPath();
    var made := Regular(k.lockIdentity, "");
    WithDistReady(tree, anchor, k);
    assert RealDirectory(base, l[..1]);
    DetachAttach(base, l, made);
    AttachLookup(base, l, made);
    var t := Locked(tree, k);
    FoundHasRealAncestors(t, l);
    LstatBelowRealDirectories(t, l);
    assert [] + l == l;
    DestinationRealAncestors(t, [], l, MAX_LINKS);
  }
}
