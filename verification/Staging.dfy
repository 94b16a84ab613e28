/** Furnishing a staging directory: six subdirectories, or the whole invocation cleaned up again. */
module Staging {
  import opened Wrappers
  import opened FileTrees
  import opened ReservedPaths
  import opened Boundary
  import opened Cleanup
  import CleanupQuiet
  import CleanupSafety

  datatype StagingLayout = StagingLayout(rooms: seq<Path>, root: Path, transaction: TransactionComponent, rootIdentity: Identity)

  /** The first error and, when the cleanup failed as well, its error. */
  datatype StagingError = StagingError(primary: BoundaryError, cleanup: Option<BoundaryError>)

  /** The outside world: identities of new directories, creations that fail, and the cleanup's failures. */
  datatype Disk = Disk(
    ids: nat -> Identity,
    createFails: nat -> bool,
    renameFails: nat -> bool,
    removeFails: nat -> Option<seq<(string, Path)>>)

  const ROOMS: nat := 6

  function RoomName(k: nat): string {
    match k
    case 0 => "context"
    case 1 => "lane-deb"
    case 2 => "lane-rpm"
    case 3 => "proof-runner"
    case 4 => "advisory-db"
    case _ => "payload"
  }

  function Room(t: TransactionComponent, k: nat): ReservedPath {
    match k
    case 0 => StagingContext(t)
    case 1 => StagingDebLane(t)
    case 2 => StagingRpmLane(t)
    case 3 => StagingProofRunner(t)
    case 4 => StagingAdvisoryDb(t)
    case _ => StagingPayload(t)
  }

  function RootPath(t: TransactionComponent): Path {
    StagingInvocation(t).Components()
  }

  function RoomPath(t: TransactionComponent, k: nat): Path {
    Room(t, k).Components()
  }

  function RoomPaths(t: TransactionComponent): (rooms: seq<Path>)
    ensures |rooms| == ROOMS && forall k :: 0 <= k < ROOMS ==> rooms[k] == RoomPath(t, k)
  {
    seq(ROOMS, k requires 0 <= k < ROOMS => RoomPath(t, k))
  }

  lemma RoomPathIs(t: TransactionComponent, k: nat)
    ensures RoomPath(t, k) == RootPath(t) + [RoomName(k)] && RootPath(t) != []
  {
    hide IsTransaction, Quarantined, AttemptName, ReservedPaths.Staging;
    match k
    case 0 => assert Room(t, k) == StagingContext(t);
    case 1 => assert Room(t, k) == StagingDebLane(t);
    case 2 => assert Room(t, k) == StagingRpmLane(t);
    case 3 => assert Room(t, k) == StagingProofRunner(t);
    case 4 => assert Room(t, k) == StagingAdvisoryDb(t);
    case _ => assert Room(t, k) == StagingPayload(t);
  }

  /** The rooms, in the order in which they are created. */
  lemma SixRooms(t: TransactionComponent)
    ensures RoomPaths(t)
         == [ StagingContext(t).Components(), StagingDebLane(t).Components(), StagingRpmLane(t).Components(),
              StagingProofRunner(t).Components(), StagingAdvisoryDb(t).Components(), StagingPayload(t).Components() ]
  {
    hide IsTransaction, ReservedPaths.Staging, ReservedPath.Components;
    var rooms := RoomPaths(t);
    assert rooms[0] == RoomPath(t, 0) && rooms[1] == RoomPath(t, 1) && rooms[2] == RoomPath(t, 2);
    assert rooms[3] == RoomPath(t, 3) && rooms[4] == RoomPath(t, 4) && rooms[5] == RoomPath(t, 5);
  }

  lemma RoomNamesDiffer(j: nat, k: nat)
    requires j < k < ROOMS
    ensures RoomName(j) != RoomName(k)
  {
    assert |RoomName(j)| == (match j case 0 => 7 case 1 => 8 case 2 => 8 case 3 => 12 case 4 => 11 case _ => 7);
    assert |RoomName(k)| == (match k case 0 => 7 case 1 => 8 case 2 => 8 case 3 => 12 case 4 => 11 case _ => 7);
    if j == 0 && k == 5 {
      assert RoomName(j)[0] == 'c' && RoomName(k)[0] == 'p';
    }
    if j == 1 && k == 2 {
      assert RoomName(j)[5] == 'd' && RoomName(k)[5] == 'r';
    }
  }

  // ---- the tree with rooms in it ----

  function Furnished(tree: Node, t: TransactionComponent, ids: nat -> Identity, k: nat): Node {
    if k == 0 then tree
    else Attach(Furnished(tree, t, ids, k - 1), RoomPath(t, k - 1), Directory(ids(k - 1), map[]))
  }

  predicate VacantUpTo(tree: Node, t: TransactionComponent, k: nat) {
    forall j :: 0 <= j < k ==> StatAt(tree, RoomPath(t, j)).None?
  }

  /** Exactly the first `k` rooms are new, each an empty directory with its own identity. */
  predicate GainedRooms(before: Node, after: Node, t: TransactionComponent, ids: nat -> Identity, k: nat, x: Path) {
    && (forall j :: 0 <= j < k && x == RoomPath(t, j) ==> StatAt(after, x) == Some(Stat(DirectoryKind, ids(j))))
    && ((forall j :: 0 <= j < k ==> x != RoomPath(t, j)) ==> StatAt(after, x) == StatAt(before, x))
  }

  lemma RoomPathsDiffer(t: TransactionComponent, j: nat, k: nat)
    requires j < ROOMS && k < ROOMS && RoomPath(t, j) == RoomPath(t, k)
    ensures j == k
  {
    hide RoomPath, RoomName, RootPath;
    RoomPathIs(t, j);
    RoomPathIs(t, k);
    assert RoomPath(t, j)[|RootPath(t)|] == RoomName(j);
    if j < k {
      RoomNamesDiffer(j, k);
    } else if k < j {
      RoomNamesDiffer(k, j);
    }
  }

  lemma MissingBelow(tree: Node, p: Path, x: Path)
    requires p <= x && StatAt(tree, p).None?
    ensures StatAt(tree, x).None?
  {
    assert x == p + x[|p|..];
    LookupConcat(tree, p, x[|p|..]);
  }

  lemma RoomStat(tree: Node, p: Path, id: Identity, x: Path)
    requires p != [] && RealDirectory(tree, p[..|p| - 1]) && StatAt(tree, p).None?
    ensures StatAt(Attach(tree, p, Directory(id, map[])), x) ==
            if x == p then Some(Stat(DirectoryKind, id)) else StatAt(tree, x)
  {
    hide StatAt, Attach;
    AttachStat(tree, p, Directory(id, map[]), x);
    if p <= x {
      EmptyDirectory(id, x[|p|..]);
      MissingBelow(tree, p, x);
    }
  }

  predicate Furnishable(tree: Node, t: TransactionComponent, k: nat) {
    k <= ROOMS && RealDirectory(tree, RootPath(t)) && VacantUpTo(tree, t, k)
  }

  lemma RoomIsNotRoot(t: TransactionComponent, k: nat)
    ensures RoomPath(t, k) != RootPath(t) && RoomPath(t, k) != [] && RoomPath(t, k)[..|RoomPath(t, k)| - 1] == RootPath(t)
    ensures RootPath(t) <= RoomPath(t, k)
  {
    hide RoomPath, RoomName, RootPath;
    RoomPathIs(t, k);
  }

  lemma {:induction false} FurnishedGains(tree: Node, t: TransactionComponent, ids: nat -> Identity, k: nat, x: Path)
    requires Furnishable(tree, t, k)
    ensures GainedRooms(tree, Furnished(tree, t, ids, k), t, ids, k, x)
  {
    hide RoomPath, RootPath, StatAt, Attach;
    if k > 0 {
      var p, before := RoomPath(t, k - 1), Furnished(tree, t, ids, k - 1);
      FurnishedGains(tree, t, ids, k - 1, RootPath(t));
      FurnishedGains(tree, t, ids, k - 1, p);
      FurnishedGains(tree, t, ids, k - 1, x);
      forall j | 0 <= j < k - 1 ensures RoomPath(t, j) != RootPath(t) && RoomPath(t, j) != p {
        RoomIsNotRoot(t, j);
        if RoomPath(t, j) == p {
          RoomPathsDiffer(t, j, k - 1);
        }
      }
      RoomIsNotRoot(t, k - 1);
      RoomStat(before, p, ids(k - 1), x);
    }
  }

  /** The part of the checkout outside the staging root does not change. */
  lemma FurnishedOutside(tree: Node, t: TransactionComponent, ids: nat -> Identity, k: nat, x: Path)
    requires Furnishable(tree, t, k) && (!(RootPath(t) <= x) || x == RootPath(t))
    ensures StatAt(Furnished(tree, t, ids, k), x) == StatAt(tree, x)
  {
    hide RoomPath, RootPath, StatAt, Furnished;
    FurnishedGains(tree, t, ids, k, x);
    forall j | 0 <= j < k ensures x != RoomPath(t, j) {
      RoomIsNotRoot(t, j);
    }
  }

  /** The next room can be resolved for creation exactly when nothing stood there at the start. */
  lemma NextRoom(tree: Node, anchor: Identity, t: TransactionComponent, ids: nat -> Identity, k: nat)
    requires k < ROOMS && AnchorHeld(tree, anchor) && Furnishable(tree, t, k)
    ensures var now := Furnished(tree, t, ids, k);
      && AnchorHeld(now, anchor) && RealAncestors(now, RoomPath(t, k))
      && StatAt(now, RoomPath(t, k)) == StatAt(tree, RoomPath(t, k))
  {
    hide RoomPath, RootPath, StatAt, Furnished;
    var now := Furnished(tree, t, ids, k);
    RoomIsNotRoot(t, k);
    FurnishedOutside(tree, t, ids, k, RootPath(t));
    AnchorIsOutside(tree, t, ids, k, anchor);
    FurnishedGains(tree, t, ids, k, RoomPath(t, k));
    forall j | 0 <= j < k ensures RoomPath(t, k) != RoomPath(t, j) {
      if RoomPath(t, k) == RoomPath(t, j) {
        RoomPathsDiffer(t, j, k);
      }
    }
    ChildOfReal(now, RoomPath(t, k));
  }

  lemma AnchorIsOutside(tree: Node, t: TransactionComponent, ids: nat -> Identity, k: nat, anchor: Identity)
    requires Furnishable(tree, t, k) && AnchorHeld(tree, anchor)
    ensures AnchorHeld(Furnished(tree, t, ids, k), anchor)
  {
    hide RootPath, Furnished;
    RoomIsNotRoot(t, 0);
    RoomPathIs(t, 0);
    FurnishedOutside(tree, t, ids, k, []);
  }

  lemma ChildOfReal(tree: Node, p: Path)
    requires p != [] && RealDirectory(tree, p[..|p| - 1])
    ensures RealAncestors(tree, p)
  {
    LstatOfChild(tree, p);
  }

  // ---- the six creations ----

  predicate SetupSucceeds(tree: Node, t: TransactionComponent, disk: Disk) {
    forall k :: 0 <= k < ROOMS ==> StatAt(tree, RoomPath(t, k)).None? && !disk.createFails(k)
  }

  method Setup(checkout: Checkout, t: TransactionComponent, disk: Disk)
    returns (r: Result<(), BoundaryError>, ghost made: nat)
    requires AnchorHeld(checkout.tree, checkout.anchor) && RealDirectory(checkout.tree, RootPath(t))
    modifies checkout
    ensures Furnishable(old(checkout.tree), t, made)
    ensures checkout.tree == Furnished(old(checkout.tree), t, disk.ids, made)
    ensures r.Success? <==> SetupSucceeds(old(checkout.tree), t, disk)
    ensures r.Success? ==> made == ROOMS
  {
    hide RoomPath, RootPath, StatAt, Attach, RealAncestors, AnchorHeld;
    ghost var start := checkout.tree;
    for k := 0 to ROOMS
      invariant checkout.tree == Furnished(start, t, disk.ids, k)
      invariant Furnishable(start, t, k)
      invariant forall j :: 0 <= j < k ==> !disk.createFails(j)
    {
      NextRoom(start, checkout.anchor, t, disk.ids, k);
      RoomIsNotRoot(t, k);
      VacantIff(checkout.tree, checkout.anchor, RoomPath(t, k));
      var vacant := ResolveRoom(checkout, t, k);
      if vacant.Failure? {
        return Failure(vacant.error), k;
      }
      if disk.createFails(k) {
        return Failure(CreateFailed), k;
      }
      checkout.CreateDirectory(RoomPath(t, k), disk.ids(k));
    }
    return Success(()), ROOMS;
  }

  method ResolveRoom(checkout: Checkout, t: TransactionComponent, k: nat) returns (r: Result<Presence, BoundaryError>)
    ensures RoomPath(t, k) != []
    ensures r == Resolve(checkout.tree, checkout.anchor, RoomPath(t, k), AbsentLeaf, false)
  {
    r := checkout.ResolvePresence(Room(t, k), AbsentLeaf, false);
  }

  // ---- the cleanup of a failed setup ----

  function NoBarriers(disk: Disk): World {
    World((i, p, tree) => BarrierOutcome(tree, true), (i, p, tree) => BarrierOutcome(tree, true),
          disk.renameFails, disk.removeFails)
  }

  function InvocationPlan(t: TransactionComponent, c: TransactionComponent, rootIdentity: Identity): CleanupPlan {
    CleanupPlan([CleanupEntry(StagingInvocation(t), DirectoryLeaf, rootIdentity)], c)
  }

  function QuarantineOf(t: TransactionComponent, c: TransactionComponent): Path {
    Quarantine(StagingInvocation(t), c).Components()
  }

  ghost predicate NoFailures(disk: Disk) {
    forall i :: !disk.renameFails(i) && disk.removeFails(i).None?
  }

  /** The staging subtree is gone and everything else is as before. */
  predicate RolledBack(before: Node, after: Node, t: TransactionComponent, x: Path) {
    StatAt(after, x) == if RootPath(t) <= x then None else StatAt(before, x)
  }

  predicate OwnsRoot(tree: Node, anchor: Identity, t: TransactionComponent, rootIdentity: Identity) {
    AnchorHeld(tree, anchor) && Owned(tree, RootPath(t), DirectoryLeaf, rootIdentity)
  }

  lemma OneEntryPlan(tree: Node, anchor: Identity, t: TransactionComponent, c: TransactionComponent, rootIdentity: Identity)
    requires OwnsRoot(tree, anchor, t, rootIdentity)
    ensures CleanupQuiet.Preflighted(tree, anchor, InvocationPlan(t, c, rootIdentity))
  {
    hide AnchorHeld, Owned;
  }

  lemma QuarantineApart(t: TransactionComponent, c: TransactionComponent)
    ensures !(RootPath(t) <= QuarantineOf(t, c)) && !(QuarantineOf(t, c) <= RootPath(t))
  {
    hide *;
    CleanupQuiet.QuarantineIsSibling(StagingInvocation(t), c);
    SiblingsAre(t, c);
  }

  lemma SiblingsAre(t: TransactionComponent, c: TransactionComponent)
    requires CleanupQuiet.Siblings(StagingInvocation(t).Components(), Quarantine(StagingInvocation(t), c).Components())
    ensures !(RootPath(t) <= QuarantineOf(t, c)) && !(QuarantineOf(t, c) <= RootPath(t))
  {
    hide Quarantined;
    CleanupQuiet.SiblingsApart(StagingInvocation(t).Components(), Quarantine(StagingInvocation(t), c).Components());
  }

  lemma PlanParts(t: TransactionComponent, c: TransactionComponent, rootIdentity: Identity)
    ensures var plan := InvocationPlan(t, c, rootIdentity);
      && |plan.entries| == 1 && Target(plan.entries[0]) == RootPath(t)
      && QuarantinePath(plan.entries[0], plan.transaction) == QuarantineOf(t, c)
      && plan.transaction == c && plan.entries[0].path == StagingInvocation(t)
      && CleanupQuiet.ExactType(plan.entries[0])
  {
    hide Quarantined;
  }

  lemma NoBarriersAreStill(disk: Disk)
    ensures CleanupQuiet.Still(NoBarriers(disk))
    ensures NoFailures(disk) ==> CleanupQuiet.Quiet(NoBarriers(disk))
  {
  }

  /** Without failures the cleanup of an owned invocation completes exactly when its quarantine name is free, and
      then the staging subtree is gone. */
  lemma CleanupRollsBack(tree: Node, anchor: Identity, t: TransactionComponent, c: TransactionComponent,
                         rootIdentity: Identity, disk: Disk, x: Path)
    requires OwnsRoot(tree, anchor, t, rootIdentity) && NoFailures(disk)
    ensures var run := Execute(NoBarriers(disk), anchor, InvocationPlan(t, c, rootIdentity), tree);
      && (run.ending == Completed <==> StatAt(tree, QuarantineOf(t, c)).None?)
      && (run.ending == Completed ==> RolledBack(tree, run.tree, t, x))
  {
    hide Execute, NoBarriers, InvocationPlan, OwnsRoot, StatAt, RootPath, QuarantineOf, Target, QuarantinePath, DetachAll;
    var plan := InvocationPlan(t, c, rootIdentity);
    OneEntryPlan(tree, anchor, t, c, rootIdentity);
    NoBarriersAreStill(disk);
    PlanParts(t, c, rootIdentity);
    CleanupQuiet.QuietRunCompletesIff(NoBarriers(disk), anchor, plan, tree);
    assert CleanupQuiet.QuarantineFree(tree, plan, 0) <==> StatAt(tree, QuarantineOf(t, c)).None?;
    CleanupQuiet.PlannedSubtreesGone(tree, plan, x);
  }

  lemma CleanupStaysInside(tree: Node, anchor: Identity, t: TransactionComponent, c: TransactionComponent,
                           rootIdentity: Identity, disk: Disk, x: Path)
    requires !(RootPath(t) <= x) && !(QuarantineOf(t, c) <= x)
    ensures StatAt(Execute(NoBarriers(disk), anchor, InvocationPlan(t, c, rootIdentity), tree).tree, x) == StatAt(tree, x)
  {
    hide Execute, NoBarriers, InvocationPlan, StatAt, RootPath, QuarantineOf, Target, QuarantinePath;
    PlanParts(t, c, rootIdentity);
    NoBarriersAreStill(disk);
    CleanupQuiet.OutsideUntouched(NoBarriers(disk), anchor, InvocationPlan(t, c, rootIdentity), tree, x);
  }

  // ---- initialization ----

  /** Every room path can be named: below a real directory presence never fails when absence is tolerated. */
  lemma RoomsCanBeNamed(tree: Node, anchor: Identity, t: TransactionComponent, k: nat)
    requires AnchorHeld(tree, anchor) && RealDirectory(tree, RootPath(t))
    ensures RoomPath(t, k) != []
    ensures var r := Resolve(tree, anchor, RoomPath(t, k), AnyLeaf, true);
      r.Success? && r.value.resolved.path == RoomPath(t, k)
  {
    hide RoomPath, RootPath, StatAt;
    RoomIsNotRoot(t, k);
    ChildOfReal(tree, RoomPath(t, k));
  }

  method NameRoom(checkout: Checkout, t: TransactionComponent, k: nat) returns (room: Path)
    requires AnchorHeld(checkout.tree, checkout.anchor) && RealDirectory(checkout.tree, RootPath(t))
    ensures room == RoomPath(t, k)
  {
    RoomsCanBeNamed(checkout.tree, checkout.anchor, t, k);
    RoomPathOf(t, k);
    hide *;
    var r := checkout.ResolvePresence(Room(t, k), AnyLeaf, true);
    return r.value.resolved.path;
  }

  lemma RoomPathOf(t: TransactionComponent, k: nat)
    ensures RoomPath(t, k) == Room(t, k).Components()
  {
    hide IsTransaction;
  }

  method NameRooms(checkout: Checkout, t: TransactionComponent) returns (rooms: seq<Path>)
    requires AnchorHeld(checkout.tree, checkout.anchor) && RealDirectory(checkout.tree, RootPath(t))
    ensures |rooms| == ROOMS && forall k :: 0 <= k < ROOMS ==> rooms[k] == RoomPath(t, k)
  {
    hide *;
    rooms := [];
    for k := 0 to ROOMS
      invariant |rooms| == k && forall j :: 0 <= j < k ==> rooms[j] == RoomPath(t, j)
    {
      var room := NameRoom(checkout, t, k);
      rooms := rooms + [room];
    }
  }

  /** Success exactly when the invocation root is still the owned directory, no room exists yet and every creation
      works; then the six rooms are all that is new. A failure after that point leaves nothing outside the staging
      root and its quarantine changed, and with a free quarantine name and no failing call it leaves no trace of
      the invocation at all. */
  method InitializeReserved(checkout: Checkout, t: TransactionComponent, c: TransactionComponent,
                            rootIdentity: Identity, disk: Disk)
    returns (r: Result<StagingLayout, StagingError>)
    modifies checkout
    ensures r.Success? <==>
      OwnsRoot(old(checkout.tree), checkout.anchor, t, rootIdentity) && SetupSucceeds(old(checkout.tree), t, disk)
    ensures r.Success? ==> forall x :: GainedRooms(old(checkout.tree), checkout.tree, t, disk.ids, ROOMS, x)
    ensures r.Success? ==> r.value == StagingLayout(RoomPaths(t), RootPath(t), t, rootIdentity)
    ensures !OwnsRoot(old(checkout.tree), checkout.anchor, t, rootIdentity) ==> checkout.tree == old(checkout.tree)
    ensures r.Failure? && OwnsRoot(old(checkout.tree), checkout.anchor, t, rootIdentity) ==>
      CleanedUp(old(checkout.tree), checkout.tree, t, c, disk, r.error.cleanup.None?)
  {
    hide *;
    ghost var start := checkout.tree;
    var owned := ResolveRoot(checkout, t, rootIdentity);
    if owned.Failure? {
      return Failure(StagingError(owned.error, None));
    }
    OwnedRootIsReal(start, checkout.anchor, t, rootIdentity);
    var rooms := NameRooms(checkout, t);
    var setup: Result<(), BoundaryError>;
    ghost var made;
    setup, made := Setup(checkout, t, disk);
    if setup.Success? {
      forall x ensures GainedRooms(start, checkout.tree, t, disk.ids, ROOMS, x) {
        FurnishedGains(start, t, disk.ids, ROOMS, x);
      }
      assert rooms == RoomPaths(t);
      return Success(StagingLayout(rooms, owned.value.path, t, rootIdentity));
    }
    StillOwned(start, checkout.anchor, t, disk.ids, made, rootIdentity);
    ghost var furnished := checkout.tree;
    var cleanup := CleanUp(checkout, t, c, rootIdentity, disk);
    FailureComposes(start, furnished, checkout.tree, t, c, disk, made, cleanup.None?);
    return Failure(StagingError(setup.error, cleanup));
  }

  method ResolveRoot(checkout: Checkout, t: TransactionComponent, rootIdentity: Identity)
    returns (r: Result<Resolved, BoundaryError>)
    ensures r.Success? <==> OwnsRoot(checkout.tree, checkout.anchor, t, rootIdentity)
    ensures r.Success? ==> r.value.path == RootPath(t)
  {
    hide AnchorHeld, Owned, StatAt;
    OwnedIff(checkout.tree, checkout.anchor, RootPath(t), DirectoryLeaf, rootIdentity);
    r := checkout.ResolveIdentity(StagingInvocation(t), DirectoryLeaf, rootIdentity);
  }

  lemma OwnedRootIsReal(tree: Node, anchor: Identity, t: TransactionComponent, rootIdentity: Identity)
    requires OwnsRoot(tree, anchor, t, rootIdentity)
    ensures AnchorHeld(tree, anchor) && RealDirectory(tree, RootPath(t))
  {
    hide RootPath, AnchorHeld, StatAt;
  }

  lemma StillOwned(tree: Node, anchor: Identity, t: TransactionComponent, ids: nat -> Identity, k: nat, rootIdentity: Identity)
    requires OwnsRoot(tree, anchor, t, rootIdentity) && Furnishable(tree, t, k)
    ensures OwnsRoot(Furnished(tree, t, ids, k), anchor, t, rootIdentity)
  {
    hide RootPath, AnchorHeld, StatAt, Furnished, Furnishable;
    AnchorIsOutside(tree, t, ids, k, anchor);
    FurnishedOutside(tree, t, ids, k, RootPath(t));
  }

  /** Furnishing and then cleaning up is, seen from the start, a cleanup. */
  lemma FailureComposes(start: Node, furnished: Node, after: Node, t: TransactionComponent, c: TransactionComponent,
                        disk: Disk, k: nat, finished: bool)
    requires Furnishable(start, t, k) && furnished == Furnished(start, t, disk.ids, k)
    requires CleanedUp(furnished, after, t, c, disk, finished)
    ensures CleanedUp(start, after, t, c, disk, finished)
  {
    hide RootPath, QuarantineOf, StatAt, Furnished, Furnishable, NoFailures, RolledBack;
    forall x | !(RootPath(t) <= x) && !(QuarantineOf(t, c) <= x) ensures StatAt(after, x) == StatAt(start, x) {
      FurnishedOutside(start, t, disk.ids, k, x);
    }
    QuarantineApart(t, c);
    FurnishedOutside(start, t, disk.ids, k, QuarantineOf(t, c));
    if NoFailures(disk) && finished {
      forall x ensures RolledBack(start, after, t, x) {
        RollbackComposes(start, furnished, after, t, disk.ids, k, x);
      }
    }
  }

  lemma RollbackComposes(start: Node, furnished: Node, after: Node, t: TransactionComponent, ids: nat -> Identity, k: nat, x: Path)
    requires Furnishable(start, t, k) && furnished == Furnished(start, t, ids, k)
    requires RolledBack(furnished, after, t, x)
    ensures RolledBack(start, after, t, x)
  {
    hide RootPath, StatAt, Furnished, Furnishable;
    if !(RootPath(t) <= x) {
      FurnishedOutside(start, t, ids, k, x);
    }
  }

  /** What the cleanup leaves behind and whether it finished. */
  ghost predicate CleanedUp(start: Node, after: Node, t: TransactionComponent, c: TransactionComponent, disk: Disk, finished: bool) {
    && (forall x :: !(RootPath(t) <= x) && !(QuarantineOf(t, c) <= x) ==> StatAt(after, x) == StatAt(start, x))
    && (NoFailures(disk) ==> (finished <==> StatAt(start, QuarantineOf(t, c)).None?))
    && (NoFailures(disk) && finished ==> forall x :: RolledBack(start, after, t, x))
  }

  lemma CleanupMeets(tree: Node, anchor: Identity, t: TransactionComponent, c: TransactionComponent,
                     rootIdentity: Identity, disk: Disk)
    requires OwnsRoot(tree, anchor, t, rootIdentity)
    ensures var run := Execute(NoBarriers(disk), anchor, InvocationPlan(t, c, rootIdentity), tree);
      run.ending != Aborted && CleanedUp(tree, run.tree, t, c, disk, run.ending == Completed)
  {
    hide Execute, NoBarriers, InvocationPlan, OwnsRoot, StatAt, RootPath, QuarantineOf, NoFailures, RolledBack;
    var run := Execute(NoBarriers(disk), anchor, InvocationPlan(t, c, rootIdentity), tree);
    NeverAborts(tree, anchor, t, c, rootIdentity, disk);
    forall x | !(RootPath(t) <= x) && !(QuarantineOf(t, c) <= x) ensures StatAt(run.tree, x) == StatAt(tree, x) {
      CleanupStaysInside(tree, anchor, t, c, rootIdentity, disk, x);
    }
    if NoFailures(disk) {
      CleanupRollsBack(tree, anchor, t, c, rootIdentity, disk, []);
      if run.ending == Completed {
        forall x ensures RolledBack(tree, run.tree, t, x) {
          CleanupRollsBack(tree, anchor, t, c, rootIdentity, disk, x);
        }
      }
    }
  }

  method CleanUp(checkout: Checkout, t: TransactionComponent, c: TransactionComponent, rootIdentity: Identity, disk: Disk)
    returns (r: Option<BoundaryError>)
    requires OwnsRoot(checkout.tree, checkout.anchor, t, rootIdentity)
    modifies checkout
    ensures CleanedUp(old(checkout.tree), checkout.tree, t, c, disk, r.None?)
  {
    ghost var start := checkout.tree;
    hide *;
    var plan := InvocationPlan(t, c, rootIdentity);
    OneEntryPlan(start, checkout.anchor, t, c, rootIdentity);
    PreflightedParts(start, checkout.anchor, plan);
    CleanupMeets(start, checkout.anchor, t, c, rootIdentity, disk);
    var preflight := Preflight(checkout, plan);
    if preflight.Failure? {
      assert false;
    }
    var report, ending := ExecuteWith(checkout, NoBarriers(disk), plan);
    match ending {
      case Completed => return None;
      case Failed(error) => return Some(error);
      case Aborted => assert false;
    }
  }

  lemma PreflightedParts(tree: Node, anchor: Identity, plan: CleanupPlan)
    requires CleanupQuiet.Preflighted(tree, anchor, plan)
    ensures PairwiseApart(plan.entries) && OwnsAll(tree, anchor, plan.entries)
  {
  }

  lemma NeverAborts(tree: Node, anchor: Identity, t: TransactionComponent, c: TransactionComponent, rootIdentity: Identity, disk: Disk)
    ensures Execute(NoBarriers(disk), anchor, InvocationPlan(t, c, rootIdentity), tree).ending != Aborted
  {
    hide Execute, NoBarriers;
    CleanupSafety.ExactTypesNeverAbort(NoBarriers(disk), anchor, InvocationPlan(t, c, rootIdentity), tree);
  }
}
