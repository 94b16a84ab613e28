/** The cleanup transaction: a preflighted plan whose targets are moved aside one by one and deleted, with
    two points per target at which the rest of the world may rewrite the checkout. */
module Cleanup {
  import opened Wrappers
  import opened FileTrees
  import opened ReservedPaths
  import opened Boundary

  datatype CleanupEntry = CleanupEntry(path: ReservedPath, expectedType: ExpectedLeaf, expectedIdentity: Identity)

  datatype CleanupReport = CleanupReport(
    attempted: seq<ReservedPath>,
    deleted: seq<ReservedPath>,
    preserved: seq<ReservedPath>,
    residual: seq<ReservedPath>)

  datatype CleanupPlan = CleanupPlan(entries: seq<CleanupEntry>, transaction: TransactionComponent)

  function Paths(entries: seq<CleanupEntry>): (r: seq<ReservedPath>)
    ensures |r| == |entries|
  {
    seq(|entries|, i requires 0 <= i < |entries| => entries[i].path)
  }

  /** What a barrier callback leaves behind, and whether it let the cleanup go on. */
  datatype BarrierOutcome = BarrierOutcome(tree: Node, ok: bool)

  /** A barrier sees which entry is being worked on, the path it is called with and the whole checkout. */
  type Barrier = (nat, ReservedPath, Node) -> BarrierOutcome

  /** Everything the cleanup does not control. */
  datatype World = World(
    finalBarrier: Barrier,
    quarantineBarrier: Barrier,
    renameFails: nat -> bool,
    removeFails: nat -> Option<seq<(string, Path)>>)

  datatype Outcome = Deleted | Refused(error: BoundaryError) | Panicked

  datatype Attempted = Attempted(tree: Node, log: seq<Effect>, residual: ReservedPath, outcome: Outcome)

  function Target(e: CleanupEntry): (p: Path)
    ensures p != []
  {
    e.path.Components()
  }

  function QuarantinePath(e: CleanupEntry, transaction: TransactionComponent): (q: Path)
    ensures q != []
  {
    Quarantine(e.path, transaction).Components()
  }

  // ---- one entry ----

  /** Resolve, let the world act, resolve again, and move the target aside. */
  function MoveAside(w: World, anchor: Identity, i: nat, e: CleanupEntry, t: TransactionComponent, tree: Node): Attempted {
    var p, q := Target(e), QuarantinePath(e, t);
    var first := ResolveOwned(tree, anchor, p, e.expectedType, e.expectedIdentity);
    if first.Failure? then Attempted(tree, [], e.path, Refused(first.error))
    else
      var b := w.finalBarrier(i, e.path, tree);
      var second := ResolveOwned(b.tree, anchor, p, e.expectedType, e.expectedIdentity);
      if !b.ok then Attempted(b.tree, [], e.path, Refused(BarrierFailed))
      else if second.Failure? then Attempted(b.tree, [], e.path, Refused(second.error))
      else
        var vacant := Resolve(b.tree, anchor, q, AbsentLeaf, false);
        if vacant.Failure? then Attempted(b.tree, [], e.path, Refused(vacant.error))
        else if w.renameFails(i) then Attempted(b.tree, [], e.path, Refused(RenameFailed))
        else
          OwnedIff(b.tree, anchor, p, e.expectedType, e.expectedIdentity);
          Attempted(Move(b.tree, p, q), [Renamed(StatAt(b.tree, p).value, p, q)], Quarantine(e.path, t), Deleted)
  }

  /** With the target in quarantine: let the world act, resolve once more, and delete. */
  function DeleteQuarantined(w: World, anchor: Identity, i: nat, e: CleanupEntry, t: TransactionComponent, tree: Node)
    : Attempted
  {
    var path := Quarantine(e.path, t);
    var q := QuarantinePath(e, t);
    var b := w.quarantineBarrier(i, path, tree);
    var found := ResolveOwned(b.tree, anchor, q, e.expectedType, e.expectedIdentity);
    if !b.ok then Attempted(b.tree, [], path, Refused(BarrierFailed))
    else if found.Failure? then Attempted(b.tree, [], path, Refused(found.error))
    else if e.expectedType in {AnyLeaf, AbsentLeaf} then Attempted(b.tree, [], path, Panicked)
    else
      OwnedIff(b.tree, anchor, q, e.expectedType, e.expectedIdentity);
      var stat := StatAt(b.tree, q).value;
      match w.removeFails(i)
      case Some(gone) => Attempted(DetachAll(b.tree, Below(q, gone)), [PartlyRemoved(stat, q)], path, Refused(RemoveFailed))
      case None => Attempted(Detach(b.tree, q), [Removed(stat, q)], path, Deleted)
  }

  function Attempt(w: World, anchor: Identity, i: nat, e: CleanupEntry, t: TransactionComponent, tree: Node): Attempted {
    var moved := MoveAside(w, anchor, i, e, t, tree);
    if moved.outcome != Deleted then moved
    else
      var done := DeleteQuarantined(w, anchor, i, e, t, moved.tree);
      done.(log := moved.log + done.log)
  }

  // ---- the whole plan ----

  datatype Ending = Completed | Failed(error: BoundaryError) | Aborted

  datatype Run = Run(tree: Node, log: seq<Effect>, report: CleanupReport, ending: Ending)

  const EMPTY_REPORT := CleanupReport([], [], [], [])

  /** Book one attempt into the run. */
  function Advance(plan: CleanupPlan, i: nat, sofar: Run, a: Attempted): Run
    requires i < |plan.entries|
  {
    var e := plan.entries[i];
    var log := sofar.log + a.log;
    var report := sofar.report.(attempted := sofar.report.attempted + [e.path]);
    match a.outcome
    case Deleted => Run(a.tree, log, report.(deleted := report.deleted + [e.path]), Completed)
    case Refused(error) =>
      Run(a.tree, log,
          report.(residual := report.residual + [a.residual],
                  preserved := report.preserved + Paths(plan.entries[i + 1..])), Failed(error))
    case Panicked => Run(a.tree, log, report, Aborted)
  }

  function RunFrom(w: World, anchor: Identity, plan: CleanupPlan, i: nat, sofar: Run): Run
    requires i <= |plan.entries|
    decreases |plan.entries| - i
  {
    if i == |plan.entries| then sofar
    else
      var a := Attempt(w, anchor, i, plan.entries[i], plan.transaction, sofar.tree);
      var next := Advance(plan, i, sofar, a);
      if a.outcome == Deleted then RunFrom(w, anchor, plan, i + 1, next) else next
  }

  function Execute(w: World, anchor: Identity, plan: CleanupPlan, tree: Node): Run {
    RunFrom(w, anchor, plan, 0, Run(tree, [], EMPTY_REPORT, Completed))
  }

  // ---- preflight ----

  function Targets(entries: seq<CleanupEntry>): (r: seq<Path>)
    ensures |r| == |entries|
    ensures forall p :: p in r ==> p != []
  {
    seq(|entries|, i requires 0 <= i < |entries| => Target(entries[i]))
  }

  predicate ApartUpTo(entries: seq<CleanupEntry>, n: nat)
    requires n <= |entries|
  {
    forall i, j :: 0 <= i < j < n ==> !Overlap(Target(entries[i]), Target(entries[j]))
  }

  predicate PairwiseApart(entries: seq<CleanupEntry>) {
    ApartUpTo(entries, |entries|)
  }

  predicate OwnsUpTo(tree: Node, anchor: Identity, entries: seq<CleanupEntry>, n: nat)
    requires n <= |entries|
  {
    forall i :: 0 <= i < n ==>
      AnchorHeld(tree, anchor)
      && Owned(tree, Target(entries[i]), entries[i].expectedType, entries[i].expectedIdentity)
  }

  predicate OwnsAll(tree: Node, anchor: Identity, entries: seq<CleanupEntry>) {
    OwnsUpTo(tree, anchor, entries, |entries|)
  }

  /** Enter one rendered target into the set of names seen so far. */
  method Register(names: set<Path>, relative: Path) returns (r: Result<set<Path>, BoundaryError>)
    ensures r.Success? ==> r.value == names + {relative}
    ensures r.Success? <==> forall other :: other in names ==> !Overlap(other, relative)
    ensures r == Failure(DuplicateTarget) <==> relative in names
  {
    if relative in names {
      assert Overlap(relative, relative);
      return Failure(DuplicateTarget);
    }
    var names' := names + {relative};
    if exists other :: other in names' && other != relative && Overlap(other, relative) {
      return Failure(OverlappingTarget);
    }
    return Success(names');
  }

  /** Preflight accepts exactly the plans whose targets are pairwise prefix-incomparable and all owned. */
  method Preflight(checkout: Checkout, plan: CleanupPlan) returns (r: Result<(), BoundaryError>)
    ensures r.Success? <==> PairwiseApart(plan.entries) && OwnsAll(checkout.tree, checkout.anchor, plan.entries)
  {
    hide Target, Overlap, Owned;
    var entries := plan.entries;
    var names: set<Path> := {};
    for i := 0 to |entries|
      invariant forall k :: 0 <= k < i ==> Target(entries[k]) in names
      invariant forall p :: p in names ==> exists k :: 0 <= k < i && Target(entries[k]) == p
      invariant ApartUpTo(entries, i)
      invariant OwnsUpTo(checkout.tree, checkout.anchor, entries, i)
    {
      var e := entries[i];
      var registered := Register(names, Target(e));
      if registered.Failure? {
        return Failure(registered.error);
      }
      names := registered.value;
      var owned := Resolves(checkout, e);
      if owned.Failure? {
        return Failure(owned.error);
      }
    }
    return Success(());
  }

  method Resolves(checkout: Checkout, e: CleanupEntry) returns (r: Result<Resolved, BoundaryError>)
    ensures r.Success? <==> AnchorHeld(checkout.tree, checkout.anchor)
                            && Owned(checkout.tree, Target(e), e.expectedType, e.expectedIdentity)
  {
    OwnedIff(checkout.tree, checkout.anchor, Target(e), e.expectedType, e.expectedIdentity);
    r := checkout.ResolveIdentity(e.path, e.expectedType, e.expectedIdentity);
  }

  // ---- execution ----

  method ExecuteMoveAside(checkout: Checkout, w: World, i: nat, e: CleanupEntry, t: TransactionComponent)
    returns (residual: ReservedPath, outcome: Outcome)
    modifies checkout
    ensures var a := MoveAside(w, checkout.anchor, i, e, t, old(checkout.tree));
            && checkout.tree == a.tree && checkout.log == old(checkout.log) + a.log
            && residual == a.residual && outcome == a.outcome
  {
    residual := e.path;
    var resolved := checkout.ResolveIdentity(e.path, e.expectedType, e.expectedIdentity);
    if resolved.Failure? {
      return residual, Refused(resolved.error);
    }
    var b := w.finalBarrier(i, e.path, checkout.tree);
    checkout.Interfere(b.tree);
    if !b.ok {
      return residual, Refused(BarrierFailed);
    }
    resolved := checkout.ResolveIdentity(e.path, e.expectedType, e.expectedIdentity);
    if resolved.Failure? {
      return residual, Refused(resolved.error);
    }
    OwnedIff(checkout.tree, checkout.anchor, Target(e), e.expectedType, e.expectedIdentity);
    ParentHolds(checkout.tree, checkout.anchor, Target(e), e.expectedType, e.expectedIdentity);
    var absolute := resolved.value.path;
    var parent := Lstat(checkout.tree, absolute[..|absolute| - 1]);
    if parent != Found(Stat(DirectoryKind, resolved.value.parentIdentity)) {
      assert false;
    }
    var quarantine := Quarantine(e.path, t);
    var vacant := checkout.ResolvePresence(quarantine, AbsentLeaf, false);
    if vacant.Failure? {
      return residual, Refused(vacant.error);
    }
    VacantIff(checkout.tree, checkout.anchor, quarantine.Components());
    if w.renameFails(i) {
      return residual, Refused(RenameFailed);
    }
    checkout.Rename(absolute, quarantine.Components());
    return quarantine, Deleted;
  }

  method ExecuteDelete(checkout: Checkout, w: World, i: nat, e: CleanupEntry, t: TransactionComponent)
    returns (residual: ReservedPath, outcome: Outcome)
    modifies checkout
    ensures var a := DeleteQuarantined(w, checkout.anchor, i, e, t, old(checkout.tree));
            && checkout.tree == a.tree && checkout.log == old(checkout.log) + a.log
            && residual == a.residual && outcome == a.outcome
  {
    residual := Quarantine(e.path, t);
    var b := w.quarantineBarrier(i, residual, checkout.tree);
    checkout.Interfere(b.tree);
    if !b.ok {
      return residual, Refused(BarrierFailed);
    }
    var quarantined := checkout.ResolveIdentity(residual, e.expectedType, e.expectedIdentity);
    if quarantined.Failure? {
      return residual, Refused(quarantined.error);
    }
    OwnedIff(checkout.tree, checkout.anchor, residual.Components(), e.expectedType, e.expectedIdentity);
    match e.expectedType {
      case AnyLeaf => return residual, Panicked;
      case AbsentLeaf => assert false;
      case _ =>
        match w.removeFails(i) {
          case Some(gone) =>
            checkout.RemovePartly(quarantined.value.path, gone);
            return residual, Refused(RemoveFailed);
          case None =>
            checkout.Remove(quarantined.value.path);
            return residual, Deleted;
        }
    }
  }

  lemma ParentHolds(tree: Node, anchor: Identity, p: Path, expected: ExpectedLeaf, owned: Identity)
    requires p != [] && ResolveOwned(tree, anchor, p, expected, owned).Success?
    ensures var r := ResolveOwned(tree, anchor, p, expected, owned).value;
            && r.path == p
            && Lstat(tree, p[..|p| - 1]) == Found(Stat(DirectoryKind, r.parentIdentity))
  {
    var r := ResolveOwned(tree, anchor, p, expected, owned).value;
    var presence := Resolve(tree, anchor, p, expected, false).value;
    assert presence.Present?;
    PresentIff(tree, anchor, p, expected, false, r);
    LstatOfFound(tree, p[..|p| - 1]);
  }

  lemma AttemptSplits(w: World, anchor: Identity, i: nat, e: CleanupEntry, t: TransactionComponent, tree: Node)
    ensures var moved := MoveAside(w, anchor, i, e, t, tree);
            Attempt(w, anchor, i, e, t, tree) ==
            if moved.outcome != Deleted then moved
            else
              var done := DeleteQuarantined(w, anchor, i, e, t, moved.tree);
              done.(log := moved.log + done.log)
  {
    hide MoveAside, DeleteQuarantined;
  }

  method ExecuteAttempt(checkout: Checkout, w: World, i: nat, e: CleanupEntry, t: TransactionComponent)
    returns (residual: ReservedPath, outcome: Outcome)
    modifies checkout
    ensures var a := Attempt(w, checkout.anchor, i, e, t, old(checkout.tree));
            && checkout.tree == a.tree && checkout.log == old(checkout.log) + a.log
            && residual == a.residual && outcome == a.outcome
  {
    ghost var moved := MoveAside(w, checkout.anchor, i, e, t, checkout.tree);
    ghost var done := DeleteQuarantined(w, checkout.anchor, i, e, t, moved.tree);
    AttemptSplits(w, checkout.anchor, i, e, t, checkout.tree);
    hide *;
    residual, outcome := ExecuteMoveAside(checkout, w, i, e, t);
    if outcome == Deleted {
      residual, outcome := ExecuteDelete(checkout, w, i, e, t);
      assert checkout.log == old(checkout.log) + moved.log + done.log;
      LogConcat(old(checkout.log), moved.log, done.log);
    }
  }

  lemma LogConcat(a: seq<Effect>, b: seq<Effect>, c: seq<Effect>)
    ensures a + b + c == a + (b + c)
  {
  }

  lemma RunStep(w: World, anchor: Identity, plan: CleanupPlan, i: nat, sofar: Run)
    requires i < |plan.entries|
    ensures var a := Attempt(w, anchor, i, plan.entries[i], plan.transaction, sofar.tree);
            RunFrom(w, anchor, plan, i, sofar) ==
            if a.outcome == Deleted then RunFrom(w, anchor, plan, i + 1, Advance(plan, i, sofar, a))
            else Advance(plan, i, sofar, a)
  {
    hide Attempt;
  }

  /** The cleanup loop is the run its specification describes, whatever the world does. */
  method ExecuteWith(checkout: Checkout, w: World, plan: CleanupPlan) returns (report: CleanupReport, ending: Ending)
    modifies checkout
    ensures var run := Execute(w, checkout.anchor, plan, old(checkout.tree));
            && checkout.tree == run.tree && checkout.log == old(checkout.log) + run.log
            && report == run.report && ending == run.ending
  {
    hide Attempt;
    report := EMPTY_REPORT;
    ghost var effects: seq<Effect> := [];
    ghost var start := checkout.tree;
    for index := 0 to |plan.entries|
      invariant checkout.log == old(checkout.log) + effects
      invariant Execute(w, checkout.anchor, plan, start)
             == RunFrom(w, checkout.anchor, plan, index, Run(checkout.tree, effects, report, Completed))
    {
      var entry := plan.entries[index];
      ghost var sofar := Run(checkout.tree, effects, report, Completed);
      ghost var a := Attempt(w, checkout.anchor, index, entry, plan.transaction, checkout.tree);
      RunStep(w, checkout.anchor, plan, index, sofar);
      report := report.(attempted := report.attempted + [entry.path]);
      var residual, outcome := ExecuteAttempt(checkout, w, index, entry, plan.transaction);
      LogConcat(old(checkout.log), effects, a.log);
      effects := effects + a.log;
      match outcome {
        case Deleted =>
          report := report.(deleted := report.deleted + [entry.path]);
          assert Run(checkout.tree, effects, report, Completed) == Advance(plan, index, sofar, a);
        case Refused(error) =>
          report := report.(residual := report.residual + [residual],
                            preserved := report.preserved + Paths(plan.entries[index + 1..]));
          return report, Failed(error);
        case Panicked =>
          return report, Aborted;
      }
    }
    ending := Completed;
  }
}
