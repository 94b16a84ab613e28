/** What holds of every cleanup run, whatever the rest of the world does at the barriers and whichever
    filesystem calls fail. */
module CleanupSafety {
  import opened Wrappers
  import opened FileTrees
  import opened ReservedPaths
  import opened Boundary
  import opened Cleanup

  /** The node has the type and the identity the entry recorded. */
  predicate IsRecorded(e: CleanupEntry, stat: Stat) {
    Matches(e.expectedType, stat.kind) && stat.id == e.expectedIdentity
  }

  /** The call acted on the recorded node of `e`, moving it only from its own path into its quarantine and
      deleting it only there. */
  predicate Justified(e: CleanupEntry, t: TransactionComponent, f: Effect) {
    match f
    case Renamed(stat, from, to) => IsRecorded(e, stat) && from == Target(e) && to == QuarantinePath(e, t)
    case Removed(stat, at) => IsRecorded(e, stat) && at == QuarantinePath(e, t)
    case PartlyRemoved(stat, at) => IsRecorded(e, stat) && at == QuarantinePath(e, t)
    case Created(_) => false
  }

  // ---- one attempt ----

  predicate MovedShape(e: CleanupEntry, t: TransactionComponent, a: Attempted) {
    match a.outcome
    case Deleted => |a.log| == 1 && a.log[0].Renamed? && Justified(e, t, a.log[0])
    case Refused(_) => a.log == [] && a.residual == e.path
    case Panicked => false
  }

  lemma MoveAsideLog(w: World, anchor: Identity, i: nat, e: CleanupEntry, t: TransactionComponent, tree: Node)
    ensures var a, there := MoveAside(w, anchor, i, e, t, tree), w.finalBarrier(i, e.path, tree).tree;
            match a.outcome
            case Deleted =>
              && ResolveOwned(there, anchor, Target(e), e.expectedType, e.expectedIdentity).Success?
              && StatAt(there, Target(e)).Some?
              && a.log == [Renamed(StatAt(there, Target(e)).value, Target(e), QuarantinePath(e, t))]
            case Refused(_) => a.log == [] && a.residual == e.path
            case Panicked => false
  {
    hide ResolveOwned, Resolve, Move, StatAt, AnchorHeld, Owned, IsRecorded, RealAncestors, Target, QuarantinePath;
    var p, there := Target(e), w.finalBarrier(i, e.path, tree).tree;
    OwnedIff(there, anchor, p, e.expectedType, e.expectedIdentity);
    OwnedIsRecorded(there, p, e);
  }

  lemma MoveAsideShape(w: World, anchor: Identity, i: nat, e: CleanupEntry, t: TransactionComponent, tree: Node)
    ensures MovedShape(e, t, MoveAside(w, anchor, i, e, t, tree))
  {
    var there := w.finalBarrier(i, e.path, tree).tree;
    OwnedIff(there, anchor, Target(e), e.expectedType, e.expectedIdentity);
    hide MoveAside, ResolveOwned, StatAt, Target, QuarantinePath, AnchorHeld, Owned, IsRecorded, RealAncestors;
    MoveAsideLog(w, anchor, i, e, t, tree);
    OwnedIsRecorded(there, Target(e), e);
  }

  lemma OwnedIsRecorded(tree: Node, p: Path, e: CleanupEntry)
    ensures Owned(tree, p, e.expectedType, e.expectedIdentity) ==>
      StatAt(tree, p).Some? && IsRecorded(e, StatAt(tree, p).value) && e.expectedType != AbsentLeaf
  {
    hide StatAt;
  }

  predicate DeletedShape(e: CleanupEntry, t: TransactionComponent, a: Attempted) {
    && a.residual == Quarantine(e.path, t)
    && match a.outcome
       case Deleted => |a.log| == 1 && a.log[0].Removed? && Justified(e, t, a.log[0])
       case Refused(_) => a.log == [] || (|a.log| == 1 && a.log[0].PartlyRemoved? && Justified(e, t, a.log[0]))
       case Panicked => a.log == [] && e.expectedType == AnyLeaf
  }

  lemma DeleteQuarantinedShape(w: World, anchor: Identity, i: nat, e: CleanupEntry, t: TransactionComponent, tree: Node)
    ensures DeletedShape(e, t, DeleteQuarantined(w, anchor, i, e, t, tree))
  {
    hide ResolveOwned, Resolve, Detach, DetachAll, Below, StatAt, RealAncestors, AnchorHeld, Owned, IsRecorded;
    hide Target, QuarantinePath;
    var b := w.quarantineBarrier(i, Quarantine(e.path, t), tree);
    OwnedIff(b.tree, anchor, QuarantinePath(e, t), e.expectedType, e.expectedIdentity);
    OwnedIsRecorded(b.tree, QuarantinePath(e, t), e);
  }

  /** An entry ends deleted after one rename and one removal of the recorded node, refused with nothing moved
      and itself as the residual, refused after the rename with its quarantine as the residual, or, only when
      its type was left open, aborted in quarantine. */
  predicate AttemptShape(e: CleanupEntry, t: TransactionComponent, a: Attempted) {
    && (forall f :: f in a.log ==> Justified(e, t, f))
    && match a.outcome
       case Deleted => |a.log| == 2 && a.log[0].Renamed? && a.log[1].Removed?
       case Refused(_) =>
         if a.log == [] then a.residual == e.path
         else a.residual == Quarantine(e.path, t) && a.log[0].Renamed?
              && (forall k :: 0 < k < |a.log| ==> a.log[k].PartlyRemoved?)
       case Panicked => e.expectedType == AnyLeaf && a.residual == Quarantine(e.path, t)
  }

  lemma AttemptHasShape(w: World, anchor: Identity, i: nat, e: CleanupEntry, t: TransactionComponent, tree: Node)
    ensures AttemptShape(e, t, Attempt(w, anchor, i, e, t, tree))
  {
    hide MoveAside, DeleteQuarantined, Justified;
    var moved := MoveAside(w, anchor, i, e, t, tree);
    MoveAsideShape(w, anchor, i, e, t, tree);
    DeleteQuarantinedShape(w, anchor, i, e, t, moved.tree);
  }

  // ---- whole runs ----

  ghost predicate LogJustified(plan: CleanupPlan, log: seq<Effect>) {
    forall f :: f in log ==>
      exists i :: 0 <= i < |plan.entries| && Justified(plan.entries[i], plan.transaction, f)
  }

  /** The report after the first `i` entries went through. */
  predicate UpTo(plan: CleanupPlan, i: nat, report: CleanupReport) {
    i <= |plan.entries|
    && report == CleanupReport(Paths(plan.entries[..i]), Paths(plan.entries[..i]), [], [])
  }

  /** A run that stopped at entry `k`: everything before it is deleted, everything after it is preserved, and
      it is itself left at its own path or in its quarantine. */
  predicate StoppedAt(plan: CleanupPlan, k: nat, report: CleanupReport) {
    k < |plan.entries|
    && var e := plan.entries[k];
       && report.deleted == Paths(plan.entries[..k])
       && report.attempted == Paths(plan.entries[..k]) + [e.path]
       && report.preserved == Paths(plan.entries[k + 1..])
       && report.residual in {[e.path], [Quarantine(e.path, plan.transaction)]}
  }

  predicate AbortedAt(plan: CleanupPlan, k: nat, report: CleanupReport) {
    k < |plan.entries|
    && plan.entries[k].expectedType == AnyLeaf
    && report.deleted == Paths(plan.entries[..k])
    && report.attempted == Paths(plan.entries[..k]) + [plan.entries[k].path]
    && report.preserved == [] && report.residual == []
  }

  ghost predicate RunShape(plan: CleanupPlan, run: Run) {
    && LogJustified(plan, run.log)
    && match run.ending
       case Completed => UpTo(plan, |plan.entries|, run.report)
       case Failed(_) => exists k: nat :: StoppedAt(plan, k, run.report)
       case Aborted => exists k: nat :: AbortedAt(plan, k, run.report)
  }

  lemma PathsStep(entries: seq<CleanupEntry>, i: nat)
    requires i < |entries|
    ensures Paths(entries[..i + 1]) == Paths(entries[..i]) + [entries[i].path]
    ensures Paths(entries) == Paths(entries[..i]) + [entries[i].path] + Paths(entries[i + 1..])
  {
  }

  lemma AdvanceLog(plan: CleanupPlan, i: nat, sofar: Run, a: Attempted)
    requires i < |plan.entries| && LogJustified(plan, sofar.log)
    requires AttemptShape(plan.entries[i], plan.transaction, a)
    ensures LogJustified(plan, Advance(plan, i, sofar, a).log)
  {
    hide Justified, Paths;
    forall f | f in sofar.log + a.log
      ensures exists j :: 0 <= j < |plan.entries| && Justified(plan.entries[j], plan.transaction, f)
    {
      if f in a.log {
        assert Justified(plan.entries[i], plan.transaction, f);
      }
    }
  }

  lemma AdvanceReport(plan: CleanupPlan, i: nat, sofar: Run, a: Attempted)
    requires i < |plan.entries| && UpTo(plan, i, sofar.report)
    requires AttemptShape(plan.entries[i], plan.transaction, a)
    ensures var next := Advance(plan, i, sofar, a);
            match a.outcome
            case Deleted => next.ending == Completed && UpTo(plan, i + 1, next.report)
            case Refused(error) => next.ending == Failed(error) && StoppedAt(plan, i, next.report)
            case Panicked => next.ending == Aborted && AbortedAt(plan, i, next.report)
  {
    hide Justified, Paths;
    PathsStep(plan.entries, i);
    var rest := Paths(plan.entries[i + 1..]);
    assert [] + rest == rest && [] + [a.residual] == [a.residual];
  }

  lemma {:induction false} RunFromShape(w: World, anchor: Identity, plan: CleanupPlan, i: nat, sofar: Run)
    requires UpTo(plan, i, sofar.report) && LogJustified(plan, sofar.log) && sofar.ending == Completed
    ensures RunShape(plan, RunFrom(w, anchor, plan, i, sofar))
    decreases |plan.entries| - i
  {
    hide Attempt, Advance, StoppedAt, AbortedAt, LogJustified, AttemptShape;
    if i < |plan.entries| {
      var a := Attempt(w, anchor, i, plan.entries[i], plan.transaction, sofar.tree);
      AttemptHasShape(w, anchor, i, plan.entries[i], plan.transaction, sofar.tree);
      AdvanceLog(plan, i, sofar, a);
      AdvanceReport(plan, i, sofar, a);
      if a.outcome == Deleted {
        RunFromShape(w, anchor, plan, i + 1, Advance(plan, i, sofar, a));
      }
    }
  }

  lemma ExecuteShape(w: World, anchor: Identity, plan: CleanupPlan, tree: Node)
    ensures RunShape(plan, Execute(w, anchor, plan, tree))
  {
    assert plan.entries[..0] == [];
    RunFromShape(w, anchor, plan, 0, Run(tree, [], EMPTY_REPORT, Completed));
  }

  /** In every run, with the world free to rewrite the checkout at both barriers of every entry and with any
      rename or removal failing, each node the cleanup moves or deletes carries the type and identity recorded
      in the plan; a node swapped in is never touched. */
  lemma OnlyRecordedNodesTouched(w: World, anchor: Identity, plan: CleanupPlan, tree: Node, f: Effect)
    requires f in Execute(w, anchor, plan, tree).log
    ensures exists i :: 0 <= i < |plan.entries| && Justified(plan.entries[i], plan.transaction, f)
  {
    ExecuteShape(w, anchor, plan, tree);
  }

  /** The report accounts for the plan in order: deleted, then the failing entry as the one residual, at its
      own or its quarantine path, then preserved. */
  lemma ReportPartitionsPlan(w: World, anchor: Identity, plan: CleanupPlan, tree: Node)
    ensures var run := Execute(w, anchor, plan, tree);
            match run.ending
            case Completed =>
              run.report == CleanupReport(Paths(plan.entries), Paths(plan.entries), [], [])
            case Failed(_) =>
              exists k: nat :: StoppedAt(plan, k, run.report)
                && run.report.deleted + [plan.entries[k].path] + run.report.preserved == Paths(plan.entries)
            case Aborted => exists k: nat :: AbortedAt(plan, k, run.report)
  {
    ExecuteShape(w, anchor, plan, tree);
    var run := Execute(w, anchor, plan, tree);
    assert plan.entries[..|plan.entries|] == plan.entries;
    if run.ending.Failed? {
      var k: nat :| StoppedAt(plan, k, run.report);
      PathsStep(plan.entries, k);
    }
  }

  /** A plan whose entries name an exact type never reaches the unreachable branch of the deletion. */
  lemma ExactTypesNeverAbort(w: World, anchor: Identity, plan: CleanupPlan, tree: Node)
    requires forall i :: 0 <= i < |plan.entries| ==> plan.entries[i].expectedType != AnyLeaf
    ensures Execute(w, anchor, plan, tree).ending != Aborted
  {
    ExecuteShape(w, anchor, plan, tree);
  }
}
