/** Exactly when an entry is cleaned up and where a run stops, in any world: every refusal of a barrier and every
    failing call stops the run where it happens. */
module CleanupTrace {
  import opened Wrappers
  import opened FileTrees
  import opened ReservedPaths
  import opened Boundary
  import opened Cleanup
  import opened CleanupQuiet
  import CleanupSafety

  // ---- what has to be true for one entry ----

  /** The checkout as the final barrier of entry `k` leaves it. */
  function AfterBarrier(w: World, k: nat, e: CleanupEntry, before: Node): Node {
    w.finalBarrier(k, e.path, before).tree
  }

  /** The entry's own node is at its path before the barrier and after it, the barrier does not refuse, the quarantine
      name is free and the rename works. */
  predicate CanMove(w: World, anchor: Identity, k: nat, e: CleanupEntry, t: TransactionComponent, before: Node) {
    && Holds(before, anchor, e)
    && w.finalBarrier(k, e.path, before).ok
    && Holds(AfterBarrier(w, k, e, before), anchor, e)
    && StatAt(AfterBarrier(w, k, e, before), QuarantinePath(e, t)).None?
    && !w.renameFails(k)
  }

  /** The checkout with the target moved aside, as the second barrier leaves it. */
  function AfterMove(w: World, k: nat, e: CleanupEntry, t: TransactionComponent, before: Node): Node {
    var moved := Move(AfterBarrier(w, k, e, before), Target(e), QuarantinePath(e, t));
    w.quarantineBarrier(k, Quarantine(e.path, t), moved).tree
  }

  predicate SecondBarrier(w: World, k: nat, e: CleanupEntry, t: TransactionComponent, before: Node) {
    var moved := Move(AfterBarrier(w, k, e, before), Target(e), QuarantinePath(e, t));
    w.quarantineBarrier(k, Quarantine(e.path, t), moved).ok
  }

  /** What is in quarantine is the entry's own node. */
  predicate InQuarantine(anchor: Identity, e: CleanupEntry, t: TransactionComponent, tree: Node) {
    AnchorHeld(tree, anchor) && Owned(tree, QuarantinePath(e, t), e.expectedType, e.expectedIdentity)
  }

  predicate CanDelete(w: World, anchor: Identity, k: nat, e: CleanupEntry, t: TransactionComponent, before: Node) {
    && SecondBarrier(w, k, e, t, before)
    && InQuarantine(anchor, e, t, AfterMove(w, k, e, t, before))
    && ExactType(e)
    && w.removeFails(k).None?
  }

  function After(w: World, k: nat, e: CleanupEntry, t: TransactionComponent, before: Node): Node {
    Detach(AfterMove(w, k, e, t, before), QuarantinePath(e, t))
  }

  /** Stopped before the rename: nothing is done, and the entry's own path is what is left. */
  predicate StaysInPlace(
    w: World, anchor: Identity, k: nat, e: CleanupEntry, t: TransactionComponent, before: Node, a: Attempted)
  {
    && a.outcome.Refused? && a.residual == e.path && a.log == []
    && a.tree == (if Holds(before, anchor, e) then AfterBarrier(w, k, e, before) else before)
    && (a.outcome == Refused(BarrierFailed) <==> Holds(before, anchor, e) && !w.finalBarrier(k, e.path, before).ok)
    && (a.outcome == Refused(RenameFailed) ==> w.renameFails(k))
  }

  /** Stopped after it: the rename is done, and the quarantine is what is left. */
  predicate StaysInQuarantine(
    w: World, anchor: Identity, k: nat, e: CleanupEntry, t: TransactionComponent, before: Node, a: Attempted)
  {
    var meddled, q := AfterMove(w, k, e, t, before), QuarantinePath(e, t);
    var ready := SecondBarrier(w, k, e, t, before) && InQuarantine(anchor, e, t, meddled);
    && a.outcome != Deleted && a.residual == Quarantine(e.path, t)
    && |a.log| >= 1 && a.log[0].Renamed?
    && (a.outcome == Refused(BarrierFailed) <==> !SecondBarrier(w, k, e, t, before))
    && (a.outcome == Panicked <==> ready && !ExactType(e))
    && (a.outcome == Refused(RemoveFailed) <==> ready && ExactType(e) && w.removeFails(k).Some?)
    && if a.outcome == Refused(RemoveFailed) then
         |a.log| == 2 && a.log[1].PartlyRemoved? && a.tree == DetachAll(meddled, Below(q, w.removeFails(k).value))
       else |a.log| == 1 && a.tree == meddled
  }

  lemma ResolutionErrors(tree: Node, anchor: Identity, p: Path, expected: ExpectedLeaf, owned: Identity)
    requires p != []
    ensures var r := ResolveOwned(tree, anchor, p, expected, owned);
            r.Failure? ==> r.error !in {BarrierFailed, RenameFailed, RemoveFailed}
    ensures var r := Resolve(tree, anchor, p, expected, false);
            r.Failure? ==> r.error !in {BarrierFailed, RenameFailed, RemoveFailed}
  {
    hide StatAt, RealDirectory, AnchorHeld, Gap;
  }

  lemma MoveAsideIs(w: World, anchor: Identity, k: nat, e: CleanupEntry, t: TransactionComponent, before: Node)
    ensures var a := MoveAside(w, anchor, k, e, t, before);
            if CanMove(w, anchor, k, e, t, before) then
              && a.outcome == Deleted && |a.log| == 1 && a.log[0].Renamed?
              && a.tree == Move(AfterBarrier(w, k, e, before), Target(e), QuarantinePath(e, t))
            else StaysInPlace(w, anchor, k, e, t, before, a)
  {
    hide ResolveOwned, Resolve, Move, StatAt, RealAncestors, AnchorHeld, Owned;
    var p, q, tree := Target(e), QuarantinePath(e, t), AfterBarrier(w, k, e, before);
    OwnedIff(before, anchor, p, e.expectedType, e.expectedIdentity);
    OwnedIff(tree, anchor, p, e.expectedType, e.expectedIdentity);
    ResolutionErrors(before, anchor, p, e.expectedType, e.expectedIdentity);
    ResolutionErrors(tree, anchor, p, e.expectedType, e.expectedIdentity);
    ResolutionErrors(tree, anchor, q, AbsentLeaf, e.expectedIdentity);
    QuarantineIsSibling(e.path, t);
    if RealAncestors(tree, p) {
      SiblingAncestors(tree, p, q);
    }
    VacantIff(tree, anchor, q);
  }

  lemma DeleteIs(w: World, anchor: Identity, k: nat, e: CleanupEntry, t: TransactionComponent, tree: Node)
    ensures var b, q := w.quarantineBarrier(k, Quarantine(e.path, t), tree), QuarantinePath(e, t);
            var a, ready := DeleteQuarantined(w, anchor, k, e, t, tree), b.ok && InQuarantine(anchor, e, t, b.tree);
            && (a.outcome == Deleted <==> ready && ExactType(e) && w.removeFails(k).None?)
            && (a.outcome == Refused(BarrierFailed) <==> !b.ok)
            && (a.outcome == Panicked <==> ready && !ExactType(e))
            && (a.outcome == Refused(RemoveFailed) <==> ready && ExactType(e) && w.removeFails(k).Some?)
            && a.residual == Quarantine(e.path, t)
            && match a.outcome
               case Deleted => |a.log| == 1 && a.log[0].Removed? && a.tree == Detach(b.tree, q)
               case Panicked => a.log == [] && a.tree == b.tree
               case Refused(error) =>
                 if error == RemoveFailed then
                   && |a.log| == 1 && a.log[0].PartlyRemoved?
                   && a.tree == DetachAll(b.tree, Below(q, w.removeFails(k).value))
                 else a.log == [] && a.tree == b.tree
  {
    hide ResolveOwned, Detach, DetachAll, Below, RealAncestors, AnchorHeld, QuarantinePath;
    var b, q := w.quarantineBarrier(k, Quarantine(e.path, t), tree), QuarantinePath(e, t);
    OwnedIff(b.tree, anchor, q, e.expectedType, e.expectedIdentity);
    ResolutionErrors(b.tree, anchor, q, e.expectedType, e.expectedIdentity);
  }

  /** An entry is deleted exactly when it can be moved and can be deleted then; otherwise it stays where it was, or in
      quarantine. */
  lemma AttemptIs(w: World, anchor: Identity, k: nat, e: CleanupEntry, t: TransactionComponent, before: Node)
    ensures var a := Attempt(w, anchor, k, e, t, before);
            if !CanMove(w, anchor, k, e, t, before) then StaysInPlace(w, anchor, k, e, t, before, a)
            else if !CanDelete(w, anchor, k, e, t, before) then StaysInQuarantine(w, anchor, k, e, t, before, a)
            else
              && a.outcome == Deleted && a.tree == After(w, k, e, t, before)
              && |a.log| == 2 && a.log[0].Renamed? && a.log[1].Removed?
  {
    hide MoveAside, DeleteQuarantined, CanMove, Move, Detach, DetachAll, Below, ExactType, InQuarantine;
    hide Target, QuarantinePath;
    MoveAsideIs(w, anchor, k, e, t, before);
    var moved := MoveAside(w, anchor, k, e, t, before);
    if CanMove(w, anchor, k, e, t, before) {
      DeleteIs(w, anchor, k, e, t, moved.tree);
    }
  }

  // ---- whole runs ----

  predicate CanPass(w: World, anchor: Identity, plan: CleanupPlan, k: nat, before: Node)
    requires k < |plan.entries|
  {
    var e := plan.entries[k];
    CanMove(w, anchor, k, e, plan.transaction, before) && CanDelete(w, anchor, k, e, plan.transaction, before)
  }

  /** The checkouts before the first entries of the run, as long as entries pass. */
  ghost predicate IsTrace(w: World, anchor: Identity, plan: CleanupPlan, trees: seq<Node>) {
    && 1 <= |trees| <= |plan.entries| + 1
    && forall k :: 0 <= k < |trees| - 1 ==> StepsAt(w, anchor, plan, trees, k)
  }

  ghost predicate StepsAt(w: World, anchor: Identity, plan: CleanupPlan, trees: seq<Node>, k: nat)
    requires k < |trees| - 1 && k < |plan.entries|
  {
    && CanPass(w, anchor, plan, k, trees[k])
    && trees[k + 1] == After(w, k, plan.entries[k], plan.transaction, trees[k])
  }

  /** How a run ends that got through the first `k` entries and no further. */
  ghost predicate EndsAt(w: World, anchor: Identity, plan: CleanupPlan, k: nat, before: Node, run: Run)
    requires k <= |plan.entries|
  {
    run.report.deleted == Paths(plan.entries[..k])
    && if k == |plan.entries| then
         run.ending == Completed && run.tree == before && |run.log| == 2 * k && run.report.residual == []
       else
         var e, t := plan.entries[k], plan.transaction;
         !CanPass(w, anchor, plan, k, before)
         && exists a: Attempted ::
              && run.tree == a.tree && |run.log| == 2 * k + |a.log| && run.log[2 * k..] == a.log
              && (if CanMove(w, anchor, k, e, t, before) then StaysInQuarantine(w, anchor, k, e, t, before, a)
                  else StaysInPlace(w, anchor, k, e, t, before, a))
              && match a.outcome
                 case Refused(error) =>
                   run.ending == Failed(error) && run.report.residual == [a.residual]
                   && run.report.preserved == Paths(plan.entries[k + 1..])
                 case Panicked => run.ending == Aborted
                 case Deleted => false
  }

  lemma TraceSnoc(w: World, anchor: Identity, plan: CleanupPlan, trees: seq<Node>)
    requires IsTrace(w, anchor, plan, trees) && |trees| <= |plan.entries|
    requires CanPass(w, anchor, plan, |trees| - 1, trees[|trees| - 1])
    ensures var k := |trees| - 1;
            IsTrace(w, anchor, plan, trees + [After(w, k, plan.entries[k], plan.transaction, trees[k])])
  {
    hide CanPass, After;
    var n := |trees| - 1;
    var more := trees + [After(w, n, plan.entries[n], plan.transaction, trees[n])];
    forall k | 0 <= k < |more| - 1 ensures StepsAt(w, anchor, plan, more, k) {
      if k < n {
        assert StepsAt(w, anchor, plan, trees, k);
      }
    }
  }

  /** Entry `i` does not pass: the run ends here. */
  lemma StopsHere(w: World, anchor: Identity, plan: CleanupPlan, i: nat, sofar: Run, a: Attempted)
    requires i < |plan.entries| && CleanupSafety.UpTo(plan, i, sofar.report) && |sofar.log| == 2 * i
    requires a == Attempt(w, anchor, i, plan.entries[i], plan.transaction, sofar.tree)
    requires !CanPass(w, anchor, plan, i, sofar.tree)
    ensures a.outcome != Deleted && EndsAt(w, anchor, plan, i, sofar.tree, Advance(plan, i, sofar, a))
  {
    hide Attempt, CanMove, CanDelete, Paths, After;
    var e, t, run := plan.entries[i], plan.transaction, Advance(plan, i, sofar, a);
    AttemptIs(w, anchor, i, e, t, sofar.tree);
    assert run.log[2 * i..] == a.log;
    assert [] + [a.residual] == [a.residual] && [] + Paths(plan.entries[i + 1..]) == Paths(plan.entries[i + 1..]);
    StaysShape(w, anchor, i, e, t, sofar.tree, a);
    hide StaysInPlace, StaysInQuarantine;
  }

  lemma StaysShape(
    w: World, anchor: Identity, k: nat, e: CleanupEntry, t: TransactionComponent, before: Node, a: Attempted)
    ensures StaysInPlace(w, anchor, k, e, t, before, a) ==> a.outcome.Refused?
    ensures StaysInQuarantine(w, anchor, k, e, t, before, a) ==> a.outcome != Deleted
  {
    hide Holds, SecondBarrier, InQuarantine, ExactType;
  }

  /** Entry `i` passes: the run goes on from the checkout without it. */
  lemma GoesOn(w: World, anchor: Identity, plan: CleanupPlan, i: nat, sofar: Run, a: Attempted)
    requires i < |plan.entries| && CleanupSafety.UpTo(plan, i, sofar.report) && |sofar.log| == 2 * i
    requires a == Attempt(w, anchor, i, plan.entries[i], plan.transaction, sofar.tree)
    requires CanPass(w, anchor, plan, i, sofar.tree)
    ensures a.outcome == Deleted
    ensures var next := Advance(plan, i, sofar, a);
            && next.tree == a.tree == After(w, i, plan.entries[i], plan.transaction, sofar.tree)
            && |next.log| == 2 * (i + 1)
            && next.ending == Completed && CleanupSafety.UpTo(plan, i + 1, next.report)
  {
    hide Attempt, CanMove, CanDelete, Paths, After;
    AttemptIs(w, anchor, i, plan.entries[i], plan.transaction, sofar.tree);
    CleanupSafety.PathsStep(plan.entries, i);
  }

  lemma {:induction false} Classified(
    w: World, anchor: Identity, plan: CleanupPlan, i: nat, sofar: Run, trees: seq<Node>) returns (all: seq<Node>)
    requires IsTrace(w, anchor, plan, trees) && |trees| == i + 1 && trees[i] == sofar.tree
    requires CleanupSafety.UpTo(plan, i, sofar.report) && |sofar.log| == 2 * i && sofar.ending == Completed
    ensures IsTrace(w, anchor, plan, all) && all[0] == trees[0]
    ensures EndsAt(w, anchor, plan, |all| - 1, all[|all| - 1], RunFrom(w, anchor, plan, i, sofar))
    decreases |plan.entries| - i
  {
    hide Attempt, Advance, CanPass, StepsAt, After, Paths;
    all := trees;
    if i < |plan.entries| {
      var a := Attempt(w, anchor, i, plan.entries[i], plan.transaction, sofar.tree);
      if CanPass(w, anchor, plan, i, sofar.tree) {
        GoesOn(w, anchor, plan, i, sofar, a);
        TraceSnoc(w, anchor, plan, trees);
        all := Classified(w, anchor, plan, i + 1, Advance(plan, i, sofar, a), trees + [a.tree]);
      } else {
        StopsHere(w, anchor, plan, i, sofar, a);
      }
    }
  }

  /** Every run, in any world: entries pass one after the other, each leaving the checkout without it, until one cannot
      be moved or cannot be deleted, and there it stops. */
  lemma RunClassified(w: World, anchor: Identity, plan: CleanupPlan, tree: Node) returns (trees: seq<Node>)
    ensures IsTrace(w, anchor, plan, trees) && trees[0] == tree
    ensures EndsAt(w, anchor, plan, |trees| - 1, trees[|trees| - 1], Execute(w, anchor, plan, tree))
  {
    hide RunFrom, EndsAt, StepsAt;
    assert plan.entries[..0] == [];
    trees := Classified(w, anchor, plan, 0, Run(tree, [], EMPTY_REPORT, Completed), [tree]);
  }

  lemma {:induction false} TraceUnique(
    w: World, anchor: Identity, plan: CleanupPlan, a: seq<Node>, b: seq<Node>, k: nat)
    requires IsTrace(w, anchor, plan, a) && IsTrace(w, anchor, plan, b) && a[0] == b[0] && k < |a| && k < |b|
    ensures a[k] == b[k]
  {
    hide CanPass, After;
    if k > 0 {
      TraceUnique(w, anchor, plan, a, b, k - 1);
      assert StepsAt(w, anchor, plan, a, k - 1) && StepsAt(w, anchor, plan, b, k - 1);
    }
  }

  /** In any world a run completes with a checkout exactly when every entry can be moved and deleted in turn and that
      is the checkout left. */
  lemma RunCompletesIff(w: World, anchor: Identity, plan: CleanupPlan, tree: Node, end: Node)
    ensures Execute(w, anchor, plan, tree).ending == Completed && Execute(w, anchor, plan, tree).tree == end
       <==> exists trees :: && IsTrace(w, anchor, plan, trees) && |trees| == |plan.entries| + 1
                            && trees[0] == tree && trees[|plan.entries|] == end
  {
    hide Execute, IsTrace, EndsAt;
    var trees := RunClassified(w, anchor, plan, tree);
    TraceLength(w, anchor, plan, trees);
    EndsFacts(w, anchor, plan, |trees| - 1, trees[|trees| - 1], Execute(w, anchor, plan, tree));
    if other :| IsTrace(w, anchor, plan, other) && |other| == |plan.entries| + 1
                && other[0] == tree && other[|plan.entries|] == end {
      TraceUnique(w, anchor, plan, trees, other, |trees| - 1);
      if |trees| < |other| {
        TracePasses(w, anchor, plan, other, |trees| - 1);
        assert false;
      }
    }
  }

  lemma EndsFacts(w: World, anchor: Identity, plan: CleanupPlan, k: nat, before: Node, run: Run)
    requires k <= |plan.entries| && EndsAt(w, anchor, plan, k, before, run)
    ensures run.ending == Completed <==> k == |plan.entries|
    ensures run.ending == Completed ==> run.tree == before
    ensures k < |plan.entries| ==> !CanPass(w, anchor, plan, k, before)
    ensures run.report.deleted == Paths(plan.entries[..k])
  {
    hide CanPass, CanMove, StaysInPlace, StaysInQuarantine, Paths;
  }

  lemma TraceLength(w: World, anchor: Identity, plan: CleanupPlan, trees: seq<Node>)
    requires IsTrace(w, anchor, plan, trees)
    ensures 1 <= |trees| <= |plan.entries| + 1
  {
    hide StepsAt;
  }

  lemma TracePasses(w: World, anchor: Identity, plan: CleanupPlan, trees: seq<Node>, k: nat)
    requires IsTrace(w, anchor, plan, trees) && k + 1 < |trees|
    ensures k < |plan.entries| && CanPass(w, anchor, plan, k, trees[k])
  {
    hide CanPass, After;
    assert StepsAt(w, anchor, plan, trees, k);
  }

  // ---- refusals and failures ----

  datatype Fault = AtFinalBarrier | AtRename | AtQuarantineBarrier | AtRemoval

  /** The world stops entry `k` at this point, whatever the checkout looks like then. */
  ghost predicate Strikes(w: World, plan: CleanupPlan, k: nat, fault: Fault)
    requires k < |plan.entries|
  {
    var e := plan.entries[k];
    match fault
    case AtFinalBarrier => forall t :: !w.finalBarrier(k, e.path, t).ok
    case AtRename => w.renameFails(k)
    case AtQuarantineBarrier => forall t :: !w.quarantineBarrier(k, Quarantine(e.path, plan.transaction), t).ok
    case AtRemoval => w.removeFails(k).Some?
  }

  /** A fault stops every run at its entry at the latest. A run that gets there makes no call for the entry before the
      point of the fault: no rename if the final barrier refuses or the rename fails, and the entry's own path is left;
      no removal if the second barrier refuses; and never a whole removal. */
  lemma FaultStops(w: World, anchor: Identity, plan: CleanupPlan, tree: Node, k: nat, fault: Fault)
    requires k < |plan.entries| && Strikes(w, plan, k, fault)
    ensures var run := Execute(w, anchor, plan, tree);
            && run.ending != Completed && |run.report.deleted| <= k
            && (|run.report.deleted| == k ==>
                  match fault
                  case AtFinalBarrier =>
                    run.ending.Failed? && run.report.residual == [plan.entries[k].path] && |run.log| == 2 * k
                  case AtRename =>
                    run.ending.Failed? && run.report.residual == [plan.entries[k].path] && |run.log| == 2 * k
                  case AtQuarantineBarrier => run.ending.Failed? && |run.log| <= 2 * k + 1
                  case AtRemoval => |run.log| == 2 * k + 2 ==> run.log[2 * k + 1].PartlyRemoved?)
  {
    hide Execute, IsTrace, Holds, InQuarantine, ExactType, Paths;
    var trees := RunClassified(w, anchor, plan, tree);
    TraceLength(w, anchor, plan, trees);
    if k + 1 < |trees| {
      TracePasses(w, anchor, plan, trees, k);
      assert false;
    }
    var m := |trees| - 1;
    assert |plan.entries[..m]| == m;
  }

  // ---- worlds that leave the checkout alone ----

  /** With the earlier targets gone, nothing stops entry `k`: its type is exact, its quarantine name is free, neither
      barrier refuses and neither call fails. */
  predicate Unhindered(w: World, tree: Node, plan: CleanupPlan, k: nat)
    requires k < |plan.entries|
  {
    var e, t, now := plan.entries[k], plan.transaction, Without(tree, plan.entries, k);
    && ExactType(e) && QuarantineFree(tree, plan, k)
    && w.finalBarrier(k, e.path, now).ok
    && !w.renameFails(k)
    && w.quarantineBarrier(k, Quarantine(e.path, t), Move(now, Target(e), QuarantinePath(e, t))).ok
    && w.removeFails(k).None?
  }

  lemma StillPass(w: World, anchor: Identity, plan: CleanupPlan, k: nat, tree: Node)
    requires Still(w) && Preflighted(tree, anchor, plan) && k < |plan.entries|
    ensures var now := Without(tree, plan.entries, k);
            && (CanPass(w, anchor, plan, k, now) <==> Unhindered(w, tree, plan, k))
            && (CanPass(w, anchor, plan, k, now) ==>
                  After(w, k, plan.entries[k], plan.transaction, now) == Without(tree, plan.entries, k + 1))
  {
    hide PairwiseApart, OwnsAll, StatAt, AnchorHeld, Owned, Without, Move, Target, QuarantinePath, ExactType;
    var e, t, now := plan.entries[k], plan.transaction, Without(tree, plan.entries, k);
    WithoutHolds(tree, anchor, plan.entries, k);
    FreeAtIff(tree, anchor, plan, k);
    WithoutStep(tree, plan.entries, k);
    if StatAt(now, QuarantinePath(e, t)).None? {
      MovedIsOwned(now, anchor, e, t);
    }
  }

  lemma {:induction false} StillTrace(
    w: World, anchor: Identity, plan: CleanupPlan, tree: Node, trees: seq<Node>, k: nat)
    requires Still(w) && Preflighted(tree, anchor, plan) && IsTrace(w, anchor, plan, trees) && trees[0] == tree
    requires k < |trees|
    ensures k <= |plan.entries| && trees[k] == Without(tree, plan.entries, k)
  {
    hide Still, Preflighted, CanPass, After, Targets, Unhindered;
    if k > 0 {
      StillTrace(w, anchor, plan, tree, trees, k - 1);
      assert StepsAt(w, anchor, plan, trees, k - 1);
      StillPass(w, anchor, plan, k - 1, tree);
    } else {
      assert Targets(plan.entries)[..0] == [];
    }
  }

  /** In a world that leaves the checkout alone, whatever it refuses and whatever fails, a preflighted plan gets through
      exactly the entries before the first that is hindered. */
  lemma StillRunStopsIff(w: World, anchor: Identity, plan: CleanupPlan, tree: Node, k: nat)
    requires Still(w) && Preflighted(tree, anchor, plan) && k <= |plan.entries|
    ensures Execute(w, anchor, plan, tree).report.deleted == Paths(plan.entries[..k])
       <==> && (forall j :: 0 <= j < k ==> Unhindered(w, tree, plan, j))
            && (k < |plan.entries| ==> !Unhindered(w, tree, plan, k))
    ensures Execute(w, anchor, plan, tree).ending == Completed
       <==> forall j :: 0 <= j < |plan.entries| ==> Unhindered(w, tree, plan, j)
  {
    hide Execute, IsTrace, Still, Preflighted, CanPass, Unhindered, Without, After, EndsAt;
    var trees := RunClassified(w, anchor, plan, tree);
    TraceLength(w, anchor, plan, trees);
    EndsFacts(w, anchor, plan, |trees| - 1, trees[|trees| - 1], Execute(w, anchor, plan, tree));
    var m := |trees| - 1;
    forall j | 0 <= j < m ensures Unhindered(w, tree, plan, j) {
      StillTrace(w, anchor, plan, tree, trees, j);
      TracePasses(w, anchor, plan, trees, j);
      StillPass(w, anchor, plan, j, tree);
    }
    StillTrace(w, anchor, plan, tree, trees, m);
    if m < |plan.entries| {
      StillPass(w, anchor, plan, m, tree);
    }
    assert |Paths(plan.entries[..k])| == k && |Paths(plan.entries[..m])| == m;
  }
}
