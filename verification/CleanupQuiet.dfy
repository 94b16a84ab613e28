/** What a cleanup run does when nobody interferes at the barriers. */
module CleanupQuiet {
  import opened Wrappers
  import opened FileTrees
  import opened ReservedPaths
  import opened Boundary
  import opened Cleanup
  import CleanupSafety

  /** The barriers change nothing and let the run go on, and no call fails. */
  ghost predicate Quiet(w: World) {
    && Still(w)
    && (forall i, p, t :: w.finalBarrier(i, p, t).ok)
    && (forall i, p, t :: w.quarantineBarrier(i, p, t).ok)
    && (forall i :: !w.renameFails(i) && w.removeFails(i).None?)
  }

  /** The barriers change nothing; they may still stop the run, and calls may fail. */
  ghost predicate Still(w: World) {
    && (forall i, p, t :: w.finalBarrier(i, p, t).tree == t)
    && (forall i, p, t :: w.quarantineBarrier(i, p, t).tree == t)
  }

  // ---- a target and its quarantine ----

  predicate Siblings(p: Path, q: Path) {
    p != [] && |p| == |q| && p[..|p| - 1] == q[..|q| - 1] && p != q
  }

  lemma QuarantinedIsSibling(p: Path, t: TransactionComponent)
    requires p != []
    ensures Siblings(p, Quarantined(p, t))
  {
    var q := Quarantined(p, t);
    assert |q[|q| - 1]| > |p[|p| - 1]|;
  }

  lemma QuarantineIsSibling(path: ReservedPath, t: TransactionComponent)
    ensures Siblings(path.Components(), Quarantine(path, t).Components())
  {
    hide *;
    QuarantinedIsSibling(path.Components(), t);
    QuarantineRenders(path, t);
  }

  lemma SiblingAncestors(n: Node, p: Path, q: Path)
    requires Siblings(p, q) && RealAncestors(n, p)
    ensures RealAncestors(n, q) && RealDirectory(n, q[..|q| - 1])
  {
    forall k | 0 <= k < |q| ensures RealDirectory(n, q[..k]) {
      assert q[..k] == q[..|q| - 1][..k] == p[..|p| - 1][..k] == p[..k];
    }
  }

  lemma SiblingsApart(p: Path, q: Path)
    requires Siblings(p, q)
    ensures !Overlap(p, q)
  {
  }

  /** Where everything is after a target moved into its free quarantine. */
  lemma MoveStat(n: Node, p: Path, q: Path, x: Path)
    requires Siblings(p, q) && Lookup(n, p).Some? && Lookup(n, q).None?
    ensures StatAt(Move(n, p, q), x) ==
            if q <= x then StatAt(Lookup(n, p).value, x[|q|..])
            else if p <= x then None
            else StatAt(n, x)
  {
    hide Detach, Attach, Lookup;
    FoundHasRealAncestors(n, p);
    SiblingAncestors(n, p, q);
    SiblingsApart(p, q);
    var d := Detach(n, p);
    assert !(p <= q[..|q| - 1]);
    DetachStat(n, p, q[..|q| - 1]);
    AttachStat(d, q, Lookup(n, p).value, x);
    DetachStat(n, p, x);
  }

  /** Moving aside and then deleting leaves the tree without the target. */
  lemma MoveThenDetach(n: Node, p: Path, q: Path)
    requires Siblings(p, q) && Lookup(n, p).Some? && Lookup(n, q).None?
    ensures Detach(Move(n, p, q), q) == Detach(n, p)
  {
    hide Detach, Attach, Lookup;
    SiblingsApart(p, q);
    DetachStat(n, p, q);
    assert Lookup(Detach(n, p), q).None?;
    DetachAttach(Detach(n, p), q, Lookup(n, p).value);
  }

  // ---- one quiet attempt ----

  predicate ExactType(e: CleanupEntry) {
    e.expectedType in {DirectoryLeaf, RegularLeaf}
  }

  predicate Holds(tree: Node, anchor: Identity, e: CleanupEntry) {
    AnchorHeld(tree, anchor) && Owned(tree, Target(e), e.expectedType, e.expectedIdentity)
  }

  lemma QuietMove(w: World, anchor: Identity, i: nat, e: CleanupEntry, t: TransactionComponent, tree: Node)
    requires Quiet(w) && Holds(tree, anchor, e)
    ensures var p, q, a := Target(e), QuarantinePath(e, t), MoveAside(w, anchor, i, e, t, tree);
            if StatAt(tree, q).None? then a.outcome == Deleted && a.tree == Move(tree, p, q)
            else a.outcome.Refused? && a.tree == tree
  {
    hide ResolveOwned, Resolve, Move, StatAt, RealAncestors, AnchorHeld, Owned;
    var p, q := Target(e), QuarantinePath(e, t);
    OwnedIff(tree, anchor, p, e.expectedType, e.expectedIdentity);
    QuarantineIsSibling(e.path, t);
    SiblingAncestors(tree, p, q);
    VacantIff(tree, anchor, q);
  }

  /** An owned node has some kind, so the entry's type is exact or left open. */
  lemma OwnedType(tree: Node, anchor: Identity, e: CleanupEntry)
    requires Holds(tree, anchor, e)
    ensures ExactType(e) || e.expectedType == AnyLeaf
  {
    hide StatAt, AnchorHeld;
  }

  lemma QuietDelete(w: World, anchor: Identity, i: nat, e: CleanupEntry, t: TransactionComponent, tree: Node)
    requires Quiet(w) && AnchorHeld(tree, anchor) && ExactType(e)
    requires Owned(tree, QuarantinePath(e, t), e.expectedType, e.expectedIdentity)
    ensures var a := DeleteQuarantined(w, anchor, i, e, t, tree);
            a.outcome == Deleted && a.tree == Detach(tree, QuarantinePath(e, t))
  {
    hide ResolveOwned, Resolve, Detach, DetachAll, Below, StatAt, RealAncestors, AnchorHeld, Owned, QuarantinePath;
    OwnedIff(tree, anchor, QuarantinePath(e, t), e.expectedType, e.expectedIdentity);
  }

  /** With the type left open the deletion reaches its unreachable branch, the target in quarantine. */
  lemma QuietPanic(w: World, anchor: Identity, i: nat, e: CleanupEntry, t: TransactionComponent, tree: Node)
    requires Quiet(w) && AnchorHeld(tree, anchor) && e.expectedType == AnyLeaf
    requires Owned(tree, QuarantinePath(e, t), e.expectedType, e.expectedIdentity)
    ensures var a := DeleteQuarantined(w, anchor, i, e, t, tree); a.outcome == Panicked && a.tree == tree
  {
    hide ResolveOwned, Resolve, Detach, DetachAll, Below, StatAt, RealAncestors, AnchorHeld, Owned, QuarantinePath;
    OwnedIff(tree, anchor, QuarantinePath(e, t), e.expectedType, e.expectedIdentity);
  }

  lemma MovedIsOwned(tree: Node, anchor: Identity, e: CleanupEntry, t: TransactionComponent)
    requires Holds(tree, anchor, e) && StatAt(tree, QuarantinePath(e, t)).None?
    ensures var p, q := Target(e), QuarantinePath(e, t);
            && AnchorHeld(Move(tree, p, q), anchor)
            && Owned(Move(tree, p, q), q, e.expectedType, e.expectedIdentity)
            && Detach(Move(tree, p, q), q) == Detach(tree, p)
  {
    hide Move, Detach;
    var p, q := Target(e), QuarantinePath(e, t);
    QuarantineIsSibling(e.path, t);
    MoveStat(tree, p, q, []);
    MoveStat(tree, p, q, q);
    MoveThenDetach(tree, p, q);
  }

  /** Left alone, an entry whose quarantine name is taken is refused; with the name free it is deleted if its type
      is exact, and aborts in quarantine if its type is left open. */
  lemma QuietAttempt(w: World, anchor: Identity, i: nat, e: CleanupEntry, t: TransactionComponent, tree: Node)
    requires Quiet(w) && Holds(tree, anchor, e)
    ensures var a := Attempt(w, anchor, i, e, t, tree);
            if StatAt(tree, QuarantinePath(e, t)).Some? then a.outcome.Refused? && a.tree == tree
            else if ExactType(e) then a.outcome == Deleted && a.tree == Detach(tree, Target(e))
            else a.outcome == Panicked && a.tree == Move(tree, Target(e), QuarantinePath(e, t))
  {
    OwnedType(tree, anchor, e);
    hide MoveAside, DeleteQuarantined, StatAt, Move, Detach, AnchorHeld, Owned, Holds, Quiet, ExactType;
    QuietMove(w, anchor, i, e, t, tree);
    if StatAt(tree, QuarantinePath(e, t)).None? {
      var moved := Move(tree, Target(e), QuarantinePath(e, t));
      MovedIsOwned(tree, anchor, e, t);
      if ExactType(e) {
        QuietDelete(w, anchor, i, e, t, moved);
      } else {
        QuietPanic(w, anchor, i, e, t, moved);
      }
    }
  }

  // ---- a whole quiet run ----

  /** The checkout without the first `k` targets. */
  function Without(tree: Node, entries: seq<CleanupEntry>, k: nat): Node
    requires k <= |entries|
  {
    DetachAll(tree, Targets(entries)[..k])
  }

  lemma WithoutStat(tree: Node, entries: seq<CleanupEntry>, k: nat, x: Path)
    requires k <= |entries|
    ensures StatAt(Without(tree, entries, k), x) ==
            if exists j :: 0 <= j < k && Target(entries[j]) <= x then None else StatAt(tree, x)
  {
    hide Target, StatAt, DetachAll;
    var ps := Targets(entries)[..k];
    assert forall p :: p in ps ==> p in Targets(entries);
    DetachAllStat(tree, ps, x);
    assert forall j :: 0 <= j < k ==> ps[j] == Target(entries[j]);
    if p :| p in ps && p <= x {
      var j :| 0 <= j < |ps| && ps[j] == p;
      assert Target(entries[j]) <= x;
    }
    if j :| 0 <= j < k && Target(entries[j]) <= x {
      assert ps[j] in ps && ps[j] <= x;
    }
  }

  lemma WithoutStep(tree: Node, entries: seq<CleanupEntry>, k: nat)
    requires k < |entries|
    ensures Without(tree, entries, k + 1) == Detach(Without(tree, entries, k), Target(entries[k]))
  {
    var ps := Targets(entries)[..k + 1];
    assert ps[..k] == Targets(entries)[..k] && ps[k] == Target(entries[k]);
  }

  lemma WithoutHolds(tree: Node, anchor: Identity, entries: seq<CleanupEntry>, k: nat)
    requires k < |entries| && PairwiseApart(entries) && OwnsAll(tree, anchor, entries)
    ensures Holds(Without(tree, entries, k), anchor, entries[k])
  {
    hide Without, StatAt, Target, PairwiseApart, OwnsAll;
    WithoutStat(tree, entries, k, []);
    WithoutStat(tree, entries, k, Target(entries[k]));
    forall j | 0 <= j < k ensures !(Target(entries[j]) <= Target(entries[k])) && !(Target(entries[j]) <= []) {
      TargetsApart(entries, j, k);
    }
    OwnsOne(tree, anchor, entries, k);
    RootStat(tree);
    RootStat(Without(tree, entries, k));
  }

  lemma TargetsApart(entries: seq<CleanupEntry>, j: nat, k: nat)
    requires j < k < |entries| && PairwiseApart(entries)
    ensures !(Target(entries[j]) <= Target(entries[k])) && !(Target(entries[j]) <= [])
  {
    var p := Target(entries[j]);
    hide Target;
    assert !Overlap(p, Target(entries[k]));
  }

  lemma OwnsOne(tree: Node, anchor: Identity, entries: seq<CleanupEntry>, k: nat)
    requires k < |entries| && OwnsAll(tree, anchor, entries)
    ensures Holds(tree, anchor, entries[k])
  {
    hide StatAt, Target;
  }

  lemma RootStat(tree: Node)
    ensures StatAt(tree, []) == Some(StatOf(tree))
  {
  }

  /** Entry `k` finds its quarantine name free once the earlier targets are gone. */
  predicate FreeAt(tree: Node, plan: CleanupPlan, k: nat)
    requires k < |plan.entries|
  {
    StatAt(Without(tree, plan.entries, k), QuarantinePath(plan.entries[k], plan.transaction)).None?
  }

  /** What preflight accepts; the types are not its business. */
  predicate Preflighted(tree: Node, anchor: Identity, plan: CleanupPlan) {
    PairwiseApart(plan.entries) && OwnsAll(tree, anchor, plan.entries)
  }

  lemma AdvanceOutcome(plan: CleanupPlan, i: nat, sofar: Run, a: Attempted)
    requires i < |plan.entries|
    ensures Advance(plan, i, sofar, a).tree == a.tree
    ensures a.outcome.Refused? ==> Advance(plan, i, sofar, a).ending.Failed?
    ensures a.outcome == Deleted ==> Advance(plan, i, sofar, a).ending == Completed
    ensures a.outcome == Panicked ==> Advance(plan, i, sofar, a).ending == Aborted
  {
  }

  /** Entry `k` is deleted when its turn comes. */
  predicate Passes(tree: Node, plan: CleanupPlan, k: nat)
    requires k < |plan.entries|
  {
    ExactType(plan.entries[k]) && FreeAt(tree, plan, k)
  }

  /** From entry `i` on, `k` is the first that does not pass, and it is stopped by nothing but its open type. */
  predicate AbortsAt(tree: Node, plan: CleanupPlan, i: nat, k: nat) {
    && i <= k < |plan.entries|
    && plan.entries[k].expectedType == AnyLeaf && FreeAt(tree, plan, k)
    && forall j :: i <= j < k ==> Passes(tree, plan, j)
  }

  predicate AllPass(tree: Node, plan: CleanupPlan, i: nat) {
    forall k :: i <= k < |plan.entries| ==> Passes(tree, plan, k)
  }

  ghost predicate SomeAborts(tree: Node, plan: CleanupPlan, i: nat) {
    exists k: nat :: AbortsAt(tree, plan, i, k)
  }

  lemma PassStep(tree: Node, plan: CleanupPlan, i: nat)
    requires i < |plan.entries|
    ensures AllPass(tree, plan, i) <==> Passes(tree, plan, i) && AllPass(tree, plan, i + 1)
    ensures Passes(tree, plan, i) ==> (SomeAborts(tree, plan, i) <==> SomeAborts(tree, plan, i + 1))
    ensures !Passes(tree, plan, i) ==>
      (SomeAborts(tree, plan, i) <==> plan.entries[i].expectedType == AnyLeaf && FreeAt(tree, plan, i))
  {
    hide FreeAt;
    if Passes(tree, plan, i) {
      assert plan.entries[i].expectedType != AnyLeaf;
      var next := i + 1;
      if k: nat :| AbortsAt(tree, plan, i, k) {
        assert AbortsAt(tree, plan, next, k);
      }
      if k: nat :| AbortsAt(tree, plan, next, k) {
        assert AbortsAt(tree, plan, i, k);
      }
    } else {
      forall k: nat | AbortsAt(tree, plan, i, k) ensures k == i {
      }
      if plan.entries[i].expectedType == AnyLeaf && FreeAt(tree, plan, i) {
        assert AbortsAt(tree, plan, i, i);
      }
    }
  }

  lemma {:induction false} QuietRunFrom(w: World, anchor: Identity, plan: CleanupPlan, i: nat, sofar: Run, tree: Node)
    requires Quiet(w) && Preflighted(tree, anchor, plan) && i <= |plan.entries|
    requires sofar.ending == Completed && sofar.tree == Without(tree, plan.entries, i)
    ensures var run := RunFrom(w, anchor, plan, i, sofar);
            && (run.ending == Completed <==> AllPass(tree, plan, i))
            && (run.ending == Completed ==> run.tree == Without(tree, plan.entries, |plan.entries|))
            && (run.ending == Aborted <==> SomeAborts(tree, plan, i))
    decreases |plan.entries| - i
  {
    hide Attempt, Advance, Without, Holds, Quiet, StatAt, Target, QuarantinePath, PairwiseApart, OwnsAll;
    hide AllPass, SomeAborts;
    if i < |plan.entries| {
      var e := plan.entries[i];
      var a := Attempt(w, anchor, i, e, plan.transaction, sofar.tree);
      WithoutHolds(tree, anchor, plan.entries, i);
      OwnedType(sofar.tree, anchor, e);
      QuietAttempt(w, anchor, i, e, plan.transaction, sofar.tree);
      AdvanceOutcome(plan, i, sofar, a);
      PassStep(tree, plan, i);
      if Passes(tree, plan, i) {
        WithoutStep(tree, plan.entries, i);
        QuietRunFrom(w, anchor, plan, i + 1, Advance(plan, i, sofar, a), tree);
      }
    } else {
      PassEnd(tree, plan);
    }
  }

  lemma PassEnd(tree: Node, plan: CleanupPlan)
    ensures AllPass(tree, plan, |plan.entries|) && !SomeAborts(tree, plan, |plan.entries|)
  {
  }

  /** The quarantine name of entry `k` is absent at the start, or is itself an earlier target. */
  predicate QuarantineFree(tree: Node, plan: CleanupPlan, k: nat)
    requires k < |plan.entries|
  {
    || StatAt(tree, QuarantinePath(plan.entries[k], plan.transaction)).None?
    || exists j :: 0 <= j < k && plan.entries[j].path == Quarantine(plan.entries[k].path, plan.transaction)
  }

  /** The only earlier target that can occupy an entry's quarantine name is that very quarantine. */
  lemma FreeAtIff(tree: Node, anchor: Identity, plan: CleanupPlan, k: nat)
    requires k < |plan.entries| && PairwiseApart(plan.entries)
    ensures FreeAt(tree, plan, k) <==> QuarantineFree(tree, plan, k)
  {
    hide Without, StatAt;
    var e := plan.entries[k];
    var q := QuarantinePath(e, plan.transaction);
    WithoutStat(tree, plan.entries, k, q);
    forall j | 0 <= j < k
      ensures Target(plan.entries[j]) <= q <==> plan.entries[j].path == Quarantine(e.path, plan.transaction)
    {
      CoversQuarantine(plan.entries[j], e, plan.transaction);
    }
  }

  lemma SharedPrefix(p: Path, q: Path, r: Path)
    requires Siblings(p, q) && r <= q && |r| < |q|
    ensures r <= p
  {
    assert r == q[..|q| - 1][..|r|] == p[..|p| - 1][..|r|] == p[..|r|];
  }

  lemma OnlySelfCoversSibling(p: Path, q: Path, r: Path)
    requires Siblings(p, q) && !Overlap(r, p) && r <= q
    ensures r == q
  {
    if |r| < |q| {
      SharedPrefix(p, q, r);
    }
  }

  lemma CoversQuarantine(d: CleanupEntry, e: CleanupEntry, t: TransactionComponent)
    requires !Overlap(Target(d), Target(e))
    ensures Target(d) <= QuarantinePath(e, t) <==> d.path == Quarantine(e.path, t)
  {
    hide Siblings, Overlap;
    QuarantineIsSibling(e.path, t);
    if Target(d) <= QuarantinePath(e, t) {
      OnlySelfCoversSibling(Target(e), QuarantinePath(e, t), Target(d));
      ComponentsInjective(d.path, Quarantine(e.path, t));
    }
  }

  lemma QuietEndings(w: World, anchor: Identity, plan: CleanupPlan, tree: Node)
    requires Quiet(w) && Preflighted(tree, anchor, plan)
    ensures var run := Execute(w, anchor, plan, tree);
            && (run.ending == Completed <==> AllPass(tree, plan, 0))
            && (run.ending == Completed ==> run.tree == DetachAll(tree, Targets(plan.entries)))
            && (run.ending == Aborted <==> SomeAborts(tree, plan, 0))
    ensures forall k :: 0 <= k < |plan.entries| ==> (FreeAt(tree, plan, k) <==> QuarantineFree(tree, plan, k))
  {
    hide Attempt, Advance, RunFrom, StatAt, Target, QuarantinePath, OwnsAll, ExactType, Quiet, FreeAt, QuarantineFree;
    hide AllPass, SomeAborts, PairwiseApart;
    assert Targets(plan.entries)[..0] == [];
    assert Targets(plan.entries)[..|plan.entries|] == Targets(plan.entries);
    QuietRunFrom(w, anchor, plan, 0, Run(tree, [], EMPTY_REPORT, Completed), tree);
    forall k | 0 <= k < |plan.entries| ensures FreeAt(tree, plan, k) <==> QuarantineFree(tree, plan, k) {
      FreeAtIff(tree, anchor, plan, k);
    }
  }

  lemma PassesIff(tree: Node, plan: CleanupPlan)
    requires forall k :: 0 <= k < |plan.entries| ==> (FreeAt(tree, plan, k) <==> QuarantineFree(tree, plan, k))
    ensures AllPass(tree, plan, 0) <==>
            forall k :: 0 <= k < |plan.entries| ==> ExactType(plan.entries[k]) && QuarantineFree(tree, plan, k)
    ensures SomeAborts(tree, plan, 0) <==> exists k: nat :: IsOpenAt(tree, plan, k)
  {
    hide ExactType, FreeAt, QuarantineFree;
    forall k | 0 <= k < |plan.entries|
      ensures Passes(tree, plan, k) <==> ExactType(plan.entries[k]) && QuarantineFree(tree, plan, k)
    {
    }
    forall k: nat ensures AbortsAt(tree, plan, 0, k) <==> IsOpenAt(tree, plan, k) {
    }
  }

  /** Entry `k` leaves its type open and finds its quarantine name free, and every entry before it has an exact
      type and a free name. */
  predicate IsOpenAt(tree: Node, plan: CleanupPlan, k: nat) {
    && k < |plan.entries|
    && plan.entries[k].expectedType == AnyLeaf && QuarantineFree(tree, plan, k)
    && forall j :: 0 <= j < k ==> ExactType(plan.entries[j]) && QuarantineFree(tree, plan, j)
  }

  /** Left alone, a plan that preflight accepts completes if and only if every entry names an exact type and its
      quarantine name is absent or is itself an earlier target of the plan. It then reports every entry attempted
      and deleted in order, and the checkout is the initial one without exactly the planned subtrees. */
  lemma QuietRunCompletesIff(w: World, anchor: Identity, plan: CleanupPlan, tree: Node)
    requires Quiet(w) && Preflighted(tree, anchor, plan)
    ensures var run := Execute(w, anchor, plan, tree);
            && (run.ending == Completed <==>
                  forall k :: 0 <= k < |plan.entries| ==> ExactType(plan.entries[k]) && QuarantineFree(tree, plan, k))
            && (run.ending == Completed ==>
                  && run.tree == DetachAll(tree, Targets(plan.entries))
                  && run.report == CleanupReport(Paths(plan.entries), Paths(plan.entries), [], []))
  {
    hide Execute, StatAt, Target, QuarantinePath, PairwiseApart, OwnsAll, ExactType, Quiet, FreeAt, QuarantineFree;
    QuietEndings(w, anchor, plan, tree);
    PassesIff(tree, plan);
    CleanupSafety.ReportPartitionsPlan(w, anchor, plan, tree);
  }

  /** Left alone, such a plan reaches the unreachable branch of the deletion if and only if some entry leaves its
      type open, finds its quarantine name free, and every entry before it has an exact type and a free name. */
  lemma QuietRunAbortsIff(w: World, anchor: Identity, plan: CleanupPlan, tree: Node)
    requires Quiet(w) && Preflighted(tree, anchor, plan)
    ensures Execute(w, anchor, plan, tree).ending == Aborted <==> exists k: nat :: IsOpenAt(tree, plan, k)
  {
    hide Execute, PairwiseApart, OwnsAll, Quiet, FreeAt, QuarantineFree, AllPass, SomeAborts, IsOpenAt;
    QuietEndings(w, anchor, plan, tree);
    PassesIff(tree, plan);
  }

  /** The smallest such run: a checkout with nothing but `dist`, and a plan to clean it up that leaves the type open. */
  function BareCheckout(anchor: Identity, dist: Identity): Node {
    Directory(anchor, map["dist" := Directory(dist, map[])])
  }

  function OpenPlan(dist: Identity, t: TransactionComponent): CleanupPlan {
    CleanupPlan([CleanupEntry(Dist, AnyLeaf, dist)], t)
  }

  lemma OpenTypeAborts(w: World, anchor: Identity, dist: Identity, t: TransactionComponent)
    requires Quiet(w)
    ensures Preflighted(BareCheckout(anchor, dist), anchor, OpenPlan(dist, t))
    ensures Execute(w, anchor, OpenPlan(dist, t), BareCheckout(anchor, dist)).ending == Aborted
  {
    hide Execute, Quiet;
    var tree, plan := BareCheckout(anchor, dist), OpenPlan(dist, t);
    BareDist(anchor, dist, t);
    QuietRunAbortsIff(w, anchor, plan, tree);
    assert IsOpenAt(tree, plan, 0);
  }

  lemma BareDist(anchor: Identity, dist: Identity, t: TransactionComponent)
    ensures var e := OpenPlan(dist, t).entries[0];
            && Owned(BareCheckout(anchor, dist), Target(e), e.expectedType, e.expectedIdentity)
            && StatAt(BareCheckout(anchor, dist), QuarantinePath(e, t)).None?
  {
    var e, tree := OpenPlan(dist, t).entries[0], BareCheckout(anchor, dist);
    assert Target(e) == ["dist"] && ["dist"][1..] == [];
    QuarantineIsSibling(Dist, t);
    var q := QuarantinePath(e, t);
    assert |q| == 1 && q[0] != "dist";
  }

  /** "Exactly the planned subtrees", path by path. */
  lemma PlannedSubtreesGone(tree: Node, plan: CleanupPlan, x: Path)
    ensures StatAt(DetachAll(tree, Targets(plan.entries)), x) ==
            if exists j :: 0 <= j < |plan.entries| && Target(plan.entries[j]) <= x then None else StatAt(tree, x)
  {
    assert Targets(plan.entries)[..|plan.entries|] == Targets(plan.entries);
    WithoutStat(tree, plan.entries, |plan.entries|, x);
  }

  // ---- runs that may fail but are not interfered with ----

  /** `x` is neither below the entry's target nor below its quarantine. */
  predicate Beside(e: CleanupEntry, t: TransactionComponent, x: Path) {
    !(Target(e) <= x) && !(QuarantinePath(e, t) <= x)
  }

  lemma StillMove(w: World, anchor: Identity, i: nat, e: CleanupEntry, t: TransactionComponent, tree: Node)
    requires Still(w)
    ensures var p, q, a := Target(e), QuarantinePath(e, t), MoveAside(w, anchor, i, e, t, tree);
            if a.outcome == Deleted then
              StatAt(tree, p).Some? && StatAt(tree, q).None? && a.tree == Move(tree, p, q)
            else a.tree == tree
  {
    hide ResolveOwned, Resolve, Move, StatAt, RealAncestors, AnchorHeld;
    var p, q := Target(e), QuarantinePath(e, t);
    OwnedIff(tree, anchor, p, e.expectedType, e.expectedIdentity);
    VacantIff(tree, anchor, q);
  }

  lemma StillDelete(w: World, anchor: Identity, i: nat, e: CleanupEntry, t: TransactionComponent, tree: Node, x: Path)
    requires Still(w) && (QuarantinePath(e, t) <= x ==> x == QuarantinePath(e, t))
    ensures var q, a := QuarantinePath(e, t), DeleteQuarantined(w, anchor, i, e, t, tree);
            StatAt(a.tree, x) == if a.outcome == Deleted && x == q then None else StatAt(tree, x)
  {
    hide ResolveOwned, Resolve, Detach, DetachAll, Below, StatAt, RealAncestors, AnchorHeld;
    var q := QuarantinePath(e, t);
    DetachStat(tree, q, x);
    if w.removeFails(i).Some? {
      var below := Below(q, w.removeFails(i).value);
      DetachAllStat(tree, below, x);
    }
  }

  /** Nothing beside the target and its quarantine changes. An entry that fails before the rename leaves its
      target where it was; one that fails or aborts after it has its target, whole or in part, in quarantine:
      the report's residual is where the target is. */
  lemma StillAttempt(w: World, anchor: Identity, i: nat, e: CleanupEntry, t: TransactionComponent, tree: Node, x: Path)
    requires Still(w)
    ensures var p, q, a := Target(e), QuarantinePath(e, t), Attempt(w, anchor, i, e, t, tree);
            && (Beside(e, t, x) ==> StatAt(a.tree, x) == StatAt(tree, x))
            && (a.outcome != Deleted && a.residual == e.path ==> a.tree == tree)
            && (a.outcome != Deleted && a.residual != e.path ==>
                  StatAt(a.tree, p).None? && StatAt(a.tree, q) == StatAt(tree, p))
  {
    hide MoveAside, DeleteQuarantined, StatAt, Move, Target, QuarantinePath, Still, Siblings;
    var p, q := Target(e), QuarantinePath(e, t);
    var moved := MoveAside(w, anchor, i, e, t, tree);
    StillMove(w, anchor, i, e, t, tree);
    CleanupSafety.MoveAsideShape(w, anchor, i, e, t, tree);
    if moved.outcome == Deleted {
      CleanupSafety.DeleteQuarantinedShape(w, anchor, i, e, t, moved.tree);
      assert Quarantine(e.path, t) != e.path;
      MoveEnds(e, t, tree, x);
      StillDelete(w, anchor, i, e, t, moved.tree, q);
      StillDelete(w, anchor, i, e, t, moved.tree, p);
      if Beside(e, t, x) {
        StillDelete(w, anchor, i, e, t, moved.tree, x);
      }
    }
  }

  lemma MoveEnds(e: CleanupEntry, t: TransactionComponent, tree: Node, x: Path)
    requires StatAt(tree, Target(e)).Some? && StatAt(tree, QuarantinePath(e, t)).None?
    ensures var p, q, moved := Target(e), QuarantinePath(e, t), Move(tree, Target(e), QuarantinePath(e, t));
            && StatAt(moved, p).None? && StatAt(moved, q) == StatAt(tree, p)
            && !(q <= p)
            && (Beside(e, t, x) ==> StatAt(moved, x) == StatAt(tree, x))
  {
    hide Move, Target, QuarantinePath;
    var p, q := Target(e), QuarantinePath(e, t);
    assert Siblings(p, q) by {
      EntrySiblings(e, t);
    }
    SiblingsApart(p, q);
    MoveStat(tree, p, q, p);
    MoveStat(tree, p, q, q);
    MoveStat(tree, p, q, x);
  }

  lemma EntrySiblings(e: CleanupEntry, t: TransactionComponent)
    ensures Siblings(Target(e), QuarantinePath(e, t))
  {
    hide Siblings;
    QuarantineIsSibling(e.path, t);
  }

  lemma {:induction false} StillRunFrom(w: World, anchor: Identity, plan: CleanupPlan, i: nat, sofar: Run, x: Path)
    requires Still(w) && i <= |plan.entries|
    requires forall k :: i <= k < |plan.entries| ==> Beside(plan.entries[k], plan.transaction, x)
    ensures StatAt(RunFrom(w, anchor, plan, i, sofar).tree, x) == StatAt(sofar.tree, x)
    decreases |plan.entries| - i
  {
    hide Attempt, Advance, StatAt, Still, Beside, Target, QuarantinePath;
    if i < |plan.entries| {
      var e := plan.entries[i];
      var a := Attempt(w, anchor, i, e, plan.transaction, sofar.tree);
      StillAttempt(w, anchor, i, e, plan.transaction, sofar.tree, x);
      AdvanceOutcome(plan, i, sofar, a);
      if a.outcome == Deleted {
        StillRunFrom(w, anchor, plan, i + 1, Advance(plan, i, sofar, a), x);
      }
    }
  }

  /** However an uninterfered run ends, it leaves everything beside its targets and their quarantines as it was. */
  lemma OutsideUntouched(w: World, anchor: Identity, plan: CleanupPlan, tree: Node, x: Path)
    requires Still(w)
    requires forall k :: 0 <= k < |plan.entries| ==> Beside(plan.entries[k], plan.transaction, x)
    ensures StatAt(Execute(w, anchor, plan, tree).tree, x) == StatAt(tree, x)
  {
    hide RunFrom, StatAt, Still, Beside;
    StillRunFrom(w, anchor, plan, 0, Run(tree, [], EMPTY_REPORT, Completed), x);
  }
}
