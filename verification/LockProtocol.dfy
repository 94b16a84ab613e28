/** The candidate lock as a protocol between processes that share one path. A holder keeps its lock file
    open, so the identity of that file cannot be given to another file while it is held. */
module LockProtocol {
  import opened Wrappers
  import opened FileTrees

  type Pid = nat

  datatype Phase =
    | Idle
    | SawVacant                        // the lock path resolved as absent
    | Holding(file: Identity)
    | ReleaseChecked(file: Identity)   // release found its own file at the path and is about to remove it
    | Dropping(file: Identity)         // the lock value is being dropped unreleased
    | DropChecked(file: Identity)      // drop found its own file at the path and is about to remove it

  datatype State = State(lock: Option<Identity>, procs: map<Pid, Phase>)

  /** `ok` is false when the removal itself fails. `Interfere` is everything outside the protocol. */
  datatype Action =
    | Look(p: Pid)
    | Create(p: Pid, file: Identity)
    | ReleaseCheck(p: Pid)
    | ReleaseRemove(p: Pid, ok: bool)
    | DropUnreleased(p: Pid)
    | DropCheck(p: Pid)
    | DropRemove(p: Pid, ok: bool)
    | Crash(p: Pid)
    | Interfere(lock: Option<Identity>)

  predicate Unreleased(ph: Phase) {
    !ph.Idle? && !ph.SawVacant?
  }

  predicate Checked(ph: Phase) {
    ph.ReleaseChecked? || ph.DropChecked?
  }

  /** No process keeps this file open. */
  predicate Fresh(s: State, file: Identity) {
    forall q :: q in s.procs && Unreleased(s.procs[q]) ==> s.procs[q].file != file
  }

  predicate Enabled(s: State, a: Action) {
    match a
    case Look(p) => p in s.procs && s.procs[p].Idle?
    case Create(p, file) => p in s.procs && s.procs[p].SawVacant? && Fresh(s, file)
    case ReleaseCheck(p) => p in s.procs && s.procs[p].Holding?
    case ReleaseRemove(p, _) => p in s.procs && s.procs[p].ReleaseChecked?
    case DropUnreleased(p) => p in s.procs && s.procs[p].Holding?
    case DropCheck(p) => p in s.procs && s.procs[p].Dropping?
    case DropRemove(p, _) => p in s.procs && s.procs[p].DropChecked?
    case Crash(p) => p in s.procs
    case Interfere(_) => true
  }

  function Go(s: State, p: Pid, ph: Phase): State {
    s.(procs := s.procs[p := ph])
  }

  function Apply(s: State, a: Action): State
    requires Enabled(s, a)
  {
    match a
    case Look(p) => if s.lock.None? then Go(s, p, SawVacant) else s
    case Create(p, file) =>
      // exclusive creation fails when anything is at the path
      if s.lock.None? then Go(s, p, Holding(file)).(lock := Some(file)) else Go(s, p, Idle)
    case ReleaseCheck(p) =>
      var file := s.procs[p].file;
      Go(s, p, if s.lock == Some(file) then ReleaseChecked(file) else Dropping(file))
    case ReleaseRemove(p, ok) =>
      // a failed release still drops the lock value
      if ok && s.lock.Some? then Go(s, p, Idle).(lock := None) else Go(s, p, Dropping(s.procs[p].file))
    case DropUnreleased(p) => Go(s, p, Dropping(s.procs[p].file))
    case DropCheck(p) =>
      var file := s.procs[p].file;
      Go(s, p, if s.lock == Some(file) then DropChecked(file) else Idle)
    case DropRemove(p, ok) =>
      if ok then Go(s, p, Idle).(lock := None) else Go(s, p, Idle)
    case Crash(p) => Go(s, p, Idle)
    case Interfere(lock) => s.(lock := lock)
  }

  datatype Removal = Removal(owned: Identity, removed: Identity)

  /** The file a step removes, beside the one its process owns. */
  function Removes(s: State, a: Action): Option<Removal>
    requires Enabled(s, a)
  {
    match a
    case ReleaseRemove(p, ok) =>
      if ok && s.lock.Some? then Some(Removal(s.procs[p].file, s.lock.value)) else None
    case DropRemove(p, ok) =>
      if ok && s.lock.Some? then Some(Removal(s.procs[p].file, s.lock.value)) else None
    case _ => None
  }

  // ---- runs ----

  /** Every step is enabled and obeys the rule, which restricts when the outside may interfere. */
  ghost predicate IsRun(s: State, acts: seq<Action>, rule: (State, Action) -> bool)
    decreases |acts|
  {
    acts == [] || (Enabled(s, acts[0]) && rule(s, acts[0]) && IsRun(Apply(s, acts[0]), acts[1..], rule))
  }

  ghost function EndOf(s: State, acts: seq<Action>, rule: (State, Action) -> bool): State
    requires IsRun(s, acts, rule)
    decreases |acts|
  {
    if acts == [] then s else EndOf(Apply(s, acts[0]), acts[1..], rule)
  }

  ghost function Removals(s: State, acts: seq<Action>, rule: (State, Action) -> bool): seq<Removal>
    requires IsRun(s, acts, rule)
    decreases |acts|
  {
    if acts == [] then []
    else
      var r := Removes(s, acts[0]);
      (if r.Some? then [r.value] else []) + Removals(Apply(s, acts[0]), acts[1..], rule)
  }

  /** All processes idle; a stale lock file may be lying about. */
  predicate Initial(s: State) {
    forall p :: p in s.procs ==> s.procs[p].Idle?
  }

  predicate Unheld(s: State) {
    forall p :: p in s.procs ==> !Unreleased(s.procs[p])
  }

  // ---- mutual exclusion ----

  /** The outside never removes the lock file under a holder, as the repair hints ask. It may replace it at any
      time, under a holder and between a check and its removal as well. */
  predicate NoRemovalUnderHolder(s: State, a: Action) {
    a == Interfere(None) ==> Unheld(s)
  }

  predicate DistinctFiles(s: State) {
    forall p, q :: p in s.procs && q in s.procs && p != q && Unreleased(s.procs[p]) && Unreleased(s.procs[q]) ==>
      s.procs[p].file != s.procs[q].file
  }

  /** Whoever holds the lock, something is at the path: its own file or a replacement. */
  predicate HeldIsOccupied(s: State) {
    (exists p :: p in s.procs && Unreleased(s.procs[p])) ==> s.lock.Some?
  }

  predicate AtMostOneHolder(s: State) {
    forall p, q :: p in s.procs && q in s.procs && Unreleased(s.procs[p]) && Unreleased(s.procs[q]) ==> p == q
  }

  lemma StepKeepsDistinct(s: State, a: Action)
    requires Enabled(s, a) && DistinctFiles(s)
    ensures DistinctFiles(Apply(s, a))
  {
  }

  lemma StepKeepsExclusion(s: State, a: Action)
    requires Enabled(s, a) && NoRemovalUnderHolder(s, a) && AtMostOneHolder(s) && HeldIsOccupied(s)
    ensures AtMostOneHolder(Apply(s, a)) && HeldIsOccupied(Apply(s, a))
  {
  }

  lemma {:induction false} RunKeepsExclusion(s: State, acts: seq<Action>)
    requires IsRun(s, acts, NoRemovalUnderHolder) && AtMostOneHolder(s) && HeldIsOccupied(s)
    ensures AtMostOneHolder(EndOf(s, acts, NoRemovalUnderHolder))
    decreases |acts|
  {
    if acts != [] {
      StepKeepsExclusion(s, acts[0]);
      RunKeepsExclusion(Apply(s, acts[0]), acts[1..]);
    }
  }

  /** In every interleaving of any number of processes, each check and its removal being separate steps,
      with crashes and failing removals, and with the outside replacing the lock file whenever it likes, at most
      one process holds the lock unreleased. */
  lemma MutualExclusion(s: State, acts: seq<Action>)
    requires Initial(s) && IsRun(s, acts, NoRemovalUnderHolder)
    ensures AtMostOneHolder(EndOf(s, acts, NoRemovalUnderHolder))
  {
    RunKeepsExclusion(s, acts);
  }

  // ---- nobody else's file is removed ----

  /** The outside may replace or remove the lock at any time except between a check and its removal. */
  predicate OutsideWindows(s: State, a: Action) {
    a.Interfere? ==> forall p :: p in s.procs ==> !Checked(s.procs[p])
  }

  predicate CheckedOwnPath(s: State) {
    forall p :: p in s.procs && Checked(s.procs[p]) ==> s.lock == Some(s.procs[p].file)
  }

  lemma StepKeepsChecked(s: State, a: Action)
    requires Enabled(s, a) && OutsideWindows(s, a) && DistinctFiles(s) && CheckedOwnPath(s)
    ensures CheckedOwnPath(Apply(s, a))
    ensures Removes(s, a).Some? ==> Removes(s, a).value.removed == Removes(s, a).value.owned
  {
  }

  lemma {:induction false} RunRemovesOwn(s: State, acts: seq<Action>, r: Removal)
    requires IsRun(s, acts, OutsideWindows) && DistinctFiles(s) && CheckedOwnPath(s)
    requires r in Removals(s, acts, OutsideWindows)
    ensures r.removed == r.owned
    decreases |acts|
  {
    if acts != [] {
      StepKeepsDistinct(s, acts[0]);
      StepKeepsChecked(s, acts[0]);
      var rest := Removals(Apply(s, acts[0]), acts[1..], OutsideWindows);
      if r in rest {
        RunRemovesOwn(Apply(s, acts[0]), acts[1..], r);
      }
    }
  }

  /** If the outside swaps the lock file between operations, however often and even under a holder, neither
      release nor drop ever removes a file that is not its own. */
  lemma ReplacementSurvives(s: State, acts: seq<Action>, r: Removal)
    requires Initial(s) && IsRun(s, acts, OutsideWindows)
    requires r in Removals(s, acts, OutsideWindows)
    ensures r.removed == r.owned
  {
    RunRemovesOwn(s, acts, r);
  }

  // ---- what the operations do when nobody is in between ----

  predicate Always(s: State, a: Action) {
    true
  }

  lemma StepRun(s: State, a: Action, rest: seq<Action>)
    requires Enabled(s, a)
    ensures IsRun(s, [a] + rest, Always) <==> IsRun(Apply(s, a), rest, Always)
    ensures IsRun(Apply(s, a), rest, Always) ==> EndOf(s, [a] + rest, Always) == EndOf(Apply(s, a), rest, Always)
    ensures IsRun(Apply(s, a), rest, Always) ==>
      Removals(s, [a] + rest, Always)
      == (if Removes(s, a).Some? then [Removes(s, a).value] else []) + Removals(Apply(s, a), rest, Always)
  {
    assert ([a] + rest)[1..] == rest;
  }

  /** The run ends there and removes these. */
  ghost predicate Leads(s: State, acts: seq<Action>, end: State, removed: seq<Removal>) {
    IsRun(s, acts, Always) && EndOf(s, acts, Always) == end && Removals(s, acts, Always) == removed
  }

  lemma LeadsCons(s: State, a: Action, rest: seq<Action>, end: State, removed: seq<Removal>)
    requires Enabled(s, a) && Leads(Apply(s, a), rest, end, removed)
    ensures Leads(s, [a] + rest, end, RemovedBy(s, a) + removed)
  {
    hide Apply, Removes;
    StepRun(s, a, rest);
  }

  function RemovedBy(s: State, a: Action): seq<Removal>
    requires Enabled(s, a)
  {
    if Removes(s, a).Some? then [Removes(s, a).value] else []
  }

  lemma LeadsNowhere(s: State)
    ensures Leads(s, [], s, [])
  {
  }

  lemma LeadsOne(s: State, a: Action)
    requires Enabled(s, a)
    ensures Leads(s, [a], Apply(s, a), RemovedBy(s, a))
  {
    hide Apply, Removes, Leads, RemovedBy;
    LeadsNowhere(Apply(s, a));
    LeadsCons(s, a, [], Apply(s, a), []);
    assert [a] + [] == [a] && RemovedBy(s, a) + [] == RemovedBy(s, a);
  }

  /** Two steps of one process, the first of which removes nothing. */
  lemma LeadsTwo(s: State, a: Action, b: Action, end: State, removed: seq<Removal>)
    requires Enabled(s, a) && RemovedBy(s, a) == []
    requires Enabled(Apply(s, a), b) && Apply(Apply(s, a), b) == end && RemovedBy(Apply(s, a), b) == removed
    ensures Leads(s, [a, b], end, removed)
  {
    hide Apply, Removes, Leads, RemovedBy;
    LeadsOne(Apply(s, a), b);
    LeadsCons(s, a, [b], end, removed);
    assert [a] + [b] == [a, b] && [] + removed == removed;
  }

  /** A release whose own file is at the path removes that file and is done. */
  lemma ReleaseFrees(s: State, p: Pid)
    requires p in s.procs && s.procs[p].Holding? && s.lock == Some(s.procs[p].file)
    ensures var file := s.procs[p].file;
            Leads(s, [ReleaseCheck(p), ReleaseRemove(p, true)], State(None, s.procs[p := Idle]), [Removal(file, file)])
  {
    hide Leads;
    var file := s.procs[p].file;
    assert s.procs[p := ReleaseChecked(file)][p := Idle] == s.procs[p := Idle];
    LeadsTwo(s, ReleaseCheck(p), ReleaseRemove(p, true), State(None, s.procs[p := Idle]), [Removal(file, file)]);
  }

  /** So does a drop, and a release whose removal fails drops. */
  lemma DropFrees(s: State, p: Pid)
    requires p in s.procs && s.procs[p].Holding? && s.lock == Some(s.procs[p].file)
    ensures var file, end := s.procs[p].file, State(None, s.procs[p := Idle]);
            && Leads(s, [DropUnreleased(p), DropCheck(p), DropRemove(p, true)], end, [Removal(file, file)])
            && Leads(s, [ReleaseCheck(p), ReleaseRemove(p, false), DropCheck(p), DropRemove(p, true)], end,
                     [Removal(file, file)])
  {
    hide Leads;
    var file, rest := s.procs[p].file, [DropCheck(p), DropRemove(p, true)];
    var end, removed := State(None, s.procs[p := Idle]), [Removal(file, file)];
    var dropping, checked := Go(s, p, Dropping(file)), Go(s, p, ReleaseChecked(file));
    assert dropping.procs[p := DropChecked(file)][p := Idle] == s.procs[p := Idle];
    LeadsTwo(dropping, DropCheck(p), DropRemove(p, true), end, removed);
    assert [] + removed == removed;
    LeadsCons(s, DropUnreleased(p), rest, end, removed);
    assert [DropUnreleased(p)] + rest == [DropUnreleased(p), DropCheck(p), DropRemove(p, true)];
    assert checked.procs[p := Dropping(file)] == dropping.procs;
    LeadsCons(checked, ReleaseRemove(p, false), rest, end, removed);
    LeadsCons(s, ReleaseCheck(p), [ReleaseRemove(p, false)] + rest, end, removed);
    assert [ReleaseCheck(p)] + ([ReleaseRemove(p, false)] + rest)
        == [ReleaseCheck(p), ReleaseRemove(p, false), DropCheck(p), DropRemove(p, true)];
  }

  /** With anything else at the path, or nothing, neither removes anything. */
  lemma ForeignStays(s: State, p: Pid)
    requires p in s.procs && s.procs[p].Holding? && s.lock != Some(s.procs[p].file)
    ensures Leads(s, [ReleaseCheck(p), DropCheck(p)], s.(procs := s.procs[p := Idle]), [])
    ensures Leads(s, [DropUnreleased(p), DropCheck(p)], s.(procs := s.procs[p := Idle]), [])
  {
    hide Leads;
    assert s.procs[p := Dropping(s.procs[p].file)][p := Idle] == s.procs[p := Idle];
    LeadsTwo(s, ReleaseCheck(p), DropCheck(p), s.(procs := s.procs[p := Idle]), []);
    LeadsTwo(s, DropUnreleased(p), DropCheck(p), s.(procs := s.procs[p := Idle]), []);
  }

  /** With a free path an idle process acquires the lock; with anything there it does not, be it there when the process
      looks or only when it creates. */
  lemma AcquiresIffFree(s: State, p: Pid, file: Identity)
    requires p in s.procs && s.procs[p].Idle? && Fresh(s, file)
    ensures s.lock.None? ==> Leads(s, [Look(p), Create(p, file)], State(Some(file), s.procs[p := Holding(file)]), [])
    ensures s.lock.Some? ==> Leads(s, [Look(p)], s, [])
    ensures var seen := Go(s, p, SawVacant);
            s.lock.Some? ==> Leads(seen, [Create(p, file)], s, [])
  {
    hide Leads;
    if s.lock.None? {
      assert s.procs[p := SawVacant][p := Holding(file)] == s.procs[p := Holding(file)];
      LeadsTwo(s, Look(p), Create(p, file), State(Some(file), s.procs[p := Holding(file)]), []);
    } else {
      LeadsOne(s, Look(p));
      var seen := Go(s, p, SawVacant);
      assert seen.procs[p := Idle] == s.procs;
      LeadsOne(seen, Create(p, file));
    }
  }

  // ---- where the guarantees stop ----

  /** The two rules are needed. A swap inside any window gets the replacement removed by the step that follows. */
  lemma WindowIsExposed(s: State, p: Pid, theirs: Identity)
    requires p in s.procs && Checked(s.procs[p]) && theirs != s.procs[p].file
    ensures var swap := Interfere(Some(theirs));
            var remove := if s.procs[p].ReleaseChecked? then ReleaseRemove(p, true) else DropRemove(p, true);
            && !OutsideWindows(s, swap)
            && Enabled(s, swap) && Enabled(Apply(s, swap), remove)
            && Removes(Apply(s, swap), remove) == Some(Removal(s.procs[p].file, theirs))
  {
  }

  /** So does a removal inside a window: another process acquires the lock, and its file is the one removed. */
  lemma RemovalInWindow(s: State, p: Pid, q: Pid, theirs: Identity)
    requires p in s.procs && Checked(s.procs[p]) && q in s.procs && s.procs[q].Idle? && Fresh(s, theirs)
    ensures var s1 := Apply(s, Interfere(None));
            && !OutsideWindows(s, Interfere(None))
            && Enabled(s1, Look(q))
            && var s2 := Apply(s1, Look(q));
               && Enabled(s2, Create(q, theirs))
               && var s3 := Apply(s2, Create(q, theirs));
                  && s3.procs[q] == Holding(theirs) && theirs != s.procs[p].file
                  && var remove := if s.procs[p].ReleaseChecked? then ReleaseRemove(p, true) else DropRemove(p, true);
                     && Enabled(s3, remove)
                     && Removes(s3, remove) == Some(Removal(s.procs[p].file, theirs))
                     && Apply(s3, remove).procs[q] == Holding(theirs) && Apply(s3, remove).lock.None?
  {
  }

  /** Removing the lock under a holder lets an idle process become a second one in two steps. */
  lemma RemovalUnderHolder(s: State, p: Pid, q: Pid, file: Identity)
    requires p in s.procs && Unreleased(s.procs[p]) && q in s.procs && s.procs[q].Idle? && Fresh(s, file)
    ensures var s1 := Apply(s, Interfere(None));
            && !NoRemovalUnderHolder(s, Interfere(None))
            && Enabled(s1, Look(q))
            && var s2 := Apply(s1, Look(q));
               && Enabled(s2, Create(q, file))
               && !AtMostOneHolder(Apply(s2, Create(q, file)))
  {
    var s3 := Apply(Apply(Apply(s, Interfere(None)), Look(q)), Create(q, file));
    assert p != q && Unreleased(s3.procs[p]) && Unreleased(s3.procs[q]);
  }

  // ---- the same from the start ----

  lemma {:induction false} LeadsConcat(
    s: State, a: seq<Action>, mid: State, x: seq<Removal>, b: seq<Action>, end: State, y: seq<Removal>)
    requires Leads(s, a, mid, x) && Leads(mid, b, end, y)
    ensures Leads(s, a + b, end, x + y)
    decreases |a|
  {
    hide Apply, Removes;
    if a == [] {
      assert a + b == b && x + y == y;
    } else {
      var rest := a[1..];
      assert a == [a[0]] + rest && a + b == [a[0]] + (rest + b);
      StepRun(s, a[0], rest);
      var later := Removals(Apply(s, a[0]), rest, Always);
      LeadsConcat(Apply(s, a[0]), rest, mid, later, b, end, y);
      LeadsCons(s, a[0], rest + b, end, later + y);
      assert x + y == RemovedBy(s, a[0]) + (later + y);
    }
  }

  /** Nobody holds the lock, the path is free, and the two files are not open. */
  predicate Ready(s: State, p: Pid, q: Pid) {
    Initial(s) && s.lock.None? && p in s.procs && q in s.procs && p != q
  }

  /** The windows of release and drop can be reached: a swap inside them costs the replacement. */
  lemma SwapCostsReplacement(s: State, p: Pid, file: Identity, theirs: Identity)
    requires Initial(s) && s.lock.None? && p in s.procs
    ensures var end := State(None, s.procs[p := Idle]);
            && Leads(s, [Look(p), Create(p, file)] + [ReleaseCheck(p), Interfere(Some(theirs))]
                        + [ReleaseRemove(p, true)], end, [Removal(file, theirs)])
            && Leads(s, [Look(p), Create(p, file)] + [DropUnreleased(p), DropCheck(p)]
                        + [Interfere(Some(theirs)), DropRemove(p, true)], end, [Removal(file, theirs)])
  {
    hide Leads;
    var end, held := State(None, s.procs[p := Idle]), State(Some(file), s.procs[p := Holding(file)]);
    AcquiresIffFree(s, p, file);
    var swapped := State(Some(theirs), s.procs[p := ReleaseChecked(file)]);
    assert held.procs[p := ReleaseChecked(file)] == swapped.procs && swapped.procs[p := Idle] == end.procs;
    LeadsTwo(held, ReleaseCheck(p), Interfere(Some(theirs)), swapped, []);
    LeadsOne(swapped, ReleaseRemove(p, true));
    LeadsConcat(s, [Look(p), Create(p, file)], held, [], [ReleaseCheck(p), Interfere(Some(theirs))], swapped, []);
    LeadsConcat(s, [Look(p), Create(p, file)] + [ReleaseCheck(p), Interfere(Some(theirs))], swapped, [] + [],
                [ReleaseRemove(p, true)], end, [Removal(file, theirs)]);
    var dropping := State(Some(file), s.procs[p := DropChecked(file)]);
    assert held.procs[p := Dropping(file)][p := DropChecked(file)] == dropping.procs && dropping.procs[p := Idle] == end.procs;
    LeadsTwo(held, DropUnreleased(p), DropCheck(p), dropping, []);
    LeadsTwo(dropping, Interfere(Some(theirs)), DropRemove(p, true), end, [Removal(file, theirs)]);
    LeadsConcat(s, [Look(p), Create(p, file)], held, [], [DropUnreleased(p), DropCheck(p)], dropping, []);
    LeadsConcat(s, [Look(p), Create(p, file)] + [DropUnreleased(p), DropCheck(p)], dropping, [] + [],
                [Interfere(Some(theirs)), DropRemove(p, true)], end, [Removal(file, theirs)]);
    assert [] + [] + [Removal(file, theirs)] == [Removal(file, theirs)];
  }

  /** A removal inside a window costs the next holder its file. */
  lemma RemovalCostsHolder(s: State, p: Pid, q: Pid, file: Identity, theirs: Identity)
    requires Ready(s, p, q) && file != theirs
    ensures Leads(s, [Look(p), Create(p, file)] + [ReleaseCheck(p), Interfere(None)] + [Look(q), Create(q, theirs)]
                     + [ReleaseRemove(p, true)],
                  State(None, s.procs[p := Idle][q := Holding(theirs)]), [Removal(file, theirs)])
  {
    hide Leads;
    var held := State(Some(file), s.procs[p := Holding(file)]);
    var gone := State(None, s.procs[p := ReleaseChecked(file)]);
    var taken := State(Some(theirs), gone.procs[q := Holding(theirs)]);
    var end := State(None, s.procs[p := Idle][q := Holding(theirs)]);
    AcquiresIffFree(s, p, file);
    assert held.procs[p := ReleaseChecked(file)] == gone.procs;
    LeadsTwo(held, ReleaseCheck(p), Interfere(None), gone, []);
    assert Fresh(gone, theirs);
    AcquiresIffFree(gone, q, theirs);
    assert taken.procs[p := Idle] == end.procs;
    LeadsOne(taken, ReleaseRemove(p, true));
    LeadsConcat(s, [Look(p), Create(p, file)], held, [], [ReleaseCheck(p), Interfere(None)], gone, []);
    LeadsConcat(s, [Look(p), Create(p, file)] + [ReleaseCheck(p), Interfere(None)], gone, [] + [],
                [Look(q), Create(q, theirs)], taken, []);
    LeadsConcat(s, [Look(p), Create(p, file)] + [ReleaseCheck(p), Interfere(None)] + [Look(q), Create(q, theirs)], taken,
                [] + [] + [], [ReleaseRemove(p, true)], end, [Removal(file, theirs)]);
    assert [] + [] + [] + [Removal(file, theirs)] == [Removal(file, theirs)];
  }

  /** A removal under a holder makes two. */
  lemma RemovalMakesTwo(s: State, p: Pid, q: Pid, file: Identity, other: Identity)
    requires Ready(s, p, q) && file != other
    ensures var end := State(Some(other), s.procs[p := Holding(file)][q := Holding(other)]);
            && Leads(s, [Look(p), Create(p, file)] + [Interfere(None)] + [Look(q), Create(q, other)], end, [])
            && !AtMostOneHolder(end)
  {
    hide Leads;
    var held := State(Some(file), s.procs[p := Holding(file)]);
    var gone := State(None, held.procs);
    var end := State(Some(other), held.procs[q := Holding(other)]);
    AcquiresIffFree(s, p, file);
    LeadsOne(held, Interfere(None));
    assert Fresh(gone, other);
    AcquiresIffFree(gone, q, other);
    LeadsConcat(s, [Look(p), Create(p, file)], held, [], [Interfere(None)], gone, []);
    LeadsConcat(s, [Look(p), Create(p, file)] + [Interfere(None)], gone, [] + [], [Look(q), Create(q, other)], end, []);
    assert Unreleased(end.procs[p]) && Unreleased(end.procs[q]);
    var none: seq<Removal> := [];
    assert none + none + none == none;
  }
}
