// What one phase of a restore adds to its trace and to its plan: the steps behind the class Restorer of
// scripts/claude-recover.py.

module RestoreSteps {
  import opened Options
  import opened Multisets
  import opened Paths
  import opened RestorePlan
  import opened RestoreTrace

  const HOOK_RETRIES: nat := 3
  const HOOK_EXIT_NOTHING: int := 10

  // A confirm action waits for the user; the others belong to the core or to the hooks.
  datatype DiskAction = DiskAction(phase: Phase, confirm: bool, core: bool, status: Status)

  datatype HookRun = HookRun(phase: Phase, exit: Exit)

  function DiskActions(level: Level): seq<DiskAction> {
    if level.Fine? then []
    else [DiskAction(DiskPre, false, true, Planned), DiskAction(DiskPre, false, true, Planned),
          DiskAction(DiskPost, true, true, Planned), DiskAction(DiskPost, true, true, Planned)]
  }

  // A level below fine calls for two actions that the core runs before the mounts phase, and two that wait for the user
  // after it; a fine one for nothing.
  lemma DiskMenu(level: Level)
    ensures level.Fine? <==> DiskActions(level) == []
    ensures !level.Fine? ==> |DiskActions(level)| == 4
    ensures forall i | 0 <= i < |DiskActions(level)| ::
              var a := DiskActions(level)[i];
              a.core && a.status.Planned? && (a.phase.DiskPre? <==> i < 2) && (a.phase.DiskPost? <==> i >= 2)
              && (a.confirm <==> i >= 2)
  {}

  predicate HooksOk(exits: seq<Exit>) {
    forall e | e in exits :: e == Exited(0) || e == Exited(HOOK_EXIT_NOTHING)
  }

  predicate NothingDone(exits: seq<Exit>) {
    forall e | e in exits :: e == Exited(HOOK_EXIT_NOTHING)
  }

  // The exits of hooks that were started.
  function Started(exits: seq<Exit>): nat {
    if exits == [] then 0 else Started(exits[..|exits| - 1]) + if exits[|exits| - 1].NoTimeLeft? then 0 else 1
  }

  // How many runs of hooks one phase may have: the mounts phase of an unattended run may try again.
  function MostRuns(phase: Phase, hooks: nat, again: bool): nat {
    if phase.Sessions? then 0 else if phase.Mounts? && again then (1 + HOOK_RETRIES) * hooks else hooks
  }

  // Every hook had its turn in that phase.
  ghost predicate HooksAdded(before: seq<HookRun>, after: seq<HookRun>, phase: Phase, hooks: nat, again: bool) {
    && before <= after && |before| + hooks <= |after| <= |before| + MostRuns(phase, hooks, again)
    && forall i | |before| <= i < |after| :: after[i].phase == phase
  }

  function RunsIn(runs: seq<HookRun>, phase: Phase): nat {
    if runs == [] then 0 else RunsIn(runs[..|runs| - 1], phase) + if runs[|runs| - 1].phase == phase then 1 else 0
  }

  lemma {:induction false} RunsAdded(before: seq<HookRun>, after: seq<HookRun>, phase: Phase, p: Phase)
    requires before <= after && forall i | |before| <= i < |after| :: after[i].phase == phase
    ensures RunsIn(after, p) == RunsIn(before, p) + if p == phase then |after| - |before| else 0
    decreases |after|
  {
    if |after| > |before| {
      var most := after[..|after| - 1];
      assert before <= most;
      RunsAdded(before, most, phase, p);
    } else {
      assert before == after;
    }
  }

  // Each of these phases that runs hooks ran all of them, within its bounds, and no other phase ran any.
  ghost predicate HooksRan(runs: seq<HookRun>, phases: seq<Phase>, hooks: nat, again: bool) {
    forall p ::
      if p in phases && p != Sessions then hooks <= RunsIn(runs, p) <= MostRuns(p, hooks, again) else RunsIn(runs, p) == 0
  }

  lemma HooksRanNext(before: seq<HookRun>, after: seq<HookRun>, phases: seq<Phase>, phase: Phase, hooks: nat, again: bool)
    requires HooksRan(before, phases, hooks, again) && phase !in phases
    requires if phase.Sessions? then after == before else HooksAdded(before, after, phase, hooks, again)
    ensures HooksRan(after, phases + [phase], hooks, again)
  {
    if !phase.Sessions? {
      forall p ensures RunsIn(after, p) == RunsIn(before, p) + if p == phase then |after| - |before| else 0 {
        RunsAdded(before, after, phase, p);
      }
    }
  }

  // One round of all hooks in the mounts phase, and the time left behind it.
  datatype Round = Round(exits: seq<Exit>, left: real)

  function RoundRuns(rounds: seq<Round>): seq<HookRun> {
    if rounds == [] then []
    else
      var exits := rounds[|rounds| - 1].exits;
      RoundRuns(rounds[..|rounds| - 1]) + seq(|exits|, i requires 0 <= i < |exits| => HookRun(Mounts, exits[i]))
  }

  // Another round follows exactly when hooks failed, rounds are left and so is time.
  predicate FollowedBy(round: Round, k: nat, most: nat) {
    !HooksOk(round.exits) && k + 1 < most && round.left > 0.0
  }

  ghost predicate RoundsTaken(rounds: seq<Round>, hooks: nat, again: bool) {
    && 1 <= |rounds| <= MostRounds(again)
    && forall k | 0 <= k < |rounds| ::
         |rounds[k].exits| == hooks && (k + 1 < |rounds| <==> FollowedBy(rounds[k], k, MostRounds(again)))
  }

  function MostRounds(again: bool): nat {
    1 + if again then HOOK_RETRIES else 0
  }

  // Time only runs down from turn to round.
  ghost predicate RunsDown(rounds: seq<Round>, from: real, until: real) {
    && (forall k | 0 <= k < |rounds| :: from >= rounds[k].left >= until)
    && forall j, k | 0 <= j <= k < |rounds| :: rounds[j].left >= rounds[k].left
  }

  lemma {:induction false} RoundsCount(rounds: seq<Round>, hooks: nat)
    requires forall k | 0 <= k < |rounds| :: |rounds[k].exits| == hooks
    ensures |RoundRuns(rounds)| == |rounds| * hooks && forall r | r in RoundRuns(rounds) :: r.phase == Mounts
  {
    if rounds != [] {
      hide RoundRuns;
      var n := |rounds|;
      RoundsCount(rounds[..n - 1], hooks);
      assert n * hooks == (n - 1) * hooks + hooks;
      LastRound(rounds);
    }
  }

  lemma LastRound(rounds: seq<Round>)
    requires rounds != []
    ensures var most, exits := RoundRuns(rounds[..|rounds| - 1]), rounds[|rounds| - 1].exits;
            && |RoundRuns(rounds)| == |most| + |exits|
            && forall r | r in RoundRuns(rounds) :: r in most || r.phase == Mounts
  {}

  // The rounds so far, each with another to follow.
  ghost predicate RoundsOn(rounds: seq<Round>, before: seq<HookRun>, after: seq<HookRun>, hooks: nat, again: bool,
                           from: real, left: real) {
    && after == before + RoundRuns(rounds) && RunsDown(rounds, from, left) && from >= left
    && forall k | 0 <= k < |rounds| :: |rounds[k].exits| == hooks && FollowedBy(rounds[k], k, MostRounds(again))
  }

  lemma NoRounds(before: seq<HookRun>, hooks: nat, again: bool, left: real)
    ensures RoundsOn([], before, before, hooks, again, left, left)
  {}

  lemma OneRound(exits: seq<Exit>, left: real, from: real)
    requires from >= left
    ensures RunsDown([Round(exits, left)], from, left)
    ensures RoundRuns([Round(exits, left)]) == seq(|exits|, i requires 0 <= i < |exits| => HookRun(Mounts, exits[i]))
  {
    assert [Round(exits, left)][..0] == [];
  }

  lemma RunsFurther(rounds: seq<Round>, from: real, left: real, now: real)
    requires left >= now
    ensures RunsDown(rounds, from, left) ==> RunsDown(rounds, from, now)
    ensures forall before, after, hooks, again |
              RoundsOn(rounds, before, after, hooks, again, from, left) :: RoundsOn(rounds, before, after, hooks, again, from, now)
  {}

  lemma RoundOn(rounds: seq<Round>, exits: seq<Exit>, before: seq<HookRun>, runs: seq<HookRun>, after: seq<HookRun>,
                hooks: nat, again: bool, from: real, was: real, left: real)
    requires RoundsOn(rounds, before, runs, hooks, again, from, was) && was >= left
    requires |exits| == hooks && |rounds| < MostRounds(again)
    requires after == runs + seq(|exits|, i requires 0 <= i < |exits| => HookRun(Mounts, exits[i]))
    ensures var more := rounds + [Round(exits, left)];
            if FollowedBy(Round(exits, left), |rounds|, MostRounds(again))
            then RoundsOn(more, before, after, hooks, again, from, left)
            else RoundsTaken(more, hooks, again) && RunsDown(more, from, left) && after == before + RoundRuns(more)
                 && HooksAdded(before, after, Mounts, hooks, again)
  {
    hide FollowedBy, HooksAdded;
    var more := rounds + [Round(exits, left)];
    assert more[..|rounds|] == rounds;
    if !FollowedBy(Round(exits, left), |rounds|, MostRounds(again)) {
      RoundsAdded(before, more, hooks, again);
    }
  }

  lemma RoundsAdded(before: seq<HookRun>, rounds: seq<Round>, hooks: nat, again: bool)
    requires 1 <= |rounds| <= MostRounds(again) && forall k | 0 <= k < |rounds| :: |rounds[k].exits| == hooks
    ensures HooksAdded(before, before + RoundRuns(rounds), Mounts, hooks, again)
  {
    hide RoundRuns;
    RoundsCount(rounds, hooks);
    Multiples(|rounds|, hooks, again);
    assert forall i | |before| <= i < |before| + |RoundRuns(rounds)| ::
        (before + RoundRuns(rounds))[i] == RoundRuns(rounds)[i - |before|] && RoundRuns(rounds)[i - |before|] in RoundRuns(rounds);
  }

  lemma Multiples(n: nat, hooks: nat, again: bool)
    requires 1 <= n <= MostRounds(again)
    ensures hooks <= n * hooks <= MostRuns(Mounts, hooks, again)
  {
    assert n == 1 || n == 2 || n == 3 || n == 4;
  }

  function Least(x: real, y: real): real {
    if x < y then x else y
  }

  // The same actions up to their status.
  ghost predicate SameActions(a: seq<DiskAction>, b: seq<DiskAction>) {
    |a| == |b| && forall i | 0 <= i < |a| :: a[i] == b[i].(status := a[i].status)
  }

  // The core never runs an action that waits for the user.
  ghost predicate CoreRunsOnly(t: Trace, actions: seq<DiskAction>) {
    forall e | e in t && e.Core? :: e.index < |actions| && actions[e.index].core && !actions[e.index].confirm
  }

  // ---- Exits ----

  // What the hooks and core actions of a trace returned, in order.
  function ExitsOf(t: Trace): seq<Exit> {
    if t == [] then []
    else
      var e := t[|t| - 1];
      ExitsOf(t[..|t| - 1]) + if e.Hook? || e.Core? then [e.exit] else []
  }

  // The hooks of a trace with their exits, and those of the record that were started.
  function HooksOf(t: Trace): seq<HookRun> {
    if t == [] then []
    else
      var e := t[|t| - 1];
      HooksOf(t[..|t| - 1]) + if e.Hook? then [HookRun(e.phase, e.exit)] else []
  }

  function StartedRuns(runs: seq<HookRun>): seq<HookRun> {
    if runs == [] then []
    else StartedRuns(runs[..|runs| - 1]) + if runs[|runs| - 1].exit.NoTimeLeft? then [] else [runs[|runs| - 1]]
  }

  // The core action was run and returned that exit.
  ghost predicate CoreReturned(t: Trace, index: nat, success: bool) {
    exists e | e in t :: e.Core? && e.index == index && (e.exit == Exited(0)) == success
  }

  // An action of the core is done exactly if it was run and returned 0, and failed exactly if it returned anything else;
  // one that waits for the user is neither.
  ghost predicate ActionTold(a: DiskAction, i: nat, t: Trace) {
    a.core ==>
      if a.confirm then a.status.Planned? || a.status.Skipped?
      else (a.status.Done? <==> CoreReturned(t, i, true)) && (a.status.Failed? <==> CoreReturned(t, i, false))
  }

  ghost predicate ActionsTold(actions: seq<DiskAction>, t: Trace) {
    forall i | 0 <= i < |actions| :: ActionTold(actions[i], i, t)
  }

  // ---- The books ----

  datatype Books = Books(spent: real, deadline: real, mounts: nat, actions: seq<DiskAction>, runs: seq<HookRun>,
                         returned: seq<Exit>, level: Level)

  // The books balance: the time spent on cleanup is that of the trace and within its cap, and every process kept to its
  // limits. Every decision rests on what was looked at. The exits on record are those returned, and the level is the one
  // measured last.
  ghost predicate Balanced(t: Trace, b: Books) {
    && b.spent == CleanupTime(t) && 0.0 <= b.spent <= CLEANUP_CAP_S
    && AllTimely(t, b.deadline, b.mounts) && CoreRunsOnly(t, b.actions) && DecisionsObserved(t)
    && LastLevel(t) == Some(b.level) && RecordsMatch(t, b)
  }

  ghost predicate RecordsMatch(t: Trace, b: Books) {
    ExitsOf(t) == b.returned && HooksOf(t) == StartedRuns(b.runs) && ActionsTold(b.actions, t)
  }

  lemma ReturnedAppended(t: Trace, e: Event, index: nat, success: bool)
    ensures CoreReturned(t + [e], index, success) <==>
            CoreReturned(t, index, success) || (e.Core? && e.index == index && (e.exit == Exited(0)) == success)
  {}

  lemma ExitsAppended(t: Trace, e: Event)
    ensures ExitsOf(t + [e]) == ExitsOf(t) + if e.Hook? || e.Core? then [e.exit] else []
    ensures HooksOf(t + [e]) == HooksOf(t) + if e.Hook? then [HookRun(e.phase, e.exit)] else []
  {
    assert (t + [e])[..|t|] == t;
  }

  lemma RunAppended(runs: seq<HookRun>, r: HookRun)
    ensures StartedRuns(runs + [r]) == StartedRuns(runs) + if r.exit.NoTimeLeft? then [] else [r]
  {
    assert (runs + [r])[..|runs|] == runs;
  }

  lemma RecordsKept(t: Trace, e: Event, b: Books)
    requires RecordsMatch(t, b) && !e.Hook? && !e.Core?
    ensures RecordsMatch(t + [e], b)
  {
    hide CoreReturned;
    ExitsAppended(t, e);
    ToldKept(t, e, b.actions);
  }

  lemma ToldKept(t: Trace, e: Event, actions: seq<DiskAction>)
    requires ActionsTold(actions, t) && !e.Core?
    ensures ActionsTold(actions, t + [e])
  {
    hide CoreReturned;
    forall i | 0 <= i < |actions| ensures ActionTold(actions[i], i, t + [e]) {
      assert ActionTold(actions[i], i, t);
      ReturnedAppended(t, e, i, true);
      ReturnedAppended(t, e, i, false);
    }
  }

  lemma Noted(t: Trace, e: Event, b: Books)
    requires Balanced(t, b) && !e.Hook? && !e.Core? && Timely(e, b.deadline, b.mounts)
    requires e.Decision? ==> LookedFor(t, e.view)
    ensures Balanced(t + [e], if e.Measured? then b.(level := e.level) else b)
    ensures Gauge(t + [e]) == if e.Measured? then Some(e.level) else Gauge(t)
  {
    hide DecisionsObserved, LookedFor, RecordsMatch, LastLevel, Gauge;
    Appended(t, e);
    DecisionAppended(t, e);
    RecordsKept(t, e, b);
    RecordsOfLevel(t + [e], b, if e.Measured? then e.level else b.level);
  }

  lemma RecordsOfLevel(t: Trace, b: Books, level: Level)
    requires RecordsMatch(t, b)
    ensures RecordsMatch(t, b.(level := level))
  {}

  lemma SpentWithinCap(t: Trace, b: Books)
    requires Balanced(t, b)
    ensures 0.0 <= b.spent <= CLEANUP_CAP_S && DecisionsObserved(t) && LastLevel(t) == Some(b.level)
    ensures ActionsTold(b.actions, t) && HooksOf(t) == StartedRuns(b.runs) && ExitsOf(t) == b.returned
    ensures AllTimely(t, b.deadline, b.mounts)
  {}

  // A hook within its limits keeps the books balanced once its time and its exit are booked.
  lemma HookBooked(t: Trace, e: Event, b: Books)
    requires Balanced(t, b) && e.Hook? && Timely(e, b.deadline, b.mounts) && !e.exit.NoTimeLeft?
    requires 0.0 <= Cost(e) && b.spent + Cost(e) <= CLEANUP_CAP_S
    ensures Balanced(t + [e], b.(spent := b.spent + Cost(e), runs := b.runs + [HookRun(e.phase, e.exit)],
                                 returned := b.returned + [e.exit]))
    ensures Gauge(t + [e]) == if OnDisk(e.phase) then None else Gauge(t)
  {
    hide DecisionsObserved, LookedFor, LastLevel, Gauge, ActionsTold;
    Appended(t, e);
    DecisionAppended(t, e);
    ExitsAppended(t, e);
    RunAppended(b.runs, HookRun(e.phase, e.exit));
    ToldKept(t, e, b.actions);
  }

  // A hook without time is put on record as not started.
  lemma HookPassedOver(t: Trace, phase: Phase, b: Books)
    requires Balanced(t, b)
    ensures Balanced(t, b.(runs := b.runs + [HookRun(phase, NoTimeLeft)]))
  {
    hide DecisionsObserved, LastLevel, ActionsTold;
    RunAppended(b.runs, HookRun(phase, NoTimeLeft));
  }

  // The same for a core action, with its status.
  lemma CoreBooked(t: Trace, e: Event, b: Books)
    requires Balanced(t, b) && e.Core? && Timely(e, b.deadline, b.mounts)
    requires 0.0 <= Cost(e) && b.spent + Cost(e) <= CLEANUP_CAP_S
    requires e.index < |b.actions| && b.actions[e.index].core && !b.actions[e.index].confirm
    requires b.actions[e.index].status.Planned?
    ensures var a := b.actions[e.index].(status := if e.exit == Exited(0) then Done else Failed);
            Balanced(t + [e], b.(spent := b.spent + Cost(e), returned := b.returned + [e.exit],
                                 actions := b.actions[e.index := a]))
    ensures Gauge(t + [e]).None?
  {
    hide DecisionsObserved, LookedFor, LastLevel, CoreReturned;
    Appended(t, e);
    DecisionAppended(t, e);
    ExitsAppended(t, e);
    var a := b.actions[e.index].(status := if e.exit == Exited(0) then Done else Failed);
    var after := b.actions[e.index := a];
    forall i | 0 <= i < |after| ensures ActionTold(after[i], i, t + [e]) {
      assert ActionTold(b.actions[i], i, t);
      ReturnedAppended(t, e, i, true);
      ReturnedAppended(t, e, i, false);
    }
  }

  // The actions of the phases from the k-th on still wait for their turn.
  ghost predicate Waiting(actions: seq<DiskAction>, k: nat)
    requires k <= 5
  {
    forall i | 0 <= i < |actions| && actions[i].phase !in PHASES[..k] :: actions[i].status.Planned?
  }

  lemma WaitingNext(before: seq<DiskAction>, after: seq<DiskAction>, k: nat)
    requires k < 5 && Waiting(before, k) && SameActions(after, before)
    requires forall i | 0 <= i < |after| && after[i].phase != PHASES[k] :: after[i] == before[i]
    ensures Waiting(after, k + 1)
  {
    assert PHASES[..k + 1] == PHASES[..k] + [PHASES[k]];
  }

  ghost predicate NoneMeasured(t: Trace, u: Trace) {
    forall k | |t| <= k < |u| :: !u[k].Measured?
  }

  ghost predicate NoneEntered(t: Trace, u: Trace) {
    t <= u && forall k | |t| <= k < |u| :: !u[k].Entered?
  }

  lemma MeasuredBehind(t: Trace, u: Trace, level: Level, essential: seq<string>)
    requires Quiet(t, u) && NoneMeasured(t, u)
    ensures var v := u + [Measured(level)];
            && Quiet(t, v) && CleanedUp(t, v) && SameMounts(u, v, essential) && OpenPlan(v).None?
            && LastView(v) == LastView(u) && Gauge(v) == Some(level)
  {
    hide BroughtUp, Gauge, LastView, OpenPlan;
    var v := u + [Measured(level)];
    Appended(u, Measured(level));
    NothingBroughtUp(u, Measured(level), essential);
    assert v[|u|].Measured? && forall j | |t| <= j < |u| :: v[j].Hook? || v[j].Core?;
  }

  lemma CleanedUpLonger(t: Trace, u: Trace, v: Trace)
    requires CleanedUp(t, u) && Calm(u, v)
    ensures CleanedUp(t, v)
  {
    var m :| |t| <= m < |u| && u[m].Measured? && forall j | |t| <= j < m :: u[j].Hook? || u[j].Core?;
    assert v[m].Measured? && forall j | |t| <= j < m :: v[j].Hook? || v[j].Core?;
  }

  // New statuses that leave what the core did alone.
  ghost predicate KeepsOutcomes(before: seq<DiskAction>, after: seq<DiskAction>) {
    SameActions(after, before) && forall i | 0 <= i < |after| && after[i].core ::
      after[i].status == before[i].status || (before[i].status.Planned? && after[i].status.Skipped?)
  }

  lemma Relabelled(t: Trace, b: Books, others: seq<DiskAction>)
    requires Balanced(t, b) && KeepsOutcomes(b.actions, others)
    ensures Balanced(t, b.(actions := others))
  {
    hide CoreReturned, DecisionsObserved, LastLevel;
    forall i | 0 <= i < |others| ensures ActionTold(others[i], i, t) {
      assert ActionTold(b.actions[i], i, t);
    }
  }

  // ---- Decisions ----

  // The mounts as decided, in order.
  ghost predicate MountsDecided(mounts: seq<MountEntry>, snapshot: Snapshot, view: View, config: Config) {
    && multiset(mounts) == multiset(MountEntriesFor(snapshot.mounts, view.mounted, view.level, config.essential))
    && Ordered(mounts, config.essential)
  }

  // The plan is the one of that view.
  ghost predicate PlanFollows(mounts: seq<MountEntry>, entries: seq<SessionEntry>, snapshot: Snapshot,
                              view: Option<View>, config: Config)
  {
    && view.Some? && MountsDecided(mounts, snapshot, view.value, config)
    && AllDecided(entries, snapshot, view.value, config)
  }

  lemma DecidedByTargets(e: SessionEntry, s: Session, some: seq<string>, others: seq<string>, view: View,
                         config: Config)
    requires Decided(e, s, some, view, config)
    requires forall t :: t in some <==> t in others
    ensures Decided(e, s, others, view, config)
  {}

  lemma TargetsMatch(mounts: seq<MountEntry>, targets: seq<string>, snapshot: Snapshot, view: View, config: Config)
    requires MountsDecided(mounts, snapshot, view, config)
    requires |targets| == |mounts| && forall i | 0 <= i < |mounts| :: targets[i] == mounts[i].target
    ensures forall t :: t in targets <==> t in snapshot.mounts
  {
    CoversByMultiset(mounts, snapshot.mounts, view.mounted, view.level, config.essential);
    forall t | t in snapshot.mounts ensures t in targets {
      var k :| 0 <= k < |mounts| && mounts[k] == MountEntryFor(t, view.mounted, view.level, config.essential);
      assert targets[k] == t;
    }
    forall t | t in targets ensures t in snapshot.mounts {
      var k :| 0 <= k < |targets| && targets[k] == t;
      assert mounts[k] in mounts;
    }
  }

  function Targets(mounts: seq<MountEntry>): seq<string> {
    seq(|mounts|, i requires 0 <= i < |mounts| => mounts[i].target)
  }

  // The plan has one entry per recorded mount, and one per recorded session in its place.
  ghost predicate Lists(mounts: seq<MountEntry>, entries: seq<SessionEntry>, snapshot: Snapshot) {
    && |mounts| == |snapshot.mounts| && multiset(Targets(mounts)) == multiset(snapshot.mounts)
    && |entries| == |snapshot.sessions|
    && forall i | 0 <= i < |entries| :: entries[i].id == snapshot.sessions[i].id
  }

  lemma MountsListed(before: seq<MountEntry>, after: seq<MountEntry>, entries: seq<SessionEntry>, snapshot: Snapshot)
    requires Lists(before, entries, snapshot) && |after| == |before|
    requires forall i | 0 <= i < |after| :: after[i].target == before[i].target
    ensures Lists(after, entries, snapshot)
  {
    assert Targets(after) == Targets(before);
  }

  lemma {:induction false} TargetsFor(targets: seq<string>, view: View, essential: seq<string>, mounts: seq<MountEntry>)
    requires multiset(mounts) == multiset(MountEntriesFor(targets, view.mounted, view.level, essential))
    ensures multiset(Targets(mounts)) == multiset(targets)
  {
    var all := MountEntriesFor(targets, view.mounted, view.level, essential);
    TargetsByMultiset(mounts, all);
    assert Targets(all) == targets;
  }

  lemma {:induction false} TargetsByMultiset(some: seq<MountEntry>, others: seq<MountEntry>)
    requires multiset(some) == multiset(others)
    ensures multiset(Targets(some)) == multiset(Targets(others))
  {
    if some == [] {
      assert |others| == |multiset(others)| == 0;
    } else {
      hide Targets;
      var e, rest := some[0], some[1..];
      assert some == [e] + rest;
      var p, q := TakenOut(others, e, rest);
      TargetsByMultiset(rest, p + q);
      TargetsAround([], e, rest);
      TargetsAround(p, e, q);
      assert [] + [e] + rest == some && [] + rest == rest;
    }
  }

  lemma TargetsAround(p: seq<MountEntry>, e: MountEntry, q: seq<MountEntry>)
    ensures multiset(Targets(p + [e] + q)) == multiset(Targets(p + q)) + multiset{e.target}
  {
    assert Targets(p + [e] + q) == Targets(p) + [e.target] + Targets(q);
    assert Targets(p + q) == Targets(p) + Targets(q);
  }

  lemma DecidedIsListed(mounts: seq<MountEntry>, entries: seq<SessionEntry>, snapshot: Snapshot, view: View,
                        config: Config)
    requires MountsDecided(mounts, snapshot, view, config) && AllDecided(entries, snapshot, view, config)
    ensures Lists(mounts, entries, snapshot)
  {
    TargetsFor(snapshot.mounts, view, config.essential, mounts);
    assert |mounts| == |multiset(mounts)|;
    assert |MountEntriesFor(snapshot.mounts, view.mounted, view.level, config.essential)| == |snapshot.mounts|;
    forall i | 0 <= i < |entries| ensures entries[i].id == snapshot.sessions[i].id {
      assert Decided(entries[i], snapshot.sessions[i], snapshot.mounts, view, config);
    }
  }

  method Decide(snapshot: Snapshot, config: Config, level: Level, mounted: set<string>, alive: set<string>,
                transcripts: set<string>, settled: bool)
    returns (mounts: seq<MountEntry>, entries: seq<SessionEntry>)
    ensures MountsDecided(mounts, snapshot, View(level, mounted, alive, transcripts, settled), config)
    ensures AllDecided(entries, snapshot, View(level, mounted, alive, transcripts, settled), config)
  {
    ghost var view := View(level, mounted, alive, transcripts, settled);
    mounts := DecideMounts(snapshot.mounts, mounted, level, config.essential);
    var targets := seq(|mounts|, i requires 0 <= i < |mounts| => mounts[i].target);
    var usable := set m | m in mounts && (m.action.SkipMounted? || (!settled && m.action.Mount?)) :: m.target;
    TargetsMatch(mounts, targets, snapshot, view, config);
    assert UsableSet(usable, targets, view, config.essential) by {
      CoversByMultiset(mounts, snapshot.mounts, mounted, level, config.essential);
      forall t | t in targets ensures t in usable <==> Usable(t, view, config.essential) {
        assert MountEntryFor(t, mounted, level, config.essential) in mounts;
      }
    }
    entries := DecideSessions(snapshot.sessions, targets, usable, view, alive, transcripts, config);
    forall i | 0 <= i < |entries| ensures Decided(entries[i], snapshot.sessions[i], snapshot.mounts, view, config) {
      DecidedByTargets(entries[i], snapshot.sessions[i], targets, snapshot.mounts, view, config);
    }
  }

  function ToMount(mounts: seq<MountEntry>): (n: nat)
    ensures n <= |mounts|
  {
    if mounts == [] then 0 else ToMount(mounts[1..]) + if mounts[0].action.Mount? then 1 else 0
  }

  // How the mounts phase reports one decided entry: done exactly if an attempt brought it up, else failed if it should
  // have been mounted and is not.
  ghost predicate Reported(e: MountEntry, decided: MountEntry, t: Trace, essential: seq<string>) {
    && e.target == decided.target && e.essential == decided.essential
    && (e.status.Done? <==> BroughtUp(t, e.target, essential))
    && (if e.status.Done? then e.action.Mount?
        else e.action == decided.action && e.status == if e.action.Mount? then Failed else Skipped)
  }

  ghost predicate AllReported(mounts: seq<MountEntry>, decided: seq<MountEntry>, t: Trace, essential: seq<string>) {
    |mounts| == |decided| && forall i | 0 <= i < |mounts| :: Reported(mounts[i], decided[i], t, essential)
  }

  ghost predicate Tracks(done: set<string>, t: Trace, essential: seq<string>) {
    forall m :: m in done <==> BroughtUp(t, m, essential)
  }

  ghost predicate NoneBroughtUp(t: Trace, essential: seq<string>) {
    Tracks({}, t, essential)
  }

  lemma TracksKept(done: set<string>, t: Trace, u: Trace, essential: seq<string>)
    requires Tracks(done, t, essential) && SameMounts(t, u, essential)
    ensures Tracks(done, u, essential)
  {}

  // Looking after the hooks have run adds what they were to mount and is mounted now.
  lemma AttemptSeen(done: set<string>, t: Trace, view: View, todo: set<string>, after: set<string>,
                    targets: seq<string>,
                    essential: seq<string>)
    requires Tracks(done, t, essential) && OpenPlan(t) == Some(view)
    requires forall m | m in targets :: m in todo <==> MountActionFor(m, view.mounted, view.level, essential).Mount?
    requires forall m | m in after :: m in targets
    ensures Tracks(done + todo * after, t + [Observed(after)], essential)
  {
    hide OpenPlan, BroughtUp, MountActionFor;
    forall m ensures m in done + todo * after <==> BroughtUp(t + [Observed(after)], m, essential) {
      LookAppended(t, Observed(after), m, essential);
    }
  }

  lemma DecidedStatuses(mounts: seq<MountEntry>, snapshot: Snapshot, view: View, config: Config)
    requires MountsDecided(mounts, snapshot, view, config)
    ensures forall e | e in mounts :: e.status == if e.action.Mount? then Planned else Skipped
  {
    CoversByMultiset(mounts, snapshot.mounts, view.mounted, view.level, config.essential);
  }

  lemma TodoIsPlanned(mounts: seq<MountEntry>, snapshot: Snapshot, view: View, config: Config, todo: set<string>)
    requires MountsDecided(mounts, snapshot, view, config)
    requires todo == set m | m in mounts && m.action.Mount? :: m.target
    ensures forall m | m in snapshot.mounts ::
              m in todo <==> MountActionFor(m, view.mounted, view.level, config.essential).Mount?
  {
    CoversByMultiset(mounts, snapshot.mounts, view.mounted, view.level, config.essential);
    forall m | m in snapshot.mounts
      ensures m in todo <==> MountActionFor(m, view.mounted, view.level, config.essential).Mount?
    {
      assert MountEntryFor(m, view.mounted, view.level, config.essential) in mounts;
    }
  }

  // ---- Opening windows ----

  // The entries whose windows are to be opened, by position.
  function Pending(entries: seq<SessionEntry>): seq<nat> {
    if entries == [] then []
    else Pending(entries[..|entries| - 1]) + if entries[|entries| - 1].action.Opens() then [|entries| - 1] else []
  }

  lemma {:induction false} PendingPositions(entries: seq<SessionEntry>)
    ensures forall i :: i in Pending(entries) <==> 0 <= i < |entries| && entries[i].action.Opens()
    ensures forall p, q | 0 <= p < q < |Pending(entries)| :: Pending(entries)[p] < Pending(entries)[q]
  {
    if entries != [] {
      var most := entries[..|entries| - 1];
      PendingPositions(most);
      assert forall i | 0 <= i < |most| :: most[i] == entries[i];
      assert forall p | 0 <= p < |Pending(most)| :: Pending(most)[p] in Pending(most);
    }
  }

  // What may be opened, and is: everything the loop over the windows keeps.
  ghost predicate Opening(t: Trace, next: nat, snapshot: Snapshot, config: Config) {
    WindowsAllowed(t, snapshot, config) && WindowsInOrder(t) && WindowsBelow(t, next)
  }

  ghost predicate Unchanged(t: Trace, u: Trace, essential: seq<string>) {
    && Gauge(u) == Gauge(t) && (forall k | |t| <= k < |u| :: !u[k].Entered?)
    && t <= u && LastView(u) == LastView(t) && LastLook(u) == LastLook(t) && (Fresh(t) ==> Fresh(u))
    && PhasesEntered(u) == PhasesEntered(t) && SameMounts(t, u, essential)
  }

  ghost predicate Ready(entries: seq<SessionEntry>, i: nat, view: Option<View>, snapshot: Snapshot, config: Config) {
    && view.Some? && view.value.settled && i < |entries| && i < |snapshot.sessions|
    && Decided(entries[i], snapshot.sessions[i], snapshot.mounts, view.value, config) && entries[i].action.Opens()
  }

  lemma UnchangedTwice(t: Trace, u: Trace, v: Trace, essential: seq<string>)
    ensures Unchanged(t, t, essential)
    ensures Unchanged(t, u, essential) && Unchanged(u, v, essential) ==> Unchanged(t, v, essential)
    ensures Unchanged(t, u, essential) ==> LastView(u) == LastView(t)
  {
    hide LastView, LastLook, Fresh, PhasesEntered, BroughtUp, Gauge;
  }

  // A look at something else than the mounts.
  ghost predicate IsLook(e: Event) {
    e.AliveCheck? || e.Memory? || e.Tmux?
  }

  lemma LookNoted(t: Trace, e: Event, next: nat, snapshot: Snapshot, config: Config)
    requires Opening(t, next, snapshot, config) && IsLook(e)
    ensures Opening(t + [e], next, snapshot, config) && Unchanged(t, t + [e], config.essential)
    ensures forall j, done :: Tried(t + [e], j, done) <==> Tried(t, j, done)
    ensures Cleared(t) ==> Cleared(t + [e])
  {
    hide MayFollow, LastView, LastLook, Fresh, PhasesEntered, Cleared, Gauge;
    Appended(t, e);
    if Cleared(t) { ClearedAppended(t, e); }
    WindowAppended(t, e, snapshot, config);
    NothingBroughtUp(t, e, config.essential);
    forall j, done ensures Tried(t + [e], j, done) <==> Tried(t, j, done) {
      TriedAppended(t, e, j, done);
    }
  }

  lemma {:induction false} WindowNoted(t: Trace, alive: set<string>, i: nat, done: bool, entries: seq<SessionEntry>, snapshot: Snapshot,
                    config: Config)
    requires |t| > 1 && t[|t| - 2] == AliveCheck(alive) && t[|t| - 1] == Memory(i, false)
    requires Opening(t, i, snapshot, config) && Cleared(t)
    requires Ready(entries, i, LastView(t), snapshot, config) && entries[i].id !in alive
    ensures var e := Window(i, entries[i].command, done);
            && Opening(t + [e], i + 1, snapshot, config) && Unchanged(t, t + [e], config.essential) && Cleared(t + [e])
            && forall j, d :: Tried(t + [e], j, d) <==> Tried(t, j, d) || (j == i && d == done)
  {
    hide LastView, LastLook, Fresh, PhasesEntered, BroughtUp, OpenPlan, Cleared, Gauge;
    var e := Window(i, entries[i].command, done);
    Appended(t, e);
    ClearedAppended(t, e);
    WindowAppended(t, e, snapshot, config);
    NothingBroughtUp(t, e, config.essential);
    forall j, d ensures Tried(t + [e], j, d) <==> Tried(t, j, d) || (j == i && d == done) {
      TriedAppended(t, e, j, d);
    }
  }

  // The entries as decided once the mounts phase is over.
  ghost predicate Settled(entries: seq<SessionEntry>, view: Option<View>, snapshot: Snapshot, config: Config) {
    view.Some? && view.value.settled && AllDecided(entries, snapshot, view.value, config)
  }

  lemma SettledStatuses(entries: seq<SessionEntry>, view: Option<View>, snapshot: Snapshot, config: Config)
    requires Settled(entries, view, snapshot, config)
    ensures forall i | 0 <= i < |entries| :: entries[i].status == if entries[i].action.Opens() then Planned else Skipped
    ensures forall i | 0 <= i < |entries| :: Unopened(entries[i])
  {
    forall i | 0 <= i < |entries|
      ensures Unopened(entries[i]) && entries[i].status == if entries[i].action.Opens() then Planned else Skipped
    {
      assert Decided(entries[i], snapshot.sessions[i], snapshot.mounts, view.value, config);
    }
  }

  lemma ReadyAsDecided(entries: seq<SessionEntry>, decided: seq<SessionEntry>, i: nat, told: seq<nat>, t: Trace,
                       view: Option<View>, snapshot: Snapshot, config: Config)
    requires Settled(decided, view, snapshot, config) && Partly(entries, decided, told, t)
    requires i < |entries| && i !in told && decided[i].action.Opens()
    ensures Ready(entries, i, view, snapshot, config)
  {}

  lemma Sooner(t: Trace, m: nat, n: nat, snapshot: Snapshot, config: Config)
    requires Opening(t, m, snapshot, config) && m <= n
    ensures Opening(t, n, snapshot, config)
  {}

  // A skipped entry that could have been opened has a reason that was observed; late: the deadline is over.
  ghost predicate Explained(e: SessionEntry, i: nat, t: Trace, late: bool) {
    e.status.Skipped? ==>
      match e.detail
      case Plain => !e.action.Opens()
      case DeadlineReached => late
      case NoTmux => Tmux(false) in t
      case LowMemory => Memory(i, true) in t
      case Appeared => e.action.SkipAlive? && exists c | c in t :: c.AliveCheck? && e.id in c.alive
      case ExitStatus => false
  }

  ghost predicate AllExplained(entries: seq<SessionEntry>, t: Trace, late: bool) {
    forall i | 0 <= i < |entries| :: Explained(entries[i], i, t, late)
  }

  lemma ExplainedKept(entries: seq<SessionEntry>, t: Trace, late: bool, u: Trace, later: bool)
    requires AllExplained(entries, t, late) && t <= u && (late ==> later)
    ensures AllExplained(entries, u, later)
  {
    forall e | e in t ensures e in u {
      var k :| 0 <= k < |t| && t[k] == e;
      assert u[k] == e;
    }
  }

  lemma ExpiredIsExplained(e: SessionEntry, i: nat, t: Trace)
    ensures Explained(e.(status := Skipped, detail := DeadlineReached), i, t, true)
  {}

  // As decided: planned, or skipped because it may not be opened.
  predicate Unopened(e: SessionEntry) {
    e.status.Planned? || (e.status.Skipped? && e.detail.Plain? && !e.action.Opens())
  }

  // An entry's status tells what became of its window.
  ghost predicate ToldOne(e: SessionEntry, i: nat, t: Trace) {
    (e.status.Done? <==> Tried(t, i, true)) && (e.status.Failed? <==> Tried(t, i, false))
  }

  ghost predicate Told(entries: seq<SessionEntry>, t: Trace) {
    forall i | 0 <= i < |entries| :: ToldOne(entries[i], i, t)
  }

  // The loop over the windows after its first entries: those have had their turn, the others are as decided.
  ghost predicate Partly(entries: seq<SessionEntry>, decided: seq<SessionEntry>, told: seq<nat>, t: Trace) {
    && |entries| == |decided| && Told(entries, t)
    && forall i | 0 <= i < |entries| :: if i in told then !entries[i].status.Planned? else entries[i] == decided[i]
  }

  ghost predicate UntoldUntried(entries: seq<SessionEntry>, t: Trace) {
    forall i | 0 <= i < |entries| && Unopened(entries[i]) :: !Tried(t, i, true) && !Tried(t, i, false)
  }

  lemma ToldIsUntried(entries: seq<SessionEntry>, t: Trace)
    requires Told(entries, t)
    ensures UntoldUntried(entries, t)
  {
    forall i | 0 <= i < |entries| && Unopened(entries[i]) ensures !Tried(t, i, true) && !Tried(t, i, false) {
      assert ToldOne(entries[i], i, t);
    }
  }

  // One turn: the entry's window was tried, with the outcome its status tells, or not at all.
  ghost predicate Turn(before: seq<SessionEntry>, after: seq<SessionEntry>, i: nat, t: Trace, u: Trace)
    requires i < |before|
  {
    && |after| == |before| && after == before[i := after[i]] && !after[i].status.Planned?
    && forall j, done :: Tried(u, j, done) <==>
         Tried(t, j, done) || (j == i && ((done && after[i].status.Done?) || (!done && after[i].status.Failed?)))
  }

  lemma TurnTold(before: seq<SessionEntry>, after: seq<SessionEntry>, i: nat, t: Trace, u: Trace)
    requires i < |before| && Unopened(before[i]) && Told(before, t) && Turn(before, after, i, t, u)
    ensures Told(after, u)
  {
    hide Tried;
    ToldIsUntried(before, t);
    forall k | 0 <= k < |after| ensures ToldOne(after[k], k, u) {
      assert ToldOne(before[k], k, t);
    }
  }

  lemma PartlyStep(before: seq<SessionEntry>, after: seq<SessionEntry>, decided: seq<SessionEntry>, pending: seq<nat>,
                   p: nat, t: Trace, u: Trace)
    requires p < |pending| && pending[p] < |before| && pending[p] !in pending[..p]
    requires Partly(before, decided, pending[..p], t) && Unopened(decided[pending[p]])
    requires Turn(before, after, pending[p], t, u)
    ensures Partly(after, decided, pending[..p + 1], u)
  {
    hide Tried;
    var i := pending[p];
    TurnTold(before, after, i, t, u);
    assert pending[..p + 1] == pending[..p] + [i];
  }

  lemma PartlyWhole(entries: seq<SessionEntry>, decided: seq<SessionEntry>, t: Trace)
    requires Partly(entries, decided, Pending(decided), t)
    requires forall i | 0 <= i < |decided| :: decided[i].status == if decided[i].action.Opens() then Planned else Skipped
    ensures forall i | 0 <= i < |entries| :: !entries[i].status.Planned?
  {
    hide Told;
    PendingPositions(decided);
    forall i | 0 <= i < |entries| ensures !entries[i].status.Planned? {
      assert i in Pending(decided) <==> decided[i].action.Opens();
    }
  }

  lemma NothingOpened(t: Trace, entries: seq<SessionEntry>, snapshot: Snapshot, config: Config)
    requires NoWindows(t) && forall i | 0 <= i < |entries| :: Unopened(entries[i])
    ensures Opening(t, 0, snapshot, config) && Told(entries, t)
  {
    forall i | 0 <= i < |entries| ensures ToldOne(entries[i], i, t) {}
  }

  lemma UnopenedExplained(entries: seq<SessionEntry>, t: Trace, late: bool)
    requires forall i | 0 <= i < |entries| :: Unopened(entries[i])
    ensures AllExplained(entries, t, late)
  {}

  // ---- The whole run ----

  // A mount is reported done exactly if an attempt brought it up, and failed only if it was missing at the last look.
  ghost predicate Truthful(mounts: seq<MountEntry>, t: Trace, essential: seq<string>) {
    forall i | 0 <= i < |mounts| ::
      && (mounts[i].status.Done? <==> BroughtUp(t, mounts[i].target, essential))
      && (mounts[i].status.Failed? ==> LastLook(t).Some? && mounts[i].target !in LastLook(t).value)
  }

  // A mount that is neither done nor failed has the action of the last decision, taken on the last look; one that should
  // be mounted is still planned, or was skipped because the deadline came before the mounts phase.
  ghost predicate MountExplained(e: MountEntry, t: Trace, essential: seq<string>, late: bool) {
    e.status.Skipped? || e.status.Planned? ==>
      && LastView(t).Some? && LastLook(t) == Some(LastView(t).value.mounted)
      && e.action == MountActionFor(e.target, LastView(t).value.mounted, LastView(t).value.level, essential)
      && (e.action.Mount? && e.status.Skipped? ==> late && Mounts !in PhasesEntered(t))
  }

  ghost predicate MountsExplained(mounts: seq<MountEntry>, t: Trace, essential: seq<string>, late: bool) {
    forall i | 0 <= i < |mounts| :: MountExplained(mounts[i], t, essential, late)
  }

  // A planned mount is to be mounted, and a skipped one is not.
  predicate AsDecided(e: MountEntry) {
    (e.status.Planned? && e.action.Mount?) || (e.status.Skipped? && !e.action.Mount?)
  }

  ghost predicate Undone(mounts: seq<MountEntry>, entries: seq<SessionEntry>) {
    && (forall i | 0 <= i < |mounts| :: AsDecided(mounts[i]))
    && (forall i | 0 <= i < |entries| :: Unopened(entries[i]))
  }

  ghost predicate NothingPlanned(actions: seq<DiskAction>, mounts: seq<MountEntry>, entries: seq<SessionEntry>) {
    && (forall i | 0 <= i < |actions| :: !actions[i].status.Planned?)
    && (forall i | 0 <= i < |mounts| :: !mounts[i].status.Planned?)
    && (forall i | 0 <= i < |entries| :: !entries[i].status.Planned?)
  }

  // Once a phase is entered, a rehearsal only enters phases and runs hooks.
  ghost predicate Rehearsal(t: Trace) {
    && NoWindows(t)
    && forall j, k | 0 <= j < k < |t| && t[j].Entered? :: t[k].Entered? || t[k].Hook?
  }

  // What is on record when a run begins: the looks and the decision of the first plan. When a reboot is simulated,
  // nothing is looked at but the disk and the transcripts.
  ghost function Start(first: View, looked: bool): Trace {
    if looked then FirstLooks(first) + [Decision(first)] else [Measured(first.level), TranscriptCheck(first.transcripts)]
  }

  lemma PlanUndone(mounts: seq<MountEntry>, entries: seq<SessionEntry>, snapshot: Snapshot, view: View, config: Config)
    requires MountsDecided(mounts, snapshot, view, config) && AllDecided(entries, snapshot, view, config)
    ensures Undone(mounts, entries)
  {
    DecidedStatuses(mounts, snapshot, view, config);
    assert forall i | 0 <= i < |mounts| :: mounts[i] in mounts;
    forall i | 0 <= i < |entries| ensures Unopened(entries[i]) {
      assert Decided(entries[i], snapshot.sessions[i], snapshot.mounts, view, config);
    }
  }

  // Everything known before the sessions phase.
  ghost predicate BeforeSessions(t: Trace, k: nat, mounts: seq<MountEntry>, entries: seq<SessionEntry>, dryRun: bool,
                                 snapshot: Snapshot, config: Config)
  {
    && NoWindows(t) && Truthful(mounts, t, config.essential)
    && (forall i | 0 <= i < |entries| :: Unopened(entries[i]))
    && (k < 2 || dryRun ==> Undone(mounts, entries) && NoneBroughtUp(t, config.essential))
    && (!dryRun ==> Fresh(t) && MountsExplained(mounts, t, config.essential, false))
    && (!dryRun && k >= 2 ==> Settled(entries, LastView(t), snapshot, config)
                              && forall i | 0 <= i < |mounts| :: !mounts[i].status.Planned?)
    && (dryRun ==> Rehearsal(t))
  }

  lemma CalmKeepsNoWindows(t: Trace, u: Trace)
    requires Calm(t, u) && NoWindows(t)
    ensures NoWindows(u)
  {}

  lemma TruthfulKept(mounts: seq<MountEntry>, t: Trace, u: Trace, essential: seq<string>)
    requires LastView(u) == LastView(t) && LastLook(u) == LastLook(t) && SameMounts(t, u, essential)
    requires Truthful(mounts, t, essential)
    ensures Truthful(mounts, u, essential)
    ensures MountsExplained(mounts, t, essential, false) ==> MountsExplained(mounts, u, essential, false)
  {
    hide LastView, LastLook, PhasesEntered, BroughtUp, MountActionFor;
    if MountsExplained(mounts, t, essential, false) {
      forall i | 0 <= i < |mounts| ensures MountExplained(mounts[i], u, essential, false) {
        assert MountExplained(mounts[i], t, essential, false);
      }
    }
  }

  // The entries of a fresh plan are explained.
  lemma DecidedIsExplained(mounts: seq<MountEntry>, snapshot: Snapshot, config: Config, t: Trace)
    requires Fresh(t) && DecisionsObserved(t) && LastView(t).Some?
    requires MountsDecided(mounts, snapshot, LastView(t).value, config)
    ensures MountsExplained(mounts, t, config.essential, false)
  {
    hide Fresh, DecisionsObserved, LastView, LastLook, PhasesEntered;
    var v := LastView(t).value;
    FreshRestsOnLook(t);
    CoversByMultiset(mounts, snapshot.mounts, v.mounted, v.level, config.essential);
    forall i | 0 <= i < |mounts| ensures MountExplained(mounts[i], t, config.essential, false) {
      assert mounts[i] in mounts;
    }
  }

  lemma ReportedIsExplained(mounts: seq<MountEntry>, decided: seq<MountEntry>, snapshot: Snapshot, config: Config,
                            t: Trace)
    requires Fresh(t) && DecisionsObserved(t) && LastView(t).Some?
    requires MountsDecided(decided, snapshot, LastView(t).value, config)
    requires AllReported(mounts, decided, t, config.essential)
    ensures MountsExplained(mounts, t, config.essential, false)
    ensures forall i | 0 <= i < |mounts| :: !mounts[i].status.Planned?
  {
    hide Fresh, DecisionsObserved, LastView, LastLook, PhasesEntered, BroughtUp, MountsDecided;
    DecidedIsExplained(decided, snapshot, config, t);
    DecidedStatuses(decided, snapshot, LastView(t).value, config);
    forall i | 0 <= i < |mounts|
      ensures MountExplained(mounts[i], t, config.essential, false) && !mounts[i].status.Planned?
    {
      assert Reported(mounts[i], decided[i], t, config.essential) && decided[i] in decided;
      assert MountExplained(decided[i], t, config.essential, false);
    }
  }

  lemma UndoneIsTruthful(mounts: seq<MountEntry>, entries: seq<SessionEntry>, t: Trace, essential: seq<string>)
    requires Undone(mounts, entries) && NoneBroughtUp(t, essential)
    ensures Truthful(mounts, t, essential)
  {}

  lemma ReportedIsTruthful(mounts: seq<MountEntry>, decided: seq<MountEntry>, snapshot: Snapshot, config: Config,
                           t: Trace)
    requires LastView(t).Some? && MountsDecided(decided, snapshot, LastView(t).value, config)
    requires AllReported(mounts, decided, t, config.essential) && Fresh(t) && DecisionsObserved(t)
    ensures Truthful(mounts, t, config.essential)
  {
    hide BroughtUp, Fresh, DecisionsObserved, LastView, LastLook;
    FreshRestsOnLook(t);
    var v := LastView(t).value;
    CoversByMultiset(decided, snapshot.mounts, v.mounted, v.level, config.essential);
    forall i | 0 <= i < |mounts|
      ensures mounts[i].status.Done? <==> BroughtUp(t, mounts[i].target, config.essential)
      ensures mounts[i].status.Failed? ==> mounts[i].target !in v.mounted
    {
      assert Reported(mounts[i], decided[i], t, config.essential) && decided[i] in decided;
    }
  }

  // A phase that decides nothing keeps all of this.
  lemma QuietPhase(t: Trace, u: Trace, k: nat, n: nat, mounts: seq<MountEntry>, entries: seq<SessionEntry>,
                   dryRun: bool,
                   snapshot: Snapshot, config: Config)
    requires BeforeSessions(t, k, mounts, entries, dryRun, snapshot, config) && Quiet(t, u)
    requires dryRun ==> OnlyHooks(t, u)
    requires k <= n && (!dryRun && n >= 2 ==> k >= 2)
    ensures BeforeSessions(u, n, mounts, entries, dryRun, snapshot, config) && PhasesEntered(u) == PhasesEntered(t)
  {
    hide BroughtUp, AllDecided, LastView, LastLook, Fresh, PhasesEntered, MountExplained;
    QuietKeepsView(t, u, config.essential);
    CalmKeepsPhases(t, u);
    CalmKeepsNoWindows(t, u);
    TruthfulKept(mounts, t, u, config.essential);
  }

  lemma PhaseBegun(t: Trace, p: Phase, at: real, k: nat, mounts: seq<MountEntry>, entries: seq<SessionEntry>,
                   dryRun: bool, snapshot: Snapshot, config: Config)
    requires BeforeSessions(t, k, mounts, entries, dryRun, snapshot, config)
    ensures var u := t + [Entered(p, at)];
            && BeforeSessions(u, k, mounts, entries, dryRun, snapshot, config)
            && PhasesEntered(u) == PhasesEntered(t) + [p] && OpenPlan(u).None? && Gauge(u) == Gauge(t)
  {
    hide BroughtUp, AllDecided, MountExplained, Gauge;
    var e := Entered(p, at);
    Appended(t, e);
    NothingBroughtUp(t, e, config.essential);
    TruthfulKept(mounts, t, t + [e], config.essential);
  }

  lemma DiskPrePlanned(u: Trace, mounts: seq<MountEntry>, entries: seq<SessionEntry>, snapshot: Snapshot,
                       config: Config)
    requires NoWindows(u) && PlanFollows(mounts, entries, snapshot, LastView(u), config)
    requires NoneBroughtUp(u, config.essential) && Fresh(u) && DecisionsObserved(u)
    ensures BeforeSessions(u, 1, mounts, entries, false, snapshot, config)
  {
    hide Fresh, DecisionsObserved, LastView, LastLook;
    PlanUndone(mounts, entries, snapshot, LastView(u).value, config);
    UndoneIsTruthful(mounts, entries, u, config.essential);
    DecidedIsExplained(mounts, snapshot, config, u);
  }

  lemma MountsPlanned(u: Trace, decided: seq<MountEntry>, mounts: seq<MountEntry>, entries: seq<SessionEntry>,
                      snapshot: Snapshot, config: Config)
    requires NoWindows(u) && PlanFollows(decided, entries, snapshot, LastView(u), config)
    requires LastView(u).value.settled && AllReported(mounts, decided, u, config.essential)
    requires Fresh(u) && DecisionsObserved(u)
    ensures BeforeSessions(u, 2, mounts, entries, false, snapshot, config)
  {
    hide Fresh, DecisionsObserved, LastView, LastLook, BroughtUp;
    PlanUndone(decided, entries, snapshot, LastView(u).value, config);
    ReportedIsTruthful(mounts, decided, snapshot, config, u);
    ReportedIsExplained(mounts, decided, snapshot, config, u);
  }

  lemma BeforeMounts(t: Trace, k: nat, mounts: seq<MountEntry>, entries: seq<SessionEntry>, dryRun: bool,
                     snapshot: Snapshot, config: Config)
    requires BeforeSessions(t, k, mounts, entries, dryRun, snapshot, config)
    ensures NoWindows(t) && (k < 2 ==> NoneBroughtUp(t, config.essential))
  {}

  lemma RunBegins(first: View, looked: bool, mounts: seq<MountEntry>, entries: seq<SessionEntry>, dryRun: bool,
                  snapshot: Snapshot, config: Config)
    requires Undone(mounts, entries) && DecisionsObserved(Start(first, looked)) && (dryRun || looked)
    requires !dryRun ==> PlanFollows(mounts, entries, snapshot, Some(first), config)
    ensures BeforeSessions(Start(first, looked), 0, mounts, entries, dryRun, snapshot, config)
    ensures PhasesEntered(Start(first, looked)) == [] && Gauge(Start(first, looked)) == Some(first.level)
    ensures Remeasured(Start(first, looked))
  {
    hide MountExplained, AllDecided, MountsDecided, LookedFor, DecisionsObserved, Gauge, FirstLooks, LastView, PhasesEntered;
    StartTells(first, looked, config.essential);
    UndoneIsTruthful(mounts, entries, Start(first, looked), config.essential);
    if !dryRun { DecidedIsExplained(mounts, snapshot, config, Start(first, looked)); }
  }

  lemma StartTells(first: View, looked: bool, essential: seq<string>)
    ensures var t := Start(first, looked);
            && PhasesEntered(t) == [] && NoneBroughtUp(t, essential) && NoWindows(t) && Rehearsal(t)
            && Gauge(t) == LastLevel(t) == Some(first.level) && (looked ==> Fresh(t) && LastView(t) == Some(first))
            && (forall e | e in t :: !e.Entered? && !e.Hook? && !e.Core?) && CleanupTime(t) == 0.0
  {
    hide MountActionFor, LookedFor;
    var a, b, c, d := Observed(first.mounted), AliveCheck(first.alive), Measured(first.level),
      TranscriptCheck(first.transcripts);
    if looked {
      var e := Decision(first);
      assert Start(first, looked) == [] + [a] + [b] + [c] + [d] + [e];
      Appended([], a);
      Appended([] + [a], b);
      Appended([] + [a] + [b], c);
      Appended([] + [a] + [b] + [c], d);
      Appended([] + [a] + [b] + [c] + [d], e);
      NothingBroughtUp([], a, essential);
      NothingBroughtUp([] + [a], b, essential);
      NothingBroughtUp([] + [a] + [b], c, essential);
      NothingBroughtUp([] + [a] + [b] + [c], d, essential);
      NothingBroughtUp([] + [a] + [b] + [c] + [d], e, essential);
    } else {
      assert Start(first, looked) == [] + [c] + [d];
      Appended([], c);
      Appended([] + [c], d);
      NothingBroughtUp([], c, essential);
      NothingBroughtUp([] + [c], d, essential);
    }
  }

  lemma StartBalanced(first: View, looked: bool, b: Books)
    requires !first.settled && b.spent == 0.0 && b.level == first.level && b.runs == [] && b.returned == []
    requires forall i | 0 <= i < |b.actions| :: b.actions[i].status.Planned?
    ensures Balanced(Start(first, looked), b) && DecisionsObserved(Start(first, looked))
  {
    StartTells(first, looked, []);
    StartObserved(first, looked);
    var t := Start(first, looked);
    hide Start, DecisionsObserved, LastLevel, CleanupTime;
    NothingReturned(t);
    forall i | 0 <= i < |b.actions| ensures ActionTold(b.actions[i], i, t) {
      assert !CoreReturned(t, i, true) && !CoreReturned(t, i, false);
    }
  }

  lemma StartObserved(first: View, looked: bool)
    requires !first.settled
    ensures DecisionsObserved(Start(first, looked))
  {
    var t := Start(first, looked);
    FirstLooksEnterNothing(first);
    assert looked ==> t[..4] == FirstLooks(first);
  }

  lemma {:induction false} NothingReturned(t: Trace)
    requires forall e | e in t :: !e.Hook? && !e.Core?
    ensures ExitsOf(t) == [] && HooksOf(t) == []
  {
    if t != [] {
      assert t[|t| - 1] in t;
      NothingReturned(t[..|t| - 1]);
    }
  }

  // Looking at the sessions and for the transcripts, then deciding.
  lemma DecisionNoted(t: Trace, v: View, essential: seq<string>)
    ensures var u := t + [AliveCheck(v.alive)] + [TranscriptCheck(v.transcripts)] + [Decision(v)];
            && Fresh(u) && LastView(u) == Some(v) && OpenPlan(u) == Some(v) && PhasesEntered(u) == PhasesEntered(t)
            && SameMounts(t, u, essential) && Gauge(u) == Gauge(t)
  {
    hide Fresh, LastView, LastLook, OpenPlan, PhasesEntered, BroughtUp, Gauge;
    var a, b, c := AliveCheck(v.alive), TranscriptCheck(v.transcripts), Decision(v);
    Appended(t, a);
    Appended(t + [a], b);
    Appended(t + [a] + [b], c);
    NothingBroughtUp(t, a, essential);
    NothingBroughtUp(t + [a], b, essential);
    NothingBroughtUp(t + [a] + [b], c, essential);
  }

  lemma TmuxClears(t: Trace)
    requires DecisionsObserved(t + [Tmux(true)]) && Fresh(t)
    ensures Cleared(t + [Tmux(true)])
  {
    Appended(t, Tmux(true));
  }

  lemma PhasesBefore(k: nat)
    requires k <= 5
    ensures Mounts in PHASES[..k] <==> k >= 2
  {
    if k >= 2 { assert PHASES[..k][1] == Mounts; }
  }

  // Skipping what is still planned when the deadline came before the mounts phase.
  lemma ExpiredMounts(before: seq<MountEntry>, after: seq<MountEntry>, t: Trace, essential: seq<string>, late: bool)
    requires MountsExplained(before, t, essential, false) && |after| == |before|
    requires forall j | 0 <= j < |after| :: after[j] ==
               if before[j].status.Planned? then before[j].(status := Skipped) else before[j]
    requires (late && Mounts !in PhasesEntered(t)) || forall j | 0 <= j < |before| :: !before[j].status.Planned?
    ensures MountsExplained(after, t, essential, late)
  {
    hide LastView, LastLook, PhasesEntered;
    forall i | 0 <= i < |after| ensures MountExplained(after[i], t, essential, late) {
      assert MountExplained(before[i], t, essential, false);
    }
  }

  lemma OverBegins(t: Trace, mounts: seq<MountEntry>, entries: seq<SessionEntry>, dryRun: bool, late: bool,
                   snapshot: Snapshot, config: Config)
    requires BeforeSessions(t, 0, mounts, entries, dryRun, snapshot, config)
    ensures Over(t, 0, mounts, entries, dryRun, late, snapshot, config)
  {}

  lemma NoPhases(hooks: nat, again: bool)
    ensures HooksRan([], [], hooks, again)
  {}

  lemma TmuxSeen(t: Trace, present: bool)
    requires NoWindows(t)
    ensures NoWindows(t + [Tmux(present)])
  {}

  // Everything known once k phases are over.
  ghost predicate Over(t: Trace, k: nat, mounts: seq<MountEntry>, entries: seq<SessionEntry>, dryRun: bool, late: bool,
                       snapshot: Snapshot, config: Config)
  {
    if k < 5 then BeforeSessions(t, k, mounts, entries, dryRun, snapshot, config)
    else
      && WindowsAllowed(t, snapshot, config) && WindowsInOrder(t) && Told(entries, t)
      && Truthful(mounts, t, config.essential)
      && (dryRun ==> Rehearsal(t))
      && AllExplained(entries, t, late)
      && (!dryRun ==> MountsExplained(mounts, t, config.essential, false)
                      && forall i | 0 <= i < |mounts| :: !mounts[i].status.Planned?)
      && (!dryRun ==> forall i | 0 <= i < |entries| :: !entries[i].status.Planned?)
  }

  lemma SessionsOver(t: Trace, u: Trace, mounts: seq<MountEntry>, before: seq<SessionEntry>, after: seq<SessionEntry>,
                     dryRun: bool, late: bool, snapshot: Snapshot, config: Config)
    requires BeforeSessions(t, 4, mounts, before, dryRun, snapshot, config)
    requires Unchanged(t, u, config.essential) && Opening(u, |after|, snapshot, config) && Told(after, u)
    requires AllExplained(after, u, late) && (dryRun ==> t == u)
    requires !dryRun ==> forall i | 0 <= i < |after| :: !after[i].status.Planned?
    ensures Over(u, 5, mounts, after, dryRun, late, snapshot, config)
  {
    hide BroughtUp, MayFollow, Tried, MountExplained;
    TruthfulKept(mounts, t, u, config.essential);
  }

  lemma OverImplies(t: Trace, k: nat, mounts: seq<MountEntry>, entries: seq<SessionEntry>, dryRun: bool, late: bool,
                    snapshot: Snapshot, config: Config)
    requires Over(t, k, mounts, entries, dryRun, late, snapshot, config)
    ensures WindowsAllowed(t, snapshot, config) && WindowsInOrder(t) && Told(entries, t)
    ensures Truthful(mounts, t, config.essential) && (dryRun ==> Rehearsal(t))
    ensures AllExplained(entries, t, late)
    ensures k < 5 ==> BeforeSessions(t, k, mounts, entries, dryRun, snapshot, config)
    ensures !dryRun ==> MountsExplained(mounts, t, config.essential, false)
    ensures !dryRun && k >= 2 ==> forall i | 0 <= i < |mounts| :: !mounts[i].status.Planned?
    ensures k < 2 ==> Undone(mounts, entries)
    ensures k >= 5 && !dryRun ==> forall i | 0 <= i < |entries| :: !entries[i].status.Planned?
  {
    hide BroughtUp, Tried, MayFollow, AllDecided, MountExplained;
    if k < 5 {
      NothingOpened(t, entries, snapshot, config);
      UnopenedExplained(entries, t, late);
    }
  }

  // ---- A mount that came and went ----

  lemma LooksNoted(t: Trace, v: View, essential: seq<string>)
    requires DecisionsObserved(t) && t != [] && t[|t| - 1] == Observed(v.mounted) && Gauge(t) == Some(v.level)
    requires v.settled ==> PhasesEntered(t) == PHASES[..2]
    ensures DecisionsObserved(t + [AliveCheck(v.alive)] + [TranscriptCheck(v.transcripts)] + [Decision(v)])
  {
    hide DecisionsObserved, PhasesEntered, Gauge;
    var a, b := AliveCheck(v.alive), TranscriptCheck(v.transcripts);
    DecisionAppended(t, a);
    DecisionAppended(t + [a], b);
    Appended(t, a);
    Appended(t + [a], b);
    DecisionAppended(t + [a] + [b], Decision(v));
  }

  function Looks(v: View): Trace {
    [Observed(v.mounted), AliveCheck(v.alive), TranscriptCheck(v.transcripts), Decision(v)]
  }

  // Looking at everything, then deciding.
  lemma LookedAndDecided(t: Trace, v: View, target: string, essential: seq<string>)
    requires DecisionsObserved(t) && Gauge(t) == Some(v.level) && (v.settled ==> PhasesEntered(t) == PHASES[..2])
    ensures var u := t + Looks(v);
            && DecisionsObserved(u) && PhasesEntered(u) == PhasesEntered(t) && Gauge(u) == Gauge(t)
            && LastView(u) == Some(v) && LastLook(u) == Some(v.mounted) && Fresh(u) && OpenPlan(u) == Some(v)
            && (BroughtUp(t, target, essential) ==> BroughtUp(u, target, essential))
  {
    hide DecisionsObserved, Fresh, LastView, LastLook, PhasesEntered, OpenPlan, BroughtUp, Gauge;
    var u := t + [Observed(v.mounted)];
    Appended(t, Observed(v.mounted));
    DecisionAppended(t, Observed(v.mounted));
    LookAppended(t, Observed(v.mounted), target, essential);
    DecisionNoted(u, v, essential);
    LooksNoted(u, v, essential);
    assert t + Looks(v) == u + [AliveCheck(v.alive)] + [TranscriptCheck(v.transcripts)] + [Decision(v)];
    FreshRestsOnLook(t + Looks(v));
  }

  lemma Noticed(t: Trace, e: Event)
    requires DecisionsObserved(t) && !e.Decision?
    ensures DecisionsObserved(t + [e]) && PhasesEntered(t + [e]) == PhasesEntered(t) + if e.Entered? then [e.phase] else []
    ensures OpenPlan(t + [e]) == if e.Hook? then OpenPlan(t) else None
    ensures Gauge(t + [e]) == if CleansUp(e) then None else if e.Measured? then Some(e.level) else Gauge(t)
  {
    hide DecisionsObserved, Fresh, LastView, LastLook, PhasesEntered, OpenPlan, BroughtUp, Gauge;
    Appended(t, e);
    DecisionAppended(t, e);
  }

  // A mount that the hooks brought up and that is gone at the last look is still reported as done: the first plan, the
  // first disk phase, and one attempt of the mounts phase.
  lemma DoneMountCanBeGone() returns (t: Trace, first: View, e: MountEntry)
    ensures Start(first, true) + [Entered(DiskPre, 0.0)] + [Measured(Fine)] + Looks(first) + [Entered(Mounts, 0.0)] <= t
    ensures DecisionsObserved(t) && PhasesEntered(t) == PHASES[..2]
    ensures Fresh(t) && LastView(t).Some? && LastView(t).value.settled
    ensures Reported(e, MountEntryFor(e.target, LastView(t).value.mounted, LastView(t).value.level, []), t, [])
    ensures e.status.Done? && LastLook(t).Some? && e.target !in LastLook(t).value
  {
    hide DecisionsObserved, Fresh, LastView, LastLook, PhasesEntered, OpenPlan, BroughtUp, Start, Gauge, Looks;
    var m := "/m";
    first := View(Fine, {}, {}, {}, false);
    StartTells(first, true, []);
    StartObserved(first, true);
    var t1 := Start(first, true);
    Noticed(t1, Entered(DiskPre, 0.0));
    Noticed(t1 + [Entered(DiskPre, 0.0)], Measured(Fine));
    var t2 := t1 + [Entered(DiskPre, 0.0)] + [Measured(Fine)] + Looks(first);
    LookedAndDecided(t1 + [Entered(DiskPre, 0.0)] + [Measured(Fine)], first, m, []);
    var t3 := t2 + [Entered(Mounts, 0.0)];
    Noticed(t2, Entered(Mounts, 0.0));
    var t4 := t3 + Looks(first);
    LookedAndDecided(t3, first, m, []);
    var hook := Hook(Mounts, 0.0, 1.0, Exited(0));
    Noticed(t4, hook);
    var t5 := t4 + [hook] + [Observed({m})];
    Noticed(t4 + [hook], Observed({m}));
    LookAppended(t4 + [hook], Observed({m}), m, []);
    t := t5 + Looks(first.(settled := true));
    LookedAndDecided(t5, first.(settled := true), m, []);
    e := MountEntry(m, false, Mount, Done);
  }

  // ---- The marker that ends recovery on this boot ----

  ghost predicate Marked(auto: bool, actions: seq<DiskAction>, mounts: seq<MountEntry>, entries: seq<SessionEntry>) {
    && auto
    && (forall i | 0 <= i < |actions| :: !actions[i].status.Failed?)
    && (forall i | 0 <= i < |mounts| :: !mounts[i].status.Failed?)
    && (forall i | 0 <= i < |entries| :: !entries[i].status.Failed?
         && !(entries[i].status.Skipped? && (entries[i].detail.DeadlineReached? || entries[i].detail.NoTmux?)))
  }

  // The mount is up: an attempt brought it up, or the last look saw it.
  ghost predicate Up(target: string, t: Trace, essential: seq<string>) {
    BroughtUp(t, target, essential) || (LastLook(t).Some? && target in LastLook(t).value)
  }

  // The last decision left the mount out for lack of disk space.
  ghost predicate LeftOut(target: string, t: Trace, essential: seq<string>) {
    LastView(t).Some? && LastView(t).value.level.Hard? && StripSlashes(target) !in essential
  }

  // The last decision wanted it mounted.
  ghost predicate Wanted(target: string, t: Trace, essential: seq<string>) {
    LastView(t).Some? && MountActionFor(target, LastView(t).value.mounted, LastView(t).value.level, essential).Mount?
  }

  ghost predicate AllUpOrLeftOut(mounts: seq<MountEntry>, t: Trace, essential: seq<string>) {
    forall i | 0 <= i < |mounts| :: Up(mounts[i].target, t, essential) || LeftOut(mounts[i].target, t, essential)
  }

  lemma MarkedWhenIdle(actions: seq<DiskAction>, mounts: seq<MountEntry>, entries: seq<SessionEntry>, t: Trace,
                       essential: seq<string>, late: bool)
    requires entries == [] && MountsExplained(mounts, t, essential, late) && NoneBroughtUp(t, essential)
    requires forall i | 0 <= i < |actions| :: !actions[i].status.Failed?
    requires forall i | 0 <= i < |mounts| :: mounts[i].status.Skipped?
    ensures Marked(true, actions, mounts, entries)
    ensures forall e | e in mounts ::
              LastLook(t).Some? && (Up(e.target, t, essential) <==> e.target in LastLook(t).value)
  {
    hide BroughtUp, LastView, LastLook, PhasesEntered, MountActionFor;
    forall e | e in mounts ensures LastLook(t).Some? && (Up(e.target, t, essential) <==> e.target in LastLook(t).value) {
      var i :| 0 <= i < |mounts| && mounts[i] == e;
      assert MountExplained(mounts[i], t, essential, late);
    }
  }

  // A run that marks the boot as restored opened every window it was to open, except where memory was seen to be low. A
  // mount is up or left out exactly unless it is reported as skipped though it was to be mounted, and that happens only
  // when the deadline came before the mounts phase.
  lemma MarkedRunIsComplete(auto: bool, actions: seq<DiskAction>, mounts: seq<MountEntry>, entries: seq<SessionEntry>,
                            t: Trace, late: bool, essential: seq<string>)
    requires NothingPlanned(actions, mounts, entries) && Told(entries, t) && Truthful(mounts, t, essential)
    requires AllExplained(entries, t, late) && MountsExplained(mounts, t, essential, late)
    requires Marked(auto, actions, mounts, entries)
    ensures forall i | 0 <= i < |entries| && entries[i].action.Opens() :: Tried(t, i, true) || Memory(i, true) in t
    ensures forall i | 0 <= i < |mounts| ::
              Up(mounts[i].target, t, essential) || LeftOut(mounts[i].target, t, essential)
              <==> !(mounts[i].status.Skipped? && mounts[i].action.Mount?)
    ensures Mounts in PhasesEntered(t) || !late ==> AllUpOrLeftOut(mounts, t, essential)
  {
    hide BroughtUp, Tried, LastView, LastLook, PhasesEntered;
    forall i | 0 <= i < |entries| && entries[i].action.Opens()
      ensures Tried(t, i, true) || Memory(i, true) in t
    {
      assert Explained(entries[i], i, t, late) && ToldOne(entries[i], i, t);
      assert entries[i].status.Skipped? || entries[i].status.Done?;
    }
    forall i | 0 <= i < |mounts|
      ensures Up(mounts[i].target, t, essential) || LeftOut(mounts[i].target, t, essential)
              <==> !(mounts[i].status.Skipped? && mounts[i].action.Mount?)
      ensures mounts[i].status.Skipped? && mounts[i].action.Mount? ==> late && Mounts !in PhasesEntered(t)
    {
      assert MountExplained(mounts[i], t, essential, late);
      assert mounts[i].status.Skipped? || mounts[i].status.Done?;
    }
  }

  // A marked run leaves no mount missing exactly when the mounts phase began or the last decision wanted no mount.
  lemma MarkedRunMountsIff(auto: bool, actions: seq<DiskAction>, mounts: seq<MountEntry>, entries: seq<SessionEntry>,
                           t: Trace, late: bool, essential: seq<string>)
    requires NothingPlanned(actions, mounts, entries) && Told(entries, t) && Truthful(mounts, t, essential)
    requires AllExplained(entries, t, late) && MountsExplained(mounts, t, essential, late)
    requires Mounts !in PhasesEntered(t) ==> forall i | 0 <= i < |mounts| :: mounts[i].status.Skipped?
    requires Marked(auto, actions, mounts, entries)
    ensures AllUpOrLeftOut(mounts, t, essential)
            <==> Mounts in PhasesEntered(t) || forall i | 0 <= i < |mounts| :: !Wanted(mounts[i].target, t, essential)
  {
    hide BroughtUp, Tried, LastView, LastLook, PhasesEntered, Told, AllExplained;
    MarkedRunIsComplete(auto, actions, mounts, entries, t, late, essential);
    forall i | 0 <= i < |mounts| && mounts[i].status.Skipped?
      ensures mounts[i].action.Mount? <==> Wanted(mounts[i].target, t, essential)
    {
      assert MountExplained(mounts[i], t, essential, late);
    }
  }
}
