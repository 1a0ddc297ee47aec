// What happens during one restore, as a trace of events, and the machine on which it happens:
// scripts/claude-recover.py.

module RestoreTrace {
  import opened Options
  import opened Paths
  import opened RestorePlan

  const CLEANUP_CAP_S: real := 15.0 * 60.0
  const COMPOSE_CAP_S: real := 10.0 * 60.0
  const MOUNT_TIMEOUT_S: real := 120.0

  datatype Phase = DiskPre | Mounts | Compose | DiskPost | Sessions

  const PHASES: seq<Phase> := [DiskPre, Mounts, Compose, DiskPost, Sessions]

  datatype Exit = Exited(code: int) | TimedOut | Unrunnable | NoTimeLeft

  datatype Event =
    | Entered(phase: Phase, at: real)
    | Hook(phase: Phase, started: real, ended: real, exit: Exit)
    | Core(index: nat, started: real, ended: real, exit: Exit)
    | Measured(level: Level)
    | Observed(mounted: set<string>)
    | AliveCheck(alive: set<string>)
    | TranscriptCheck(existing: set<string>)
    | Memory(index: nat, low: bool)
    | Tmux(present: bool)
    | Decision(view: View)
    | Window(index: nat, command: Launch, done: bool)

  type Trace = seq<Event>

  predicate OnDisk(phase: Phase) { phase.DiskPre? || phase.DiskPost? }

  // ---- Time ----

  function Cost(e: Event): real {
    if (e.Hook? && OnDisk(e.phase)) || e.Core? then e.ended - e.started else 0.0
  }

  function CleanupTime(t: Trace): real {
    if t == [] then 0.0 else CleanupTime(t[..|t| - 1]) + Cost(t[|t| - 1])
  }

  function PhaseCap(phase: Phase, mounts: nat): real {
    match phase
    case Mounts => MOUNT_TIMEOUT_S * (if mounts == 0 then 1 else mounts) as real + 60.0
    case Compose => COMPOSE_CAP_S
    case _ => CLEANUP_CAP_S
  }

  // A phase is entered before the deadline. A process starts and ends before it, and within the cap of its phase.
  ghost predicate Timely(e: Event, deadline: real, mounts: nat) {
    match e
    case Entered(_, at) => at < deadline
    case Hook(phase, started, ended, _) => started <= ended <= deadline && ended - started <= PhaseCap(phase, mounts)
    case Core(_, started, ended, _) => started <= ended <= deadline
    case _ => true
  }

  ghost predicate AllTimely(t: Trace, deadline: real, mounts: nat) {
    forall e | e in t :: Timely(e, deadline, mounts)
  }

  // ---- What a trace says ----

  function LastView(t: Trace): Option<View> {
    if t == [] then None
    else if t[|t| - 1].Decision? then Some(t[|t| - 1].view)
    else LastView(t[..|t| - 1])
  }

  function PhasesEntered(t: Trace): seq<Phase> {
    if t == [] then []
    else PhasesEntered(t[..|t| - 1]) + (if t[|t| - 1].Entered? then [t[|t| - 1].phase] else [])
  }

  // What the last look at the mounts saw.
  function LastLook(t: Trace): Option<set<string>> {
    if t == [] then None
    else if t[|t| - 1].Observed? then Some(t[|t| - 1].mounted)
    else LastLook(t[..|t| - 1])
  }

  // The disk level measured last.
  function LastLevel(t: Trace): Option<Level> {
    if t == [] then None
    else if t[|t| - 1].Measured? then Some(t[|t| - 1].level)
    else LastLevel(t[..|t| - 1])
  }

  // A hook or a core action of a disk phase, which may change the disk level.
  predicate CleansUp(e: Event) {
    e.Core? || (e.Hook? && OnDisk(e.phase))
  }

  // The disk level measured last, unless something cleaned up since.
  function Gauge(t: Trace): Option<Level> {
    if t == [] || CleansUp(t[|t| - 1]) then None
    else if t[|t| - 1].Measured? then Some(t[|t| - 1].level)
    else Gauge(t[..|t| - 1])
  }

  // A decision is taken right after looking at the mounts, at the sessions and for the transcripts, and on a level that
  // was measured since the last cleanup; a settled one ends the mounts phase. For the first one, the level is measured
  // between the looks.
  ghost predicate LookedFor(t: Trace, v: View) {
    && (LookedAround(t, v) || t == FirstLooks(v))
    && Gauge(t) == Some(v.level)
    && (v.settled ==> PhasesEntered(t) == PHASES[..2])
  }

  ghost predicate LookedAround(t: Trace, v: View) {
    && |t| >= 3 && t[|t| - 3] == Observed(v.mounted) && t[|t| - 2] == AliveCheck(v.alive)
    && t[|t| - 1] == TranscriptCheck(v.transcripts)
  }

  function FirstLooks(v: View): Trace {
    [Observed(v.mounted), AliveCheck(v.alive), Measured(v.level), TranscriptCheck(v.transcripts)]
  }

  // The disk phase entered at i runs its cleanup and then measures the disk at m.
  ghost predicate RemeasuredAt(t: Trace, i: nat, m: int) {
    && i < m < |t| && t[m].Measured? && forall j | i < j < m :: t[j].Hook? || t[j].Core?
  }

  // Every disk phase does.
  ghost predicate Remeasured(t: Trace) {
    forall i: nat | i < |t| && t[i].Entered? && OnDisk(t[i].phase) :: exists m :: RemeasuredAt(t, i, m)
  }

  // What a disk phase adds to a trace that entered it: its cleanup, then a measurement.
  ghost predicate CleanedUp(t: Trace, u: Trace) {
    && t <= u && (forall k | |t| <= k < |u| :: !u[k].Entered?)
    && exists m :: |t| <= m < |u| && u[m].Measured? && forall j | |t| <= j < m :: u[j].Hook? || u[j].Core?
  }

  lemma RemeasuredNext(t: Trace, p: Phase, at: real, u: Trace)
    requires Remeasured(t) && t + [Entered(p, at)] <= u && forall k | |t| < k < |u| :: !u[k].Entered?
    requires OnDisk(p) ==> CleanedUp(t + [Entered(p, at)], u)
    ensures Remeasured(u)
  {
    forall i: nat | i < |u| && u[i].Entered? && OnDisk(u[i].phase) ensures exists m :: RemeasuredAt(u, i, m) {
      assert forall j | 0 <= j < |t| :: u[j] == (t + [Entered(p, at)])[j] == t[j];
      assert u[|t|] == (t + [Entered(p, at)])[|t|];
      if i < |t| {
        var m :| RemeasuredAt(t, i, m);
        assert RemeasuredAt(u, i, m);
      } else {
        var m :| |t| + 1 <= m < |u| && u[m].Measured? && forall j | |t| + 1 <= j < m :: u[j].Hook? || u[j].Core?;
        assert RemeasuredAt(u, i, m);
      }
    }
  }

  // Where the level of a decision was measured.
  lemma {:induction false} GaugedAt(t: Trace) returns (m: nat)
    requires Gauge(t).Some?
    ensures m < |t| && t[m] == Measured(Gauge(t).value) && LastLevel(t) == Gauge(t)
    ensures forall k | m < k < |t| :: !t[k].Measured? && !CleansUp(t[k])
  {
    m := |t| - 1;
    if !t[m].Measured? { m := GaugedAt(t[..m]); }
  }

  // Every decision uses the level measured last, and nothing cleaned up in between.
  lemma DecisionIsGauged(t: Trace, d: nat) returns (m: nat)
    requires DecisionsObserved(t) && d < |t| && t[d].Decision?
    ensures m < d && t[m] == Measured(t[d].view.level)
    ensures forall k | m < k < d :: !t[k].Measured? && !CleansUp(t[k])
  {
    assert LookedFor(t[..d], t[d].view);
    m := GaugedAt(t[..d]);
    assert forall k | m <= k < d :: t[..d][k] == t[k];
  }

  ghost predicate DecisionsObserved(t: Trace) {
    forall k | 0 <= k < |t| && t[k].Decision? :: LookedFor(t[..k], t[k].view)
  }

  // A decision was taken and nobody has looked at the mounts since.
  ghost predicate Fresh(t: Trace) {
    t != [] && (t[|t| - 1].Decision? || (!t[|t| - 1].Observed? && Fresh(t[..|t| - 1])))
  }

  // Windows may be opened: tmux is there, and the last decision rests on the last look.
  ghost predicate Cleared(t: Trace) {
    Tmux(true) in t && DecisionsObserved(t) && Fresh(t)
  }

  // A window is opened for a session that the last decision let through, right after it was seen not to be alive and
  // memory was found sufficient.
  ghost predicate MayFollow(before: Trace, w: Event, snapshot: Snapshot, config: Config)
    requires w.Window?
  {
    && |before| > 1 && before[|before| - 1] == Memory(w.index, false) && before[|before| - 2].AliveCheck?
    && w.index < |snapshot.sessions| && snapshot.sessions[w.index].id !in before[|before| - 2].alive
    && Cleared(before) && LastView(before).Some? && LastView(before).value.settled
    && MayOpen(snapshot.sessions[w.index], snapshot.mounts, LastView(before).value, config.essential)
    && w.command == LaunchFor(snapshot.sessions[w.index], config)
  }

  ghost predicate WindowsAllowed(t: Trace, snapshot: Snapshot, config: Config) {
    forall k | 0 <= k < |t| && t[k].Window? :: MayFollow(t[..k], t[k], snapshot, config)
  }

  ghost predicate WindowsInOrder(t: Trace) {
    forall j, k | 0 <= j < k < |t| && t[j].Window? && t[k].Window? :: t[j].index < t[k].index
  }

  ghost predicate NoWindows(t: Trace) {
    forall e | e in t :: !e.Window?
  }

  // The window of that session was tried, with that outcome.
  ghost predicate Tried(t: Trace, index: nat, done: bool) {
    exists e | e in t :: e.Window? && e.index == index && e.done == done
  }

  // The plan that the hooks run so far are carrying out.
  ghost function OpenPlan(t: Trace): Option<View> {
    if t == [] then None
    else if t[|t| - 1].Decision? then Some(t[|t| - 1].view)
    else if t[|t| - 1].Hook? then OpenPlan(t[..|t| - 1])
    else None
  }

  // Some decision planned to mount the target, then only hooks ran, and then it was seen mounted.
  ghost predicate BroughtUp(t: Trace, target: string, essential: seq<string>) {
    t != [] && (BroughtUp(t[..|t| - 1], target, essential)
                || SeenAsPlanned(OpenPlan(t[..|t| - 1]), t[|t| - 1], target, essential))
  }

  ghost predicate SeenAsPlanned(plan: Option<View>, e: Event, target: string, essential: seq<string>) {
    && plan.Some? && MountActionFor(target, plan.value.mounted, plan.value.level, essential).Mount?
    && e.Observed? && target in e.mounted
  }

  ghost predicate SameMounts(t: Trace, u: Trace, essential: seq<string>) {
    forall m :: BroughtUp(u, m, essential) <==> BroughtUp(t, m, essential)
  }

  // Only hooks ran in between.
  ghost predicate OnlyHooks(t: Trace, u: Trace) {
    t <= u && forall k | |t| <= k < |u| :: u[k].Hook?
  }

  // Only hooks and core actions ran in between, and the disk was measured.
  ghost predicate Quiet(t: Trace, u: Trace) {
    t <= u && forall k | |t| <= k < |u| :: u[k].Hook? || u[k].Core? || u[k].Measured?
  }

  // No window was opened and no phase was entered in between.
  ghost predicate Calm(t: Trace, u: Trace) {
    t <= u && forall k | |t| <= k < |u| :: !u[k].Window? && !u[k].Entered?
  }

  lemma {:induction false} QuietKeepsView(t: Trace, u: Trace, essential: seq<string>)
    requires Quiet(t, u)
    ensures LastView(u) == LastView(t) && LastLook(u) == LastLook(t) && (Fresh(t) ==> Fresh(u))
    ensures SameMounts(t, u, essential)
    ensures OpenPlan(t).None? ==> OpenPlan(u).None?
    ensures OnlyHooks(t, u) ==> OpenPlan(u) == OpenPlan(t)
    decreases |u|
  {
    if t != u {
      var most := u[..|u| - 1];
      assert t <= most;
      QuietKeepsView(t, most, essential);
    }
  }

  lemma {:induction false} CalmKeepsPhases(t: Trace, u: Trace)
    requires Calm(t, u)
    ensures PhasesEntered(u) == PhasesEntered(t)
    decreases |u|
  {
    if t != u {
      assert t <= u[..|u| - 1];
      CalmKeepsPhases(t, u[..|u| - 1]);
    }
  }

  lemma Appended(t: Trace, e: Event)
    ensures CleanupTime(t + [e]) == CleanupTime(t) + Cost(e)
    ensures PhasesEntered(t + [e]) == PhasesEntered(t) + (if e.Entered? then [e.phase] else [])
    ensures LastView(t + [e]) == if e.Decision? then Some(e.view) else LastView(t)
    ensures LastLook(t + [e]) == if e.Observed? then Some(e.mounted) else LastLook(t)
    ensures Fresh(t + [e]) <==> e.Decision? || (!e.Observed? && Fresh(t))
    ensures OpenPlan(t + [e]) == if e.Decision? then Some(e.view) else if e.Hook? then OpenPlan(t) else None
    ensures LastLevel(t + [e]) == if e.Measured? then Some(e.level) else LastLevel(t)
    ensures Gauge(t + [e]) == if CleansUp(e) then None else if e.Measured? then Some(e.level) else Gauge(t)
  {
    assert (t + [e])[..|t|] == t;
  }

  lemma LookAppended(t: Trace, e: Event, target: string, essential: seq<string>)
    ensures BroughtUp(t + [e], target, essential) <==>
            BroughtUp(t, target, essential) || SeenAsPlanned(OpenPlan(t), e, target, essential)
  {
    assert (t + [e])[..|t|] == t;
  }

  lemma NothingBroughtUp(t: Trace, e: Event, essential: seq<string>)
    requires !e.Observed? || OpenPlan(t).None?
    ensures SameMounts(t, t + [e], essential)
  {
    forall m ensures BroughtUp(t + [e], m, essential) <==> BroughtUp(t, m, essential) {
      LookAppended(t, e, m, essential);
    }
  }

  lemma WindowAppended(t: Trace, e: Event, snapshot: Snapshot, config: Config)
    requires WindowsAllowed(t, snapshot, config) && WindowsInOrder(t)
    requires e.Window? ==> MayFollow(t, e, snapshot, config)
    requires e.Window? ==> forall w | w in t && w.Window? :: w.index < e.index
    ensures WindowsAllowed(t + [e], snapshot, config) && WindowsInOrder(t + [e])
  {
    var u := t + [e];
    forall k | 0 <= k < |u| && u[k].Window? ensures MayFollow(u[..k], u[k], snapshot, config) {
      assert u[..k] == t[..k];
      if k == |t| { assert t[..k] == t; }
    }
  }

  ghost predicate WindowsBelow(t: Trace, bound: nat) {
    forall e | e in t && e.Window? :: e.index < bound
  }

  lemma TriedAppended(t: Trace, e: Event, index: nat, done: bool)
    ensures Tried(t + [e], index, done) <==> Tried(t, index, done) || (e.Window? && e.index == index && e.done == done)
  {}

  lemma DecisionAppended(t: Trace, e: Event)
    requires DecisionsObserved(t) && (e.Decision? ==> LookedFor(t, e.view))
    ensures DecisionsObserved(t + [e])
  {
    hide LookedFor;
    var u := t + [e];
    forall k | 0 <= k < |u| && u[k].Decision? ensures LookedFor(u[..k], u[k].view) {
      assert u[..k] == t[..k] && t[..|t|] == t;
    }
  }

  lemma ClearedAppended(t: Trace, e: Event)
    requires Cleared(t) && !e.Decision? && !e.Observed?
    ensures Cleared(t + [e])
  {
    hide DecisionsObserved;
    Appended(t, e);
    DecisionAppended(t, e);
  }

  // Where the last decision was taken.
  lemma {:induction false} DecidedAt(t: Trace) returns (d: nat)
    requires LastView(t).Some?
    ensures d < |t| && t[d] == Decision(LastView(t).value) && forall k | d < k < |t| :: !t[k].Decision?
    ensures Fresh(t) ==> forall k | d < k < |t| :: !t[k].Observed?
  {
    d := |t| - 1;
    if !t[d].Decision? { d := DecidedAt(t[..d]); }
  }

  lemma {:induction false} NoLookSince(t: Trace, n: nat)
    requires n <= |t| && forall k | n <= k < |t| :: !t[k].Observed?
    ensures LastLook(t) == LastLook(t[..n])
    decreases |t|
  {
    if n == |t| {
      assert t[..n] == t;
    } else {
      assert t[..|t| - 1][..n] == t[..n];
      NoLookSince(t[..|t| - 1], n);
    }
  }

  // A decision nobody has looked since rests on the last look.
  lemma FreshRestsOnLook(t: Trace)
    requires Fresh(t) && DecisionsObserved(t) && LastView(t).Some?
    ensures LastLook(t) == Some(LastView(t).value.mounted)
  {
    hide Fresh, LastLook;
    var d := DecidedAt(t);
    assert LookedFor(t[..d], t[d].view);
    var n := if LookedAround(t[..d], t[d].view) then d - 2 else 1;
    assert t[n - 1] == t[..d][n - 1] && forall k | n <= k < d :: t[k] == t[..d][k];
    NoLookSince(t, n);
    LastIsLook(t[..n]);
  }

  lemma FirstLooksEnterNothing(v: View)
    ensures PhasesEntered(FirstLooks(v)) == [] && Gauge(FirstLooks(v)) == Some(v.level) == LastLevel(FirstLooks(v))
    ensures CleanupTime(FirstLooks(v)) == 0.0
  {
    var a, b, c, d := Observed(v.mounted), AliveCheck(v.alive), Measured(v.level), TranscriptCheck(v.transcripts);
    assert FirstLooks(v) == [] + [a] + [b] + [c] + [d];
    Appended([], a);
    Appended([] + [a], b);
    Appended([] + [a] + [b], c);
    Appended([] + [a] + [b] + [c], d);
  }

  lemma LastIsLook(t: Trace)
    ensures t != [] && t[|t| - 1].Observed? ==> LastLook(t) == Some(t[|t| - 1].mounted)
  {}

  // The safety of one opened window, in terms of what was observed. Right before it the session was seen not to be
  // alive and memory to suffice; tmux was there. At d, in the mounts phase, the settled decision had been taken on three
  // looks: every recorded mount that holds the session's directory was seen mounted, and its transcript was there. It
  // was the last look at the mounts.
  lemma WindowIsSafe(t: Trace, k: nat, snapshot: Snapshot, config: Config) returns (d: nat)
    requires WindowsAllowed(t, snapshot, config) && k < |t| && t[k].Window?
    ensures k > 1 && t[k - 1] == Memory(t[k].index, false) && t[k - 2].AliveCheck? && Tmux(true) in t[..k]
    ensures t[k].index < |snapshot.sessions| && snapshot.sessions[t[k].index].id !in t[k - 2].alive
    ensures t[k].command == LaunchFor(snapshot.sessions[t[k].index], config)
    ensures 3 <= d < k && t[d].Decision? && PhasesEntered(t[..d]) == [DiskPre, Mounts]
    ensures t[d - 3].Observed? && t[d - 2].AliveCheck? && t[d - 1].TranscriptCheck?
    ensures forall i | d - 3 < i < k :: !t[i].Observed?
    ensures var s := snapshot.sessions[t[k].index];
            && (forall m | m in snapshot.mounts && Under(s.cwd, m) :: m in t[d - 3].mounted)
            && s.id !in t[d - 2].alive
            && (s.transcript != "" ==> s.transcript in t[d - 1].existing)
  {
    hide LastView, Fresh, PhasesEntered, LaunchFor, FirstLooks, Gauge;
    assert MayFollow(t[..k], t[k], snapshot, config);
    var before, s := t[..k], snapshot.sessions[t[k].index];
    var v := LastView(before).value;
    d := DecidedAt(before);
    assert LookedFor(before[..d], before[d].view) && before[..d] == t[..d];
    FirstLooksEnterNothing(v);
    forall m | m in snapshot.mounts && Under(s.cwd, m) ensures m in v.mounted {
      assert Usable(m, v, config.essential);
    }
  }

  // ---- Mounts that were brought up ----

  // Some look saw the target and a later one did not.
  ghost predicate Lost(t: Trace, target: string) {
    exists j, k | 0 <= j < k < |t| :: SeesMount(t[j], target) && MissesMount(t[k], target)
  }

  ghost predicate SeesMount(e: Event, target: string) {
    e.Observed? && target in e.mounted
  }

  ghost predicate MissesMount(e: Event, target: string) {
    e.Observed? && target !in e.mounted
  }

  lemma {:induction false} LookedAt(t: Trace) returns (k: nat)
    requires LastLook(t).Some?
    ensures k < |t| && t[k] == Observed(LastLook(t).value) && forall i | k < i < |t| :: !t[i].Observed?
  {
    k := |t| - 1;
    if !t[k].Observed? { k := LookedAt(t[..k]); }
  }

  lemma {:induction false} BroughtUpWasSeen(t: Trace, target: string, essential: seq<string>) returns (j: nat)
    requires BroughtUp(t, target, essential)
    ensures j < |t| && SeesMount(t[j], target) && LastLook(t).Some?
  {
    j := |t| - 1;
    if BroughtUp(t[..j], target, essential) { j := BroughtUpWasSeen(t[..j], target, essential); }
  }

  // What an attempt brought up is there at the last look, unless some look lost it.
  lemma BroughtUpStays(t: Trace, target: string, essential: seq<string>)
    requires BroughtUp(t, target, essential)
    ensures LastLook(t).Some? && (target in LastLook(t).value || Lost(t, target))
  {
    hide BroughtUp, LastLook;
    var j := BroughtUpWasSeen(t, target, essential);
    var k := LookedAt(t);
    if target !in t[k].mounted {
      assert SeesMount(t[j], target) && MissesMount(t[k], target);
    }
  }

  // ---- The machine ----

  class Machine {
    var clock: real
    ghost var trace: Trace
    ghost var returned: seq<Exit>  // what the processes returned

    constructor ()
      ensures trace == [] && returned == []
    {
      clock := *;
      trace, returned := [], [];
    }

    // Time passes.
    method Pass()
      modifies `clock
      ensures clock >= old(clock)
    {
      var d: real := *;
      if d > 0.0 { clock := clock + d; }
    }

    // A process that returns within its timeout.
    method Process(limit: real) returns (exit: Exit)
      requires limit > 0.0
      modifies `clock, `returned
      ensures old(clock) <= clock <= old(clock) + limit
      ensures exit != NoTimeLeft && returned == old(returned) + [exit]
    {
      var d: real := *;
      clock := clock + if d < 0.0 then 0.0 else if d > limit then limit else d;
      var code: int := *;
      if {
        case true => exit := Exited(code);
        case true => exit := TimedOut;
        case true => exit := Unrunnable;
      }
      returned := returned + [exit];
    }

    method LiveMounted(targets: seq<string>) returns (mounted: set<string>)
      modifies `clock, `trace
      ensures clock >= old(clock) && trace == old(trace) + [Observed(mounted)]
      ensures forall t | t in mounted :: t in targets
    {
      Pass();
      var seen: set<string> := *;
      mounted := set t | t in targets && t in seen;
      trace := trace + [Observed(mounted)];
    }

    method AliveSessions() returns (alive: set<string>)
      modifies `clock, `trace
      ensures clock >= old(clock) && trace == old(trace) + [AliveCheck(alive)]
    {
      Pass();
      alive := *;
      trace := trace + [AliveCheck(alive)];
    }

    method Transcripts() returns (existing: set<string>)
      modifies `clock, `trace
      ensures clock >= old(clock) && trace == old(trace) + [TranscriptCheck(existing)]
    {
      Pass();
      existing := *;
      trace := trace + [TranscriptCheck(existing)];
    }

    method DiskLevel() returns (level: Level)
      modifies `clock, `trace
      ensures clock >= old(clock) && trace == old(trace) + [Measured(level)]
    {
      Pass();
      level := *;
      trace := trace + [Measured(level)];
    }

    method TmuxPresent() returns (present: bool)
      modifies `clock, `trace
      ensures clock >= old(clock) && trace == old(trace) + [Tmux(present)]
    {
      Pass();
      present := *;
      trace := trace + [Tmux(present)];
    }

    method MemoryLow(index: nat) returns (low: bool)
      modifies `clock, `trace
      ensures clock >= old(clock) && trace == old(trace) + [Memory(index, low)]
    {
      Pass();
      low := *;
      trace := trace + [Memory(index, low)];
    }

    method OpenWindow(index: nat, command: Launch) returns (done: bool)
      modifies `clock, `trace
      ensures clock >= old(clock) && trace == old(trace) + [Window(index, command, done)]
    {
      Pass();
      done := *;
      trace := trace + [Window(index, command, done)];
    }
  }
}
