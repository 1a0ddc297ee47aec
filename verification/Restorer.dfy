// The five-phase restore of scripts/claude-recover.py: the class Restorer.

module Restore {
  import opened Options
  import opened RestorePlan
  import opened RestoreTrace
  import opened RestoreSteps
  import SnapshotStore

  class Restorer {
    const machine: Machine
    const snapshot: Snapshot
    const config: Config
    const auto: bool
    const dryRun: bool
    const hookFiles: nat
    const started: real
    const deadline: real
    ghost const first: View
    ghost const looked: bool
    var level: Level
    var actions: seq<DiskAction>
    var mounts: seq<MountEntry>
    var entries: seq<SessionEntry>
    var hookRuns: seq<HookRun>
    var cleanupSpent: real

    // The plan as first built, from what was looked at before the run; a simulated reboot takes nothing for mounted or
    // alive.
    constructor (m: Machine, taken: Snapshot, settings: Config, unattended: bool, rehearsal: bool, hooks: nat,
                 budget: real, measured: Level, mounted: set<string>, alive: set<string>, transcripts: set<string>,
                 ghost whole: bool)
      requires (rehearsal || whole) && m.returned == []
      requires m.trace == (if whole then [Observed(mounted), AliveCheck(alive)] else [])
                          + [Measured(measured), TranscriptCheck(transcripts)]
      modifies m`trace
      ensures machine == m && snapshot == taken && config == settings && auto == unattended && dryRun == rehearsal
      ensures hookFiles == hooks && m.clock == old(m.clock) && started == m.clock
      ensures deadline == started + Least(budget, SnapshotStore.DEADLINE_S as real)
      ensures level == measured && actions == DiskActions(measured) && hookRuns == [] && cleanupSpent == 0.0
      ensures first == View(measured, mounted, alive, transcripts, false) && looked == whole
      ensures m.trace == Start(first, looked) && PlanFollows(mounts, entries, taken, Some(first), settings)
      ensures Valid() && Begun()
    {
      machine, snapshot, config, auto, dryRun, hookFiles := m, taken, settings, unattended, rehearsal, hooks;
      started, deadline := m.clock, m.clock + Least(budget, SnapshotStore.DEADLINE_S as real);
      level, actions, hookRuns, cleanupSpent := measured, DiskActions(measured), [], 0.0;
      ghost var view := View(measured, mounted, alive, transcripts, false);
      var ms, es := Decide(taken, settings, measured, mounted, alive, transcripts, false);
      DecidedIsListed(ms, es, taken, view, settings);
      PlanUndone(ms, es, taken, view, settings);
      mounts, entries := ms, es;
      first, looked := view, whole;
      new;
      hide Balanced;
      StartBalanced(first, looked, OnRecord());
      if whole { m.trace := m.trace + [Decision(view)]; }
      assert m.trace == Start(first, looked);
    }

    // A run may begin: what is on record is the first plan.
    ghost predicate Begun()
      reads this, machine
    {
      && machine.trace == Start(first, looked) && Undone(mounts, entries) && hookRuns == [] && level == first.level
      && (dryRun || looked) && !first.settled && Waiting(actions, 0)
      && (!dryRun ==> PlanFollows(mounts, entries, snapshot, Some(first), config))
    }

    ghost function OnRecord(): Books
      reads this, machine
    {
      Books(cleanupSpent, deadline, |snapshot.mounts|, actions, hookRuns, machine.returned, level)
    }

    // In a real run, nothing cleaned up since the disk was measured.
    ghost predicate Gauged()
      reads this, machine
    {
      !dryRun ==> Gauge(machine.trace) == Some(level)
    }

    ghost predicate Valid()
      reads this, machine
    {
      Accounted() && Lists(mounts, entries, snapshot)
    }

    ghost predicate Accounted()
      reads this, machine
    {
      Balanced(machine.trace, OnRecord())
    }

    function Remaining(): real
      reads machine
    {
      if machine.clock < deadline then deadline - machine.clock else 0.0
    }

    function CleanupLeft(): real
      reads this
    {
      if cleanupSpent < CLEANUP_CAP_S then CLEANUP_CAP_S - cleanupSpent else 0.0
    }

    // Whether the mounts phase may try again.
    function Again(): bool {
      auto && !dryRun
    }

    // ---- Hooks and core actions ----

    method RunHook(phase: Phase, cap: real) returns (exit: Exit)
      requires Accounted() && cap <= PhaseCap(phase, |snapshot.mounts|)
      modifies machine, `cleanupSpent, `hookRuns
      ensures Accounted() && OnlyHooks(old(machine.trace), machine.trace)
      ensures hookRuns == old(hookRuns) + [HookRun(phase, exit)]
      ensures machine.returned == old(machine.returned) + if exit.NoTimeLeft? then [] else [exit]
      ensures exit.NoTimeLeft? <==>
              old(Remaining()) <= 0.0 || cap <= 0.0 || (OnDisk(phase) && old(CleanupLeft()) <= 0.0)
      ensures |machine.trace| == |old(machine.trace)| + if exit.NoTimeLeft? then 0 else 1
      ensures !OnDisk(phase) ==> Gauge(machine.trace) == Gauge(old(machine.trace))
      ensures machine.clock >= old(machine.clock)
    {
      hide Balanced, Gauge;
      ghost var t, b := machine.trace, OnRecord();
      var limit := Least(Remaining(), Least(cap, if OnDisk(phase) then CleanupLeft() else cap));
      var started := machine.clock;
      if limit <= 0.0 {
        exit := NoTimeLeft;
        HookPassedOver(t, phase, b);
      } else {
        exit := machine.Process(limit);
        ghost var e := Hook(phase, started, machine.clock, exit);
        SpentWithinCap(t, b);
        HookBooked(t, e, b);
        machine.trace := t + [e];
      }
      if OnDisk(phase) {
        cleanupSpent := cleanupSpent + (machine.clock - started);
      }
      hookRuns := hookRuns + [HookRun(phase, exit)];
    }

    method RunHooks(phase: Phase, cap: real) returns (exits: seq<Exit>)
      requires Accounted() && cap <= PhaseCap(phase, |snapshot.mounts|) && !phase.Sessions?
      modifies machine, `cleanupSpent, `hookRuns
      ensures Accounted() && OnlyHooks(old(machine.trace), machine.trace)
      ensures |exits| == hookFiles
      ensures hookRuns == old(hookRuns) + seq(|exits|, i requires 0 <= i < |exits| => HookRun(phase, exits[i]))
      ensures HooksAdded(old(hookRuns), hookRuns, phase, hookFiles, Again())
      ensures |machine.trace| == |old(machine.trace)| + Started(exits)
      ensures !OnDisk(phase) ==> Gauge(machine.trace) == Gauge(old(machine.trace))
      ensures machine.clock >= old(machine.clock)
    {
      hide Balanced, Gauge;
      exits := [];
      for i := 0 to hookFiles
        invariant Accounted() && OnlyHooks(old(machine.trace), machine.trace)
        invariant |exits| == i
        invariant hookRuns == old(hookRuns) + seq(|exits|, j requires 0 <= j < |exits| => HookRun(phase, exits[j]))
        invariant |machine.trace| == |old(machine.trace)| + Started(exits)
        invariant !OnDisk(phase) ==> Gauge(machine.trace) == Gauge(old(machine.trace))
        invariant machine.clock >= old(machine.clock)
      {
        var exit := RunHook(phase, cap);
        assert (exits + [exit])[..|exits|] == exits;
        exits := exits + [exit];
      }
    }

    method RunCoreAction(i: nat) returns (found: bool)
      requires Accounted() && i < |actions| && actions[i].core && !actions[i].confirm && actions[i].status.Planned?
      modifies machine, `cleanupSpent, `actions
      ensures Accounted() && Quiet(old(machine.trace), machine.trace) && NoneMeasured(old(machine.trace), machine.trace)
      ensures |actions| == |old(actions)| && actions == old(actions)[i := old(actions)[i].(status := actions[i].status)]
      ensures actions[i].status != Planned
      ensures actions[i].status != Skipped <==> found && old(Remaining()) > 0.0 && old(CleanupLeft()) > 0.0
      ensures |machine.trace| == |old(machine.trace)| + if actions[i].status.Skipped? then 0 else 1
      ensures !actions[i].status.Skipped? ==>
                |machine.returned| > 0 && (actions[i].status.Done? <==> machine.returned[|machine.returned| - 1] == Exited(0))
      ensures machine.clock >= old(machine.clock)
    {
      hide Balanced, Gauge;
      ghost var t, b := machine.trace, OnRecord();
      var limit := Least(Remaining(), CleanupLeft());
      found := *;
      if found && limit > 0.0 {
        var started := machine.clock;
        var exit := machine.Process(limit);
        ghost var e := Core(i, started, machine.clock, exit);
        SpentWithinCap(t, b);
        CoreBooked(t, e, b);
        machine.trace := t + [e];
        cleanupSpent := cleanupSpent + (machine.clock - started);
        actions := actions[i := actions[i].(status := if exit == Exited(0) then Done else Failed)];
      } else {
        Relabelled(t, b, actions[i := actions[i].(status := Skipped)]);
        actions := actions[i := actions[i].(status := Skipped)];
      }
    }

    // ---- Decisions ----

    method Redecide(mounted: set<string>, settled: bool) returns (ghost view: View)
      requires Valid() && machine.trace != [] && machine.trace[|machine.trace| - 1] == Observed(mounted)
      requires settled ==> PhasesEntered(machine.trace) == PHASES[..2]
      requires Gauge(machine.trace) == Some(level)
      modifies machine, `mounts, `entries
      ensures Valid() && machine.clock >= old(machine.clock) && Gauge(machine.trace) == Some(level)
      ensures view.level == level && view.mounted == mounted && view.settled == settled
      ensures machine.trace ==
              old(machine.trace) + [AliveCheck(view.alive)] + [TranscriptCheck(view.transcripts)] + [Decision(view)]
      ensures PlanFollows(mounts, entries, snapshot, Some(view), config)
    {
      hide Balanced, MountsDecided, AllDecided, MountEntriesFor, PhasesEntered, Gauge;
      ghost var t := machine.trace;
      var alive := machine.AliveSessions();
      Noted(t, AliveCheck(alive), OnRecord());
      ghost var u := machine.trace;
      var transcripts := machine.Transcripts();
      Noted(u, TranscriptCheck(transcripts), OnRecord());
      view := View(level, mounted, alive, transcripts, settled);
      mounts, entries := Decide(snapshot, config, level, mounted, alive, transcripts, settled);
      DecidedIsListed(mounts, entries, snapshot, view, config);
      Appended(t, AliveCheck(alive));
      Appended(u, TranscriptCheck(transcripts));
      Noted(machine.trace, Decision(view), OnRecord());
      machine.trace := machine.trace + [Decision(view)];
    }

    // Looks at the mounts, then decides.
    method RedecideNow(settled: bool)
      requires Valid() && OpenPlan(machine.trace).None? && Gauge(machine.trace) == Some(level)
      requires settled ==> PhasesEntered(machine.trace) == PHASES[..2]
      modifies machine, `mounts, `entries
      ensures Valid() && Calm(old(machine.trace), machine.trace) && Fresh(machine.trace)
      ensures machine.clock >= old(machine.clock) && Gauge(machine.trace) == Some(level)
      ensures SameMounts(old(machine.trace), machine.trace, config.essential)
      ensures LastView(machine.trace).Some? && LastView(machine.trace).value.settled == settled
      ensures PlanFollows(mounts, entries, snapshot, LastView(machine.trace), config)
    {
      hide Balanced, MountsDecided, AllDecided, LastView, LastLook, Fresh, OpenPlan, BroughtUp, PhasesEntered,
        Gauge;
      ghost var t := machine.trace;
      var mounted := machine.LiveMounted(snapshot.mounts);
      Noted(t, Observed(mounted), OnRecord());
      Appended(t, Observed(mounted));
      ghost var u := machine.trace;
      ghost var view := Redecide(mounted, settled);
      DecisionNoted(u, view, config.essential);
      NothingBroughtUp(t, Observed(mounted), config.essential);
    }

    // ---- The disk phases ----

    method CoreActions(phase: Phase)
      requires Valid() && forall i | 0 <= i < |actions| && actions[i].phase == phase :: actions[i].status.Planned?
      modifies machine, `cleanupSpent, `actions
      ensures Valid() && SameActions(actions, old(actions))
      ensures dryRun ==> machine.trace == old(machine.trace) && actions == old(actions)
      ensures Quiet(old(machine.trace), machine.trace) && NoneMeasured(old(machine.trace), machine.trace)
      ensures forall i | 0 <= i < |actions| ::
                if actions[i].phase == phase && !dryRun && (actions[i].confirm || actions[i].core)
                then actions[i].status != Planned else actions[i] == old(actions)[i]
    {
      hide Balanced;
      for i := 0 to |actions|
        invariant Valid() && SameActions(actions, old(actions))
        invariant dryRun ==> machine.trace == old(machine.trace) && actions == old(actions)
        invariant Quiet(old(machine.trace), machine.trace) && NoneMeasured(old(machine.trace), machine.trace)
        invariant forall j | 0 <= j < |actions| ::
                    if j < i && actions[j].phase == phase && !dryRun && (actions[j].confirm || actions[j].core)
                    then actions[j].status != Planned else actions[j] == old(actions)[j]
      {
        if actions[i].phase == phase && !dryRun {
          if actions[i].confirm {
            Relabelled(machine.trace, OnRecord(), actions[i := actions[i].(status := Skipped)]);
            actions := actions[i := actions[i].(status := Skipped)];
          } else if actions[i].core {
            var _ := RunCoreAction(i);
          }
        }
      }
    }

    method HookActions(phase: Phase, exits: seq<Exit>)
      requires Valid() && !dryRun
      modifies `actions
      ensures Valid() && SameActions(actions, old(actions))
      ensures forall i | 0 <= i < |actions| ::
                if actions[i].phase == phase && !actions[i].core then
                  actions[i].status == (if hookFiles == 0 then Skipped else if !HooksOk(exits) then Failed
                                        else if NothingDone(exits) then Skipped else Done)
                else actions[i] == old(actions)[i]
    {
      hide Balanced;
      var status := if hookFiles == 0 then Skipped else if !HooksOk(exits) then Failed
        else if NothingDone(exits) then Skipped else Done;
      for i := 0 to |actions|
        invariant Valid() && SameActions(actions, old(actions))
        invariant forall j | 0 <= j < |actions| ::
                    if j < i && actions[j].phase == phase && !actions[j].core then actions[j].status == status
                    else actions[j] == old(actions)[j]
      {
        if actions[i].phase == phase && !actions[i].core {
          Relabelled(machine.trace, OnRecord(), actions[i := actions[i].(status := status)]);
          actions := actions[i := actions[i].(status := status)];
        }
      }
    }

    method PhaseDisk(phase: Phase)
      requires Valid() && OnDisk(phase) && OpenPlan(machine.trace).None?
      requires forall i | 0 <= i < |actions| && actions[i].phase == phase :: actions[i].status.Planned?
      modifies machine, this
      ensures Valid() && SameActions(actions, old(actions)) && Calm(old(machine.trace), machine.trace)
      ensures dryRun ==> OnlyHooks(old(machine.trace), machine.trace) && actions == old(actions) && level == old(level)
      ensures dryRun || phase.DiskPost? ==> mounts == old(mounts) && entries == old(entries)
      ensures HooksAdded(old(hookRuns), hookRuns, phase, hookFiles, Again())
      ensures phase.DiskPost? ==> Quiet(old(machine.trace), machine.trace)
      ensures !dryRun ==> CleanedUp(old(machine.trace), machine.trace) && Gauge(machine.trace) == Some(level)
      ensures SameMounts(old(machine.trace), machine.trace, config.essential)
      ensures !dryRun && phase.DiskPre? ==> PlanFollows(mounts, entries, snapshot, LastView(machine.trace), config)
                                            && Fresh(machine.trace)
      ensures !dryRun ==> forall i | 0 <= i < |actions| ::
                if actions[i].phase == phase then actions[i].status != Planned else actions[i] == old(actions)[i]
    {
      hide Balanced, MountsDecided, AllDecided, LastView, LastLook, Fresh, OpenPlan, BroughtUp, Gauge;
      ghost var t := machine.trace;
      CoreActions(phase);
      var exits := RunHooks(phase, CLEANUP_CAP_S);
      ghost var u := machine.trace;
      QuietKeepsView(t, u, config.essential);
      if !dryRun {
        HookActions(phase, exits);
        ghost var b := OnRecord();
        level := machine.DiskLevel();
        Noted(u, Measured(level), b);
        MeasuredBehind(t, u, level, config.essential);
        if phase.DiskPre? {
          ghost var v := machine.trace;
          RedecideNow(false);
          CleanedUpLonger(t, v, machine.trace);
        }
      }
    }

    // ---- The mounts phase ----

    // One attempt: decide, run the hooks, see what they mounted.
    method Attempt(cap: real, ghost done: set<string>) returns (exits: seq<Exit>, mounted: set<string>)
      requires Valid() && cap <= PhaseCap(Mounts, |snapshot.mounts|)
      requires OpenPlan(machine.trace).None? && Tracks(done, machine.trace, config.essential)
      requires Gauge(machine.trace) == Some(level)
      modifies machine, `cleanupSpent, `hookRuns, `mounts, `entries
      ensures Gauge(machine.trace) == Some(level)
      ensures Valid() && Calm(old(machine.trace), machine.trace) && OpenPlan(machine.trace).None?
      ensures Tracks(done + mounted, machine.trace, config.essential)
      ensures hookRuns == old(hookRuns) + seq(|exits|, i requires 0 <= i < |exits| => HookRun(Mounts, exits[i]))
      ensures |exits| == hookFiles && machine.clock >= old(machine.clock)
    {
      hide Balanced, AllDecided, MountsDecided, LastView, LastLook, Fresh, MountActionFor, BroughtUp, OpenPlan, Lists,
        PhasesEntered, Gauge;
      ghost var t := machine.trace;
      var before := machine.LiveMounted(snapshot.mounts);
      Noted(t, Observed(before), OnRecord());
      NothingBroughtUp(t, Observed(before), config.essential);
      ghost var t1 := machine.trace;
      ghost var view := Redecide(before, false);
      ghost var t3 := machine.trace;
      DecisionNoted(t1, view, config.essential);
      var todo := set m | m in mounts && m.action.Mount? :: m.target;
      TodoIsPlanned(mounts, snapshot, view, config, todo);
      exits := RunHooks(Mounts, cap);
      ghost var u := machine.trace;
      QuietKeepsView(t3, u, config.essential);
      TracksKept(done, t, u, config.essential);
      var after := machine.LiveMounted(snapshot.mounts);
      Noted(u, Observed(after), OnRecord());
      Appended(u, Observed(after));
      mounted := todo * after;
      AttemptSeen(done, u, view, todo, after, snapshot.mounts, config.essential);
    }

    method Report(done: set<string>, ghost decided: seq<MountEntry>)
      requires Valid() && mounts == decided && Tracks(done, machine.trace, config.essential)
      requires forall e | e in decided :: e.status == if e.action.Mount? then Planned else Skipped
      modifies `mounts
      ensures Valid() && AllReported(mounts, decided, machine.trace, config.essential)
    {
      hide Balanced, BroughtUp;
      for i := 0 to |mounts|
        invariant Valid() && |mounts| == |decided|
        invariant forall j | i <= j < |mounts| :: mounts[j] == decided[j]
        invariant forall j | 0 <= j < i :: Reported(mounts[j], decided[j], machine.trace, config.essential)
      {
        assert decided[i] in decided;
        ghost var before := mounts;
        if mounts[i].target in done {
          mounts := mounts[i := mounts[i].(action := Mount, status := Done)];
        } else if mounts[i].action.Mount? {
          mounts := mounts[i := mounts[i].(status := Failed)];
        }
        MountsListed(before, mounts, entries, snapshot);
      }
    }

    method PhaseMounts() returns (ghost decided: seq<MountEntry>, ghost rounds: seq<Round>)
      requires Valid() && OpenPlan(machine.trace).None? && NoneBroughtUp(machine.trace, config.essential)
      requires PhasesEntered(machine.trace) == PHASES[..2] && Gauged()
      modifies machine, this
      ensures Valid() && actions == old(actions) && level == old(level) && Gauged()
      ensures Calm(old(machine.trace), machine.trace)
      ensures hookRuns == old(hookRuns) + RoundRuns(rounds) && RunsDown(rounds, old(Remaining()), Remaining())
      ensures dryRun ==> |rounds| == 1 && |rounds[0].exits| == hookFiles
      ensures !dryRun ==> RoundsTaken(rounds, hookFiles, auto)
      ensures HooksAdded(old(hookRuns), hookRuns, Mounts, hookFiles, Again())
      ensures dryRun ==> OnlyHooks(old(machine.trace), machine.trace) && mounts == old(mounts) && entries == old(entries)
      ensures !dryRun ==> PlanFollows(decided, entries, snapshot, LastView(machine.trace), config)
                          && LastView(machine.trace).value.settled && Fresh(machine.trace)
                          && AllReported(mounts, decided, machine.trace, config.essential)
    {
      hide Balanced, MountsDecided, AllDecided, LastView, LastLook, Fresh, BroughtUp, OpenPlan, PhasesEntered,
        AllReported, RoundRuns, HooksAdded, RoundsTaken, RunsDown, RoundsOn, HooksOk, Gauge;
      decided := mounts;
      var pending := ToMount(mounts);
      var cap := MOUNT_TIMEOUT_S * (if pending == 0 then 1 else pending) as real + 60.0;
      rounds := [];
      NoRounds(hookRuns, hookFiles, auto, Remaining());
      if dryRun {
        var exits := RunHooks(Mounts, cap);
        rounds := [Round(exits, Remaining())];
        OneRound(exits, Remaining(), old(Remaining()));
        return;
      }
      var done: set<string> := {};
      var attempts := 1 + if auto then HOOK_RETRIES else 0;
      for attempt := 0 to attempts
        invariant Valid() && actions == old(actions) && level == old(level) && Gauge(machine.trace) == Some(level)
        invariant Calm(old(machine.trace), machine.trace) && OpenPlan(machine.trace).None?
        invariant Tracks(done, machine.trace, config.essential)
        invariant |rounds| == attempt < attempts
        invariant RoundsOn(rounds, old(hookRuns), hookRuns, hookFiles, auto, old(Remaining()), Remaining())
      {
        ghost var runs, was := hookRuns, Remaining();
        var exits, mounted := Attempt(cap, done);
        done := done + mounted;
        RoundOn(rounds, exits, old(hookRuns), runs, hookRuns, hookFiles, auto, old(Remaining()), was, Remaining());
        rounds := rounds + [Round(exits, Remaining())];
        if HooksOk(exits) || attempt == attempts - 1 || Remaining() <= 0.0 {
          break;
        }
        ghost var left := Remaining();
        machine.Pass();
        RunsFurther(rounds, old(Remaining()), left, Remaining());
      }
      ghost var t, left := machine.trace, Remaining();
      CalmKeepsPhases(old(machine.trace), t);
      RedecideNow(true);
      RunsFurther(rounds, old(Remaining()), left, Remaining());
      TracksKept(done, t, machine.trace, config.essential);
      decided := mounts;
      DecidedStatuses(decided, snapshot, LastView(machine.trace).value, config);
      Report(done, decided);
    }

    // ---- The sessions phase ----

    function Late(): bool
      reads machine
    {
      machine.clock >= deadline
    }

    method OpenOne(i: nat, last: bool)
      requires Valid() && Ready(entries, i, LastView(machine.trace), snapshot, config)
      requires Opening(machine.trace, i, snapshot, config) && Cleared(machine.trace)
      modifies machine, `entries
      ensures Valid() && Opening(machine.trace, i + 1, snapshot, config) && Cleared(machine.trace)
      ensures Unchanged(old(machine.trace), machine.trace, config.essential) && machine.clock >= old(machine.clock)
      ensures Turn(old(entries), entries, i, old(machine.trace), machine.trace)
      ensures Explained(entries[i], i, machine.trace, Late())
    {
      hide Balanced, MayFollow, MayOpen, WindowsAllowed, WindowsInOrder, Tried, LastView, LastLook, Fresh, PhasesEntered,
        BroughtUp, Cleared, Gauge, Unchanged, Opening;
      ghost var t := machine.trace;
      UnchangedTwice(t, t, t, config.essential);
      Sooner(t, i, i + 1, snapshot, config);
      if Remaining() <= 0.0 {
        entries := entries[i := entries[i].(status := Skipped, detail := DeadlineReached)];
        return;
      }
      var alive := machine.AliveSessions();
      Noted(t, AliveCheck(alive), OnRecord());
      LookNoted(t, AliveCheck(alive), i, snapshot, config);
      UnchangedTwice(t, machine.trace, machine.trace, config.essential);
      Sooner(machine.trace, i, i + 1, snapshot, config);
      if entries[i].id in alive {
        assert AliveCheck(alive) in machine.trace;
        entries := entries[i :=
          entries[i].(action := SkipAlive, status := Skipped, command := Nothing, detail := Appeared)];
        return;
      }
      ghost var u := machine.trace;
      var lowMemory := machine.MemoryLow(i);
      Noted(u, Memory(i, lowMemory), OnRecord());
      LookNoted(u, Memory(i, lowMemory), i, snapshot, config);
      UnchangedTwice(t, u, machine.trace, config.essential);
      Sooner(machine.trace, i, i + 1, snapshot, config);
      if lowMemory {
        entries := entries[i := entries[i].(status := Skipped, detail := LowMemory)];
        return;
      }
      ghost var v := machine.trace;
      UnchangedTwice(t, v, v, config.essential);
      var done := machine.OpenWindow(i, entries[i].command);
      WindowNoted(v, alive, i, done, entries, snapshot, config);
      UnchangedTwice(t, v, machine.trace, config.essential);
      Noted(v, Window(i, entries[i].command, done), OnRecord());
      entries := entries[i := if done then entries[i].(status := Done)
                              else entries[i].(status := Failed, detail := ExitStatus)];
      if !last {
        machine.Pass();
      }
    }

    method OpenAll(pending: seq<nat>)
      requires Valid() && NoWindows(machine.trace) && pending == Pending(entries)
      requires Settled(entries, LastView(machine.trace), snapshot, config) && Cleared(machine.trace)
      modifies machine, `entries
      ensures Valid() && Opening(machine.trace, |entries|, snapshot, config)
      ensures Unchanged(old(machine.trace), machine.trace, config.essential)
      ensures Told(entries, machine.trace) && AllExplained(entries, machine.trace, Late())
      ensures forall i | 0 <= i < |entries| :: !entries[i].status.Planned?
    {
      hide Balanced, MayFollow, MayOpen, WindowsAllowed, WindowsInOrder, Tried, LastView, LastLook, Fresh, PhasesEntered,
        Pending, BroughtUp, Explained, Cleared, Gauge;
      ghost var decided := entries;
      ghost var t0 := machine.trace;
      SettledStatuses(decided, LastView(t0), snapshot, config);
      NothingOpened(t0, decided, snapshot, config);
      UnopenedExplained(decided, t0, Late());
      PendingPositions(entries);
      ghost var next: nat := 0;
      for p := 0 to |pending|
        invariant Valid() && |entries| == |decided| && next <= |entries|
        invariant forall q | p <= q < |pending| :: next <= pending[q]
        invariant Opening(machine.trace, next, snapshot, config) && Cleared(machine.trace)
        invariant Unchanged(t0, machine.trace, config.essential)
        invariant Partly(entries, decided, pending[..p], machine.trace)
        invariant AllExplained(entries, machine.trace, Late())
      {
        var i := pending[p];
        assert i in pending;
        ReadyAsDecided(entries, decided, i, pending[..p], machine.trace, LastView(t0), snapshot, config);
        Sooner(machine.trace, next, i, snapshot, config);
        ghost var t, before, late := machine.trace, entries, Late();
        OpenOne(i, p + 1 == |pending|);
        PartlyStep(before, entries, decided, pending, p, t, machine.trace);
        ExplainedKept(before, t, late, machine.trace, Late());
        next := i + 1;
      }
      assert pending[..|pending|] == pending;
      Sooner(machine.trace, next, |entries|, snapshot, config);
      PartlyWhole(entries, decided, machine.trace);
    }

    method PhaseSessions()
      requires Valid() && BeforeSessions(machine.trace, 4, mounts, entries, dryRun, snapshot, config)
      modifies machine, `entries
      ensures Valid() && Opening(machine.trace, |entries|, snapshot, config)
      ensures Unchanged(old(machine.trace), machine.trace, config.essential)
      ensures Told(entries, machine.trace) && AllExplained(entries, machine.trace, Late())
      ensures dryRun ==> machine.trace == old(machine.trace) && entries == old(entries)
      ensures !dryRun ==> forall i | 0 <= i < |entries| :: !entries[i].status.Planned?
    {
      hide Balanced, LastView, LastLook, Fresh, PhasesEntered, Pending, WindowsAllowed, WindowsInOrder, Tried, AllDecided,
        BroughtUp, MountExplained, DecisionsObserved, Gauge;
      NothingOpened(machine.trace, entries, snapshot, config);
      UnopenedExplained(entries, machine.trace, Late());
      Sooner(machine.trace, 0, |entries|, snapshot, config);
      var pending := Pending(entries);
      if dryRun {
        return;
      }
      SettledStatuses(entries, LastView(machine.trace), snapshot, config);
      PendingPositions(entries);
      if pending == [] {
        assert forall i | 0 <= i < |entries| :: i in pending <==> entries[i].action.Opens();
        return;
      }
      ghost var t := machine.trace;
      var present := machine.TmuxPresent();
      Noted(t, Tmux(present), OnRecord());
      LookNoted(t, Tmux(present), |entries|, snapshot, config);
      TmuxSeen(t, present);
      if present {
        SpentWithinCap(machine.trace, OnRecord());
        TmuxClears(t);
        OpenAll(pending);
      } else {
        NoTmuxServer(pending);
        assert Tmux(false) in machine.trace;
      }
    }

    method NoTmuxServer(pending: seq<nat>)
      requires Valid() && forall i :: i in pending ==> i < |entries|
      modifies `entries
      ensures Valid() && forall i | 0 <= i < |entries| ::
                entries[i] == if i in pending then old(entries)[i].(status := Skipped, detail := NoTmux) else old(entries)[i]
    {
      hide Balanced;
      for p := 0 to |pending|
        invariant |entries| == |old(entries)|
        invariant forall i | 0 <= i < |entries| :: entries[i] ==
                    if i in pending[..p] then old(entries)[i].(status := Skipped, detail := NoTmux) else old(entries)[i]
      {
        var i := pending[p];
        assert i in pending && pending[..p + 1] == pending[..p] + [i];
        entries := entries[i := entries[i].(status := Skipped, detail := NoTmux)];
      }
      assert pending[..|pending|] == pending;
    }

    // ---- The run ----

    method RunPhase(k: nat)
      requires Valid() && k < 5 && PhasesEntered(machine.trace) == PHASES[..k + 1] && OpenPlan(machine.trace).None?
      requires BeforeSessions(machine.trace, k, mounts, entries, dryRun, snapshot, config)
      requires Gauged() && Waiting(actions, k)
      modifies machine, this
      ensures Valid() && SameActions(actions, old(actions)) && Gauged() && Waiting(actions, k + 1)
      ensures NoneEntered(old(machine.trace), machine.trace)
      ensures !dryRun && OnDisk(PHASES[k]) ==> CleanedUp(old(machine.trace), machine.trace)
      ensures PhasesEntered(machine.trace) == PHASES[..k + 1]
      ensures Over(machine.trace, k + 1, mounts, entries, dryRun, Late(), snapshot, config)
      ensures if PHASES[k].Sessions? then hookRuns == old(hookRuns)
              else HooksAdded(old(hookRuns), hookRuns, PHASES[k], hookFiles, Again())
      ensures dryRun ==> level == old(level) && actions == old(actions) && mounts == old(mounts) && entries == old(entries)
    {
      hide Balanced, LastView, LastLook, Fresh, PhasesEntered, AllDecided, MountsDecided, WindowsAllowed,
        WindowsInOrder, Tried, BeforeSessions, Told, BroughtUp, OpenPlan, HooksAdded, DecisionsObserved, Gauge, CleanedUp;
      ghost var t := machine.trace;
      ghost var was := actions;
      assert forall p | p in PHASES[..k] :: p != PHASES[k];
      match PHASES[k]
      case DiskPre =>
        BeforeMounts(t, k, mounts, entries, dryRun, snapshot, config);
        PhaseDisk(DiskPre);
        if dryRun {
          QuietPhase(t, machine.trace, 0, 1, mounts, entries, dryRun, snapshot, config);
        } else {
          CalmKeepsPhases(t, machine.trace);
          CalmKeepsNoWindows(t, machine.trace);
          TracksKept({}, t, machine.trace, config.essential);
          SpentWithinCap(machine.trace, OnRecord());
          DiskPrePlanned(machine.trace, mounts, entries, snapshot, config);
        }
      case Mounts =>
        BeforeMounts(t, k, mounts, entries, dryRun, snapshot, config);
        ghost var decided, rounds := PhaseMounts();
        if dryRun {
          QuietPhase(t, machine.trace, 1, 2, mounts, entries, dryRun, snapshot, config);
        } else {
          CalmKeepsPhases(t, machine.trace);
          CalmKeepsNoWindows(t, machine.trace);
          SpentWithinCap(machine.trace, OnRecord());
          MountsPlanned(machine.trace, decided, mounts, entries, snapshot, config);
        }
      case Compose =>
        var _ := RunHooks(Compose, COMPOSE_CAP_S);
        QuietPhase(t, machine.trace, 2, 3, mounts, entries, dryRun, snapshot, config);
      case DiskPost =>
        PhaseDisk(DiskPost);
        QuietPhase(t, machine.trace, 3, 4, mounts, entries, dryRun, snapshot, config);
      case Sessions =>
        PhaseSessions();
        SessionsOver(t, machine.trace, mounts, old(entries), entries, dryRun, Late(), snapshot, config);
      WaitingNext(was, actions, k);
    }

    // What holds between two phases, when n of them are over.
    ghost predicate Between(n: nat)
      requires n <= 5
      reads this, machine
    {
      && PhasesEntered(machine.trace) == PHASES[..n] && HooksRan(hookRuns, PHASES[..n], hookFiles, Again())
      && Over(machine.trace, n, mounts, entries, dryRun, Late(), snapshot, config)
      && Gauged() && Waiting(actions, n) && (!dryRun ==> Remeasured(machine.trace))
    }

    // Enters a phase and carries it out.
    method TakePhase(n: nat)
      requires Valid() && n < 5 && Between(n) && Remaining() > 0.0
      modifies machine, this
      ensures Valid() && SameActions(actions, old(actions)) && Between(n + 1)
      ensures dryRun ==> level == old(level) && actions == old(actions) && mounts == old(mounts) && entries == old(entries)
    {
      hide Balanced, LastView, LastLook, Fresh, PhasesEntered, AllDecided, MountsDecided, WindowsAllowed, WindowsInOrder,
        Tried, BeforeSessions, Told, Over, Undone, Truthful, Rehearsal, BroughtUp, OpenPlan, HooksRan, HooksAdded,
        AllExplained, DecisionsObserved, MountsExplained, Gauge, LastLevel, Remeasured, CleanedUp, Waiting;
      ghost var t, at, runs := machine.trace, machine.clock, hookRuns;
      OverImplies(t, n, mounts, entries, dryRun, Late(), snapshot, config);
      PhaseBegun(t, PHASES[n], at, n, mounts, entries, dryRun, snapshot, config);
      Noted(t, Entered(PHASES[n], at), OnRecord());
      machine.trace := t + [Entered(PHASES[n], at)];
      assert PHASES[..n + 1] == PHASES[..n] + [PHASES[n]];
      RunPhase(n);
      if !dryRun { RemeasuredNext(t, PHASES[n], at, machine.trace); }
      HooksRanNext(runs, hookRuns, PHASES[..n], PHASES[n], hookFiles, Again());
    }

    // Runs the phases until the deadline, then settles what is still planned.
    method Run()
      requires Valid() && Begun()
      modifies machine, this
      ensures Valid() && SameActions(actions, old(actions))
      ensures WindowsAllowed(machine.trace, snapshot, config) && WindowsInOrder(machine.trace)
      ensures Told(entries, machine.trace) && AllExplained(entries, machine.trace, Late())
      ensures Truthful(mounts, machine.trace, config.essential)
      ensures PhasesEntered(machine.trace) <= PHASES && (PhasesEntered(machine.trace) == PHASES || Late())
      ensures HooksRan(hookRuns, PhasesEntered(machine.trace), hookFiles, Again())
      ensures dryRun ==> Rehearsal(machine.trace) && level == old(level) && actions == old(actions)
                         && mounts == old(mounts) && entries == old(entries)
      ensures !dryRun ==> NothingPlanned(actions, mounts, entries)
      ensures !dryRun ==> MountsExplained(mounts, machine.trace, config.essential, Late())
      ensures !dryRun && Mounts !in PhasesEntered(machine.trace) ==> forall i | 0 <= i < |mounts| :: mounts[i].status.Skipped?
      ensures DecisionsObserved(machine.trace) && AllTimely(machine.trace, deadline, |snapshot.mounts|)
      ensures LastLevel(machine.trace) == Some(level)
      ensures !dryRun ==> Remeasured(machine.trace) && Gauge(machine.trace) == Some(level)
      ensures ExitsOf(machine.trace) == machine.returned && HooksOf(machine.trace) == StartedRuns(hookRuns)
      ensures ActionsTold(actions, machine.trace)
      ensures old(Late()) ==> machine.trace == old(machine.trace) && Late()
      ensures old(Late()) ==> forall i | 0 <= i < |actions| ::
                actions[i].status == old(actions)[i].status || actions[i].status.Skipped?
    {
      hide Balanced, LastView, LastLook, Fresh, PhasesEntered, AllDecided, MountsDecided, WindowsAllowed, WindowsInOrder,
        Tried, BeforeSessions, Told, Over, Undone, Truthful, Rehearsal, BroughtUp, OpenPlan, HooksRan, HooksAdded,
        AllExplained, DecisionsObserved, MountsExplained, Gauge, LastLevel, Remeasured, CleanedUp, ActionsTold, AllTimely;
      SpentWithinCap(machine.trace, OnRecord());
      RunBegins(first, looked, mounts, entries, dryRun, snapshot, config);
      OverBegins(machine.trace, mounts, entries, dryRun, Late(), snapshot, config);
      NoPhases(hookFiles, Again());
      ghost var k: nat := 0;
      for n := 0 to |PHASES|
        invariant k == n && Valid() && SameActions(actions, old(actions)) && Between(n)
        invariant old(Late()) ==> n == 0
        invariant n == 0 ==> machine.trace == old(machine.trace) && machine.clock == old(machine.clock)
        invariant n == 0 ==> actions == old(actions)
        invariant dryRun ==> level == old(level) && actions == old(actions) && mounts == old(mounts)
        invariant dryRun ==> entries == old(entries)
      {
        if Remaining() <= 0.0 {
          break;
        }
        TakePhase(n);
        k := n + 1;
      }
      OverImplies(machine.trace, k, mounts, entries, dryRun, Late(), snapshot, config);
      if !dryRun {
        PhasesBefore(k);
        ExpireRemaining(k < 2);
      }
      SpentWithinCap(machine.trace, OnRecord());
    }

    method ExpireActions()
      requires Valid()
      modifies `actions
      ensures Valid() && SameActions(actions, old(actions)) && forall i | 0 <= i < |actions| :: !actions[i].status.Planned?
      ensures forall i | 0 <= i < |actions| :: actions[i].status == old(actions)[i].status || actions[i].status.Skipped?
    {
      hide Balanced;
      for i := 0 to |actions|
        invariant Valid() && SameActions(actions, old(actions)) && forall j | 0 <= j < i :: !actions[j].status.Planned?
        invariant forall j | 0 <= j < |actions| :: actions[j].status == old(actions)[j].status || actions[j].status.Skipped?
      {
        if actions[i].status.Planned? {
          Relabelled(machine.trace, OnRecord(), actions[i := actions[i].(status := Skipped)]);
          actions := actions[i := actions[i].(status := Skipped)];
        }
      }
    }

    method ExpireRemaining(ghost early: bool)
      requires Valid() && Told(entries, machine.trace) && Truthful(mounts, machine.trace, config.essential)
      requires AllExplained(entries, machine.trace, Late())
      requires MountsExplained(mounts, machine.trace, config.essential, false)
      requires Late() || forall i | 0 <= i < |entries| :: !entries[i].status.Planned?
      requires if early then Undone(mounts, entries) && Late() && Mounts !in PhasesEntered(machine.trace)
               else Mounts in PhasesEntered(machine.trace) && forall i | 0 <= i < |mounts| :: !mounts[i].status.Planned?
      modifies `actions, `mounts, `entries
      ensures Valid() && SameActions(actions, old(actions))
      ensures Told(entries, machine.trace) && Truthful(mounts, machine.trace, config.essential)
      ensures AllExplained(entries, machine.trace, Late())
      ensures MountsExplained(mounts, machine.trace, config.essential, Late())
      ensures NothingPlanned(actions, mounts, entries)
      ensures forall i | 0 <= i < |actions| :: actions[i].status == old(actions)[i].status || actions[i].status.Skipped?
      ensures early ==> forall i | 0 <= i < |mounts| :: mounts[i].status.Skipped?
    {
      hide Balanced, Tried, BroughtUp, LastView, LastLook, Explained, PhasesEntered, MountExplained;
      ExpireActions();
      ghost var settledActions := actions;
      for i := 0 to |mounts|
        invariant Valid() && actions == settledActions && entries == old(entries) && |mounts| == |old(mounts)|
        invariant Truthful(mounts, machine.trace, config.essential)
        invariant forall j | 0 <= j < |mounts| :: mounts[j] ==
                    if j < i && old(mounts)[j].status.Planned? then old(mounts)[j].(status := Skipped) else old(mounts)[j]
      {
        if mounts[i].status.Planned? {
          MountsListed(mounts, mounts[i := mounts[i].(status := Skipped)], entries, snapshot);
          mounts := mounts[i := mounts[i].(status := Skipped)];
        }
      }
      ExpiredMounts(old(mounts), mounts, machine.trace, config.essential, Late());
      ghost var settledMounts := mounts;
      for i := 0 to |entries|
        invariant Valid() && actions == settledActions && mounts == settledMounts
        invariant Told(entries, machine.trace) && AllExplained(entries, machine.trace, Late())
        invariant Late() || forall j | 0 <= j < |entries| :: !entries[j].status.Planned?
        invariant forall j | 0 <= j < i :: !entries[j].status.Planned?
      {
        if entries[i].status.Planned? {
          ExpiredIsExplained(entries[i], i, machine.trace);
          entries := entries[i := entries[i].(status := Skipped, detail := DeadlineReached)];
        }
      }
    }
  }

  // How a restore is asked for; a simulated reboot is only allowed as a rehearsal.
  datatype Mode = Real | Rehearse | Simulate

  // Looks at the machine, builds the plan and carries it out.
  method Recover(taken: Snapshot, settings: Config, unattended: bool, mode: Mode, hooks: nat, budget: real)
    returns (r: Restorer)
    ensures r.Valid() && r.deadline == r.started + Least(budget, SnapshotStore.DEADLINE_S as real)
    ensures r.snapshot == taken && r.auto == unattended && Lists(r.mounts, r.entries, taken)
    ensures WindowsAllowed(r.machine.trace, taken, settings) && WindowsInOrder(r.machine.trace)
    ensures Told(r.entries, r.machine.trace) && AllExplained(r.entries, r.machine.trace, r.Late())
    ensures Truthful(r.mounts, r.machine.trace, settings.essential)
    ensures PhasesEntered(r.machine.trace) <= PHASES && (PhasesEntered(r.machine.trace) == PHASES || r.Late())
    ensures HooksRan(r.hookRuns, PhasesEntered(r.machine.trace), hooks, unattended && mode.Real?)
    ensures DecisionsObserved(r.machine.trace) && AllTimely(r.machine.trace, r.deadline, |taken.mounts|)
    ensures LastLevel(r.machine.trace) == Some(r.level)
    ensures mode.Real? ==> Remeasured(r.machine.trace) && Gauge(r.machine.trace) == Some(r.level)
    ensures ExitsOf(r.machine.trace) == r.machine.returned && HooksOf(r.machine.trace) == StartedRuns(r.hookRuns)
    ensures ActionsTold(r.actions, r.machine.trace) && SameActions(r.actions, DiskActions(r.first.level))
    ensures !mode.Real? ==> Rehearsal(r.machine.trace)
    ensures mode.Real? ==> NothingPlanned(r.actions, r.mounts, r.entries)
    ensures mode.Real? ==> MountsExplained(r.mounts, r.machine.trace, settings.essential, r.Late())
    ensures mode.Real? && Marked(unattended, r.actions, r.mounts, r.entries) ==>
              (AllUpOrLeftOut(r.mounts, r.machine.trace, settings.essential)
               <==> Mounts in PhasesEntered(r.machine.trace)
                    || forall i | 0 <= i < |r.mounts| :: !Wanted(r.mounts[i].target, r.machine.trace, settings.essential))
    ensures mode.Real? && budget <= 0.0 ==>
              PhasesEntered(r.machine.trace) == [] && NoneBroughtUp(r.machine.trace, settings.essential)
              && forall i | 0 <= i < |r.mounts| :: r.mounts[i].status.Skipped?
    ensures budget <= 0.0 ==> forall i | 0 <= i < |r.actions| :: !r.actions[i].status.Failed?
  {
    hide Balanced, WindowsAllowed, WindowsInOrder, Told, AllExplained, Truthful, HooksRan, Rehearsal, NothingPlanned,
      MountsExplained, NoneBroughtUp, LastView, Fresh, PhasesEntered, PlanFollows, Undone, Lists, Start, NoWindows,
      AllUpOrLeftOut, Wanted, Marked, DecisionsObserved, AllTimely, LastLevel, Remeasured, Gauge, ActionsTold;
    var m := new Machine();
    var mounted: set<string>, alive: set<string> := {}, {};
    if !mode.Simulate? {
      mounted := m.LiveMounted(taken.mounts);
      alive := m.AliveSessions();
    }
    var measured := m.DiskLevel();
    var transcripts := m.Transcripts();
    r := new Restorer(m, taken, settings, unattended, !mode.Real?, hooks, budget, measured, mounted, alive, transcripts,
      !mode.Simulate?);
    StartTells(r.first, r.looked, settings.essential);
    r.Run();
    if mode.Real? && Marked(unattended, r.actions, r.mounts, r.entries) {
      MarkedRunMountsIff(unattended, r.actions, r.mounts, r.entries, r.machine.trace, r.Late(), settings.essential);
    }
  }

  // Without sessions to open, an unattended restore whose time is over before it begins marks the boot as restored,
  // though it has not tried a single mount: what the first look missed stays missing.
  method LateRunIsMarked(mounts: seq<string>, settings: Config, hooks: nat, budget: real) returns (r: Restorer)
    requires budget <= 0.0
    ensures Marked(true, r.actions, r.mounts, r.entries)
    ensures multiset(Targets(r.mounts)) == multiset(mounts)
    ensures forall e | e in r.mounts :: LastLook(r.machine.trace).Some? &&
              (Up(e.target, r.machine.trace, settings.essential) <==> e.target in LastLook(r.machine.trace).value)
  {
    r := Recover(Snapshot(mounts, []), settings, true, Real, hooks, budget);
    MarkedWhenIdle(r.actions, r.mounts, r.entries, r.machine.trace, settings.essential, r.Late());
  }
}
