// Runs of scripts/claude-recover.py over successive boots: what keeps the pre-crash snapshot the chosen one.

module Runs {
  import opened Options
  import opened SnapshotNames
  import opened Listings
  import opened SnapshotStore
  import opened SnapshotCommands

  datatype World = World(
    store: Store,
    boot: BootId,
    bootTime: int,      // whole seconds
    clock: real,
    done: set<BootId>,  // boots with a done marker
    locked: bool)       // a restore holds restore.lock

  datatype Step =
    | Advance(seconds: real)
    | Snapshot(live: Option<Body>, force: bool, bootTimeReadable: bool)
    | RestoreBegins
    | RestoreEnds(marker: bool)
    | Reboot(boot: BootId, downtime: real)

  function SeenBootTime(w: World, readable: bool): Option<int> {
    if readable then Some(w.bootTime) else None
  }

  ghost predicate Enabled(w: World, s: Step) {
    match s
    case Advance(d) => d >= 0.0
    case Snapshot(live, _, _) => live.Some? ==> live.value.Readable?
    case RestoreBegins => !w.locked
    case RestoreEnds(_) => w.locked
    case Reboot(b, d) => b != w.boot && b !in w.store && b !in w.done && d >= 1.0
  }

  ghost function Next(w: World, s: Step): World
    requires Good(w) && Enabled(w, s)
  {
    match s
    case Advance(d) => w.(clock := w.clock + d)
    case Snapshot(live, force, readable) =>
      w.(store := AfterSnapshot(w.store, w.boot, w.locked, w.boot in w.done, SeenBootTime(w, readable),
                                w.clock, live, force).0)
    case RestoreBegins => w.(locked := true)
    case RestoreEnds(marker) => w.(locked := false, done := if marker then w.done + {w.boot} else w.done)
    case Reboot(b, d) =>
      var now := w.clock + d;
      w.(boot := b, bootTime := now.Floor, clock := now, locked := false)
  }

  // The clock never goes back, so other boots' snapshots are older than this boot's start.
  ghost predicate Good(w: World) {
    && Valid(w.store) && DistinctNames(w.store)
    && 0 <= w.bootTime <= w.clock.Floor
    && (forall b, s | b in w.store && b != w.boot && s in w.store[b] :: s.name.second < w.bootTime)
    && (forall s | s in Files(w.store, w.boot) :: w.bootTime <= s.name.second <= w.clock.Floor)
  }

  ghost predicate Run(w: World, steps: seq<Step>)
    decreases |steps|
  {
    Good(w) && (steps == [] || (Enabled(w, steps[0]) && Run(Next(w, steps[0]), steps[1..])))
  }

  ghost function Final(w: World, steps: seq<Step>): (f: World)
    requires Run(w, steps)
    ensures Good(f)
    decreases |steps|
  {
    if steps == [] then w else Final(Next(w, steps[0]), steps[1..])
  }

  // Holding restore.lock, or no done marker and inside the window that a restore may take.
  ghost predicate Guarded(w: World, s: Step) {
    s.Snapshot? ==>
      || w.locked
      || (w.boot !in w.done && s.bootTimeReadable && w.clock - w.bootTime as real <= PENDING_RESTORE_WINDOW_S as real)
  }

  ghost predicate AlwaysGuarded(w: World, steps: seq<Step>)
    requires Run(w, steps)
    decreases |steps|
  {
    steps == [] || (Guarded(w, steps[0]) && AlwaysGuarded(Next(w, steps[0]), steps[1..]))
  }

  lemma GoodStep(w: World, s: Step)
    requires Good(w) && Enabled(w, s)
    ensures Good(Next(w, s))
  {
    if s.Snapshot? && !Pending(w.store, w.boot, w.locked, w.boot in w.done, SeenBootTime(w, s.bootTimeReadable), w.clock)
       && s.live.Some? && MustWrite(Files(w.store, w.boot), s.live.value, s.force) {
      GoodAfterWrite(w, s.live.value);
    }
  }

  lemma GoodAfterWrite(w: World, body: Body)
    requires Good(w)
    ensures Valid(Added(w.store, w.boot, w.clock.Floor, body))
    ensures Good(w.(store := Rotated(Added(w.store, w.boot, w.clock.Floor, body), w.boot)))
  {
    var second := w.clock.Floor;
    var added := Added(w.store, w.boot, second, body);
    AddedValid(w.store, w.boot, second, body);
    AddedDistinct(w.store, w.boot, second, body);
    RotatedValid(added, w.boot);
    RotatedDistinct(added, w.boot);
    var l := Files(w.store, w.boot);
    InsertKeepsSorted(l, Listings.Snapshot(Name(second, FreeSuffix(l, second, 0)), body));
    forall b | b in Rotated(added, w.boot) { RotatedFiles(added, w.boot, b); }
  }

  // Every world a run passes through is good, so a run is stuck only where no step is enabled.
  lemma {:induction false} RunExtends(w: World, steps: seq<Step>, s: Step)
    requires Run(w, steps) && Enabled(Final(w, steps), s)
    ensures Run(w, steps + [s])
    ensures Final(w, steps + [s]) == Next(Final(w, steps), s)
    decreases |steps|
  {
    if steps == [] {
      GoodStep(w, s);
      assert [s][1..] == [];
    } else {
      RunExtends(Next(w, steps[0]), steps[1..], s);
      assert (steps + [s])[1..] == steps[1..] + [s];
    }
  }

  // ---- The guard ----

  lemma SelectedWithoutBoot(store: Store, b: BootId, c: BootId, r: Option<Choice>)
    requires b !in store && c !in store
    ensures Selected(store, b, false, r) == Selected(store, c, false, r)
  {
    assert forall x :: Candidate(store, b, false, x) <==> Candidate(store, c, false, x);
  }

  lemma GuardedStepKeepsStore(w: World, s: Step, r: Choice)
    requires Good(w) && Enabled(w, s) && Guarded(w, s)
    requires Selected(w.store, w.boot, false, Some(r)) && r.snap.HasSessions()
    ensures Next(w, s).store == w.store
  {
  }

  // However many boots in a row are interrupted before their restore is done, none of them writes a snapshot, and the
  // pre-crash snapshot stays the one to restore.
  lemma {:induction false} PreCrashSnapshotSurvives(w: World, steps: seq<Step>, r: Choice)
    requires Run(w, steps) && AlwaysGuarded(w, steps)
    requires w.boot !in w.store
    requires Selected(w.store, w.boot, false, Some(r)) && r.snap.HasSessions()
    ensures Final(w, steps).store == w.store
    ensures Selected(Final(w, steps).store, Final(w, steps).boot, false, Some(r))
    decreases |steps|
  {
    if steps != [] {
      var next := Next(w, steps[0]);
      GuardedStepKeepsStore(w, steps[0], r);
      SelectedWithoutBoot(w.store, w.boot, next.boot, Some(r));
      PreCrashSnapshotSurvives(next, steps[1..], r);
    }
  }

  // ---- Without the guard ----

  lemma WriteKeepsSelection(store: Store, boot: BootId, second: nat, body: Body, r: Option<Choice>)
    requires Valid(store) && Selected(store, boot, false, r)
    requires r.Some? ==> Recent(store, boot, r.value.boot)
    ensures Valid(Added(store, boot, second, body)) && Valid(Rotated(Added(store, boot, second, body), boot))
    ensures Selected(Rotated(Added(store, boot, second, body), boot), boot, false, r)
    ensures r.Some? ==> r.value.boot in Rotated(Added(store, boot, second, body), boot) &&
                        Recent(Rotated(Added(store, boot, second, body), boot), boot, r.value.boot)
  {
    var added := Added(store, boot, second, body);
    AddedValid(store, boot, second, body);
    RotatedValid(added, boot);
    assert forall c :: Candidate(added, boot, false, c) <==> Candidate(store, boot, false, c);
    if r.Some? {
      assert Candidate(store, boot, false, r.value);
      assert NewerBoots(added, boot, r.value.boot) == NewerBoots(store, boot, r.value.boot);
    }
    RotationKeepsSelectionIff(added, boot, r);
    if r.Some? { NewerBootsAfterRotation(added, boot, r.value.boot); }
  }

  // Within one boot the choice never changes, whatever is written, if the chosen boot starts out recent.
  lemma {:induction false} SelectionStableWithinBoot(w: World, steps: seq<Step>, r: Option<Choice>)
    requires Run(w, steps) && forall s | s in steps :: !s.Reboot?
    requires Selected(w.store, w.boot, false, r)
    requires r.Some? ==> Recent(w.store, w.boot, r.value.boot)
    ensures Final(w, steps).boot == w.boot
    ensures Selected(Final(w, steps).store, w.boot, false, r)
    decreases |steps|
  {
    if steps != [] {
      assert steps[0] in steps;
      StepKeepsSelection(w, steps[0], r);
      SelectionStableWithinBoot(Next(w, steps[0]), steps[1..], r);
    }
  }

  lemma StepKeepsSelection(w: World, s: Step, r: Option<Choice>)
    requires Good(w) && Enabled(w, s) && !s.Reboot?
    requires Selected(w.store, w.boot, false, r)
    requires r.Some? ==> Recent(w.store, w.boot, r.value.boot)
    ensures Good(Next(w, s)) && Next(w, s).boot == w.boot
    ensures Selected(Next(w, s).store, w.boot, false, r)
    ensures r.Some? ==> r.value.boot in Next(w, s).store && Recent(Next(w, s).store, w.boot, r.value.boot)
  {
    GoodStep(w, s);
    if r.Some? { assert Candidate(w.store, w.boot, false, r.value); }
    if s.Snapshot? && s.live.Some? {
      WriteKeepsSelection(w.store, w.boot, w.clock.Floor, s.live.value, r);
    }
  }

  // The choice for a fresh boot: the last session-bearing snapshot of the boot that ended, or else its own choice.
  lemma RebootSelection(w: World, b: BootId, r: Choice) returns (r': Choice)
    requires Good(w) && b !in w.store && b != w.boot
    requires Selected(w.store, w.boot, false, Some(r)) && r.snap.HasSessions()
    ensures Selected(w.store, b, false, Some(r')) && r'.snap.HasSessions()
    ensures r' == r || (r'.boot == w.boot && Older(r.snap.name, r'.snap.name))
  {
    var l := Files(w.store, w.boot);
    var i := LastWithSessions(l);
    assert Candidate(w.store, w.boot, false, r);
    r' := if i < 0 then r else Choice(w.boot, l[i]);
    forall c | Candidate(w.store, b, false, c) && c != r' && c.snap.HasSessions()
      ensures Older(c.snap.name, r'.snap.name)
    {
      if c.boot == w.boot {
        var j :| 0 <= j < |l| && l[j] == c.snap;
      } else {
        assert Candidate(w.store, w.boot, false, c);
      }
    }
  }

  // Whatever a world's boot would restore comes from one of the three newest previous boots.
  ghost predicate RecentPick(w: World)
    requires Good(w)
  {
    forall r | Selected(w.store, w.boot, false, Some(r)) :: r.boot in w.store && Recent(w.store, w.boot, r.boot)
  }

  // The step changes the store.
  ghost predicate Writes(w: World, s: Step)
    requires Good(w) && Enabled(w, s)
  {
    Next(w, s).store != w.store
  }

  // Wherever something is written, the pick is recent.
  ghost predicate WritesKeepPicks(w: World, steps: seq<Step>)
    requires Run(w, steps)
    decreases |steps|
  {
    steps == [] || ((Writes(w, steps[0]) ==> RecentPick(w)) && WritesKeepPicks(Next(w, steps[0]), steps[1..]))
  }

  // Over any run, guarded or not, the session-bearing snapshot to restore is never lost or replaced by an older one
  // while its boot is recent whenever something is written.
  lemma {:induction false} ChoiceNeverRegresses(w: World, steps: seq<Step>, r: Choice) returns (r': Choice)
    requires Run(w, steps) && WritesKeepPicks(w, steps)
    requires Selected(w.store, w.boot, false, Some(r)) && r.snap.HasSessions()
    ensures Selected(Final(w, steps).store, Final(w, steps).boot, false, Some(r')) && r'.snap.HasSessions()
    ensures r' == r || Older(r.snap.name, r'.snap.name)
    decreases |steps|
  {
    r' := r;
    if steps != [] {
      match steps[0] {
        case Reboot(b, _) => r' := RebootSelection(w, b, r);
        case _ => if Writes(w, steps[0]) { StepKeepsSelection(w, steps[0], Some(r)); }
      }
      r' := ChoiceNeverRegresses(Next(w, steps[0]), steps[1..], r');
    }
  }

  // Three newer boots without sessions make rotation drop the snapshot a restore would use.
  lemma RotationCanLoseThePick() returns (store: Store, r: Choice)
    ensures Valid(store) && Selected(store, "e", false, Some(r)) && r.snap.HasSessions()
    ensures forall c | Candidate(Rotated(store, "e"), "e", false, c) :: !c.snap.HasSessions()
  {
    var full := Listings.Snapshot(Name(1, 0), Readable(["s"], ""));
    var two := Listings.Snapshot(Name(2, 0), Readable([], ""));
    var three := Listings.Snapshot(Name(3, 0), Readable([], ""));
    var four := Listings.Snapshot(Name(4, 0), Readable([], ""));
    store := map["a" := [full], "b" := [two], "c" := [three], "d" := [four]];
    r := Choice("a", full);
    assert store["a"] == [full] && store["b"] == [two] && store["c"] == [three] && store["d"] == [four];
    LosingStore(store, full, two, three, four);
  }

  lemma LosingStore(store: Store, full: Listings.Snapshot, two: Listings.Snapshot, three: Listings.Snapshot,
                    four: Listings.Snapshot)
    requires store.Keys == {"a", "b", "c", "d"}
    requires store["a"] == [full] && store["b"] == [two] && store["c"] == [three] && store["d"] == [four]
    requires full.HasSessions() && !two.HasSessions() && !three.HasSessions() && !four.HasSessions()
    requires Older(full.name, two.name) && Older(two.name, three.name) && Older(three.name, four.name)
    ensures Valid(store) && Selected(store, "e", false, Some(Choice("a", full)))
    ensures forall c | Candidate(Rotated(store, "e"), "e", false, c) :: !c.snap.HasSessions()
  {
    hide Rotated;
    OldestIsLost(store, full, two, three, four);
    forall c | Candidate(store, "e", false, c) && c != Choice("a", full) ensures !c.snap.HasSessions() {
      assert c.boot in store.Keys;
    }
    forall c | Candidate(Rotated(store, "e"), "e", false, c) ensures !c.snap.HasSessions() {
      RotatedCandidate(store, "e", false, c);
    }
  }

  lemma OldestIsLost(store: Store, full: Listings.Snapshot, two: Listings.Snapshot, three: Listings.Snapshot,
                     four: Listings.Snapshot)
    requires store.Keys == {"a", "b", "c", "d"}
    requires store["a"] == [full] && store["b"] == [two] && store["c"] == [three] && store["d"] == [four]
    requires Older(full.name, two.name) && Older(two.name, three.name) && Older(three.name, four.name)
    ensures Valid(store) && "a" !in Rotated(store, "e")
  {
    assert Newest(store["a"]) == full.name && Newest(store["b"]) == two.name;
    assert Newest(store["c"]) == three.name && Newest(store["d"]) == four.name;
    assert NewerBoots(store, "e", "a") == {"b", "c", "d"};
    assert |{"b", "c", "d"}| == 3;
  }
}
