// The commands of scripts/claude-recover.py that read and write the snapshot store.

module SnapshotCommands {
  import opened Options
  import opened SnapshotNames
  import opened Listings
  import opened SnapshotStore

  // ---- Sorting by file name ----

  function InsertByName(cs: seq<Choice>, c: Choice): seq<Choice> {
    if cs == [] || Older(c.snap.name, cs[0].snap.name) then [c] + cs
    else [cs[0]] + InsertByName(cs[1..], c)
  }

  function SortByName(cs: seq<Choice>): seq<Choice> {
    if cs == [] then [] else InsertByName(SortByName(cs[1..]), cs[0])
  }

  ghost predicate SortedByName(cs: seq<Choice>) {
    forall i, j | 0 <= i < j < |cs| :: Older(cs[i].snap.name, cs[j].snap.name)
  }

  ghost predicate DifferByName(cs: seq<Choice>) {
    forall i, j | 0 <= i < j < |cs| :: cs[i].snap.name != cs[j].snap.name
  }

  lemma {:induction false} InsertByNameSorts(cs: seq<Choice>, c: Choice)
    requires SortedByName(cs) && forall d | d in cs :: d.snap.name != c.snap.name
    ensures SortedByName(InsertByName(cs, c))
    ensures forall d :: d in InsertByName(cs, c) <==> d in cs || d == c
    ensures |InsertByName(cs, c)| == |cs| + 1
  {
    if cs != [] && !Older(c.snap.name, cs[0].snap.name) {
      var rest := cs[1..];
      InsertByNameSorts(rest, c);
      assert forall d :: d in cs <==> d == cs[0] || d in rest;
      forall d | d in InsertByName(rest, c) ensures Older(cs[0].snap.name, d.snap.name) {
        if d in rest { var k :| 0 <= k < |rest| && rest[k] == d; }
      }
    }
  }

  lemma {:induction false} SortByNameSorts(cs: seq<Choice>)
    requires DifferByName(cs)
    ensures SortedByName(SortByName(cs))
    ensures forall d :: d in SortByName(cs) <==> d in cs
    ensures |SortByName(cs)| == |cs|
  {
    if cs != [] {
      SortByNameSorts(cs[1..]);
      assert forall d :: d in cs <==> d == cs[0] || d in cs[1..];
      InsertByNameSorts(SortByName(cs[1..]), cs[0]);
    }
  }

  // ---- The snapshot command as a function of the store ----

  datatype Outcome = RestorePending | TmuxFailed | Written(name: Name) | Unchanged

  // Whether a snapshot must wait for this boot's restore.
  ghost predicate Pending(store: Store, boot: BootId, locked: bool, done: bool, bootTime: Option<int>, clock: real) {
    || locked
    || (&& !done
        && (exists c :: Selected(store, boot, false, Some(c)) && c.snap.HasSessions())
        && bootTime.Some?
        && clock - bootTime.value as real <= PENDING_RESTORE_WINDOW_S as real)
  }

  // Adds a snapshot to the boot's directory without rotating.
  function Added(store: Store, boot: BootId, second: nat, body: Body): Store {
    var l := Files(store, boot);
    store[boot := Insert(l, Snapshot(Name(second, FreeSuffix(l, second, 0)), body))]
  }

  lemma AddedValid(store: Store, boot: BootId, second: nat, body: Body)
    requires Valid(store)
    ensures Valid(Added(store, boot, second, body))
  {
    var l := Files(store, boot);
    InsertKeepsSorted(l, Snapshot(Name(second, FreeSuffix(l, second, 0)), body));
  }

  // A write changes the boot's own directory as a history of its writes does.
  lemma OwnDirectoryRecords(store: Store, boot: BootId, second: nat, body: Body)
    requires Valid(store)
    ensures Valid(Added(store, boot, second, body))
    ensures boot in Rotated(Added(store, boot, second, body), boot)
    ensures Rotated(Added(store, boot, second, body), boot)[boot] == Record(Files(store, boot), second, body)
  {
    AddedValid(store, boot, second, body);
  }

  // No other boot holds a snapshot of this second.
  ghost predicate SecondIsOwn(store: Store, boot: BootId, second: nat) {
    forall b, s | b in store && b != boot && s in store[b] :: s.name.second != second
  }

  lemma AddedDistinct(store: Store, boot: BootId, second: nat, body: Body)
    requires Valid(store) && DistinctNames(store) && SecondIsOwn(store, boot, second)
    ensures DistinctNames(Added(store, boot, second, body))
  {
    var l := Files(store, boot);
    var s := Snapshot(Name(second, FreeSuffix(l, second, 0)), body);
    InsertKeepsSorted(l, s);
    var added := Added(store, boot, second, body);
    forall b, c | b in added && c in added && b != c ensures DisjointNames(added[b], added[c]) {
      if b in store && c in store { assert DisjointNames(store[b], store[c]); }
    }
  }

  // The directory's last file already holds the content.
  predicate HoldsLast(store: Store, boot: BootId, body: Body) {
    boot in store && store[boot] != [] && store[boot][|store[boot]| - 1].body == body
  }

  // Unforced content that the last file holds changes nothing; any other is written under a new name of its second, and
  // the store is rotated.
  ghost predicate Recorded(before: Store, after: Store, boot: BootId, second: nat, body: Body, force: bool,
                           outcome: Outcome)
  {
    if !force && HoldsLast(before, boot, body) then outcome == Unchanged && after == before
    else
      && outcome.Written? && outcome.name.second == second && WrittenAs(before, after, boot, Snapshot(outcome.name, body))
  }

  ghost predicate WrittenAs(before: Store, after: Store, boot: BootId, s: Snapshot) {
    var l := Files(before, boot);
    && !Holds(l, s.name) && Valid(before[boot := Insert(l, s)]) && after == Rotated(before[boot := Insert(l, s)], boot)
  }

  ghost function AfterSnapshot(store: Store, boot: BootId, locked: bool, done: bool, bootTime: Option<int>, clock: real,
                               live: Option<Body>, force: bool): (r: (Store, Outcome))
    requires Valid(store) && clock >= 0.0 && (live.Some? ==> live.value.Readable?)
    ensures r.0 == store || (&& live.Some? && Valid(Added(store, boot, clock.Floor, live.value))
                             && r.0 == Rotated(Added(store, boot, clock.Floor, live.value), boot))
    ensures Pending(store, boot, locked, done, bootTime, clock) ==> r == (store, RestorePending)
    ensures !Pending(store, boot, locked, done, bootTime, clock) ==>
              if live.None? then r == (store, TmuxFailed) else Recorded(store, r.0, boot, clock.Floor, live.value, force, r.1)
  {
    var l, second := Files(store, boot), clock.Floor;
    if Pending(store, boot, locked, done, bootTime, clock) then (store, RestorePending)
    else if live.None? then (store, TmuxFailed)
    else if MustWrite(l, live.value, force) then
      AddedValid(store, boot, second, live.value);
      (Rotated(Added(store, boot, second, live.value), boot), Written(Name(second, FreeSuffix(l, second, 0))))
    else (store, Unchanged)
  }

  // A command that is neither held back nor blind extends the history of its directory.
  lemma CommandExtendsHistory(store: Store, boot: BootId, done: bool, bootTime: Option<int>, clock: real, body: Body,
                              force: bool, cs: seq<Command>)
    requires Valid(store) && clock >= 0.0 && body.Readable? && Files(store, boot) == Replay(Writes(cs))
    requires !Pending(store, boot, false, done, bootTime, clock)
    ensures Files(AfterSnapshot(store, boot, false, done, bootTime, clock, Some(body), force).0, boot)
            == Replay(Writes(cs + [Command(clock.Floor, body, force)]))
  {
    var c := Command(clock.Floor, body, force);
    assert (cs + [c])[..|cs|] == cs;
    var ws := Writes(cs);
    if MustWrite(Replay(ws), body, force) {
      OwnDirectoryRecords(store, boot, clock.Floor, body);
      var w := Write(c.second, c.body, c.force);
      assert (ws + [w])[..|ws|] == ws;
    }
  }

  // ---- The state directory ----

  class StateDirectory {
    var dirs: Store
    var markers: set<BootId>
    var restoreLocked: bool
    var lastOk: Option<real>

    constructor ()
      ensures dirs == map[] && markers == {} && !restoreLocked && lastOk == None
    {
      dirs, markers, restoreLocked, lastOk := map[], {}, false, None;
    }

    method SelectSnapshot(current: BootId, anyBoot: bool) returns (r: Option<Choice>)
      requires Valid(dirs) && DistinctNames(dirs)
      ensures Selected(dirs, current, anyBoot, r)
    {
      var candidates := Candidates(current, anyBoot);
      SortByNameSorts(candidates);
      candidates := SortByName(candidates);
      var i := |candidates|;
      while i > 0
        invariant 0 <= i <= |candidates|
        invariant forall j | i <= j < |candidates| :: !anyBoot && !candidates[j].snap.HasSessions()
      {
        i := i - 1;
        if anyBoot || candidates[i].snap.HasSessions() {
          SelectedByPosition(dirs, current, anyBoot, candidates, i);
          return Some(candidates[i]);
        }
      }
      if candidates == [] {
        return None;
      }
      SelectedByPosition(dirs, current, anyBoot, candidates, |candidates| - 1);
      return Some(candidates[|candidates| - 1]);
    }

    // Every snapshot of the boots in question, boot after boot in no particular order.
    method Candidates(current: BootId, anyBoot: bool) returns (cs: seq<Choice>)
      requires Valid(dirs) && DistinctNames(dirs)
      ensures DifferByName(cs)
      ensures forall c :: c in cs <==> Candidate(dirs, current, anyBoot, c)
    {
      cs := [];
      var boots := dirs.Keys;
      while boots != {}
        invariant boots <= dirs.Keys
        invariant DifferByName(cs)
        invariant forall c :: c in cs <==> c.boot !in boots && Candidate(dirs, current, anyBoot, c)
        decreases boots
      {
        var b :| b in boots;
        if anyBoot || b != current {
          var l := dirs[b];
          var more := seq(|l|, i requires 0 <= i < |l| => Choice(b, l[i]));
          ExtendDiffers(dirs, cs, more, b);
          assert forall c :: c in more <==> c.boot == b && c.snap in l by {
            forall c: Choice | c.boot == b && c.snap in l ensures c in more {
              var k :| 0 <= k < |l| && l[k] == c.snap;
              assert more[k] == c;
            }
          }
          cs := cs + more;
        }
        boots := boots - {b};
      }
    }

    // The previous boots with their newest snapshots, oldest first.
    method PreviousBoots(current: BootId) returns (prev: seq<Choice>)
      requires Valid(dirs) && DistinctNames(dirs)
      ensures SortedByName(prev)
      ensures forall c :: c in prev <==> IsNewestOf(dirs, current, c)
    {
      var cs: seq<Choice> := [];
      var boots := dirs.Keys - {current};
      while boots != {}
        invariant boots <= dirs.Keys - {current}
        invariant DifferByName(cs)
        invariant forall c :: c in cs <==> c.boot !in boots && IsNewestOf(dirs, current, c)
        decreases boots
      {
        var b :| b in boots;
        forall c | c in cs ensures Newest(dirs[c.boot]) != Newest(dirs[b]) {
          NewestDiffer(dirs, c.boot, b);
        }
        cs := cs + [Choice(b, dirs[b][|dirs[b]| - 1])];
        boots := boots - {b};
      }
      SortByNameSorts(cs);
      prev := SortByName(cs);
    }

    method Rotate(current: BootId)
      requires Valid(dirs) && DistinctNames(dirs)
      modifies `dirs
      ensures dirs == Rotated(old(dirs), current)
    {
      ghost var before := dirs;
      var prev := PreviousBoots(current);
      if current in dirs {
        dirs := dirs[current := Suffix(KEEP_PER_BOOT, dirs[current])];
      }
      var cut := if |prev| <= KEEP_PREV_BOOTS then 0 else |prev| - KEEP_PREV_BOOTS;
      RecentPositions(before, current, prev, cut);
      DropBoots(prev[..cut]);
      ThinBoots(prev[cut..]);
      RotatedByPosition(before, current, prev, cut);
      RotatedInSteps(before, current, BootsOf(prev[..cut]), BootsOf(prev[cut..]), dirs);
    }

    // Whether a restore of this boot is running or still expected.
    method RestoreIsPending(boot: BootId, bootTime: Option<int>, clock: real) returns (pending: bool)
      requires Valid(dirs) && DistinctNames(dirs)
      ensures pending == Pending(dirs, boot, restoreLocked, boot in markers, bootTime, clock)
      ensures restoreLocked ==> pending
      ensures !restoreLocked && boot in markers ==> !pending
      ensures !restoreLocked && (forall c | Selected(dirs, boot, false, Some(c)) :: !c.snap.HasSessions()) ==> !pending
      ensures !restoreLocked && bootTime.None? ==> !pending
      ensures !restoreLocked && bootTime.Some? && clock - bootTime.value as real > PENDING_RESTORE_WINDOW_S as real ==> !pending
    {
      if restoreLocked { return true; }
      if boot in markers { return false; }
      var prev := SelectSnapshot(boot, false);
      if prev.None? || !prev.value.snap.HasSessions() {
        forall c | Selected(dirs, boot, false, Some(c)) ensures !c.snap.HasSessions() {
          SelectedUnique(dirs, boot, false, prev, Some(c));
        }
        return false;
      }
      if bootTime.None? || clock - bootTime.value as real > PENDING_RESTORE_WINDOW_S as real { return false; }
      return true;
    }

    method TakeSnapshot(boot: BootId, bootTime: Option<int>, clock: real, live: Option<Body>, force: bool)
      returns (outcome: Outcome)
      requires Valid(dirs) && DistinctNames(dirs) && clock >= 0.0 && SecondIsOwn(dirs, boot, clock.Floor)
      requires live.Some? ==> live.value.Readable?
      modifies this
      ensures markers == old(markers) && restoreLocked == old(restoreLocked)
      ensures (dirs, outcome) ==
              AfterSnapshot(old(dirs), boot, restoreLocked, boot in markers, bootTime, clock, live, force)
      ensures Valid(dirs) && DistinctNames(dirs)
      ensures outcome.RestorePending? <==> Pending(old(dirs), boot, restoreLocked, boot in markers, bootTime, clock)
      ensures outcome.RestorePending? || outcome.TmuxFailed? ==> dirs == old(dirs)
      ensures outcome.Unchanged? || outcome.Written? ==>
                live.Some? && Recorded(old(dirs), dirs, boot, clock.Floor, live.value, force, outcome)
      ensures live.Some? && !restoreLocked && boot in markers ==> outcome.Unchanged? || outcome.Written?
      ensures lastOk == if outcome.Written? || outcome.Unchanged? then Some(clock) else old(lastOk)
    {
      var pending := RestoreIsPending(boot, bootTime, clock);
      if pending { return RestorePending; }
      if live.None? { return TmuxFailed; }
      var l, second := Files(dirs, boot), clock.Floor;
      outcome := Unchanged;
      if force || LastBody(l) != live.value {
        var n := ChooseSuffix(l, second);
        AddedValid(dirs, boot, second, live.value);
        AddedDistinct(dirs, boot, second, live.value);
        outcome := Written(Name(second, n));
        dirs := dirs[boot := Insert(l, Snapshot(Name(second, n), live.value))];
        RotatedValid(dirs, boot);
        RotatedDistinct(dirs, boot);
        Rotate(boot);
      }
      lastOk := Some(clock);
    }

    method DropBoots(stale: seq<Choice>)
      modifies `dirs
      ensures dirs == old(dirs) - BootsOf(stale)
    {
      ghost var before := dirs;
      for i := 0 to |stale|
        invariant dirs == before - BootsOf(stale[..i])
      {
        BootsOfNext(stale, i);
        dirs := dirs - {stale[i].boot};
      }
      assert stale[..|stale|] == stale;
    }

    method ThinBoots(recent: seq<Choice>)
      requires BootsOf(recent) <= dirs.Keys
      requires forall i, j | 0 <= i < j < |recent| :: recent[i].boot != recent[j].boot
      modifies `dirs
      ensures dirs.Keys == old(dirs).Keys
      ensures forall b | b in dirs ::
                dirs[b] == if b in BootsOf(recent) then Thinned(old(dirs)[b]) else old(dirs)[b]
    {
      ghost var before := dirs;
      for i := 0 to |recent|
        invariant dirs.Keys == before.Keys
        invariant forall b | b in dirs :: dirs[b] == if b in BootsOf(recent[..i]) then Thinned(before[b]) else before[b]
      {
        BootsOfNext(recent, i);
        assert recent[i] in recent && recent[i].boot !in BootsOf(recent[..i]);
        var b := recent[i].boot;
        dirs := dirs[b := Thinned(dirs[b])];
      }
      assert recent[..|recent|] == recent;
    }
  }

  ghost predicate IsNewestOf(store: Store, current: BootId, c: Choice)
    requires Valid(store)
  {
    c.boot in store && c.boot != current && c.snap == store[c.boot][|store[c.boot]| - 1]
  }

  ghost function BootsOf(cs: seq<Choice>): set<BootId> {
    set c | c in cs :: c.boot
  }

  lemma BootsOfNext(cs: seq<Choice>, i: nat)
    requires i < |cs|
    ensures BootsOf(cs[..i + 1]) == BootsOf(cs[..i]) + {cs[i].boot}
  {}

  lemma ExtendDiffers(store: Store, cs: seq<Choice>, more: seq<Choice>, b: BootId)
    requires Valid(store) && DistinctNames(store) && b in store && DifferByName(cs)
    requires forall c | c in cs :: c.boot in store && c.boot != b && c.snap in store[c.boot]
    requires |more| == |store[b]| && forall i | 0 <= i < |more| :: more[i] == Choice(b, store[b][i])
    ensures DifferByName(cs + more)
  {}

  // In a name-sorted list of all candidates, the last one that bears sessions (or the last one) is the choice.
  lemma SelectedByPosition(store: Store, current: BootId, anyBoot: bool, cs: seq<Choice>, i: nat)
    requires SortedByName(cs) && i < |cs|
    requires forall c :: c in cs <==> Candidate(store, current, anyBoot, c)
    requires forall j | i < j < |cs| :: !anyBoot && !cs[j].snap.HasSessions()
    requires anyBoot || cs[i].snap.HasSessions() || (i == |cs| - 1 && forall j | 0 <= j < |cs| :: !cs[j].snap.HasSessions())
    ensures Selected(store, current, anyBoot, Some(cs[i]))
  {}

  // In a sorted list of the previous boots, position decides which boots are newer.
  lemma NewerByPosition(store: Store, current: BootId, prev: seq<Choice>, i: nat)
    requires Valid(store) && SortedByName(prev) && i < |prev|
    requires forall c :: c in prev <==> IsNewestOf(store, current, c)
    ensures IsNewestOf(store, current, prev[i])
    ensures NewerBoots(store, current, prev[i].boot) == BootsOf(prev[i + 1..])
  {
    assert prev[i] in prev;
    var later := prev[i + 1..];
    forall b ensures b in NewerBoots(store, current, prev[i].boot) <==> b in BootsOf(later) {
      if b in NewerBoots(store, current, prev[i].boot) {
        var c := Choice(b, store[b][|store[b]| - 1]);
        assert IsNewestOf(store, current, c);
        var k :| 0 <= k < |prev| && prev[k] == c;
        assert later[k - i - 1] == c;
      }
      if b in BootsOf(later) {
        var c :| c in later && c.boot == b;
        var k :| 0 <= k < |later| && later[k] == c;
        assert prev[i + 1 + k] in prev;
      }
    }
  }

  lemma {:induction false} BootCount(cs: seq<Choice>)
    requires forall i, j | 0 <= i < j < |cs| :: cs[i].boot != cs[j].boot
    ensures |BootsOf(cs)| == |cs|
  {
    if cs != [] {
      BootCount(cs[1..]);
      assert cs == [cs[0]] + cs[1..];
      assert BootsOf(cs) == {cs[0].boot} + BootsOf(cs[1..]);
      assert cs[0].boot !in BootsOf(cs[1..]);
    }
  }

  lemma BootsDiffer(store: Store, current: BootId, prev: seq<Choice>, i: nat, j: nat)
    requires Valid(store) && SortedByName(prev) && i < j < |prev|
    requires forall c | c in prev :: IsNewestOf(store, current, c)
    ensures prev[i].boot != prev[j].boot
  {
    assert prev[i] in prev && prev[j] in prev && Older(prev[i].snap.name, prev[j].snap.name);
  }

  // The recent boots are the last three of the sorted list.
  lemma RotatedByPosition(store: Store, current: BootId, prev: seq<Choice>, cut: nat)
    requires Valid(store) && SortedByName(prev)
    requires forall c :: c in prev <==> IsNewestOf(store, current, c)
    requires cut == if |prev| <= KEEP_PREV_BOOTS then 0 else |prev| - KEEP_PREV_BOOTS
    ensures forall b | b in store && b != current ::
              && (b in BootsOf(prev[..cut]) <==> !Recent(store, current, b))
              && (b in BootsOf(prev[cut..]) <==> Recent(store, current, b))
    ensures current !in BootsOf(prev[..cut]) + BootsOf(prev[cut..])
  {
    assert forall c | c in prev[..cut] || c in prev[cut..] :: c in prev;
    forall b | b in store && b != current
      ensures b in BootsOf(prev[..cut]) <==> !Recent(store, current, b)
      ensures b in BootsOf(prev[cut..]) <==> Recent(store, current, b)
    {
      var c := Choice(b, store[b][|store[b]| - 1]);
      assert IsNewestOf(store, current, c);
      var i :| 0 <= i < |prev| && prev[i] == c;
      NewerByPosition(store, current, prev, i);
      LaterBootCount(store, current, prev, i + 1);
      if i < cut {
        assert prev[..cut][i] == c;
        NotAmong(store, current, prev, cut, |prev|, i);
      } else {
        assert prev[cut..][i - cut] == c;
        NotAmong(store, current, prev, 0, cut, i);
      }
    }
  }

  lemma RecentPositions(store: Store, current: BootId, prev: seq<Choice>, cut: nat)
    requires Valid(store) && SortedByName(prev) && cut <= |prev|
    requires forall c | c in prev :: IsNewestOf(store, current, c)
    ensures var later := prev[cut..];
            && BootsOf(later) <= store.Keys - BootsOf(prev[..cut])
            && forall i, j | 0 <= i < j < |later| :: later[i].boot != later[j].boot
  {
    var later := prev[cut..];
    forall i | 0 <= i < |later| ensures later[i].boot in store && later[i].boot !in BootsOf(prev[..cut]) {
      assert prev[cut + i] in prev;
      NotAmong(store, current, prev, 0, cut, cut + i);
      assert prev[0..cut] == prev[..cut];
    }
    forall i, j | 0 <= i < j < |later| ensures later[i].boot != later[j].boot {
      BootsDiffer(store, current, prev, cut + i, cut + j);
    }
  }

  lemma LaterBootCount(store: Store, current: BootId, prev: seq<Choice>, from: nat)
    requires Valid(store) && SortedByName(prev) && from <= |prev|
    requires forall c | c in prev :: IsNewestOf(store, current, c)
    ensures |BootsOf(prev[from..])| == |prev| - from
  {
    RecentPositions(store, current, prev, from);
    BootCount(prev[from..]);
  }

  lemma RotatedInSteps(store: Store, current: BootId, dropped: set<BootId>, thinned: set<BootId>, final: Store)
    requires Valid(store) && current !in dropped + thinned
    requires forall b | b in store && b != current ::
               (b in dropped <==> !Recent(store, current, b)) && (b in thinned <==> Recent(store, current, b))
    requires final.Keys == store.Keys - dropped
    requires forall b | b in final ::
               final[b] == if b == current then Suffix(KEEP_PER_BOOT, store[b])
                           else if b in thinned then Thinned(store[b]) else store[b]
    ensures final == Rotated(store, current)
  {
  }

  lemma NotAmong(store: Store, current: BootId, prev: seq<Choice>, from: nat, to: nat, i: nat)
    requires Valid(store) && SortedByName(prev) && from <= to <= |prev| && i < |prev| && !(from <= i < to)
    requires forall c | c in prev :: IsNewestOf(store, current, c)
    ensures prev[i].boot !in BootsOf(prev[from..to])
  {
    if prev[i].boot in BootsOf(prev[from..to]) {
      var c :| c in prev[from..to] && c.boot == prev[i].boot;
      var k :| from <= k < to && prev[k] == c;
      BootsDiffer(store, current, prev, if k < i then k else i, if k < i then i else k);
    }
  }
}
