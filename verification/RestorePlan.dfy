// What a restore decides, from scripts/claude-recover.py: decide_mounts, session_command and decide_sessions.

module RestorePlan {
  import opened SnapshotNames
  import opened Paths

  datatype Level = Fine | Warn | Hard

  datatype Status = Planned | Skipped | Done | Failed

  datatype MountAction = SkipMounted | SkipHardDisk | Mount

  datatype MountEntry = MountEntry(target: string, essential: bool, action: MountAction, status: Status)

  // An empty string stands for a field the snapshot does not record.
  datatype Session = Session(id: string, cwd: string, window: string, transcript: string, busy: bool)

  datatype Snapshot = Snapshot(mounts: seq<string>, sessions: seq<Session>)

  datatype SessionAction = SkipAlive | SkipNoTranscript | SkipUnmounted | Resume | Reopen {
    predicate Opens() { Resume? || Reopen? }
  }

  datatype Launch = Nothing | Launch(id: string, window: string, directory: string, prompt: string)

  datatype Detail = Plain | DeadlineReached | NoTmux | LowMemory | Appeared | ExitStatus

  datatype SessionEntry = SessionEntry(
    id: string, cwd: string, name: string, action: SessionAction, command: Launch, status: Status, detail: Detail)

  datatype Config = Config(essential: seq<string>, continueMode: bool, continuePrompt: string, home: string)

  // What a decision looked at; a settled one counts only what is mounted.
  datatype View = View(level: Level, mounted: set<string>, alive: set<string>, transcripts: set<string>, settled: bool)

  // ---- Mounts ----

  function MountActionFor(target: string, mounted: set<string>, level: Level, essential: seq<string>): MountAction {
    if target in mounted then SkipMounted
    else if level.Hard? && StripSlashes(target) !in essential then SkipHardDisk
    else Mount
  }

  function MountEntryFor(target: string, mounted: set<string>, level: Level, essential: seq<string>): MountEntry {
    var action := MountActionFor(target, mounted, level, essential);
    MountEntry(target, StripSlashes(target) in essential, action, if action.Mount? then Planned else Skipped)
  }

  function MountEntriesFor(targets: seq<string>, mounted: set<string>, level: Level, essential: seq<string>)
    : seq<MountEntry>
  {
    seq(|targets|, i requires 0 <= i < |targets| => MountEntryFor(targets[i], mounted, level, essential))
  }

  // A repeated line keeps its last position; a target that is not listed ranks by the number of distinct lines.
  function RankIn(lines: seq<string>, distinct: nat, target: string): nat {
    if lines == [] then distinct
    else if lines[|lines| - 1] == target then |lines| - 1
    else RankIn(lines[..|lines| - 1], distinct, target)
  }

  function Rank(essential: seq<string>, target: string): nat {
    RankIn(essential, |set l | l in essential|, StripSlashes(target))
  }

  predicate SortsBefore(a: MountEntry, b: MountEntry, essential: seq<string>) {
    var m, n := Rank(essential, a.target), Rank(essential, b.target);
    m < n || (m == n && Before(a.target, b.target))
  }

  ghost predicate Ordered(out: seq<MountEntry>, essential: seq<string>) {
    forall i, j | 0 <= i < j < |out| :: !SortsBefore(out[j], out[i], essential)
  }

  function InsertByRank(out: seq<MountEntry>, e: MountEntry, essential: seq<string>): seq<MountEntry> {
    if out == [] then [e]
    else if SortsBefore(e, out[0], essential) then [e] + out
    else [out[0]] + InsertByRank(out[1..], e, essential)
  }

  function SortByRank(out: seq<MountEntry>, essential: seq<string>): seq<MountEntry> {
    if out == [] then [] else InsertByRank(SortByRank(out[..|out| - 1], essential), out[|out| - 1], essential)
  }

  lemma {:induction false} BeforeTransitive(a: string, b: string, c: string)
    ensures !Before(b, a) && !Before(c, b) ==> !Before(c, a)
    ensures Before(a, b) ==> !Before(b, a)
    decreases |a| + |b| + |c|
  {
    if a != "" && b != "" {
      BeforeTransitive(a[1..], b[1..], if c == "" then "" else c[1..]);
    }
  }

  lemma SortsTransitively(a: MountEntry, b: MountEntry, c: MountEntry, essential: seq<string>)
    ensures !SortsBefore(b, a, essential) && !SortsBefore(c, b, essential) ==> !SortsBefore(c, a, essential)
    ensures SortsBefore(a, b, essential) ==> !SortsBefore(b, a, essential)
  {
    BeforeTransitive(a.target, b.target, c.target);
  }

  lemma {:induction false} InsertByRankKeeps(out: seq<MountEntry>, e: MountEntry, essential: seq<string>)
    ensures multiset(InsertByRank(out, e, essential)) == multiset(out) + multiset{e}
  {
    hide SortsBefore;
    if out != [] {
      assert out == [out[0]] + out[1..];
      InsertByRankKeeps(out[1..], e, essential);
    }
  }

  lemma {:induction false} InsertByRankSorts(out: seq<MountEntry>, e: MountEntry, essential: seq<string>)
    requires Ordered(out, essential)
    ensures Ordered(InsertByRank(out, e, essential), essential)
    ensures multiset(InsertByRank(out, e, essential)) == multiset(out) + multiset{e}
  {
    hide SortsBefore;
    InsertByRankKeeps(out, e, essential);
    if out != [] {
      var rest := out[1..];
      SortsTransitively(e, out[0], e, essential);
      if SortsBefore(e, out[0], essential) {
        forall j | 0 <= j < |out| ensures !SortsBefore(out[j], e, essential) {
          SortsTransitively(e, out[0], out[j], essential);
        }
      } else {
        InsertByRankSorts(rest, e, essential);
        NoneBefore(out[0], rest, InsertByRank(rest, e, essential), e, essential);
      }
    }
  }

  lemma NoneBefore(first: MountEntry, rest: seq<MountEntry>, r: seq<MountEntry>, e: MountEntry, essential: seq<string>)
    requires multiset(r) == multiset(rest) + multiset{e} && !SortsBefore(e, first, essential)
    requires forall k | 0 <= k < |rest| :: !SortsBefore(rest[k], first, essential)
    ensures forall j | 0 <= j < |r| :: !SortsBefore(r[j], first, essential)
  {
    hide SortsBefore;
    forall j | 0 <= j < |r| ensures !SortsBefore(r[j], first, essential) {
      assert r[j] in multiset(r);
      if r[j] != e { assert r[j] in multiset(rest); }
    }
  }

  lemma {:induction false} SortByRankSorts(out: seq<MountEntry>, essential: seq<string>)
    ensures Ordered(SortByRank(out, essential), essential)
    ensures multiset(SortByRank(out, essential)) == multiset(out)
  {
    if out != [] {
      var most := out[..|out| - 1];
      assert out == most + [out[|out| - 1]];
      SortByRankSorts(most, essential);
      InsertByRankSorts(SortByRank(most, essential), out[|out| - 1], essential);
    }
  }

  method DecideMounts(targets: seq<string>, mounted: set<string>, level: Level, essential: seq<string>)
    returns (out: seq<MountEntry>)
    ensures multiset(out) == multiset(MountEntriesFor(targets, mounted, level, essential))
    ensures Ordered(out, essential)
    ensures forall e | e in out ::
              && e.target in targets && (e.essential <==> StripSlashes(e.target) in essential)
              && (e.action.SkipMounted? <==> e.target in mounted)
              && (e.action.SkipHardDisk? <==> e.target !in mounted && level.Hard? && !e.essential)
              && e.status == if e.target !in mounted && (level.Hard? ==> e.essential) then Planned else Skipped
  {
    out := [];
    for i := 0 to |targets|
      invariant out == MountEntriesFor(targets[..i], mounted, level, essential)
    {
      var target := targets[i];
      var isEssential := StripSlashes(target) in essential;
      var action := Mount;
      if target in mounted {
        action := SkipMounted;
      } else if level.Hard? && !isEssential {
        action := SkipHardDisk;
      }
      out := out + [MountEntry(target, isEssential, action, if action.Mount? then Planned else Skipped)];
    }
    assert targets[..|targets|] == targets;
    SortByRankSorts(out, essential);
    out := SortByRank(out, essential);
    CoversByMultiset(out, targets, mounted, level, essential);
  }

  // The entries, whatever their order, are one per recorded mount.
  ghost predicate Covers(out: seq<MountEntry>, targets: seq<string>, mounted: set<string>, level: Level,
                         essential: seq<string>)
  {
    && (forall e | e in out :: e.target in targets && e == MountEntryFor(e.target, mounted, level, essential))
    && (forall t | t in targets :: MountEntryFor(t, mounted, level, essential) in out)
  }

  lemma CoversByMultiset(out: seq<MountEntry>, targets: seq<string>, mounted: set<string>, level: Level,
                         essential: seq<string>)
    requires multiset(out) == multiset(MountEntriesFor(targets, mounted, level, essential))
    ensures Covers(out, targets, mounted, level, essential)
  {
    var all := MountEntriesFor(targets, mounted, level, essential);
    forall e | e in out ensures e.target in targets && e == MountEntryFor(e.target, mounted, level, essential) {
      assert e in multiset(all);
    }
    forall t | t in targets ensures MountEntryFor(t, mounted, level, essential) in out {
      var i :| 0 <= i < |targets| && targets[i] == t;
      assert all[i] in multiset(out);
    }
  }

  // ---- Essential mounts come first exactly when no line is repeated ----

  ghost predicate NoRepeats(lines: seq<string>) {
    forall i, j | 0 <= i < j < |lines| :: lines[i] != lines[j]
  }

  lemma {:induction false} RankInPosition(lines: seq<string>, distinct: nat, target: string)
    ensures target in lines ==> RankIn(lines, distinct, target) < |lines| && lines[RankIn(lines, distinct, target)] == target
    ensures target !in lines ==> RankIn(lines, distinct, target) == distinct
  {
    if lines != [] {
      var most := lines[..|lines| - 1];
      assert lines == most + [lines[|lines| - 1]];
      RankInPosition(most, distinct, target);
    }
  }

  lemma {:induction false} DistinctCount(lines: seq<string>)
    ensures |set l | l in lines| <= |lines|
    ensures |set l | l in lines| == |lines| <==> NoRepeats(lines)
  {
    var s := set l | l in lines;
    if lines != [] {
      var most, last := lines[..|lines| - 1], lines[|lines| - 1];
      var r := set l | l in most;
      DistinctCount(most);
      assert lines == most + [last];
      assert s == r + {last};
      if last in most {
        var k :| 0 <= k < |most| && most[k] == last;
        assert lines[k] == lines[|lines| - 1];
        assert s == r;
      } else {
        assert NoRepeats(lines) <==> NoRepeats(most) by {
          assert forall i | 0 <= i < |most| :: lines[i] == most[i] && lines[i] in most;
        }
      }
    } else {
      assert s == {};
    }
  }

  lemma EssentialFirstIff(essential: seq<string>, other: string)
    requires forall l | l in essential :: StripSlashes(l) == l
    requires StripSlashes(other) !in essential
    ensures (forall t | StripSlashes(t) in essential :: Rank(essential, t) < Rank(essential, other)) <==> NoRepeats(essential)
  {
    var distinct := |set l | l in essential|;
    DistinctCount(essential);
    RankInPosition(essential, distinct, StripSlashes(other));
    if NoRepeats(essential) {
      forall t | StripSlashes(t) in essential ensures Rank(essential, t) < Rank(essential, other) {
        RankInPosition(essential, distinct, StripSlashes(t));
      }
    } else {
      var last := essential[|essential| - 1];
      assert last in essential && Rank(essential, last) == |essential| - 1;
    }
  }

  // Where a sorted list of mounts puts them: essential ones first, in the order of their lines, then the others by name.
  lemma OrderOfMounts(out: seq<MountEntry>, essential: seq<string>, i: nat, j: nat)
    requires Ordered(out, essential) && NoRepeats(essential) && i < j < |out|
    ensures var x, y := StripSlashes(out[i].target), StripSlashes(out[j].target);
            && (y in essential ==> x in essential)
            && (x in essential && y in essential ==>
                  exists a, b :: 0 <= a <= b < |essential| && essential[a] == x && essential[b] == y)
            && (x !in essential && y !in essential ==> !Before(out[j].target, out[i].target))
  {
    var x, y := StripSlashes(out[i].target), StripSlashes(out[j].target);
    var distinct := |set l | l in essential|;
    DistinctCount(essential);
    RankInPosition(essential, distinct, x);
    RankInPosition(essential, distinct, y);
    assert !SortsBefore(out[j], out[i], essential);
    if x in essential && y in essential {
      assert essential[RankIn(essential, distinct, x)] == x && essential[RankIn(essential, distinct, y)] == y;
    }
  }

  // ---- Sessions ----

  ghost predicate Usable(target: string, view: View, essential: seq<string>) {
    target in view.mounted || (!view.settled && (view.level.Hard? ==> StripSlashes(target) in essential))
  }

  // Every recorded mount that holds the working directory can be used.
  ghost predicate Reachable(cwd: string, targets: seq<string>, view: View, essential: seq<string>) {
    forall t | t in targets && Under(cwd, t) :: Usable(t, view, essential)
  }

  ghost predicate MayOpen(s: Session, targets: seq<string>, view: View, essential: seq<string>) {
    && s.id !in view.alive
    && (s.transcript == "" || s.transcript in view.transcripts)
    && Reachable(s.cwd, targets, view, essential)
  }

  function Prefix(id: string): string {
    if |id| < 8 then id else id[..8]
  }

  function WindowName(s: Session): string {
    if s.window != "" then s.window else Prefix(s.id)
  }

  function PromptFor(s: Session, config: Config): string {
    if config.continueMode && s.busy then config.continuePrompt else ""
  }

  function LaunchFor(s: Session, config: Config): Launch {
    Launch(s.id, WindowName(s), if s.cwd != "" then s.cwd else config.home, PromptFor(s, config))
  }

  // What decide_sessions promises about one entry.
  ghost predicate Decided(e: SessionEntry, s: Session, targets: seq<string>, view: View, config: Config) {
    && e.id == s.id && e.cwd == s.cwd && e.name == WindowName(s) && e.detail == Plain
    && (e.action.Opens() <==> MayOpen(s, targets, view, config.essential))
    && (e.action.Resume? ==> PromptFor(s, config) != "")
    && (e.action.Reopen? ==> PromptFor(s, config) == "")
    && (e.action.SkipAlive? <==> s.id in view.alive)
    && (e.action.SkipNoTranscript? <==> s.id !in view.alive && s.transcript != "" && s.transcript !in view.transcripts)
    && e.command == (if e.action.Opens() then LaunchFor(s, config) else Nothing)
    && e.status == (if e.action.Opens() then Planned else Skipped)
  }

  ghost predicate AllDecided(out: seq<SessionEntry>, snapshot: Snapshot, view: View, config: Config) {
    && |out| == |snapshot.sessions|
    && forall i | 0 <= i < |out| :: Decided(out[i], snapshot.sessions[i], snapshot.mounts, view, config)
  }

  // The set of targets that the decisions about mounts leave usable.
  ghost predicate UsableSet(usable: set<string>, targets: seq<string>, view: View, essential: seq<string>) {
    forall t | t in targets :: t in usable <==> Usable(t, view, essential)
  }

  method DecideSessions(sessions: seq<Session>, targets: seq<string>, usable: set<string>, ghost view: View,
                        alive: set<string>, transcripts: set<string>, config: Config)
    returns (out: seq<SessionEntry>)
    requires alive == view.alive && transcripts == view.transcripts
    requires UsableSet(usable, targets, view, config.essential)
    ensures |out| == |sessions|
    ensures forall i | 0 <= i < |out| :: Decided(out[i], sessions[i], targets, view, config)
  {
    out := [];
    for i := 0 to |sessions|
      invariant |out| == i
      invariant forall k | 0 <= k < i :: Decided(out[k], sessions[k], targets, view, config)
    {
      var s := sessions[i];
      var prompt := "";
      var action: SessionAction;
      if s.id in alive {
        action := SkipAlive;
      } else if s.transcript != "" && s.transcript !in transcripts {
        action := SkipNoTranscript;
      } else if exists t | t in targets :: Under(s.cwd, t) && t !in usable {
        action := SkipUnmounted;
      } else {
        if config.continueMode && s.busy {
          prompt := config.continuePrompt;
        }
        action := if prompt != "" then Resume else Reopen;
      }
      var name := if s.window != "" then s.window else Prefix(s.id);
      var command := if action.Opens()
        then Launch(s.id, name, if s.cwd != "" then s.cwd else config.home, prompt) else Nothing;
      out := out + [SessionEntry(s.id, s.cwd, name, action, command, if action.Opens() then Planned else Skipped, Plain)];
    }
  }

  // What an opened session is told: only a busy one is told to go on, and only in that mode.
  lemma OnlyBusyGetsPrompt(e: SessionEntry, s: Session, targets: seq<string>, view: View, config: Config)
    requires Decided(e, s, targets, view, config) && e.action.Opens()
    ensures e.command.Launch? && e.command.id == s.id
    ensures e.command.prompt != "" <==> config.continueMode && s.busy && config.continuePrompt != ""
    ensures e.command.prompt != "" ==> e.command.prompt == config.continuePrompt
    ensures e.action.Resume? <==> e.command.prompt != ""
    ensures e.command.directory == if s.cwd != "" then s.cwd else config.home
    ensures s.window != "" ==> e.command.window == s.window
    ensures s.window == "" ==> e.command.window == s.id[..if |s.id| < 8 then |s.id| else 8]
  {}
}
