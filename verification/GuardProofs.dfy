// What an accepted guard comparison of scripts/check-exception-set-enumeration.py proves about its node.

module GuardProofs {
  import opened ShellGuards
  import opened ShellLists

  // One execution: what the elements do, the exit status of the node run at each position, and the shell it starts in.
  datatype Execution = Execution(sh: Behaviour, exits: nat -> int, init: Shell) {
    function At(ts: Command, i: nat): Shell
      requires i <= |ts|
    {
      ShellAt(ts, sh, init, i)
    }

    ghost predicate Executes(ts: Command, i: nat)
      requires i <= |ts|
    {
      Executed(ts, sh, init, i)
    }
  }

  // The invocation whose node an accepted comparison is taken to guard, and where its status is saved.
  function Invocation(ts: Command, c: nat): nat
    requires Accepts(ts, c)
  {
    LastCapture(ts[..FirstDeselect(ts)], ts[c].name, FirstDeselect(ts))
  }

  function Saving(ts: Command, c: nat): nat
    requires Accepts(ts, c)
  {
    SavedAt(ts, Invocation(ts, c))
  }

  lemma GuardPlaces(ts: Command, c: nat)
    requires Accepts(ts, c)
    ensures var r, j := Invocation(ts, c), Saving(ts, c);
            && r + 1 < j < c < FirstDeselect(ts) <= |ts| && ts[r].RunNode? && ts[r + 1] == Separator(Semicolon)
            && ts[j] == SaveStatus(ts[c].name) && ts[c].Compare?
            && forall k | r + 2 <= k < j :: IsWhite(ts[k])
  {
    var r, first := Invocation(ts, c), FirstDeselect(ts);
    CapturesPrecede(ts, c, r);
    PrefixCapture(ts, first, r);
  }

  lemma PrefixCapture(ts: Command, n: nat, r: nat)
    requires n <= |ts| && r < n && SavedAt(ts[..n], r) < n
    ensures SavedAt(ts, r) == SavedAt(ts[..n], r)
  {}

  // ---- Which executions are meant ----

  predicate SameVariable(a: Shell, b: Shell, name: string) {
    (name in a.vars <==> name in b.vars) && (name in a.vars ==> a.vars[name] == b.vars[name])
  }

  // A node run alone in its element leaves its exit status, behind "!" the opposite.
  ghost predicate RunsNodes(ts: Command, e: Execution) {
    forall q, s: Shell | 0 <= q < |ts| && ts[q].RunNode? ::
      var after := e.sh(PlaceAt(ts, q).start, s);
      && (Alone(ts, q) ==> after == Shell(e.exits(q), s.vars))
      && (Inverted(ts, q) ==> after == Shell(if e.exits(q) == 0 then 1 else 0, s.vars))
  }

  // The guard's own save and comparison, alone in their elements, do just that.
  ghost predicate SavesAndCompares(ts: Command, c: nat, e: Execution)
    requires Accepts(ts, c)
  {
    forall s: Shell :: SavesAndComparesIn(ts, c, e, s)
  }

  ghost predicate SavesAndComparesIn(ts: Command, c: nat, e: Execution, s: Shell)
    requires Accepts(ts, c)
  {
    var j, name := Saving(ts, c), ts[c].name;
    && (j < |ts| && Alone(ts, j) ==> e.sh(PlaceAt(ts, j).start, s) == Shell(0, s.vars[name := s.status]))
    && (Alone(ts, c) ==> var after := e.sh(PlaceAt(ts, c).start, s);
                         after.vars == s.vars && (after.status == 0 <==> IsOne(s, name)))
  }

  // The variable is assigned only where a status is saved to it.
  ghost predicate AssignsWhereSaved(ts: Command, name: string, e: Execution) {
    forall p, s: Shell | 0 <= p <= |ts| && !Saves(ts, p, name) :: SameVariable(e.sh(p, s), s, name)
  }

  ghost predicate Allowed(ts: Command, c: nat, e: Execution)
    requires Accepts(ts, c)
  {
    RunsNodes(ts, e) && SavesAndCompares(ts, c, e) && AssignsWhereSaved(ts, ts[c].name, e)
  }

  // The deselecting run happens only if the node was run and exited with 1.
  ghost predicate NodeIsRed(ts: Command, c: nat, e: Execution)
    requires Accepts(ts, c)
  {
    e.Executes(ts, FirstDeselect(ts)) ==>
      Invocation(ts, c) < |ts| && e.Executes(ts, Invocation(ts, c)) && e.exits(Invocation(ts, c)) == 1
  }

  // ---- When the comparison proves the node red ----

  // The list of position k is ended by "&" before position c, so what k assigns is gone.
  ghost predicate Dropped(ts: Command, k: nat, c: nat)
    requires c <= |ts|
  {
    exists m :: DroppedAt(ts, k, m, c)
  }

  ghost predicate DroppedAt(ts: Command, k: nat, m: int, c: nat)
    requires c <= |ts|
  {
    k < m < c && ts[m] == Separator(Background) && ListStart(ts, m) <= k
  }

  // Only "||" opens the elements from behind j up to the one of k.
  ghost predicate OnlyOrs(ts: Command, j: nat, k: nat)
    requires k <= |ts|
  {
    forall m | j < m < k && ts[m].Separator? :: PlaceAt(ts, m + 1).op == Or
  }

  // A later element that saves to the variable, in the same shell and not skipped for certain.
  ghost predicate Overwrites(ts: Command, c: nat, k: nat)
    requires Accepts(ts, c)
  {
    && Saving(ts, c) < k < c < |ts| && ts[k] == SaveStatus(ts[c].name)
    && !Dropped(ts, k, c) && !OnlyOrs(ts, Saving(ts, c), k)
  }

  // Masked text, and so a command, stands between the invocation and its save.
  ghost predicate Interrupted(ts: Command, r: nat, j: nat) {
    exists k :: r < k < j < |ts| && ts[k] == Masked
  }

  ghost predicate ProvesNode(ts: Command, c: nat)
    requires Accepts(ts, c)
  {
    GuardPlaces(ts, c);
    var r, j := Invocation(ts, c), Saving(ts, c);
    && PlaceAt(ts, c).op != Or && Alone(ts, c)
    && PlaceAt(ts, r).op != And && Alone(ts, r) && !Interrupted(ts, r, j)
    && Alone(ts, j) && !Dropped(ts, j, c)
    && forall k :: !Overwrites(ts, c, k)
  }

  // ---- It does then ----

  lemma NodeLeaves(ts: Command, q: nat, e: Execution, s: Shell)
    requires RunsNodes(ts, e) && q < |ts| && ts[q].RunNode? && Alone(ts, q)
    ensures e.sh(PlaceAt(ts, q).start, s) == Shell(e.exits(q), s.vars)
  {}

  lemma SaveLeaves(ts: Command, c: nat, e: Execution, s: Shell)
    requires Accepts(ts, c) && SavesAndCompares(ts, c, e) && Saving(ts, c) < |ts| && Alone(ts, Saving(ts, c))
    ensures e.sh(PlaceAt(ts, Saving(ts, c)).start, s) == Shell(0, s.vars[ts[c].name := s.status])
  {
    assert SavesAndComparesIn(ts, c, e, s);
  }

  lemma CompareLeaves(ts: Command, c: nat, e: Execution, s: Shell)
    requires Accepts(ts, c) && SavesAndCompares(ts, c, e) && Alone(ts, c)
    ensures e.sh(PlaceAt(ts, c).start, s).status == 0 <==> IsOne(s, ts[c].name)
  {
    assert SavesAndComparesIn(ts, c, e, s);
  }

  // The save is always executed, and where nothing interrupts, it finds what the invocation's element left.
  lemma AtSave(ts: Command, c: nat, e: Execution)
    requires Accepts(ts, c)
    ensures var r, j := Invocation(ts, c), Saving(ts, c);
            && r < j < |ts| && BeginsList(PlaceAt(ts, j).op)
            && (!Interrupted(ts, r, j) ==>
                  e.At(ts, j) == if e.Executes(ts, r) then e.sh(PlaceAt(ts, r).start, e.At(ts, r)) else e.At(ts, r))
  {
    GuardPlaces(ts, c);
    hide *;
    AcrossSemicolon(ts, e, Invocation(ts, c), Saving(ts, c));
  }

  predicate BeginsList(op: Op) {
    op.Semicolon? || op.Newline?
  }

  lemma AcrossSemicolon(ts: Command, e: Execution, r: nat, j: nat)
    requires r + 1 < j < |ts| && !ts[r].Separator? && ts[r + 1] == Separator(Semicolon)
    requires forall k | r + 2 <= k < j :: IsWhite(ts[k])
    ensures BeginsList(PlaceAt(ts, j).op)
    ensures !Interrupted(ts, r, j) ==>
              e.At(ts, j) == if e.Executes(ts, r) then e.sh(PlaceAt(ts, r).start, e.At(ts, r)) else e.At(ts, r)
  {
    hide ShellAt, PlaceAt;
    SameElement(ts, e.sh, e.init, r, r + 1);
    ElementStep(ts, e.sh, e.init, r + 1);
    WhiteBegins(ts, r + 2, j);
    if !Interrupted(ts, r, j) {
      forall k | r + 2 <= k < j ensures ts[k] != Masked {
        assert ts[k] == Masked ==> Interrupted(ts, r, j);
      }
      WhiteChangesNothing(ts, e.sh, e.init, r + 2, j);
    }
  }

  lemma {:induction false} WhiteBegins(ts: Command, i: nat, j: nat)
    requires i <= j <= |ts| && BeginsList(PlaceAt(ts, i).op) && forall k | i <= k < j :: IsWhite(ts[k])
    ensures BeginsList(PlaceAt(ts, j).op)
    decreases j - i
  {
    if i < j { WhiteBegins(ts, i, j - 1); }
  }

  // The status saved behind the invocation: 1 only if the node was run and exited with 1.
  lemma StatusCarried(ts: Command, c: nat, e: Execution)
    requires Accepts(ts, c) && RunsNodes(ts, e)
    requires var r := Invocation(ts, c); r < |ts| && Alone(ts, r) && PlaceAt(ts, r).op != And
    requires !Interrupted(ts, Invocation(ts, c), Saving(ts, c))
    ensures var r, j := Invocation(ts, c), Saving(ts, c);
            && r < j < |ts| && BeginsList(PlaceAt(ts, j).op)
            && e.At(ts, j).status == if e.Executes(ts, r) then e.exits(r) else 0
  {
    GuardPlaces(ts, c);
    hide Invocation, Saving, Accepts, ShellAt, PlaceAt, RunsNodes, Alone;
    AtSave(ts, c, e);
    NodeLeaves(ts, Invocation(ts, c), e, e.At(ts, Invocation(ts, c)));
  }

  // Behind the save.
  lemma Saved(ts: Command, c: nat, e: Execution) returns (end: nat)
    requires Accepts(ts, c) && SavesAndCompares(ts, c, e) && Saving(ts, c) < c < |ts| && Alone(ts, Saving(ts, c))
    requires BeginsList(PlaceAt(ts, Saving(ts, c)).op) && !Dropped(ts, Saving(ts, c), c)
    ensures end == ElementEnd(ts, Saving(ts, c)) && Saving(ts, c) < end < c && EndsElement(ts, end)
    ensures e.At(ts, end + 1) == Shell(0, e.At(ts, Saving(ts, c)).vars[ts[c].name := e.At(ts, Saving(ts, c)).status])
  {
    GuardPlaces(ts, c);
    hide Invocation, Saving, Accepts, ShellAt, PlaceAt, SavesAndCompares, ListStart;
    var j := Saving(ts, c);
    end := ElementEnd(ts, j);
    AloneEnds(ts, j, c);
    SameElement(ts, e.sh, e.init, j, end);
    assert EndsElement(ts, end) by { assert ts[j] != Space && PlaceAt(ts, end).start <= j < end; }
    ElementStep(ts, e.sh, e.init, end);
    SaveLeaves(ts, c, e, e.At(ts, j));
    ListHolds(ts, j, end);
    assert !DroppedAt(ts, j, end, c);
  }

  lemma AloneEnds(ts: Command, j: nat, c: nat)
    requires j < c < |ts| && Alone(ts, j) && ts[c].Compare?
    ensures j < ElementEnd(ts, j) < c
  {}

  // Without a separator in between, the list of end began at or before j.
  lemma {:induction false} ListHolds(ts: Command, j: nat, end: nat)
    requires j <= end <= |ts| && forall k | j <= k < end :: !ts[k].Separator?
    ensures ListStart(ts, end) <= j
    decreases end - j
  {
    if j < end { ListHolds(ts, j, end - 1); }
  }

  // No list that began before position i is ended by "&" between i and c.
  ghost predicate Foreground(ts: Command, i: nat, c: nat)
    requires c <= |ts|
  {
    forall m | i <= m < c && ts[m] == Separator(Background) :: i <= ListStart(ts, m)
  }

  // Where only "||" follows the save, its status 0 skips everything.
  lemma {:induction false} OrsSkip(ts: Command, sh: Behaviour, init: Shell, end: nat, i: nat)
    requires end < i <= |ts| && ShellAt(ts, sh, init, end + 1).status == 0 && ts[end].Separator?
    requires forall m | end <= m < i && ts[m].Separator? :: PlaceAt(ts, m + 1).op == Or
    ensures ShellAt(ts, sh, init, i).status == 0 && PlaceAt(ts, i).op == Or
    decreases i
  {
    if end + 1 < i {
      OrsSkip(ts, sh, init, end, i - 1);
      hide ShellAt, PlaceAt;
      if EndsElement(ts, i - 1) {
        ElementStep(ts, sh, init, i - 1);
      } else {
        TokenStep(ts, sh, init, i - 1);
      }
    }
  }

  // The element of a save that proves its node ends at end.
  ghost predicate BehindSave(ts: Command, c: nat, e: Execution, end: nat) {
    && Accepts(ts, c) && AssignsWhereSaved(ts, ts[c].name, e) && ProvesNode(ts, c)
    && end == ElementEnd(ts, Saving(ts, c)) && Saving(ts, c) < end < c < |ts| && ts[end].Separator?
    && e.At(ts, end + 1).status == 0
  }

  // An element between the save and the comparison changes the variable only if it is skipped or its list is dropped.
  lemma ElementKeeps(ts: Command, c: nat, e: Execution, end: nat, x: nat)
    requires BehindSave(ts, c, e, end) && end < x < c < |ts|
    requires EndsElement(ts, x) && e.Executes(ts, x) && Foreground(ts, x + 1, c) && ts[x] != Separator(Background)
    ensures SameVariable(e.sh(PlaceAt(ts, x).start, e.At(ts, x)), e.At(ts, x), ts[c].name)
  {
    GuardPlaces(ts, c);
    var p, name, j := PlaceAt(ts, x).start, ts[c].name, Saving(ts, c);
    StartsAfter(ts, end, x);
    OneElement(ts, x);
    if Saves(ts, p, name) {
      var k :| p <= k < ElementEnd(ts, p) && ts[k] == SaveStatus(name);
      assert !Overwrites(ts, c, k);
      SavedIsSkipped(ts, c, e, end, x, k);
    }
  }

  lemma SavedIsSkipped(ts: Command, c: nat, e: Execution, end: nat, x: nat, k: nat)
    requires Accepts(ts, c) && end < k < x < c <= |ts| && ts[end].Separator? && Saving(ts, c) < end
    requires PlaceAt(ts, x).start <= k && forall m | Saving(ts, c) < m < end :: !ts[m].Separator?
    requires e.At(ts, end + 1).status == 0 && e.Executes(ts, x)
    requires Dropped(ts, k, c) || OnlyOrs(ts, Saving(ts, c), k)
    ensures !Foreground(ts, x + 1, c) || ts[x] == Separator(Background)
  {
    hide ShellAt, PlaceAt, ListStart, Accepts, Saving;
    if Dropped(ts, k, c) {
      var m :| DroppedAt(ts, k, m, c);
    } else {
      assert forall m | end <= m < x && ts[m].Separator? :: Saving(ts, c) < m < k;
      OrsSkip(ts, e.sh, e.init, end, x);
    }
  }

  lemma ForegroundBefore(ts: Command, x: nat, c: nat)
    requires x < c <= |ts| && Foreground(ts, x + 1, c) && ts[x] != Separator(Background)
    ensures Foreground(ts, x, c)
  {
    forall m | x <= m < c && ts[m] == Separator(Background) ensures x <= ListStart(ts, m) {
      assert x + 1 <= m;
    }
  }

  // What begins inside a list that "&" ends at x, begins it.
  lemma ForegroundList(ts: Command, x: nat, c: nat)
    requires x < c <= |ts| && ts[x] == Separator(Background)
    ensures Foreground(ts, ListStart(ts, x), c)
  {
    var l := ListStart(ts, x);
    forall m | l <= m < c && ts[m] == Separator(Background) ensures l <= ListStart(ts, m) {
      assert m >= x;
      if m > x {
        assert ListStart(ts, x + 1) == x + 1;
        ListsGrow(ts, x + 1, m);
      }
    }
  }

  // From the save up to the comparison the variable stays as saved.
  lemma {:induction false} SavedStays(ts: Command, c: nat, e: Execution, end: nat, i: nat)
    requires BehindSave(ts, c, e, end) && end < i <= c < |ts| && ts[c].Compare? && Foreground(ts, i, c)
    ensures SameVariable(e.At(ts, i), e.At(ts, end + 1), ts[c].name)
    decreases i
  {
    hide *;
    if end + 1 < i {
      var x := i - 1;
      if ts[x] == Separator(Background) {
        ListBehind(ts, c, e, end, x);
        ForegroundList(ts, x, c);
        var l := ListStart(ts, x);
        SavedStays(ts, c, e, end, l);
        VariablesRestored(ts, e, x, ts[c].name);
        SameTwice(e.At(ts, i), e.At(ts, l), e.At(ts, end + 1), ts[c].name);
      } else {
        ForegroundBefore(ts, x, c);
        SavedStays(ts, c, e, end, x);
        StaysOver(ts, c, e, end, x);
        SameTwice(e.At(ts, i), e.At(ts, x), e.At(ts, end + 1), ts[c].name);
      }
    } else {
      SameTwice(e.At(ts, i), e.At(ts, i), e.At(ts, i), ts[c].name);
    }
  }

  lemma SameTwice(a: Shell, b: Shell, d: Shell, name: string)
    ensures SameVariable(a, b, name) && SameVariable(b, d, name) ==> SameVariable(a, d, name)
    ensures SameVariable(a, a, name)
  {}

  lemma VariablesRestored(ts: Command, e: Execution, x: nat, name: string)
    requires x < |ts| && ts[x] == Separator(Background)
    ensures SameVariable(e.At(ts, x + 1), e.At(ts, ListStart(ts, x)), name)
  {
    ElementStep(ts, e.sh, e.init, x);
  }

  lemma StaysOver(ts: Command, c: nat, e: Execution, end: nat, x: nat)
    requires BehindSave(ts, c, e, end) && end < x < c < |ts|
    requires Foreground(ts, x + 1, c) && ts[x] != Separator(Background)
    ensures SameVariable(e.At(ts, x + 1), e.At(ts, x), ts[c].name)
  {
    hide ShellAt, PlaceAt, ListStart, BehindSave, Foreground;
    if EndsElement(ts, x) {
      ElementStep(ts, e.sh, e.init, x);
      if e.Executes(ts, x) { ElementKeeps(ts, c, e, end, x); }
    } else {
      TokenStep(ts, e.sh, e.init, x);
    }
  }

  // A list that "&" ends before the comparison begins behind the save's element.
  lemma ListBehind(ts: Command, c: nat, e: Execution, end: nat, x: nat)
    requires BehindSave(ts, c, e, end) && end < x < c < |ts| && ts[x] == Separator(Background)
    ensures end < ListStart(ts, x) <= x
  {
    hide *;
    var j := NotDropped(ts, c, e, end, x);
    ListAfter(ts, j, end, x);
  }

  lemma NotDropped(ts: Command, c: nat, e: Execution, end: nat, x: nat) returns (j: nat)
    requires BehindSave(ts, c, e, end) && end < x < c < |ts| && ts[x] == Separator(Background)
    ensures j < end && ListStart(ts, x) > j && forall k | j <= k < end :: !ts[k].Separator?
  {
    hide Accepts, Saving, PlaceAt, ListStart, Alone, Overwrites, AssignsWhereSaved, ShellAt;
    j := Saving(ts, c);
    assert !DroppedAt(ts, j, x, c);
  }

  lemma ListAfter(ts: Command, j: nat, end: nat, x: nat)
    requires j < end < x < |ts| && ListStart(ts, x) > j && forall k | j <= k < end :: !ts[k].Separator?
    ensures end < ListStart(ts, x)
  {
    assert ts[ListStart(ts, x) - 1].Separator?;
  }

  // In every such execution the deselecting run implies that the node was run and exited with 1.
  lemma ProvenNodeIsRed(ts: Command, c: nat, e: Execution)
    requires Accepts(ts, c) && ProvesNode(ts, c) && Allowed(ts, c, e)
    ensures NodeIsRed(ts, c, e)
  {
    hide *;
    GuardPlaces(ts, c);
    if e.Executes(ts, FirstDeselect(ts)) {
      SavedStatus(ts, c, e);
      ComparisonPassed(ts, c, e);
    }
    RedOrNot(ts, c, e);
  }

  lemma RedOrNot(ts: Command, c: nat, e: Execution)
    requires Accepts(ts, c) && Invocation(ts, c) < |ts|
    requires e.Executes(ts, FirstDeselect(ts)) ==> e.Executes(ts, Invocation(ts, c)) && e.exits(Invocation(ts, c)) == 1
    ensures NodeIsRed(ts, c, e)
  {}

  // At the comparison the variable holds 1 only if the node was run and exited with 1.
  lemma SavedStatus(ts: Command, c: nat, e: Execution)
    requires Accepts(ts, c) && ProvesNode(ts, c) && Allowed(ts, c, e) && c < |ts| && ts[c].Compare?
    ensures var r := Invocation(ts, c);
            r < |ts| && (IsOne(e.At(ts, c), ts[c].name) ==> e.Executes(ts, r) && e.exits(r) == 1)
  {
    hide ShellAt, PlaceAt, ListStart, Accepts, Saving, Invocation, ElementEnd, Executed, RunsNodes, SavesAndCompares,
      AssignsWhereSaved, Alone, Overwrites, Dropped, Foreground;
    GuardPlaces(ts, c);
    StatusCarried(ts, c, e);
    var end := Saved(ts, c, e);
    NoneAhead(ts, c);
    SavedStays(ts, c, e, end, c);
  }

  lemma NoneAhead(ts: Command, c: nat)
    requires c <= |ts|
    ensures Foreground(ts, c, c)
  {}

  // The deselecting run implies that the comparison found a 1.
  lemma ComparisonPassed(ts: Command, c: nat, e: Execution)
    requires Accepts(ts, c) && ProvesNode(ts, c) && Allowed(ts, c, e) && c < |ts| && ts[c].Compare?
    requires e.Executes(ts, FirstDeselect(ts))
    ensures IsOne(e.At(ts, c), ts[c].name)
  {
    hide ShellAt, PlaceAt, ListStart, Accepts, Saving, Invocation, Executed, RunsNodes, SavesAndCompares,
      AssignsWhereSaved, Alone, Overwrites, Dropped;
    GuardHoldsIff(ts, c);
    assert GuardHolds(ts, e.sh, e.init, c, FirstDeselect(ts));
    CompareLeaves(ts, c, e, e.At(ts, c));
  }
}
