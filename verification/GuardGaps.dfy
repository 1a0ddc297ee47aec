// The converse of GuardProofs: wherever an accepted guard comparison does not prove its node, there is an execution in
// which the deselecting run happens although the node would pass.

module GuardGaps {
  import opened ShellGuards
  import opened ShellLists
  import opened GuardProofs

  // ---- A scripted execution: the elements that start in [lo, hi) fail, the others succeed ----

  ghost function Act(ts: Command, c: nat, lo: nat, hi: nat, mark: bool, p: nat, s: Shell): Shell
    requires Accepts(ts, c)
  {
    GuardPlaces(ts, c);
    var j, name := Saving(ts, c), ts[c].name;
    if Alone(ts, j) && p == PlaceAt(ts, j).start then Shell(0, s.vars[name := s.status])
    else if Alone(ts, c) && p == PlaceAt(ts, c).start then Shell(if IsOne(s, name) then 0 else 1, s.vars)
    else Shell(if lo <= p < hi then 1 else 0,
               if mark && j < p <= |ts| && Saves(ts, p, name) then s.vars[name := 1] else s.vars)
  }

  ghost function ExitOf(ts: Command, lo: nat, hi: nat, q: nat): int {
    if q < |ts| && Inverted(ts, q) then if lo <= PlaceAt(ts, q).start < hi then 0 else 1
    else if q < |ts| && Alone(ts, q) && lo <= PlaceAt(ts, q).start < hi then 1
    else 0
  }

  ghost function Script(ts: Command, c: nat, lo: nat, hi: nat, mark: bool, init: Shell): Execution
    requires Accepts(ts, c)
  {
    Execution((p: nat, s: Shell) => Act(ts, c, lo, hi, mark, p, s), (q: nat) => ExitOf(ts, lo, hi, q), init)
  }

  // Where the tokens of an accepted comparison are.
  ghost predicate Placed(ts: Command, c: nat) {
    && Accepts(ts, c) && Saving(ts, c) < c < |ts| && ts[c].Compare? && ts[Saving(ts, c)] == SaveStatus(ts[c].name)
  }

  // Neither the save's own element nor the comparison's.
  ghost predicate Plain(ts: Command, c: nat, p: nat)
    requires Placed(ts, c)
  {
    && (Alone(ts, Saving(ts, c)) ==> p != PlaceAt(ts, Saving(ts, c)).start)
    && (Alone(ts, c) ==> p != PlaceAt(ts, c).start)
  }

  // An element that holds only the token at a holds no other.
  lemma OnlyToken(ts: Command, a: nat, b: nat)
    requires a < |ts| && b < |ts| && Alone(ts, a) && PlaceAt(ts, a).start == PlaceAt(ts, b).start
    requires !ts[b].Separator?
    ensures a == b || ts[b] == Space
  {
    OneElement(ts, a);
    OneElement(ts, b);
  }

  lemma NodeRunsSaveNothing(ts: Command, q: nat, name: string)
    requires q < |ts| && ts[q].RunNode? && (Alone(ts, q) || Inverted(ts, q))
    ensures !Saves(ts, PlaceAt(ts, q).start, name)
  {
    OneElement(ts, q);
    if Inverted(ts, q) { var b :| InvertedBy(ts, b, q); }
  }

  lemma InvertedIsNotAlone(ts: Command, q: nat)
    requires q < |ts|
    ensures !(Alone(ts, q) && Inverted(ts, q))
  {
    forall b | InvertedBy(ts, b, q) ensures !Alone(ts, q) {}
  }

  // A node run in an element of its own, or behind "!", is neither the save's element nor the comparison's.
  lemma NodeIsPlain(ts: Command, c: nat, q: nat)
    requires Placed(ts, c) && q < |ts| && ts[q].RunNode? && (Alone(ts, q) || Inverted(ts, q))
    ensures Plain(ts, c, PlaceAt(ts, q).start) && !Saves(ts, PlaceAt(ts, q).start, ts[c].name)
  {
    hide Accepts, Saving, PlaceAt, Alone, Inverted, Saves;
    var j := Saving(ts, c);
    NodeRunsSaveNothing(ts, q, ts[c].name);
    if Alone(ts, j) && PlaceAt(ts, q).start == PlaceAt(ts, j).start { OnlyToken(ts, j, q); }
    if Alone(ts, c) && PlaceAt(ts, q).start == PlaceAt(ts, c).start { OnlyToken(ts, c, q); }
  }

  lemma NodeActs(ts: Command, c: nat, lo: nat, hi: nat, mark: bool, init: Shell, q: nat, s: Shell)
    requires Placed(ts, c) && q < |ts| && ts[q].RunNode?
    ensures var e := Script(ts, c, lo, hi, mark, init);
            var after := e.sh(PlaceAt(ts, q).start, s);
            && (Alone(ts, q) ==> after == Shell(e.exits(q), s.vars))
            && (Inverted(ts, q) ==> after == Shell(if e.exits(q) == 0 then 1 else 0, s.vars))
  {
    hide Accepts, Saving, PlaceAt, Alone, Inverted, Saves, Plain, Act, Placed;
    if Alone(ts, q) || Inverted(ts, q) {
      InvertedIsNotAlone(ts, q);
      NodeIsPlain(ts, c, q);
      ActPlain(ts, c, lo, hi, mark, PlaceAt(ts, q).start, s);
    }
  }

  lemma ScriptRunsNodes(ts: Command, c: nat, lo: nat, hi: nat, mark: bool, init: Shell)
    requires Placed(ts, c)
    ensures RunsNodes(ts, Script(ts, c, lo, hi, mark, init))
  {
    hide Accepts, Saving, PlaceAt, Alone, Inverted, Script;
    var e := Script(ts, c, lo, hi, mark, init);
    forall q, s: Shell | 0 <= q < |ts| && ts[q].RunNode?
      ensures var after := e.sh(PlaceAt(ts, q).start, s);
              && (Alone(ts, q) ==> after == Shell(e.exits(q), s.vars))
              && (Inverted(ts, q) ==> after == Shell(if e.exits(q) == 0 then 1 else 0, s.vars))
    {
      NodeActs(ts, c, lo, hi, mark, init, q, s);
    }
  }

  lemma ScriptSaves(ts: Command, c: nat, lo: nat, hi: nat, mark: bool, init: Shell)
    requires Placed(ts, c)
    ensures SavesAndCompares(ts, c, Script(ts, c, lo, hi, mark, init))
  {
    hide Accepts, Saving, PlaceAt, Alone, Act, IsOne;
    forall s: Shell ensures SavesAndComparesIn(ts, c, Script(ts, c, lo, hi, mark, init), s) {
      ActSave(ts, c, lo, hi, mark, s);
      ActCompare(ts, c, lo, hi, mark, s);
    }
  }

  lemma ScriptAssigns(ts: Command, c: nat, lo: nat, hi: nat, mark: bool, init: Shell)
    requires Placed(ts, c)
    ensures AssignsWhereSaved(ts, ts[c].name, Script(ts, c, lo, hi, mark, init))
  {
    hide Accepts, Saving, PlaceAt, Alone, Act, Saves;
    forall p, s: Shell | 0 <= p <= |ts| && !Saves(ts, p, ts[c].name)
      ensures SameVariable(Act(ts, c, lo, hi, mark, p, s), s, ts[c].name)
    {
      ActAssigns(ts, c, lo, hi, mark, p, s);
    }
  }

  lemma ActAssigns(ts: Command, c: nat, lo: nat, hi: nat, mark: bool, p: nat, s: Shell)
    requires Placed(ts, c) && p <= |ts| && !Saves(ts, p, ts[c].name)
    ensures Act(ts, c, lo, hi, mark, p, s).vars == s.vars
  {
    hide Accepts, Saving, PlaceAt, Alone, Saves;
    SaveIsSaved(ts, Saving(ts, c), ts[c].name);
  }

  lemma SaveIsSaved(ts: Command, j: nat, name: string)
    requires j < |ts| && ts[j] == SaveStatus(name)
    ensures Saves(ts, PlaceAt(ts, j).start, name)
  {
    OneElement(ts, j);
    assert ElementEnd(ts, j) > j;
  }

  lemma ScriptIsAllowed(ts: Command, c: nat, lo: nat, hi: nat, mark: bool, init: Shell)
    requires Placed(ts, c)
    ensures Allowed(ts, c, Script(ts, c, lo, hi, mark, init))
  {
    hide Accepts, Saving, RunsNodes, SavesAndCompares, AssignsWhereSaved, Script;
    ScriptRunsNodes(ts, c, lo, hi, mark, init);
    ScriptSaves(ts, c, lo, hi, mark, init);
    ScriptAssigns(ts, c, lo, hi, mark, init);
  }

  // ---- What the script does element by element ----

  lemma ActPlain(ts: Command, c: nat, lo: nat, hi: nat, mark: bool, p: nat, s: Shell)
    requires Placed(ts, c) && Plain(ts, c, p)
    ensures var after := Act(ts, c, lo, hi, mark, p, s);
            && after.status == (if lo <= p < hi then 1 else 0)
            && (IsOne(s, ts[c].name) ==> IsOne(after, ts[c].name))
            && (if mark && Saving(ts, c) < p <= |ts| && Saves(ts, p, ts[c].name) then IsOne(after, ts[c].name)
                else after.vars == s.vars)
  {}

  lemma ActSave(ts: Command, c: nat, lo: nat, hi: nat, mark: bool, s: Shell)
    requires Placed(ts, c)
    ensures var j := Saving(ts, c);
            Alone(ts, j) ==>
              Act(ts, c, lo, hi, mark, PlaceAt(ts, j).start, s) == Shell(0, s.vars[ts[c].name := s.status])
  {}

  lemma ActCompare(ts: Command, c: nat, lo: nat, hi: nat, mark: bool, s: Shell)
    requires Placed(ts, c)
    ensures Alone(ts, c) ==> Act(ts, c, lo, hi, mark, PlaceAt(ts, c).start, s)
                             == Shell(if IsOne(s, ts[c].name) then 0 else 1, s.vars)
  {
    hide Accepts, Saving, PlaceAt, Alone;
    var j := Saving(ts, c);
    if Alone(ts, j) && PlaceAt(ts, c).start == PlaceAt(ts, j).start { OnlyToken(ts, j, c); }
  }

  // Elements that end before the save's, between the save's and the comparison's, or behind it are plain; y is a
  // separator that keeps them apart.
  lemma PlainElement(ts: Command, c: nat, x: nat, y: nat)
    requires Placed(ts, c) && x < |ts| && ts[x].Separator?
    requires x < Saving(ts, c) || (Saving(ts, c) < y < x < c && ts[y].Separator?) || (c < y < x && ts[y].Separator?)
    ensures Plain(ts, c, PlaceAt(ts, x).start)
  {
    hide Accepts, Saving, PlaceAt, Alone;
    var j := Saving(ts, c);
    if x < j {
      StartsAfter(ts, x, j);
      StartsAfter(ts, x, c);
    } else {
      StartsAfter(ts, y, x);
      if x < c { StartsAfter(ts, x, c); }
    }
  }

  // Behind the comparison every element succeeds.
  lemma BehindSucceeds(ts: Command, c: nat, lo: nat, hi: nat, mark: bool, x: nat, y: nat, s: Shell)
    requires Placed(ts, c) && hi <= c < y < x < |ts| && ts[y].Separator? && ts[x].Separator?
    ensures Act(ts, c, lo, hi, mark, PlaceAt(ts, x).start, s).status == 0
  {
    hide Accepts, Saving, PlaceAt, Alone, Act, Placed, Plain;
    PlainElement(ts, c, x, y);
    StartsAfter(ts, y, x);
    ActPlain(ts, c, lo, hi, mark, PlaceAt(ts, x).start, s);
  }

  // What the element of the comparison leaves, skipped or not.
  ghost function AfterIt(ts: Command, c: nat, e: Execution): Shell
    requires c <= |ts|
  {
    if e.Executes(ts, c) then e.sh(PlaceAt(ts, c).start, e.At(ts, c)) else e.At(ts, c)
  }

  // The deselecting run happens once the comparison's element leaves status 0.
  lemma Deselects(ts: Command, c: nat, lo: nat, hi: nat, mark: bool, init: Shell)
    requires Placed(ts, c) && hi <= c && AfterIt(ts, c, Script(ts, c, lo, hi, mark, init)).status == 0
    ensures Script(ts, c, lo, hi, mark, init).Executes(ts, FirstDeselect(ts))
  {
    hide Accepts, Saving, PlaceAt, Alone, ShellAt, Act, FirstDeselect, EndsElement;
    var e, first := Script(ts, c, lo, hi, mark, init), FirstDeselect(ts);
    var i := AfterComparison(ts, e.sh, e.init, c);
    PlaceIsBehindSeparator(ts, i);
    forall x | i <= x < first && EndsElement(ts, x)
      ensures e.sh(PlaceAt(ts, x).start, e.At(ts, x)).status == 0
    {
      EndIsSeparator(ts, x);
      BehindSucceeds(ts, c, lo, hi, mark, x, i - 1, e.At(ts, x));
    }
    ZeroKept(ts, e.sh, e.init, i, first);
    PlaceThroughAnd(ts, i, first);
  }

  lemma EndIsSeparator(ts: Command, x: nat)
    requires EndsElement(ts, x)
    ensures x < |ts| && ts[x].Separator?
  {}

  lemma PlaceIsBehindSeparator(ts: Command, i: nat)
    requires 0 < i <= |ts| && PlaceAt(ts, i).start == i
    ensures ts[i - 1].Separator?
  {}

  // ---- Up to the save everything fails, and what fails is saved ----

  // The script that starts with the variable at 1 and lets everything fail up to the invocation's element, and that
  // element too unless it is the invocation alone. Where masked text interrupts, everything fails up to the save, but for
  // an invocation that stands alone and what precedes it.
  ghost function Failing(ts: Command, c: nat): Execution
    requires Placed(ts, c)
  {
    Script(ts, c, FailingFrom(ts, c), FailingUpTo(ts, c), false, Shell(1, map[ts[c].name := 1]))
  }

  ghost function FailingFrom(ts: Command, c: nat): nat
    requires Placed(ts, c)
  {
    GuardPlaces(ts, c);
    var r := Invocation(ts, c);
    if Interrupted(ts, r, Saving(ts, c)) && Alone(ts, r) then r + 1 else 0
  }

  ghost function FailingUpTo(ts: Command, c: nat): (hi: nat)
    requires Placed(ts, c)
    ensures hi <= Saving(ts, c)
  {
    GuardPlaces(ts, c);
    var r := Invocation(ts, c);
    if Interrupted(ts, r, Saving(ts, c)) then PlaceAt(ts, Saving(ts, c)).start
    else PlaceAt(ts, r).start + if Alone(ts, r) then 0 else 1
  }

  lemma FailingStops(ts: Command, c: nat)
    requires Placed(ts, c)
    ensures FailingUpTo(ts, c) <= PlaceAt(ts, Saving(ts, c)).start
    ensures Invocation(ts, c) + 1 < PlaceAt(ts, Saving(ts, c)).start
  {
    GuardPlaces(ts, c);
    hide Accepts, Saving, Invocation, Alone;
    StartsAfter(ts, Invocation(ts, c) + 1, Saving(ts, c));
  }

  lemma PlacesAreKnown(ts: Command, c: nat)
    requires Accepts(ts, c)
    ensures Placed(ts, c)
  {
    GuardPlaces(ts, c);
  }

  // Before the invocation's element the status is 1, or a list begins.
  lemma {:induction false} FailsUpTo(ts: Command, c: nat, r: nat, i: nat)
    requires Placed(ts, c) && i <= r < Saving(ts, c) && FailingUpTo(ts, c) >= PlaceAt(ts, r).start
    requires FailingFrom(ts, c) == 0
    ensures Failing(ts, c).At(ts, i).status == 1 || PlaceAt(ts, i).op == Background
    decreases i
  {
    if i > 0 {
      hide Accepts, Saving, Act, Placed, Plain, FailingUpTo, FailingFrom, ShellAt, PlaceAt, ListStart;
      var e, x := Failing(ts, c), i - 1;
      FailsUpTo(ts, c, r, x);
      if EndsElement(ts, x) {
        ElementStep(ts, e.sh, e.init, x);
        PlainElement(ts, c, x, x);
        StartsAfter(ts, x, r);
        ActPlain(ts, c, FailingFrom(ts, c), FailingUpTo(ts, c), false, PlaceAt(ts, x).start, e.At(ts, x));
      } else {
        TokenStep(ts, e.sh, e.init, x);
      }
    }
  }

  // Up to the save the variable stays 1.
  lemma OneUpTo(ts: Command, c: nat, i: nat)
    requires Placed(ts, c) && i <= Saving(ts, c)
    ensures IsOne(Failing(ts, c).At(ts, i), ts[c].name)
  {
    hide Accepts, Saving, Act, Plain, FailingUpTo, PlaceAt, ListStart, EndsElement, ShellAt;
    var e, name := Failing(ts, c), ts[c].name;
    forall x | 0 <= x < i && EndsElement(ts, x) && IsOne(e.At(ts, x), name)
      ensures IsOne(e.sh(PlaceAt(ts, x).start, e.At(ts, x)), name)
    {
      EndIsSeparator(ts, x);
      PlainElement(ts, c, x, x);
      ActPlain(ts, c, FailingFrom(ts, c), FailingUpTo(ts, c), false, PlaceAt(ts, x).start, e.At(ts, x));
    }
    BeginsAt(ts, e);
    OneKept(ts, e.sh, e.init, name, 0, i);
  }

  lemma BeginsAt(ts: Command, e: Execution)
    ensures e.At(ts, 0) == e.init
  {}

  // Unless the invocation stands alone in an element not opened by "&&" and right before the save, a failure is what gets
  // saved.
  lemma FailureIsSaved(ts: Command, c: nat)
    requires Placed(ts, c) && Invocation(ts, c) < |ts| && Alone(ts, Saving(ts, c))
    requires !Alone(ts, Invocation(ts, c)) || PlaceAt(ts, Invocation(ts, c)).op == And
             || Interrupted(ts, Invocation(ts, c), Saving(ts, c))
    ensures Failing(ts, c).At(ts, Saving(ts, c)).status == 1
  {
    GuardPlaces(ts, c);
    var e, r := Failing(ts, c), Invocation(ts, c);
    if Interrupted(ts, r, Saving(ts, c)) {
      hide *;
      InterruptionSaved(ts, c);
    } else {
      InvocationFails(ts, c, r, e.At(ts, r));
      hide Accepts, Saving, Invocation, Act, FailingUpTo, ShellAt, PlaceAt, Alone, Placed, Script;
      AtSave(ts, c, e);
      FailsUpTo(ts, c, r, r);
    }
  }

  lemma InvocationFails(ts: Command, c: nat, r: nat, s: Shell)
    requires Placed(ts, c) && r == Invocation(ts, c) < |ts| && !Interrupted(ts, r, Saving(ts, c))
    ensures FailingUpTo(ts, c) >= PlaceAt(ts, r).start && FailingFrom(ts, c) == 0
    ensures Alone(ts, r) || Failing(ts, c).sh(PlaceAt(ts, r).start, s).status == 1
  {
    GuardPlaces(ts, c);
    assert FailingUpTo(ts, c) == PlaceAt(ts, r).start + if Alone(ts, r) then 0 else 1;
    hide Accepts, Saving, Invocation, Act, Plain, FailingUpTo, PlaceAt, Alone, Interrupted;
    SameStart(ts, r, r + 1);
    PlainElement(ts, c, r + 1, r + 1);
    ActPlain(ts, c, FailingFrom(ts, c), FailingUpTo(ts, c), false, PlaceAt(ts, r).start, s);
  }

  // Where the interruption lies, and which elements the script lets fail.
  ghost predicate InterruptedAt(ts: Command, c: nat, k: nat) {
    && Placed(ts, c)
    && var r, j := Invocation(ts, c), Saving(ts, c);
       && r + 1 < k < j && ts[k] == Masked && ts[r + 1] == Separator(Semicolon)
       && (forall x | r + 2 <= x < j :: IsWhite(ts[x]))
       && FailingFrom(ts, c) <= r + 1 && FailingUpTo(ts, c) == PlaceAt(ts, j).start
  }

  lemma InterruptionPlaces(ts: Command, c: nat) returns (k: nat)
    requires Placed(ts, c) && Interrupted(ts, Invocation(ts, c), Saving(ts, c))
    ensures InterruptedAt(ts, c, k)
  {
    GuardPlaces(ts, c);
    k :| Invocation(ts, c) < k < Saving(ts, c) && ts[k] == Masked;
  }

  // Behind the element of the masked text at k, up to the save's, the status is 1.
  ghost predicate FailsBehind(ts: Command, c: nat, k: nat, i: nat)
    requires Placed(ts, c) && i <= |ts|
  {
    BeginsList(PlaceAt(ts, i).op) && (PlaceAt(ts, i).start <= k || Failing(ts, c).At(ts, i).status == 1)
  }

  lemma {:induction false} InterruptionFails(ts: Command, c: nat, k: nat, i: nat)
    requires InterruptedAt(ts, c, k) && k <= i <= Saving(ts, c)
    ensures FailsBehind(ts, c, k, i)
    decreases i
  {
    hide Accepts, Saving, Invocation, Failing, FailingFrom, FailingUpTo, PlaceAt, Script, FailsBehind;
    if k < i {
      InterruptionFails(ts, c, k, i - 1);
      InterruptionStep(ts, c, k, i - 1);
    } else {
      BeginsBehind(ts, Invocation(ts, c) + 1, k);
      FailsNoneYet(ts, c, k);
    }
  }

  lemma FailsNoneYet(ts: Command, c: nat, k: nat)
    requires Placed(ts, c) && k <= |ts| && BeginsList(PlaceAt(ts, k).op)
    ensures FailsBehind(ts, c, k, k)
  {}

  lemma InterruptionSaved(ts: Command, c: nat)
    requires Placed(ts, c) && Alone(ts, Saving(ts, c)) && Interrupted(ts, Invocation(ts, c), Saving(ts, c))
    ensures Failing(ts, c).At(ts, Saving(ts, c)).status == 1
  {
    var k := InterruptionPlaces(ts, c);
    hide Accepts, Saving, Invocation, Failing, FailingFrom, FailingUpTo, ShellAt, PlaceAt, Placed, Interrupted, Script;
    InterruptionFails(ts, c, k, Saving(ts, c));
    OneElement(ts, Saving(ts, c));
  }

  lemma BeginsBehind(ts: Command, sep: nat, i: nat)
    requires sep < i <= |ts| && ts[sep] == Separator(Semicolon) && forall x | sep < x < i :: IsWhite(ts[x])
    ensures BeginsList(PlaceAt(ts, i).op)
  {
    assert PlaceAt(ts, sep + 1).op == Semicolon;
    WhiteBegins(ts, sep + 1, i);
  }

  lemma InterruptionStep(ts: Command, c: nat, k: nat, x: nat)
    requires InterruptedAt(ts, c, k) && k <= x < Saving(ts, c) && FailsBehind(ts, c, k, x)
    ensures FailsBehind(ts, c, k, x + 1)
  {
    if ts[x].Separator? && !EndsElement(ts, x) { BlankIsBehind(ts, k, x); }
    hide Accepts, Saving, Invocation, Act, Placed, Failing, FailingFrom, FailingUpTo, ShellAt, PlaceAt, EndsElement,
      Script, Plain;
    var e := Failing(ts, c);
    if EndsElement(ts, x) {
      EndIsSeparator(ts, x);
      ElementStep(ts, e.sh, e.init, x);
      InterruptionActs(ts, c, k, x, e.At(ts, x));
    } else {
      TokenStep(ts, e.sh, e.init, x);
    }
  }

  lemma InterruptionActs(ts: Command, c: nat, k: nat, x: nat, s: Shell)
    requires InterruptedAt(ts, c, k) && k <= x < Saving(ts, c) && ts[x].Separator?
    ensures Failing(ts, c).sh(PlaceAt(ts, x).start, s).status == 1
  {
    hide Accepts, Saving, Invocation, Act, FailingFrom, FailingUpTo, PlaceAt, Plain;
    PlainElement(ts, c, x, x);
    StartsAfter(ts, x, Saving(ts, c));
    StartsAfter(ts, Invocation(ts, c) + 1, x);
    ActPlain(ts, c, FailingFrom(ts, c), FailingUpTo(ts, c), false, PlaceAt(ts, x).start, s);
  }

  // A blank line lies behind the line of the masked text.
  lemma BlankIsBehind(ts: Command, k: nat, x: nat)
    requires k <= x < |ts| && ts[k] == Masked && ts[x].Separator? && !EndsElement(ts, x)
    ensures PlaceAt(ts, x).start > k
  {}

  // The invocation's node passes.
  lemma NodePasses(ts: Command, c: nat)
    requires Placed(ts, c)
    ensures Failing(ts, c).exits(Invocation(ts, c)) == 0
  {
    GuardPlaces(ts, c);
    FailingStops(ts, c);
    OneElement(ts, Invocation(ts, c));
    hide Accepts, Saving, Invocation, Act, PlaceAt, Alone, Inverted, Interrupted, ElementEnd;
    InvertedIsNotAlone(ts, Invocation(ts, c));
  }

  // ---- Behind the save everything succeeds ----

  // Behind the separator at y, between the save and the comparison, an element succeeds and keeps a 1.
  lemma LaterSucceeds(ts: Command, c: nat, x: nat, y: nat, s: Shell)
    requires Placed(ts, c) && Saving(ts, c) < y < x < c && ts[y].Separator? && ts[x].Separator?
    ensures var after := Failing(ts, c).sh(PlaceAt(ts, x).start, s);
            after.status == 0 && (IsOne(s, ts[c].name) ==> IsOne(after, ts[c].name))
  {
    hide Accepts, Saving, Act, Plain, PlaceAt, FailingUpTo;
    PlainElement(ts, c, x, y);
    StartsAfter(ts, y, x);
    ActPlain(ts, c, FailingFrom(ts, c), FailingUpTo(ts, c), false, PlaceAt(ts, x).start, s);
  }

  // What the save's element leaves, when it ends before the comparison.
  lemma BehindSaveElement(ts: Command, c: nat, end: nat)
    requires Placed(ts, c) && end == ElementEnd(ts, Saving(ts, c)) < c
    ensures EndsElement(ts, end) && Failing(ts, c).At(ts, end + 1).status == 0
    ensures ts[end] == Separator(Background) ==> ListStart(ts, end) <= Saving(ts, c)
    ensures ts[end] != Separator(Background) ==>
              var s := Failing(ts, c).At(ts, Saving(ts, c));
              if Alone(ts, Saving(ts, c)) then Failing(ts, c).At(ts, end + 1) == Shell(0, s.vars[ts[c].name := s.status])
              else IsOne(s, ts[c].name) ==> IsOne(Failing(ts, c).At(ts, end + 1), ts[c].name)
  {
    var e, j := Failing(ts, c), Saving(ts, c);
    AtSave(ts, c, e);
    hide Accepts, Saving, Invocation, Act, FailingUpTo, ShellAt, PlaceAt, Alone, ListStart;
    SameElement(ts, e.sh, e.init, j, end);
    ListHolds(ts, j, end);
    assert EndsElement(ts, end) by { assert ts[j] != Space && PlaceAt(ts, end).start <= j < end; }
    ElementStep(ts, e.sh, e.init, end);
    SaveActs(ts, c, end, e.At(ts, j));
  }

  lemma SaveActs(ts: Command, c: nat, end: nat, s: Shell)
    requires Placed(ts, c) && end == ElementEnd(ts, Saving(ts, c)) < c
    ensures var after := Failing(ts, c).sh(PlaceAt(ts, Saving(ts, c)).start, s);
            && after.status == 0
            && if Alone(ts, Saving(ts, c)) then after == Shell(0, s.vars[ts[c].name := s.status])
               else IsOne(s, ts[c].name) ==> IsOne(after, ts[c].name)
  {
    GuardPlaces(ts, c);
    var j := Saving(ts, c);
    FailingStops(ts, c);
    hide Accepts, Saving, Invocation, Act, FailingUpTo, FailingFrom, PlaceAt, Alone;
    StartsAfter(ts, end, c);
    ActSave(ts, c, FailingFrom(ts, c), FailingUpTo(ts, c), false, s);
    if !Alone(ts, j) { ActPlain(ts, c, FailingFrom(ts, c), FailingUpTo(ts, c), false, PlaceAt(ts, j).start, s); }
  }

  // So the comparison is reached with status 0.
  lemma ReachedWithZero(ts: Command, c: nat, end: nat)
    requires Placed(ts, c) && end == ElementEnd(ts, Saving(ts, c)) < c
    ensures Failing(ts, c).At(ts, c).status == 0
  {
    hide Accepts, Saving, Act, PlaceAt, ListStart, ShellAt, EndsElement, Alone, Script;
    var e := Failing(ts, c);
    BehindSaveElement(ts, c, end);
    EndIsSeparator(ts, end);
    ElementIsBehind(ts, c, end);
    forall x | end + 1 <= x < c && EndsElement(ts, x) && e.At(ts, x).status == 0
      ensures e.sh(PlaceAt(ts, x).start, e.At(ts, x)).status == 0
    {
      EndIsSeparator(ts, x);
      LaterSucceeds(ts, c, x, end, e.At(ts, x));
    }
    ZeroKept(ts, e.sh, e.init, end + 1, c);
  }

  lemma ElementIsBehind(ts: Command, c: nat, end: nat)
    requires Placed(ts, c) && end == ElementEnd(ts, Saving(ts, c))
    ensures Saving(ts, c) < end
  {}

  // A 1 behind the separator at y, in lists that begin behind it, is still there at the comparison.
  lemma OneReaches(ts: Command, c: nat, y: nat)
    requires Placed(ts, c) && Saving(ts, c) < y < c && ts[y].Separator? && IsOne(Failing(ts, c).At(ts, y + 1), ts[c].name)
    requires forall x | y < x < c && ts[x] == Separator(Background) :: y < ListStart(ts, x)
    ensures IsOne(Failing(ts, c).At(ts, c), ts[c].name)
  {
    hide Accepts, Saving, Act, PlaceAt, ListStart, ShellAt, EndsElement, Script;
    var e := Failing(ts, c);
    forall x | y + 1 <= x < c && EndsElement(ts, x) && IsOne(e.At(ts, x), ts[c].name)
      ensures IsOne(e.sh(PlaceAt(ts, x).start, e.At(ts, x)), ts[c].name)
    {
      EndIsSeparator(ts, x);
      LaterSucceeds(ts, c, x, y, e.At(ts, x));
    }
    OneKept(ts, e.sh, e.init, ts[c].name, y + 1, c);
  }

  lemma ListsBehind(ts: Command, m: nat, c: nat)
    requires m < c <= |ts| && ts[m] == Separator(Background)
    ensures forall x | m < x < c && ts[x] == Separator(Background) :: m < ListStart(ts, x)
  {
    forall x | m < x < c ensures m < ListStart(ts, x) {
      assert ListStart(ts, m + 1) == m + 1;
      ListsGrow(ts, m + 1, x);
    }
  }

  // Where "&" drops the save's list, the variable is back at 1.
  lemma OneWhenDropped(ts: Command, c: nat, m: nat)
    requires Placed(ts, c) && DroppedAt(ts, Saving(ts, c), m, c)
    ensures IsOne(Failing(ts, c).At(ts, c), ts[c].name)
  {
    hide Accepts, Saving, Act, PlaceAt, ListStart, ShellAt, Script;
    var e := Failing(ts, c);
    OneUpTo(ts, c, ListStart(ts, m));
    ElementStep(ts, e.sh, e.init, m);
    ListsBehind(ts, m, c);
    OneReaches(ts, c, m);
  }

  // Where it stays, the failure it saves is a 1, or it saves nothing.
  lemma OneWhenKept(ts: Command, c: nat, end: nat)
    requires Placed(ts, c) && Invocation(ts, c) < |ts| && end == ElementEnd(ts, Saving(ts, c)) < c
    requires !Dropped(ts, Saving(ts, c), c)
    requires !Alone(ts, Invocation(ts, c)) || PlaceAt(ts, Invocation(ts, c)).op == And || !Alone(ts, Saving(ts, c))
             || Interrupted(ts, Invocation(ts, c), Saving(ts, c))
    ensures IsOne(Failing(ts, c).At(ts, c), ts[c].name)
  {
    hide Accepts, Saving, Invocation, Act, PlaceAt, ListStart, ShellAt, Script, Alone, EndsElement;
    var j := Saving(ts, c);
    ElementIsBehind(ts, c, end);
    BehindSaveElement(ts, c, end);
    EndIsSeparator(ts, end);
    assert !DroppedAt(ts, j, end, c);
    OneUpTo(ts, c, j);
    if Alone(ts, j) { FailureIsSaved(ts, c); }
    forall x | end < x < c && ts[x] == Separator(Background) ensures end < ListStart(ts, x) {
      assert !DroppedAt(ts, j, x, c);
      ListAfter(ts, j, end, x);
    }
    OneReaches(ts, c, end);
  }

  // What makes the failing script reach the deselecting run.
  ghost predicate FailingFits(ts: Command, c: nat)
    requires Placed(ts, c) && Invocation(ts, c) < |ts|
  {
    || PlaceAt(ts, c).op == Or || !Alone(ts, c)
    || !Alone(ts, Invocation(ts, c)) || PlaceAt(ts, Invocation(ts, c)).op == And
    || Interrupted(ts, Invocation(ts, c), Saving(ts, c))
    || !Alone(ts, Saving(ts, c)) || Dropped(ts, Saving(ts, c), c)
  }

  lemma OneAtComparison(ts: Command, c: nat, end: nat)
    requires Placed(ts, c) && Invocation(ts, c) < |ts| && end == ElementEnd(ts, Saving(ts, c)) < c
    requires FailingFits(ts, c) && PlaceAt(ts, c).op != Or && Alone(ts, c)
    ensures IsOne(Failing(ts, c).At(ts, c), ts[c].name)
  {
    hide Accepts, Saving, Invocation, Failing, PlaceAt, Alone, IsOne;
    if Dropped(ts, Saving(ts, c), c) {
      var m :| DroppedAt(ts, Saving(ts, c), m, c);
      OneWhenDropped(ts, c, m);
    } else {
      OneWhenKept(ts, c, end);
    }
  }

  lemma FailingPasses(ts: Command, c: nat)
    requires Placed(ts, c) && Invocation(ts, c) < |ts| && FailingFits(ts, c)
    ensures AfterIt(ts, c, Failing(ts, c)).status == 0
  {
    var end := ElementEnd(ts, Saving(ts, c));
    if end < c {
      FailingPassesBehind(ts, c, end);
    } else {
      FailingPassesWithin(ts, c, end);
    }
  }

  // The comparison stands in an element of its own.
  lemma FailingPassesBehind(ts: Command, c: nat, end: nat)
    requires Placed(ts, c) && Invocation(ts, c) < |ts| && FailingFits(ts, c)
    requires end == ElementEnd(ts, Saving(ts, c)) < c
    ensures AfterIt(ts, c, Failing(ts, c)).status == 0
  {
    hide Accepts, Saving, Invocation, Act, PlaceAt, ShellAt, Alone, FailingFits, FailingUpTo, IsOne;
    var e := Failing(ts, c);
    ReachedWithZero(ts, c, end);
    ElementIsBehind(ts, c, end);
    StartsAfter(ts, end, c);
    if PlaceAt(ts, c).op != Or {
      if Alone(ts, c) {
        OneAtComparison(ts, c, end);
        ActCompare(ts, c, FailingFrom(ts, c), FailingUpTo(ts, c), false, e.At(ts, c));
      } else {
        ActPlain(ts, c, FailingFrom(ts, c), FailingUpTo(ts, c), false, PlaceAt(ts, c).start, e.At(ts, c));
      }
    }
  }

  // The comparison stands behind the save in one element, where nothing is known of either.
  lemma FailingPassesWithin(ts: Command, c: nat, end: nat)
    requires Placed(ts, c) && Invocation(ts, c) < |ts| && end == ElementEnd(ts, Saving(ts, c)) >= c
    ensures AfterIt(ts, c, Failing(ts, c)).status == 0
  {
    GuardPlaces(ts, c);
    var e, j := Failing(ts, c), Saving(ts, c);
    FailingStops(ts, c);
    AtSave(ts, c, e);
    hide Accepts, Saving, Invocation, Act, PlaceAt, ShellAt, Alone, FailingUpTo, FailingFrom;
    SameElement(ts, e.sh, e.init, j, c);
    if Alone(ts, j) { OnlyToken(ts, j, c); }
    if Alone(ts, c) { OnlyToken(ts, c, j); }
    ActPlain(ts, c, FailingFrom(ts, c), FailingUpTo(ts, c), false, PlaceAt(ts, c).start, e.At(ts, c));
  }

  lemma FailingSlips(ts: Command, c: nat)
    requires Placed(ts, c) && Invocation(ts, c) < |ts| && FailingFits(ts, c)
    ensures Allowed(ts, c, Failing(ts, c)) && Failing(ts, c).Executes(ts, FirstDeselect(ts))
    ensures Failing(ts, c).exits(Invocation(ts, c)) == 0
  {
    hide Accepts, Saving, Invocation, Script, FirstDeselect, FailingFits, FailingUpTo, AfterIt, Allowed;
    FailingPasses(ts, c);
    NodePasses(ts, c);
    ScriptIsAllowed(ts, c, FailingFrom(ts, c), FailingUpTo(ts, c), false, Shell(1, map[ts[c].name := 1]));
    Deselects(ts, c, FailingFrom(ts, c), FailingUpTo(ts, c), false, Shell(1, map[ts[c].name := 1]));
  }

  // ---- A later save: the elements from x0 up to it fail, each opened by "||", and it saves a 1 ----

  // The last element behind the save that "||" does not open, up to the one of k.
  lemma {:induction false} LastNotOr(ts: Command, j: nat, k: nat) returns (m: nat)
    requires k <= |ts| && !OnlyOrs(ts, j, k)
    ensures j < m < k && ts[m].Separator? && PlaceAt(ts, m + 1).op != Or && OnlyOrs(ts, m, k)
    decreases k
  {
    m := k - 1;
    hide PlaceAt;
    if !(j < m && ts[m].Separator? && PlaceAt(ts, m + 1).op != Or) { m := LastNotOr(ts, j, k - 1); }
  }

  // The script that lets the elements from behind m up to the one of k fail.
  ghost function Marking(ts: Command, c: nat, m: nat, k: nat): Execution
    requires Placed(ts, c) && k <= |ts|
  {
    Script(ts, c, m + 1, PlaceAt(ts, k).start, true, Shell(0, map[]))
  }

  // What the proof rests on.
  ghost predicate Marked(ts: Command, c: nat, m: nat, k: nat) {
    && Placed(ts, c) && Overwrites(ts, c, k) && Saving(ts, c) < m < k && ts[m].Separator?
    && PlaceAt(ts, m + 1).op != Or && OnlyOrs(ts, m, k)
  }

  // An element behind the save's and before the comparison's.
  lemma MarkingActs(ts: Command, c: nat, m: nat, k: nat, x: nat, y: nat, s: Shell)
    requires Marked(ts, c, m, k) && Saving(ts, c) < y < x < c && ts[y].Separator? && ts[x].Separator?
    ensures var p := PlaceAt(ts, x).start;
            var after := Marking(ts, c, m, k).sh(p, s);
            && after.status == (if m < p < PlaceAt(ts, k).start then 1 else 0)
            && (IsOne(s, ts[c].name) || Saves(ts, p, ts[c].name) ==> IsOne(after, ts[c].name))
  {
    hide Accepts, Saving, PlaceAt, Alone, Act, Plain, Saves;
    PlainElement(ts, c, x, y);
    StartsAfter(ts, y, x);
    ActPlain(ts, c, m + 1, PlaceAt(ts, k).start, true, PlaceAt(ts, x).start, s);
  }

  lemma MarkedPlaces(ts: Command, c: nat, m: nat, k: nat)
    requires Marked(ts, c, m, k)
    ensures Placed(ts, c) && Saving(ts, c) < m < k < c < |ts| && ts[m].Separator? && PlaceAt(ts, m + 1).op != Or
    ensures ts[k] == SaveStatus(ts[c].name) && PlaceAt(ts, m + 1).start == m + 1
  {
    StartsGrow(ts, m);
  }

  // Up to m every element succeeds.
  lemma EarlySucceeds(ts: Command, c: nat, m: nat, k: nat, x: nat, s: Shell)
    requires Marked(ts, c, m, k) && x <= m && ts[x].Separator?
    ensures Marking(ts, c, m, k).sh(PlaceAt(ts, x).start, s).status == 0
  {
    hide Accepts, Saving, Alone, Act, OnlyOrs, Overwrites, Dropped;
    MarkedPlaces(ts, c, m, k);
    hide PlaceAt;
    StartsAfter(ts, x, c);
    var p, hi := PlaceAt(ts, x).start, PlaceAt(ts, k).start;
    if Alone(ts, Saving(ts, c)) && p == PlaceAt(ts, Saving(ts, c)).start {
      ActSave(ts, c, m + 1, hi, true, s);
    } else {
      ActPlain(ts, c, m + 1, hi, true, p, s);
    }
  }

  lemma MarkingBegins(ts: Command, c: nat, m: nat, k: nat)
    requires Marked(ts, c, m, k)
    ensures m < |ts| && Marking(ts, c, m, k).At(ts, m + 1).status == 0
  {
    hide *;
    MarkedPlaces(ts, c, m, k);
    var e := Marking(ts, c, m, k);
    forall x | 0 <= x < m + 1 && EndsElement(ts, x) && e.At(ts, x).status == 0
      ensures e.sh(PlaceAt(ts, x).start, e.At(ts, x)).status == 0
    {
      EndIsSeparator(ts, x);
      EarlySucceeds(ts, c, m, k, x, e.At(ts, x));
    }
    BeginsAt(ts, e);
    MarkingInit(ts, c, m, k);
    ZeroAlong(ts, e, 0, m + 1);
  }

  lemma ZeroAlong(ts: Command, e: Execution, a: nat, i: nat)
    requires a <= i <= |ts| && e.At(ts, a).status == 0
    requires forall x | a <= x < i && EndsElement(ts, x) && e.At(ts, x).status == 0 ::
               e.sh(PlaceAt(ts, x).start, e.At(ts, x)).status == 0
    ensures e.At(ts, i).status == 0
  {
    hide EndsElement, PlaceAt, ShellAt;
    ZeroKept(ts, e.sh, e.init, a, i);
  }

  lemma MarkingInit(ts: Command, c: nat, m: nat, k: nat)
    requires Placed(ts, c) && k <= |ts|
    ensures Marking(ts, c, m, k).init.status == 0
  {}

  // From behind m up to k: the first element is reached with status 0, those behind "||" with status 1.
  ghost predicate Reached(ts: Command, e: Execution, m: nat, i: nat)
    requires i <= |ts|
  {
    if PlaceAt(ts, i).start == m + 1 then e.At(ts, i).status == 0 && PlaceAt(ts, i).op != Or
    else PlaceAt(ts, i).start > m + 1 && e.At(ts, i).status == 1 && PlaceAt(ts, i).op == Or
  }

  lemma {:induction false} MarkingReaches(ts: Command, c: nat, m: nat, k: nat, i: nat)
    requires Marked(ts, c, m, k) && m < i <= k <= |ts|
    ensures Reached(ts, Marking(ts, c, m, k), m, i)
    decreases i
  {
    hide *;
    MarkedPlaces(ts, c, m, k);
    if m + 1 < i {
      MarkingReaches(ts, c, m, k, i - 1);
      MarkingStep(ts, c, m, k, i - 1);
    } else {
      MarkingBegins(ts, c, m, k);
      FirstReached(ts, Marking(ts, c, m, k), m);
    }
  }

  lemma FirstReached(ts: Command, e: Execution, m: nat)
    requires m < |ts| && e.At(ts, m + 1).status == 0
    requires PlaceAt(ts, m + 1).start == m + 1 && PlaceAt(ts, m + 1).op != Or
    ensures Reached(ts, e, m, m + 1)
  {}

  lemma OrBehind(ts: Command, c: nat, m: nat, k: nat, x: nat)
    requires Marked(ts, c, m, k) && m < x < k <= |ts| && ts[x].Separator?
    ensures PlaceAt(ts, x + 1).op == Or
  {}

  lemma MarkingStep(ts: Command, c: nat, m: nat, k: nat, x: nat)
    requires Marked(ts, c, m, k) && m < x < k <= |ts| && Reached(ts, Marking(ts, c, m, k), m, x)
    ensures Reached(ts, Marking(ts, c, m, k), m, x + 1)
  {
    hide PlaceAt, ShellAt, Marking, Marked, Placed, EndsElement;
    MarkedPlaces(ts, c, m, k);
    var e := Marking(ts, c, m, k);
    if ts[x].Separator? { OrBehind(ts, c, m, k, x); }
    if EndsElement(ts, x) {
      EndIsSeparator(ts, x);
      ElementStep(ts, e.sh, e.init, x);
      StartsAfter(ts, x, k);
      MarkingActs(ts, c, m, k, x, m, e.At(ts, x));
    } else {
      TokenStep(ts, e.sh, e.init, x);
    }
  }

  // The element of k ends before an element that holds only the comparison, in the same shell.
  lemma ForegroundEnd(ts: Command, c: nat, m: nat, k: nat, end: nat)
    requires Marked(ts, c, m, k) && end == ElementEnd(ts, k) < c
    ensures EndsElement(ts, end) && ts[end] != Separator(Background) && k < end
  {
    MarkedPlaces(ts, c, m, k);
    ListHolds(ts, k, end);
    assert !DroppedAt(ts, k, end, c);
    assert ts[k] != Space;
    SameStart(ts, k, end);
  }

  lemma {:induction false} SameStart(ts: Command, i: nat, j: nat)
    requires i <= j <= |ts| && forall k | i <= k < j :: !ts[k].Separator?
    ensures PlaceAt(ts, i) == PlaceAt(ts, j)
    decreases j - i
  {
    if i < j { SameStart(ts, i, j - 1); }
  }

  // It is executed, succeeds and leaves a 1.
  lemma MarkingSaves(ts: Command, c: nat, m: nat, k: nat, end: nat)
    requires Marked(ts, c, m, k) && end == ElementEnd(ts, k) < c < |ts|
    ensures Marking(ts, c, m, k).At(ts, end + 1).status == 0
    ensures IsOne(Marking(ts, c, m, k).At(ts, end + 1), ts[c].name)
  {
    hide *;
    MarkedPlaces(ts, c, m, k);
    var e := Marking(ts, c, m, k);
    MarkingReaches(ts, c, m, k, k);
    SaveIsSaved(ts, k, ts[c].name);
    ForegroundEnd(ts, c, m, k, end);
    EndIsSeparator(ts, end);
    SameStart(ts, k, end);
    MarkingActs(ts, c, m, k, end, m, e.At(ts, end));
    ReachedStep(ts, e, m, k, end);
  }

  lemma ReachedStep(ts: Command, e: Execution, m: nat, k: nat, end: nat)
    requires k <= |ts| && Reached(ts, e, m, k) && end == ElementEnd(ts, k) && EndsElement(ts, end)
    requires ts[end] != Separator(Background)
    ensures e.At(ts, end + 1) == e.sh(PlaceAt(ts, k).start, e.At(ts, end))
  {
    hide PlaceAt, ShellAt;
    SameElement(ts, e.sh, e.init, k, end);
    ElementStep(ts, e.sh, e.init, end);
  }

  lemma LaterListsBehind(ts: Command, c: nat, m: nat, k: nat, end: nat)
    requires Marked(ts, c, m, k) && end == ElementEnd(ts, k) < c < |ts|
    ensures forall x | end < x < c && ts[x] == Separator(Background) :: end < ListStart(ts, x)
  {
    ForegroundEnd(ts, c, m, k, end);
    forall x | end < x < c && ts[x] == Separator(Background) ensures end < ListStart(ts, x) {
      hide ListStart;
      assert !DroppedAt(ts, k, x, c);
      ListAfter(ts, k, end, x);
    }
  }

  // Up to the comparison everything succeeds and the 1 stays.
  lemma MarkingArrives(ts: Command, c: nat, m: nat, k: nat, end: nat)
    requires Marked(ts, c, m, k) && end == ElementEnd(ts, k) < c < |ts|
    ensures Marking(ts, c, m, k).At(ts, c).status == 0 && IsOne(Marking(ts, c, m, k).At(ts, c), ts[c].name)
  {
    hide *;
    MarkedPlaces(ts, c, m, k);
    var e := Marking(ts, c, m, k);
    MarkingSaves(ts, c, m, k, end);
    LaterListsBehind(ts, c, m, k, end);
    forall x | end + 1 <= x < c && EndsElement(ts, x)
      ensures e.sh(PlaceAt(ts, x).start, e.At(ts, x)).status == 0
      ensures IsOne(e.At(ts, x), ts[c].name) ==> IsOne(e.sh(PlaceAt(ts, x).start, e.At(ts, x)), ts[c].name)
    {
      EndIsSeparator(ts, x);
      ForegroundEnd(ts, c, m, k, end);
      EndIsSeparator(ts, end);
      SameStart(ts, k, end);
      OneElement(ts, k);
      StartsAfter(ts, end, x);
      MarkingActs(ts, c, m, k, x, end, e.At(ts, x));
    }
    ZeroAlong(ts, e, end + 1, c);
    OneAlong(ts, e, ts[c].name, end + 1, c);
  }

  lemma OneAlong(ts: Command, e: Execution, name: string, a: nat, i: nat)
    requires a <= i <= |ts| && IsOne(e.At(ts, a), name)
    requires forall x | a <= x < i && EndsElement(ts, x) && IsOne(e.At(ts, x), name) ::
               IsOne(e.sh(PlaceAt(ts, x).start, e.At(ts, x)), name)
    requires forall x | a <= x < i && ts[x] == Separator(Background) :: a <= ListStart(ts, x)
    ensures IsOne(e.At(ts, i), name)
  {
    hide EndsElement, PlaceAt, ShellAt, ListStart, IsOne;
    OneKept(ts, e.sh, e.init, name, a, i);
  }

  // The comparison passes, although the node passed.
  lemma MarkingPasses(ts: Command, c: nat, m: nat, k: nat)
    requires Marked(ts, c, m, k) && PlaceAt(ts, c).op != Or && Alone(ts, c) && c < |ts|
    ensures AfterIt(ts, c, Marking(ts, c, m, k)).status == 0 && PlaceAt(ts, k).start <= c
  {
    MarkedPlaces(ts, c, m, k);
    var end, e := ElementEnd(ts, k), Marking(ts, c, m, k);
    if end >= c {
      hide PlaceAt, Marking;
      SameStart(ts, k, c);
      OneElement(ts, k);
      OneElement(ts, c);
      assert false;
    }
    hide PlaceAt, Act, Alone, Accepts, Saving, Marked, ShellAt, IsOne;
    MarkingArrives(ts, c, m, k, end);
    OneElement(ts, k);
    ActCompare(ts, c, m + 1, PlaceAt(ts, k).start, true, e.At(ts, c));
  }

  lemma MarkedNodePasses(ts: Command, c: nat, m: nat, k: nat)
    requires Marked(ts, c, m, k) && Alone(ts, Invocation(ts, c))
    ensures Marking(ts, c, m, k).exits(Invocation(ts, c)) == 0
  {
    GuardPlaces(ts, c);
    MarkedPlaces(ts, c, m, k);
    hide Accepts, Saving, Invocation, Alone, PlaceAt, Marked, Inverted, Act;
    InvertedIsNotAlone(ts, Invocation(ts, c));
    OneElement(ts, Invocation(ts, c));
  }

  lemma MarkingSlips(ts: Command, c: nat, m: nat, k: nat)
    requires Marked(ts, c, m, k) && PlaceAt(ts, c).op != Or && Alone(ts, c) && Alone(ts, Invocation(ts, c))
    ensures Allowed(ts, c, Marking(ts, c, m, k)) && Marking(ts, c, m, k).Executes(ts, FirstDeselect(ts))
    ensures Marking(ts, c, m, k).exits(Invocation(ts, c)) == 0
  {
    hide *;
    MarkedPlaces(ts, c, m, k);
    MarkedNodePasses(ts, c, m, k);
    MarkingPasses(ts, c, m, k);
    MarkingIsScript(ts, c, m, k);
    ScriptIsAllowed(ts, c, m + 1, PlaceAt(ts, k).start, true, Shell(0, map[]));
    Deselects(ts, c, m + 1, PlaceAt(ts, k).start, true, Shell(0, map[]));
  }

  lemma MarkingIsScript(ts: Command, c: nat, m: nat, k: nat)
    requires Placed(ts, c) && k <= |ts|
    ensures Accepts(ts, c) && Marking(ts, c, m, k) == Script(ts, c, m + 1, PlaceAt(ts, k).start, true, Shell(0, map[]))
  {}

  // ---- Exactly when ----

  // A comparison that does not prove its node lets the deselecting run happen though the node passes.
  lemma GreenNodeSlips(ts: Command, c: nat) returns (e: Execution)
    requires Accepts(ts, c) && !ProvesNode(ts, c)
    ensures Allowed(ts, c, e) && e.Executes(ts, FirstDeselect(ts)) && e.exits(Invocation(ts, c)) == 0
  {
    GuardPlaces(ts, c);
    PlacesAreKnown(ts, c);
    hide Accepts, Saving, Invocation, FirstDeselect, Allowed, Alone, PlaceAt, Dropped, Placed, Script, Failing;
    if FailingFits(ts, c) {
      FailingSlips(ts, c);
      e := Failing(ts, c);
    } else {
      var k :| Overwrites(ts, c, k);
      var m := LastNotOr(ts, Saving(ts, c), k);
      MarkingSlips(ts, c, m, k);
      e := Marking(ts, c, m, k);
    }
  }

  // In every execution the deselecting run implies that the node was run and exited with 1, exactly if the comparison
  // proves its node.
  lemma ProvesNodeIff(ts: Command, c: nat)
    requires Accepts(ts, c)
    ensures (forall e: Execution | Allowed(ts, c, e) :: NodeIsRed(ts, c, e)) <==> ProvesNode(ts, c)
  {
    hide Accepts, ProvesNode, Allowed, FirstDeselect, Invocation;
    if ProvesNode(ts, c) {
      forall e: Execution | Allowed(ts, c, e) ensures NodeIsRed(ts, c, e) {
        ProvenNodeIsRed(ts, c, e);
      }
    } else {
      var e := GreenNodeSlips(ts, c);
      assert !NodeIsRed(ts, c, e);
    }
  }
}
