// How a flat list of commands runs, after section 2.9.3 (Lists) of the POSIX.1-2017 Shell Command Language, and what an
// accepted guard comparison of scripts/check-exception-set-enumeration.py does in such a run.

module ShellLists {
  import opened ShellGuards

  // The element a position belongs to: where it starts and which operator opens it.
  datatype Place = Place(start: nat, op: Op)

  // The exit status left by the last element that ran, and the variables.
  datatype Shell = Shell(status: int, vars: map<string, int>)

  // What running the element that starts at a position does.
  type Behaviour = (nat, Shell) -> Shell

  predicate BlankBetween(ts: Command, from: nat, to: nat)
    requires from <= to <= |ts|
  {
    forall k | from <= k < to :: ts[k] == Space
  }

  // A newline after an operator or a blank line does not start a new element.
  function PlaceAt(ts: Command, i: nat): (p: Place)
    requires i <= |ts|
    ensures p.start <= i && forall k | p.start <= k < i :: !ts[k].Separator?
    decreases i, 0
  {
    if i == 0 then Place(0, Semicolon)
    else
      var p := PlaceAt(ts, i - 1);
      match ts[i - 1]
      case Separator(op) => if BlankLine(ts, i - 1) then Place(i, p.op) else Place(i, op)
      case _ => p
  }

  // The separator at i is a newline with nothing before it in its element.
  predicate BlankLine(ts: Command, i: nat)
    requires i < |ts|
    decreases i, 1
  {
    ts[i] == Separator(Newline) && BlankBetween(ts, PlaceAt(ts, i).start, i)
  }

  // Where the "&&" and "||" list of position i begins.
  function ListStart(ts: Command, i: nat): (s: nat)
    requires i <= |ts|
    ensures s <= i && (s > 0 ==> ts[s - 1].Separator?)
    ensures forall k | s <= k < i && ts[k].Separator? :: ts[k].op == And || ts[k].op == Or || BlankLine(ts, k)
  {
    if i == 0 then 0
    else if ts[i - 1].Separator? && !BlankLine(ts, i - 1) && ts[i - 1].op != And && ts[i - 1].op != Or then i
    else ListStart(ts, i - 1)
  }

  predicate Runs(op: Op, status: int) {
    match op
    case And => status == 0
    case Or => status != 0
    case _ => true
  }

  // The shell just before the element of position i. A list ended by "&" runs in a shell of its own: it leaves status 0
  // and the variables as they were before it.
  function ShellAt(ts: Command, sh: Behaviour, init: Shell, i: nat): Shell
    requires i <= |ts|
  {
    if i == 0 then init
    else
      var s, p := ShellAt(ts, sh, init, i - 1), PlaceAt(ts, i - 1);
      if !ts[i - 1].Separator? || BlankLine(ts, i - 1) then s
      else if ts[i - 1].op == Background then Shell(0, ShellAt(ts, sh, init, ListStart(ts, i - 1)).vars)
      else if Runs(p.op, s.status) then sh(p.start, s)
      else s
  }

  // Whether the element of position i is executed.
  ghost predicate Executed(ts: Command, sh: Behaviour, init: Shell, i: nat)
    requires i <= |ts|
  {
    Runs(PlaceAt(ts, i).op, ShellAt(ts, sh, init, i).status)
  }

  // The exit status of the element of position i, when it is executed.
  ghost function StatusOf(ts: Command, sh: Behaviour, init: Shell, i: nat): int
    requires i <= |ts|
  {
    sh(PlaceAt(ts, i).start, ShellAt(ts, sh, init, i)).status
  }

  lemma {:induction false} SameElement(ts: Command, sh: Behaviour, init: Shell, i: nat, j: nat)
    requires i <= j <= |ts| && forall k | i <= k < j :: !ts[k].Separator?
    ensures PlaceAt(ts, i) == PlaceAt(ts, j) && ShellAt(ts, sh, init, i) == ShellAt(ts, sh, init, j)
    decreases j - i
  {
    if i < j { SameElement(ts, sh, init, i, j - 1); }
  }

  lemma AndStep(ts: Command, sh: Behaviour, init: Shell, s: nat)
    requires s < |ts| && ts[s] == Separator(And)
    ensures PlaceAt(ts, s + 1) == Place(s + 1, And)
    ensures ShellAt(ts, sh, init, s + 1) ==
            if Executed(ts, sh, init, s) then sh(PlaceAt(ts, s).start, ShellAt(ts, sh, init, s))
            else ShellAt(ts, sh, init, s)
  {
  }

  // Only white space lies between an accepted comparison and the "&&" behind it.
  lemma ComparisonEnds(ts: Command, c: nat) returns (s: nat)
    requires Accepts(ts, c)
    ensures c < s < |ts| && ts[s] == Separator(And) && forall k | c <= k < s :: !ts[k].Separator?
    ensures s + 1 <= FirstDeselect(ts) && AllAnd(ts, s + 1, FirstDeselect(ts))
  {
    s := SkipWhite(ts, c + 1);
    assert forall k | c + 1 <= k < s :: IsWhite(ts[k]) && !ts[k].Separator?;
  }

  // At the "&&" behind an accepted comparison the comparison's own status decides.
  lemma AfterComparison(ts: Command, sh: Behaviour, init: Shell, c: nat) returns (i: nat)
    requires Accepts(ts, c)
    ensures c < i <= FirstDeselect(ts) && AllAnd(ts, i, FirstDeselect(ts)) && PlaceAt(ts, i) == Place(i, And)
    ensures ShellAt(ts, sh, init, i) ==
            if Executed(ts, sh, init, c) then sh(PlaceAt(ts, c).start, ShellAt(ts, sh, init, c))
            else ShellAt(ts, sh, init, c)
  {
    hide Accepts, FirstDeselect, AllAnd, PlaceAt, ShellAt;
    var s := ComparisonEnds(ts, c);
    SameElement(ts, sh, init, c, s);
    i := s + 1;
    AndStep(ts, sh, init, s);
  }

  // In this execution the run at d implies that the comparison ran and succeeded.
  ghost predicate GuardHolds(ts: Command, sh: Behaviour, init: Shell, c: nat, d: nat)
    requires c <= |ts| && d <= |ts|
  {
    Executed(ts, sh, init, d) ==> Executed(ts, sh, init, c) && StatusOf(ts, sh, init, c) == 0
  }

  // Every element from behind c up to the one of d is opened by "&&".
  ghost predicate OnlyAnds(ts: Command, c: nat, d: nat)
    requires d <= |ts|
  {
    forall m | c < m < d && ts[m].Separator? :: PlaceAt(ts, m + 1).op == And
  }

  lemma {:induction false} ReachedThroughAnd(ts: Command, sh: Behaviour, init: Shell, i: nat, j: nat)
    requires 0 < i <= j <= |ts| && PlaceAt(ts, i) == Place(i, And) && OnlyAnds(ts, i - 1, j)
    ensures PlaceAt(ts, j).op == And
    ensures ShellAt(ts, sh, init, i).status != 0 ==> ShellAt(ts, sh, init, j).status != 0
    decreases j - i
  {
    if i < j { ReachedThroughAnd(ts, sh, init, i, j - 1); }
  }

  // A failed comparison blocks every run that only "&&" joins to it, and so does a skipped one not opened by "||".
  lemma GuardReaches(ts: Command, sh: Behaviour, init: Shell, c: nat, d: nat)
    requires Accepts(ts, c) && FirstDeselect(ts) <= d <= |ts| && OnlyAnds(ts, c, d)
    ensures Executed(ts, sh, init, c) && StatusOf(ts, sh, init, c) != 0 ==> !Executed(ts, sh, init, d)
    ensures PlaceAt(ts, c).op != Or ==> GuardHolds(ts, sh, init, c, d)
  {
    var i := AfterComparison(ts, sh, init, c);
    hide PlaceAt, ShellAt, Accepts, FirstDeselect, AllAnd;
    ReachedThroughAnd(ts, sh, init, i, d);
  }

  // Everything that starts below n fails, the rest succeeds.
  function FailBelow(n: nat): Behaviour {
    (p, s: Shell) => s.(status := if p < n then 1 else 0)
  }

  lemma {:induction false} AllSucceed(ts: Command, i: nat)
    requires i <= |ts|
    ensures ShellAt(ts, FailBelow(0), Shell(0, map[]), i).status == 0
  {
    if i > 0 { AllSucceed(ts, i - 1); }
  }

  lemma {:induction false} FailedBelow(ts: Command, n: nat, i: nat)
    requires i <= n && i <= |ts|
    ensures ShellAt(ts, FailBelow(n), Shell(1, map[]), i).status == 1 || PlaceAt(ts, i).op == Background
  {
    if i > 0 { FailedBelow(ts, n, i - 1); }
  }

  // From the element at n on: that one is executed, and so is every later one, behind a success.
  ghost predicate Succeeding(ts: Command, n: nat, i: nat)
    requires i <= |ts|
  {
    var s, p := ShellAt(ts, FailBelow(n), Shell(1, map[]), i), PlaceAt(ts, i);
    if p.op == And then p.start > n && s.status == 0 else p.start == n && Runs(p.op, s.status)
  }

  lemma {:induction false} SucceedsFrom(ts: Command, m: nat, i: nat)
    requires m < i <= |ts| && ts[m].Separator? && PlaceAt(ts, m + 1).op != And && OnlyAnds(ts, m, i)
    ensures Succeeding(ts, m + 1, i)
    decreases i
  {
    var sh, init := FailBelow(m + 1), Shell(1, map[]);
    if m + 1 < i {
      var x := i - 1;
      SucceedsFrom(ts, m, x);
      hide PlaceAt, ShellAt;
      assert ts[x].Separator? ==> PlaceAt(ts, x + 1).op == And;
      if EndsElement(ts, x) {
        ElementStep(ts, sh, init, x);
      } else {
        TokenStep(ts, sh, init, x);
      }
    } else {
      FailedBelow(ts, m + 1, m + 1);
      StartsGrow(ts, m);
    }
  }

  // The last element up to the one of d that "&&" does not open.
  lemma {:induction false} LastNotAnd(ts: Command, c: nat, d: nat) returns (m: nat)
    requires d <= |ts| && !OnlyAnds(ts, c, d)
    ensures c < m < d && ts[m].Separator? && PlaceAt(ts, m + 1).op != And && OnlyAnds(ts, m, d)
    decreases d
  {
    m := d - 1;
    hide PlaceAt;
    if !(c < m && ts[m].Separator? && PlaceAt(ts, m + 1).op != And) { m := LastNotAnd(ts, c, d - 1); }
  }

  // In every execution the run that deselects at d implies a comparison that ran and succeeded, exactly when no "||"
  // opens the comparison's conjunct and only "&&" stands between the two.
  lemma RunGuardedIff(ts: Command, c: nat, d: nat)
    requires Accepts(ts, c) && FirstDeselect(ts) <= d <= |ts|
    ensures (forall sh: Behaviour, init: Shell :: GuardHolds(ts, sh, init, c, d))
            <==> PlaceAt(ts, c).op != Or && OnlyAnds(ts, c, d)
  {
    assert c < d;
    hide Accepts, FirstDeselect, PlaceAt, ShellAt, GuardHolds, OnlyAnds;
    if !OnlyAnds(ts, c, d) {
      UnguardedRun(ts, c, d);
    } else if PlaceAt(ts, c).op == Or {
      PassedOver(ts, c, d);
    } else {
      forall sh: Behaviour, init: Shell ensures GuardHolds(ts, sh, init, c, d) {
        GuardReaches(ts, sh, init, c, d);
      }
    }
  }

  // Where something other than "&&" stands between, the comparison fails and the run happens all the same.
  lemma UnguardedRun(ts: Command, c: nat, d: nat)
    requires c < d <= |ts| && !OnlyAnds(ts, c, d)
    ensures !forall sh: Behaviour, init: Shell :: GuardHolds(ts, sh, init, c, d)
  {
    var m := LastNotAnd(ts, c, d);
    SucceedsFrom(ts, m, d);
    assert PlaceAt(ts, c).start <= m;
    assert !GuardHolds(ts, FailBelow(m + 1), Shell(1, map[]), c, d);
  }

  // A comparison opened by "||" is skipped when all succeeds, and the run happens all the same.
  lemma PassedOver(ts: Command, c: nat, d: nat)
    requires Accepts(ts, c) && FirstDeselect(ts) <= d <= |ts| && PlaceAt(ts, c).op == Or && OnlyAnds(ts, c, d)
    ensures !forall sh: Behaviour, init: Shell :: GuardHolds(ts, sh, init, c, d)
  {
    var sh, init := FailBelow(0), Shell(0, map[]);
    AllSucceed(ts, c);
    AllSucceed(ts, d);
    var i := AfterComparison(ts, sh, init, c);
    hide Accepts, FirstDeselect, AllAnd, ShellAt, PlaceAt, FailBelow;
    ReachedThroughAnd(ts, sh, init, i, d);
    assert !GuardHolds(ts, sh, init, c, d);
  }

  // For the first run that deselects, that is exactly when no "||" opens the comparison's conjunct.
  lemma GuardHoldsIff(ts: Command, c: nat)
    requires Accepts(ts, c)
    ensures (forall sh: Behaviour, init: Shell :: GuardHolds(ts, sh, init, c, FirstDeselect(ts)))
            <==> PlaceAt(ts, c).op != Or
  {
    FirstRunReached(ts, c);
    RunGuardedIff(ts, c, FirstDeselect(ts));
  }

  lemma FirstRunReached(ts: Command, c: nat)
    requires Accepts(ts, c)
    ensures OnlyAnds(ts, c, FirstDeselect(ts))
  {
    hide Accepts, FirstDeselect, AllAnd, PlaceAt;
    var s := ComparisonEnds(ts, c);
    forall m | c < m < FirstDeselect(ts) && ts[m].Separator? ensures PlaceAt(ts, m + 1).op == And {
      if m != s { AllAndAt(ts, s + 1, FirstDeselect(ts), m); }
      AndStep(ts, FailBelow(0), Shell(1, map[]), m);
    }
  }

  lemma AllAndAt(ts: Command, a: nat, b: nat, m: nat)
    requires a <= m < b <= |ts| && AllAnd(ts, a, b) && ts[m].Separator?
    ensures ts[m] == Separator(And)
  {}

  // If an accepted comparison runs and fails, the first deselecting run is not executed.
  lemma FailedGuardBlocks(ts: Command, sh: Behaviour, init: Shell, c: nat)
    requires Accepts(ts, c)
    requires Executed(ts, sh, init, c) && StatusOf(ts, sh, init, c) != 0
    ensures !Executed(ts, sh, init, FirstDeselect(ts))
  {
    FirstRunReached(ts, c);
    GuardReaches(ts, sh, init, c, FirstDeselect(ts));
  }

  // A comparison that is skipped blocks it too, unless it was skipped by "||".
  lemma SkippedGuardBlocks(ts: Command, sh: Behaviour, init: Shell, c: nat)
    requires Accepts(ts, c) && PlaceAt(ts, c).op != Or
    requires !Executed(ts, sh, init, c)
    ensures !Executed(ts, sh, init, FirstDeselect(ts))
  {
    FirstRunReached(ts, c);
    GuardReaches(ts, sh, init, c, FirstDeselect(ts));
  }

  lemma {:induction false} PlaceThroughAnd(ts: Command, i: nat, j: nat)
    requires i <= j <= |ts| && AllAnd(ts, i, j) && PlaceAt(ts, i).op == And
    ensures PlaceAt(ts, j).op == And
    decreases j - i
  {
    if i < j { PlaceThroughAnd(ts, i, j - 1); }
  }

  // ---- Elements ----

  // The first separator from position i on, or the end.
  function ElementEnd(ts: Command, i: nat): (e: nat)
    requires i <= |ts|
    ensures i <= e <= |ts| && (e < |ts| ==> ts[e].Separator?) && forall k | i <= k < e :: !ts[k].Separator?
    decreases |ts| - i
  {
    if i == |ts| || ts[i].Separator? then i else ElementEnd(ts, i + 1)
  }

  // Nothing interrupts the match that the token ends.
  predicate Whole(t: Token) {
    (t.RunNode? || t.Compare?) ==> t.back == 0
  }

  // The element of position i is that one token.
  ghost predicate Alone(ts: Command, i: nat)
    requires i < |ts|
  {
    !ts[i].Separator? && Whole(ts[i]) && forall k | PlaceAt(ts, i).start <= k < ElementEnd(ts, i) && k != i :: ts[k] == Space
  }

  // The element of position i is "!" and that one token.
  ghost predicate Inverted(ts: Command, i: nat)
    requires i < |ts|
  {
    exists b :: InvertedBy(ts, b, i)
  }

  ghost predicate InvertedBy(ts: Command, b: int, i: nat)
    requires i < |ts|
  {
    && !ts[i].Separator? && Whole(ts[i]) && PlaceAt(ts, i).start <= b < i && ts[b] == Bang
    && forall k | PlaceAt(ts, i).start <= k < ElementEnd(ts, i) && k != i && k != b :: ts[k] == Space
  }

  // The element that starts at p saves a status to the variable.
  ghost predicate Saves(ts: Command, p: nat, name: string)
    requires p <= |ts|
  {
    exists k | p <= k < ElementEnd(ts, p) :: ts[k] == SaveStatus(name)
  }

  // Positions with one start belong to one element.
  lemma OneElement(ts: Command, i: nat)
    requires i < |ts|
    ensures PlaceAt(ts, i).start <= i <= ElementEnd(ts, i) == ElementEnd(ts, PlaceAt(ts, i).start)
  {
    EndsAlike(ts, PlaceAt(ts, i).start, i);
  }

  lemma {:induction false} EndsAlike(ts: Command, i: nat, j: nat)
    requires i <= j <= |ts| && forall k | i <= k < j :: !ts[k].Separator?
    ensures ElementEnd(ts, i) == ElementEnd(ts, j)
    decreases j - i
  {
    if i < j { EndsAlike(ts, i + 1, j); }
  }

  lemma StartsGrow(ts: Command, i: nat)
    requires i < |ts|
    ensures PlaceAt(ts, i).start <= PlaceAt(ts, i + 1).start
    ensures ts[i].Separator? ==> PlaceAt(ts, i + 1).start == i + 1
  {
  }

  lemma {:induction false} StartsAfter(ts: Command, sep: nat, i: nat)
    requires sep < i <= |ts| && ts[sep].Separator?
    ensures PlaceAt(ts, i).start > sep
    decreases i
  {
    StartsGrow(ts, i - 1);
    if sep < i - 1 { StartsAfter(ts, sep, i - 1); }
  }

  lemma {:induction false} ListsGrow(ts: Command, i: nat, j: nat)
    requires i <= j <= |ts| && ListStart(ts, i) == i
    ensures ListStart(ts, j) >= i
    decreases j - i
  {
    if i < j { ListsGrow(ts, i, j - 1); }
  }

  // ---- Runs of elements ----

  lemma {:induction false} WhiteChangesNothing(ts: Command, sh: Behaviour, init: Shell, i: nat, j: nat)
    requires i <= j <= |ts| && BlankBetween(ts, PlaceAt(ts, i).start, i)
    requires forall k | i <= k < j :: IsWhite(ts[k]) && ts[k] != Masked
    ensures ShellAt(ts, sh, init, j) == ShellAt(ts, sh, init, i) && PlaceAt(ts, j).op == PlaceAt(ts, i).op
    ensures BlankBetween(ts, PlaceAt(ts, j).start, j) && i <= j
    decreases j - i
  {
    if i < j { WhiteChangesNothing(ts, sh, init, i, j - 1); }
  }

  // The separator at e ends an element that is not blank.
  predicate EndsElement(ts: Command, e: nat) {
    e < |ts| && ts[e].Separator? && !BlankLine(ts, e)
  }

  lemma ElementStep(ts: Command, sh: Behaviour, init: Shell, x: nat)
    requires EndsElement(ts, x)
    ensures PlaceAt(ts, x + 1) == Place(x + 1, ts[x].op)
    ensures ShellAt(ts, sh, init, x + 1) ==
            if ts[x].op == Background then Shell(0, ShellAt(ts, sh, init, ListStart(ts, x)).vars)
            else if Executed(ts, sh, init, x) then sh(PlaceAt(ts, x).start, ShellAt(ts, sh, init, x))
            else ShellAt(ts, sh, init, x)
  {}

  lemma TokenStep(ts: Command, sh: Behaviour, init: Shell, x: nat)
    requires x < |ts| && !EndsElement(ts, x)
    ensures ShellAt(ts, sh, init, x + 1) == ShellAt(ts, sh, init, x) && PlaceAt(ts, x + 1).op == PlaceAt(ts, x).op
    ensures PlaceAt(ts, x + 1).start == if ts[x].Separator? then x + 1 else PlaceAt(ts, x).start
  {}

  // From a shell with status 0 on, if every element then ends with status 0.
  lemma {:induction false} ZeroKept(ts: Command, sh: Behaviour, init: Shell, a: nat, i: nat)
    requires a <= i <= |ts| && ShellAt(ts, sh, init, a).status == 0
    requires forall x | a <= x < i && EndsElement(ts, x) && ShellAt(ts, sh, init, x).status == 0 ::
               sh(PlaceAt(ts, x).start, ShellAt(ts, sh, init, x)).status == 0
    ensures ShellAt(ts, sh, init, i).status == 0
    decreases i - a
  {
    if a < i {
      ZeroKept(ts, sh, init, a, i - 1);
      assert ts[i - 1].Separator? && !BlankLine(ts, i - 1) ==> EndsElement(ts, i - 1);
    }
  }

  predicate IsOne(s: Shell, name: string) {
    name in s.vars && s.vars[name] == 1
  }

  // From a shell in which the variable is 1 on, if every element keeps that and no list ended by "&" began before.
  lemma {:induction false} OneKept(ts: Command, sh: Behaviour, init: Shell, name: string, a: nat, i: nat)
    requires a <= i <= |ts| && IsOne(ShellAt(ts, sh, init, a), name)
    requires forall x | a <= x < i && EndsElement(ts, x) && IsOne(ShellAt(ts, sh, init, x), name) ::
               IsOne(sh(PlaceAt(ts, x).start, ShellAt(ts, sh, init, x)), name)
    requires forall x | a <= x < i && ts[x] == Separator(Background) :: a <= ListStart(ts, x)
    ensures IsOne(ShellAt(ts, sh, init, i), name)
    decreases i
  {
    if a < i {
      OneKept(ts, sh, init, name, a, i - 1);
      assert ts[i - 1].Separator? && !BlankLine(ts, i - 1) ==> EndsElement(ts, i - 1);
      if ts[i - 1] == Separator(Background) {
        OneKept(ts, sh, init, name, a, ListStart(ts, i - 1));
      }
    }
  }
}
