// Guards that scripts/check-exception-set-enumeration.py accepts and that let a deselecting run happen although the node
// passes. The node is n::a; the comments leave out the flags and redirections of its invocation.

module GuardExamples {
  import opened Options
  import opened ShellFlags
  import opened ShellGuards
  import opened ShellLists
  import opened GuardProofs
  import opened GuardGaps
  import opened GuardRules
  import opened DeselectSites

  const NODE: Node := "n::a"

  // What "--deselect n::a" has behind the flag.
  const PLAIN: Tail := [Char(' '), Char('n'), Char(':'), Char(':'), Char('a')]

  // The four characters of the node at x, white before and the end behind them.
  lemma NodeIsRead(t: Tail, x: nat)
    requires 0 < x && |t| == x + 4 && t[0] != Char('=') && forall k | 0 <= k < x :: White(t[k])
    requires t[x] == Char('n') && t[x + 1] == Char(':') && t[x + 2] == Char(':') && t[x + 3] == Char('a')
    ensures NodeStart(t) == x && NodeEnd(t) == x + 4 && NodeRead(t) == NODE
    ensures forall k | x <= k < x + 4 :: !EndsWord(t[k])
  {
    NodeCharacters();
    hide NodeStart, NodeEnd, NodeRead, EndsWord, White, Stops;
    NodeIs(t, x, x + 4);
    CharsCount(t[x..x + 4]);
  }

  lemma NodeCharacters()
    ensures forall c | c == 'n' || c == ':' || c == 'a' :: !White(Char(c)) && !Stops(Char(c)) && !EndsWord(Char(c))
  {}

  lemma PlainReads()
    ensures Direct(PLAIN) && NodeRead(PLAIN) == NODE && Passed(PLAIN) == Some(NODE)
  {
    assert IsBlankPiece(PLAIN[0]) && White(PLAIN[0]);
    hide IsBlankPiece, White, EndsWord, NodeStart, NodeEnd, NodeRead, Passed;
    NodeIsRead(PLAIN, 1);
    DirectIsPassed(PLAIN);
  }

  // The comparison is accepted and does not prove its node: in this execution the node passes and is deselected.
  ghost predicate DeselectsGreen(ts: Command, c: nat, e: Execution) {
    && Accepts(ts, c) && !ProvesNode(ts, c)
    && Allowed(ts, c, e) && e.Executes(ts, FirstDeselect(ts)) && e.exits(Invocation(ts, c)) == 0
  }

  // The guard of all of them: the invocation at b, and at j its save, with only white space in between for the check.
  ghost predicate GuardFrom(ts: Command, b: nat, j: nat, op: Op) {
    && b + 1 < j && j + 6 <= |ts| && (forall k | 0 <= k < b :: !ts[k].RunNode? && !ts[k].Deselect?)
    && ts[b] == RunNode(NODE, 0) && ts[b + 1] == Separator(Semicolon) && (forall k | b + 2 <= k < j :: IsWhite(ts[k]))
    && ts[j] == SaveStatus("rc") && ts[j + 1] == Separator(op) && ts[j + 2] == Compare("rc", "1", 0)
    && ts[j + 3] == Separator(And) && ts[j + 4] == Word("pytest") && ts[j + 5].Deselect?
  }

  lemma GuardCaptured(ts: Command, b: nat, j: nat, op: Op)
    requires GuardFrom(ts, b, j, op)
    ensures SavedAt(ts, b) == j && LastCapture(ts[..j + 5], "rc", j + 5) == b
  {
    var prefix := ts[..j + 5];
    SkipWhiteIs(prefix, b + 2, j);
    SkipWhiteIs(ts, b + 2, j);
    assert forall k | b < k < j + 5 :: !prefix[k].RunNode?;
    forall k | b < k < j + 5 ensures !Captures(prefix, k, "rc") {}
    LastIs(prefix, "rc", b, j + 5);
  }

  lemma {:induction false} SkipWhiteIs(ts: Command, i: nat, j: nat)
    requires i <= j < |ts| && (forall k | i <= k < j :: IsWhite(ts[k])) && !IsWhite(ts[j])
    ensures SkipWhite(ts, i) == j
    decreases j - i
  {
    if i < j { SkipWhiteIs(ts, i + 1, j); }
  }

  // The comparison guards the node, with its invocation at b and the save at j.
  ghost predicate GuardIs(ts: Command, b: nat, j: nat) {
    && FirstDeselect(ts) == j + 5 && Accepts(ts, j + 2) && GuardOf(ts, j + 2) == NODE
    && Invocation(ts, j + 2) == b && Saving(ts, j + 2) == j
  }

  lemma GuardAccepted(ts: Command, b: nat, j: nat, op: Op)
    requires GuardFrom(ts, b, j, op)
    ensures GuardIs(ts, b, j)
  {
    hide LastCapture, SavedAt, FirstDeselect, SkipWhite, Negated;
    FirstDeselectIs(ts, j + 5);
    GuardCaptured(ts, b, j, op);
    SkipWhiteIs(ts, j + 3, j + 3);
    NotNegated(ts, j + 2);
  }

  lemma NotNegated(ts: Command, c: nat)
    requires 0 < c < |ts| && ts[c - 1].Separator? && ts[c].Compare? && ts[c].back == 0
    ensures !Negated(ts, c)
  {
    assert ConjunctStart(ts, c) == c;
  }

  lemma OnlyGuard(ts: Command, b: nat, j: nat, op: Op, c: nat)
    requires GuardFrom(ts, b, j, op) && Accepts(ts, c) && FirstDeselect(ts) == j + 5
    ensures c == j + 2
  {
    hide *;
    GuardPlaces(ts, c);
    OnlyComparison(ts, b, j, op, Invocation(ts, c), c);
  }

  lemma OnlyComparison(ts: Command, b: nat, j: nat, op: Op, r: nat, c: nat)
    requires GuardFrom(ts, b, j, op) && r < c < j + 5 && ts[r].RunNode? && ts[c].Compare?
    ensures c == j + 2
  {}

  lemma {:induction false} LastIs(prefix: Command, name: string, i: nat, n: nat)
    requires i < n <= |prefix| && Captures(prefix, i, name) && forall k | i < k < n :: !Captures(prefix, k, name)
    ensures LastCapture(prefix, name, n) == i
    decreases n
  {
    if i < n - 1 { LastIs(prefix, name, i, n - 1); }
  }

  // Whatever precedes such a guard, the node slips through if its run is not alone or opened by "&&", or its save is not
  // alone, in a background list, or behind masked text.
  lemma GuardSlips(ts: Command, b: nat, j: nat, op: Op) returns (e: Execution)
    requires GuardFrom(ts, b, j, op)
    requires !Alone(ts, b) || PlaceAt(ts, b).op == And || op == Background || !Alone(ts, j) || Interrupted(ts, b, j)
    ensures DeselectsGreen(ts, j + 2, e)
  {
    GuardAccepted(ts, b, j, op);
    hide Accepts, Invocation, Saving, PlaceAt, Alone, FirstDeselect, ListStart, Allowed, Interrupted, Overwrites, Dropped;
    if op == Background { BackgroundDrops(ts, j); }
    e := GreenNodeSlips(ts, j + 2);
  }

  lemma BackgroundDrops(ts: Command, j: nat)
    requires j + 2 <= |ts| && !ts[j].Separator? && ts[j + 1] == Separator(Background)
    ensures Dropped(ts, j, j + 2)
  {
    ListHolds(ts, j, j + 1);
    assert DroppedAt(ts, j, j + 1, j + 2);
  }

  // ! pytest n::a; rc=$?; test $rc -eq 1 && pytest --deselect n::a
  const NegatedRun: Command := [
    Bang, Space, RunNode(NODE, 0), Separator(Semicolon), SaveStatus("rc"), Separator(Semicolon),
    Compare("rc", "1", 0), Separator(And), Word("pytest"), Deselect(PLAIN)]

  lemma NegatedRunSlips() returns (e: Execution)
    ensures DeselectsGreen(NegatedRun, 6, e)
  {
    hide Accepts, ProvesNode, DeselectsGreen, ElementEnd;
    var ts := NegatedRun;
    assert ts[0] == Bang && PlaceAt(ts, 2).start == 0;
    hide PlaceAt;
    e := GuardSlips(ts, 2, 4, Semicolon);
  }

  // rc=1; pytest n::a; rc=$? & test $rc -eq 1 && pytest --deselect n::a
  const BackgroundSave: Command := [
    Word("rc=1"), Separator(Semicolon), RunNode(NODE, 0), Separator(Semicolon), SaveStatus("rc"), Separator(Background),
    Compare("rc", "1", 0), Separator(And), Word("pytest"), Deselect(PLAIN)]

  lemma BackgroundSaveSlips() returns (e: Execution)
    ensures DeselectsGreen(BackgroundSave, 6, e)
  {
    hide Accepts, ProvesNode, DeselectsGreen, PlaceAt, Alone;
    e := GuardSlips(BackgroundSave, 2, 4, Background);
  }

  // false && pytest n::a; rc=$?; test $rc -eq 1 && pytest --deselect n::a
  const SkippedRun: Command := [
    Word("false"), Separator(And), RunNode(NODE, 0), Separator(Semicolon), SaveStatus("rc"), Separator(Semicolon),
    Compare("rc", "1", 0), Separator(And), Word("pytest"), Deselect(PLAIN)]

  lemma SkippedRunSlips() returns (e: Execution)
    ensures DeselectsGreen(SkippedRun, 6, e)
  {
    hide Accepts, ProvesNode, DeselectsGreen, Alone;
    assert PlaceAt(SkippedRun, 2).op == And;
    e := GuardSlips(SkippedRun, 2, 4, Semicolon);
  }

  // rc=1; pytest n::a; "env" rc=$?; test $rc -eq 1 && pytest --deselect n::a
  const QuotedSave: Command := [
    Word("rc=1"), Separator(Semicolon), RunNode(NODE, 0), Separator(Semicolon), Masked, Space, SaveStatus("rc"),
    Separator(Semicolon), Compare("rc", "1", 0), Separator(And), Word("pytest"), Deselect(PLAIN)]

  lemma QuotedSaveSlips() returns (e: Execution)
    ensures DeselectsGreen(QuotedSave, 8, e)
  {
    hide Accepts, ProvesNode, DeselectsGreen, PlaceAt, Alone;
    assert QuotedSave[4] == Masked && Interrupted(QuotedSave, 2, 6);
    e := GuardSlips(QuotedSave, 2, 6, Semicolon);
  }

  // "false" pytest n::a; rc=$?; test $rc -eq 1 && pytest --deselect n::a
  const QuotedRun: Command := [
    Masked, Space, RunNode(NODE, 0), Separator(Semicolon), SaveStatus("rc"), Separator(Semicolon),
    Compare("rc", "1", 0), Separator(And), Word("pytest"), Deselect(PLAIN)]

  lemma QuotedRunSlips() returns (e: Execution)
    ensures DeselectsGreen(QuotedRun, 6, e)
  {
    hide Accepts, ProvesNode, DeselectsGreen, ElementEnd;
    var ts := QuotedRun;
    assert ts[0] == Masked && PlaceAt(ts, 2).start == 0;
    hide PlaceAt;
    e := GuardSlips(ts, 2, 4, Semicolon);
  }

  // The plain spelling does prove its node.
  lemma PlainGuardProves(ts: Command)
    requires GuardFrom(ts, 0, 2, Semicolon)
    ensures Accepts(ts, 4) && ProvesNode(ts, 4)
  {
    GuardAccepted(ts, 0, 2, Semicolon);
    hide Accepts, Invocation, Saving, FirstDeselect, ListStart;
    assert Alone(ts, 0) && Alone(ts, 2) && Alone(ts, 4) && !Interrupted(ts, 0, 2);
    assert PlaceAt(ts, 0).op != And && PlaceAt(ts, 4).op != Or;
    hide PlaceAt, Alone;
    assert forall m :: !DroppedAt(ts, 2, m, 4);
  }

  // ---- Clean plans ----

  // The plan of one command.
  function PlanOf(ts: Command): seq<Site> {
    [Site("stage 1 verify_command", Scanned(ts))]
  }

  // A command with the plain guard at its start and no node but that one is clean.
  lemma GuardIsClean(ts: Command)
    requires GuardFrom(ts, 0, 2, Semicolon)
    requires forall d: nat | d < |ts| && ts[d].Deselect? :: NodeRead(ts[d].behind) == NODE
    ensures Clean(PlanOf(ts)) && forall c: nat, n :: GuardsNode(ts, c, n) <==> c == 4 && n == NODE
  {
    hide Accepts, GuardOf, FirstDeselect, NodeRead;
    GuardAccepted(ts, 0, 2, Semicolon);
    forall c: nat | Accepts(ts, c) ensures c == 4 {
      OnlyGuard(ts, 0, 2, Semicolon, c);
    }
    assert GuardsNode(ts, 4, NODE) && DeselectsAt(ts, 7, NODE);
    assert forall d, n :: DeselectsAt(ts, d, n) ==> n == NODE;
    assert CleanCommand(Scanned(ts), {NODE});
    assert AllClean(PlanOf(ts), {NODE});
  }

  // A comparison does not block a run that an operator other than "&&" separates from it.
  lemma FreeRun(ts: Command, d: nat, m: nat)
    requires GuardFrom(ts, 0, 2, Semicolon) && 4 < m < d <= |ts| && ts[m].Separator? && PlaceAt(ts, m + 1).op != And
    ensures !Blocks(ts, 4, d)
  {
    assert PlaceAt(ts, 4).op == Semicolon;
    hide PlaceAt, ShellAt;
    UnguardedRun(ts, 4, d);
  }

  // pytest n::a; rc=$?; test $rc -eq 1 && pytest --deselect n::a; pytest --deselect n::a
  const SecondRun: Command := [
    RunNode(NODE, 0), Separator(Semicolon), SaveStatus("rc"), Separator(Semicolon), Compare("rc", "1", 0), Separator(And),
    Word("pytest"), Deselect(PLAIN), Separator(Semicolon), Word("pytest"), Deselect(PLAIN)]

  // The plan is clean, and its second run deselects the node also when the comparison fails.
  lemma SecondRunSlips()
    ensures Clean(PlanOf(SecondRun)) && !Blocks(SecondRun, 4, 10)
    ensures forall c: nat :: GuardsNode(SecondRun, c, NODE) <==> c == 4
  {
    hide Clean, Blocks, GuardsNode, NodeRead, Direct, Passed;
    var ts := SecondRun;
    PlainReads();
    GuardIsClean(ts);
    assert PlaceAt(ts, 9).op == Semicolon;
    hide PlaceAt;
    FreeRun(ts, 10, 8);
  }

  // The same with a second list that begins with a quoted command on a line of its own:
  // ... && pytest --deselect n::a &&
  // "true"
  // pytest --deselect n::a
  const QuotedLine: Command := [
    RunNode(NODE, 0), Separator(Semicolon), SaveStatus("rc"), Separator(Semicolon), Compare("rc", "1", 0), Separator(And),
    Word("pytest"), Deselect(PLAIN), Separator(And), Separator(Newline), Masked, Separator(Newline), Word("pytest"),
    Deselect(PLAIN)]

  lemma QuotedLineSlips()
    ensures Clean(PlanOf(QuotedLine)) && !Blocks(QuotedLine, 4, 13)
    ensures forall c: nat :: GuardsNode(QuotedLine, c, NODE) <==> c == 4
  {
    hide Clean, Blocks, GuardsNode, NodeRead, Direct, Passed;
    var ts := QuotedLine;
    PlainReads();
    GuardIsClean(ts);
    assert ts[10] == Masked && PlaceAt(ts, 12).op == Newline;
    hide PlaceAt;
    FreeRun(ts, 13, 11);
  }

  // What "--deselect "n::b" n::a" has behind the flag.
  const QUOTED: Tail := [Char(' '), Quoted("n::b")] + PLAIN

  lemma QuotedReads()
    ensures !Direct(QUOTED) && NodeRead(QUOTED) == NODE && Passed(QUOTED) == Some("n::b")
  {
    var t := QUOTED;
    assert White(t[0]) && White(t[1]) && White(t[2]) && !IsBlankPiece(t[1]) && IsBlankPiece(t[0]);
    assert !EndsWord(t[1]) && EndsWord(t[2]) && EndsWord(t[0]);
    hide IsBlankPiece, White, EndsWord, NodeStart, NodeEnd, NodeRead, WordEnd, SkipBlanks;
    NodeIsRead(t, 3);
    WordEndIs(t, 0, 0);
    SkipBlanksIs(t, 0, 1);
    WordEndIs(t, 1, 2);
    assert t[1..2] == [Quoted("n::b")] && t[..0] == [];
    assert TextOf(t[1..2]) == "n::b";
  }

  // pytest n::a; rc=$?; test $rc -eq 1 && pytest --deselect "n::b" n::a
  const QuotedNode: Command := [
    RunNode(NODE, 0), Separator(Semicolon), SaveStatus("rc"), Separator(Semicolon), Compare("rc", "1", 0), Separator(And),
    Word("pytest"), Deselect(QUOTED), Space, Masked, Space, Word(NODE)]

  // The plan is clean, and the node that the shell passes has no comparison.
  lemma QuotedNodeSlips()
    ensures Clean(PlanOf(QuotedNode)) && QuotedNode[7].Deselect? && Passed(QuotedNode[7].behind) == Some("n::b")
    ensures forall c: nat :: !GuardsNode(QuotedNode, c, "n::b")
  {
    hide Clean, GuardsNode, NodeRead, Direct, Passed;
    QuotedReads();
    GuardIsClean(QuotedNode);
  }

  // pytest n::a; rc=$?; ! test $rc -eq 1 && pytest --deselect n::a
  const NegatedComparison: Command := [
    RunNode(NODE, 0), Separator(Semicolon), SaveStatus("rc"), Separator(Semicolon), Bang, Space, Compare("rc", "1", 0),
    Separator(And), Word("pytest"), Deselect(PLAIN)]

  // The comparison is refused, so the plan is not clean.
  lemma NegatedComparisonRefused()
    ensures forall c: nat :: !Accepts(NegatedComparison, c)
    ensures !Clean(PlanOf(NegatedComparison))
  {
    var ts := NegatedComparison;
    assert FirstFlagAt(ts, 9) && BlankFrom(ts, 4, 4) && BangAt(ts, 4, MatchBegins(ts, 6));
    hide Accepts, BlankFrom, BangAt;
    forall c: nat ensures !Accepts(ts, c) {
      AcceptsIff(ts, c, 9);
    }
    PlainReads();
    hide MatchBegins, NodeRead, Direct, Passed, FirstFlagAt;
    assert DeselectsAt(ts, 9, NODE);
    NothingGuarded(ts, 9, NODE);
  }

  // A plan with a node that no comparison guards is not clean.
  lemma NothingGuarded(ts: Command, d: nat, node: Node)
    requires DeselectsAt(ts, d, node) && forall c: nat :: !Accepts(ts, c)
    ensures !Clean(PlanOf(ts))
  {
    hide Accepts;
    var s := PlanOf(ts)[0];
    assert s in PlanOf(ts) && IsSite(s);
    forall nodes: set<Node> ensures !CleanCommand(s.command, nodes) {
      assert GuardsExactly(ts, nodes) ==> node !in nodes by { assert forall c: nat :: !GuardsNode(ts, c, node); }
      assert NamesExactly(ts, nodes) ==> node in nodes;
    }
  }
}
