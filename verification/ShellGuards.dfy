// The guard check of scripts/check-exception-set-enumeration.py on masked commands. Regular-expression matches are tokens
// here.

module ShellGuards {
  import opened ShellFlags

  type Node = string

  datatype Op = And | Or | Background | Semicolon | Newline

  // Masked text is a word, or part of one, to the shell, and white space to the check. Where masked text or an operator
  // interrupts a match, its token stands for what follows the last of these; what comes before is in tokens of its own,
  // and back says how many of them belong to the match.
  datatype Token =
    | Separator(op: Op)
    | Space                                            // white space, a comment, an escaped newline outside a word
    | Masked                                           // any other text that the mask blanks
    | Bang                                             // the reserved word "!"
    | RunNode(node: Node, back: nat)                   // pytest <node> -q > /dev/null 2>&1
    | SaveStatus(name: string)                         // <name>=$?
    | Compare(name: string, value: string, back: nat)  // test $<name> -eq <value>
    | Deselect(behind: Tail)                           // --deselect, and the text behind it
    | Word(text: string)                               // any other word

  type Command = seq<Token>

  predicate IsWhite(t: Token) {
    t == Space || t == Masked || t == Separator(Newline)
  }

  function SkipWhite(ts: Command, i: nat): (j: nat)
    requires i <= |ts|
    ensures i <= j <= |ts| && (forall k | i <= k < j :: IsWhite(ts[k])) && (j < |ts| ==> !IsWhite(ts[j]))
    decreases |ts| - i
  {
    if i < |ts| && IsWhite(ts[i]) then SkipWhite(ts, i + 1) else i
  }

  function FirstDeselect(ts: Command): (i: nat)
    ensures i <= |ts| && (i < |ts| ==> ts[i].Deselect?) && forall k | 0 <= k < i :: !ts[k].Deselect?
  {
    if ts == [] || ts[0].Deselect? then 0 else 1 + FirstDeselect(ts[1..])
  }

  // ---- What the check computes ----

  // Just past the nearest separator before position i.
  function ConjunctStart(ts: Command, i: nat): (s: nat)
    requires i <= |ts|
    ensures s <= i && (s > 0 ==> ts[s - 1].Separator?) && forall k | s <= k < i :: !ts[k].Separator?
  {
    if i == 0 || ts[i - 1].Separator? then i else ConjunctStart(ts, i - 1)
  }

  predicate Negated(ts: Command, c: nat)
    requires c < |ts|
  {
    var m := MatchStart(ts, c);
    var s := SkipWhite(ts, ConjunctStart(ts, m));
    s < m && StartsWithBang(ts[s])
  }

  // Where the match of the comparison at c begins.
  function MatchStart(ts: Command, c: nat): (m: nat)
    requires c < |ts|
    ensures m <= c
  {
    if ts[c].Compare? && ts[c].back <= c then c - ts[c].back else c
  }

  predicate StartsWithBang(t: Token) {
    t.Bang? || (t.Word? && t.text != "" && t.text[0] == '!')
  }

  predicate AllAnd(ts: Command, from: nat, to: nat)
    requires from <= to <= |ts|
  {
    forall k | from <= k < to && ts[k].Separator? :: ts[k].op == And
  }

  // Whether every separator between the comparison at c and the deselecting run is "&&", starting with one right after
  // it.
  predicate Reaches(ts: Command, c: nat, first: nat)
    requires c < first <= |ts|
  {
    var s := SkipWhite(ts, c + 1);
    s < first && ts[s] == Separator(And) && AllAnd(ts, c + 1, first)
  }

  // Where the invocation that starts at i saves its status, or |ts|.
  function SavedAt(ts: Command, i: nat): (j: nat)
    requires i < |ts|
    ensures i < j <= |ts|
    ensures j < |ts| ==> ts[i].RunNode? && ts[i + 1] == Separator(Semicolon) && ts[j].SaveStatus? && i + 1 < j
    ensures j < |ts| ==> forall k | i + 2 <= k < j :: IsWhite(ts[k])
  {
    if ts[i].RunNode? && i + 1 < |ts| && ts[i + 1] == Separator(Semicolon) then
      var j := SkipWhite(ts, i + 2);
      if j < |ts| && ts[j].SaveStatus? then j else |ts|
    else |ts|
  }

  predicate Captures(ts: Command, i: nat, name: string)
    requires i < |ts|
  {
    SavedAt(ts, i) < |ts| && ts[SavedAt(ts, i)] == SaveStatus(name)
  }

  // The last invocation whose status goes to the variable, or |ts|.
  function LastCapture(ts: Command, name: string, n: nat): (i: nat)
    requires n <= |ts|
    ensures i == |ts| || (i < n && Captures(ts, i, name))
    ensures forall k | (if i == |ts| then 0 else i + 1) <= k < n :: !Captures(ts, k, name)
  {
    if n == 0 then |ts| else if Captures(ts, n - 1, name) then n - 1 else LastCapture(ts, name, n - 1)
  }

  // The comparison at c guards a node.
  predicate Accepts(ts: Command, c: nat) {
    var first := FirstDeselect(ts);
    && c < first && ts[c].Compare? && ts[c].value == "1"
    && LastCapture(ts[..first], ts[c].name, first) < first
    && !Negated(ts, c)
    && Reaches(ts, c, first)
  }

  function GuardOf(ts: Command, c: nat): Node
    requires Accepts(ts, c)
  {
    var first := FirstDeselect(ts);
    ts[LastCapture(ts[..first], ts[c].name, first)].node
  }

  // The dictionary holds, for each variable, the last capture among the first n positions.
  ghost predicate Holds(prefix: Command, captured: map<string, Node>, n: nat)
    requires n <= |prefix|
  {
    forall name ::
      var i := LastCapture(prefix, name, n);
      (name in captured <==> i < |prefix|) && (name in captured ==> captured[name] == prefix[i].node)
  }

  lemma HoldsNext(prefix: Command, captured: map<string, Node>, n: nat)
    requires n < |prefix| && Holds(prefix, captured, n)
    ensures Holds(prefix, if SavedAt(prefix, n) < |prefix| then captured[prefix[SavedAt(prefix, n)].name := prefix[n].node]
                          else captured, n + 1)
  {}

  method CapturedNodes(prefix: Command) returns (captured: map<string, Node>)
    ensures Holds(prefix, captured, |prefix|)
  {
    captured := map[];
    for i := 0 to |prefix|
      invariant Holds(prefix, captured, i)
    {
      HoldsNext(prefix, captured, i);
      if SavedAt(prefix, i) < |prefix| {
        captured := captured[prefix[SavedAt(prefix, i)].name := prefix[i].node];
      }
    }
  }

  // The nodes guarded by the comparisons before position n.
  ghost function GuardsBelow(ts: Command, n: nat): set<Node> {
    set c: nat | c < n && Accepts(ts, c) :: GuardOf(ts, c)
  }

  lemma GuardsStep(ts: Command, c: nat)
    ensures GuardsBelow(ts, c + 1) == GuardsBelow(ts, c) + if Accepts(ts, c) then {GuardOf(ts, c)} else {}
  {
    hide Accepts, GuardOf;
  }

  method GuardedNodes(ts: Command) returns (guarded: set<Node>)
    requires FirstDeselect(ts) < |ts|
    ensures guarded == GuardsBelow(ts, |ts|)
  {
    var first := FirstDeselect(ts);
    var captured := CapturedNodes(ts[..first]);
    guarded := {};
    for c := 0 to first
      invariant guarded == GuardsBelow(ts, c)
    {
      GuardsStep(ts, c);
      if ts[c].Compare? && ts[c].value == "1" && ts[c].name in captured {
        if !Negated(ts, c) && Reaches(ts, c, first) {
          assert Accepts(ts, c);
          guarded := guarded + {captured[ts[c].name]};
        }
      }
    }
    assert GuardsBelow(ts, first) == GuardsBelow(ts, |ts|);
  }

  // Every capture before the first deselecting run precedes an accepted comparison, so the dictionary's last capture of
  // its variable is the nearest one before it.
  lemma CapturesPrecede(ts: Command, c: nat, i: nat)
    requires Accepts(ts, c) && i < FirstDeselect(ts) && SavedAt(ts[..FirstDeselect(ts)], i) < FirstDeselect(ts)
    ensures SavedAt(ts[..FirstDeselect(ts)], i) < c
  {
    var prefix := ts[..FirstDeselect(ts)];
    var j := SavedAt(prefix, i);
    assert prefix[i + 1] == Separator(Semicolon) && ts[i + 1] == prefix[i + 1];
    assert forall k | i < k < j :: k == i + 1 || IsWhite(prefix[k]);
    assert !IsWhite(prefix[c]) && prefix[c] != Separator(Semicolon) && !prefix[c].RunNode? && !prefix[c].SaveStatus?;
  }

  lemma FirstDeselectIs(ts: Command, i: nat)
    requires i < |ts| && ts[i].Deselect? && forall k | 0 <= k < i :: !ts[k].Deselect?
    ensures FirstDeselect(ts) == i
  {}
}
