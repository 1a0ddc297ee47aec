// The verdict of scripts/check-exception-set-enumeration.py over all commands of a plan.

module DeselectSites {
  import opened Options
  import opened ShellFlags
  import opened ShellGuards
  import opened ShellLists
  import opened GuardProofs

  // A command as the scanner leaves it: not scanned, with or without "--deselect" in its text, or as tokens.
  datatype Fragment = Unscannable(mentions: bool) | Scanned(tokens: Command)

  datatype Site = Site(name: string, command: Fragment)

  // What the check reads of one site: nothing when it cannot be scanned, otherwise the number of "--deselect"
  // occurrences, the nodes they name in order, and the nodes guarded.
  datatype Reading = Unreadable | Reading(occurrences: nat, nodes: seq<Node>, guarded: set<Node>)

  datatype Violation =
    | CannotScan(name: string)
    | Unnamed(name: string, occurrences: nat, named: nat)
    | Disagrees(name: string)
    | Unguarded(name: string, node: Node)
    | GuardsOther(name: string, node: Node)

  // ---- Which commands are sites, and how one is read ----

  predicate IsSite(s: Site) {
    match s.command
    case Unscannable(mentions) => mentions
    case Scanned(ts) => FirstDeselect(ts) < |ts|
  }

  function Sites(plan: seq<Site>): (sites: seq<Site>)
    ensures forall s :: s in sites <==> s in plan && IsSite(s)
  {
    if plan == [] then []
    else
      var last := plan[|plan| - 1];
      Sites(plan[..|plan| - 1]) + if IsSite(last) then [last] else []
  }

  method CollectSites(plan: seq<Site>) returns (sites: seq<Site>)
    ensures sites == Sites(plan)
  {
    sites := [];
    for i := 0 to |plan|
      invariant sites == Sites(plan[..i])
    {
      assert plan[..i + 1][..i] == plan[..i];
      if IsSite(plan[i]) { sites := sites + [plan[i]]; }
    }
    assert plan[..|plan|] == plan;
  }

  // The occurrences among the tokens, and the nodes they name.
  function Occurrences(ts: Command): nat {
    if ts == [] then 0 else Occurrences(ts[..|ts| - 1]) + if ts[|ts| - 1].Deselect? then 1 else 0
  }

  function NodesOf(ts: Command): seq<Node> {
    if ts == [] then []
    else NodesOf(ts[..|ts| - 1]) + if Names(ts[|ts| - 1]) then [NodeRead(ts[|ts| - 1].behind)] else []
  }

  predicate Names(t: Token) {
    t.Deselect? && NodeRead(t.behind) != ""
  }

  // The flag at d is read to name the node.
  predicate DeselectsAt(ts: Command, d: int, node: Node) {
    0 <= d < |ts| && Deselects(ts[d], node)
  }

  predicate Deselects(t: Token, node: Node) {
    t.Deselect? && NodeRead(t.behind) == node
  }

  ghost predicate AllNamed(ts: Command) {
    forall d :: !DeselectsAt(ts, d, "")
  }

  lemma {:induction false} NodesAre(ts: Command)
    ensures forall n :: n in NodesOf(ts) <==> n != "" && exists d :: DeselectsAt(ts, d, n)
    ensures |NodesOf(ts)| <= Occurrences(ts) && (|NodesOf(ts)| == Occurrences(ts) <==> AllNamed(ts))
  {
    if ts != [] {
      var last := |ts| - 1;
      var before := ts[..last];
      NodesAre(before);
      hide NodeRead;
      assert forall d, n :: DeselectsAt(ts, d, n) <==> DeselectsAt(before, d, n) || (d == last && Deselects(ts[last], n));
      forall n ensures n in NodesOf(ts) <==> n != "" && exists d :: DeselectsAt(ts, d, n) {
        assert Deselects(ts[last], n) ==> DeselectsAt(ts, last, n);
      }
      assert Deselects(ts[last], "") <==> DeselectsAt(ts, last, "");
    }
  }

  ghost function ReadingOf(command: Fragment): Reading {
    match command
    case Unscannable(_) => Unreadable
    case Scanned(ts) => Reading(Occurrences(ts), NodesOf(ts), GuardsBelow(ts, |ts|))
  }

  method ReadSite(s: Site) returns (r: Reading)
    requires IsSite(s)
    ensures r == ReadingOf(s.command)
  {
    match s.command
    case Unscannable(_) => r := Unreadable;
    case Scanned(ts) =>
      var occurrences, nodes := 0, [];
      for i := 0 to |ts|
        invariant occurrences == Occurrences(ts[..i]) && nodes == NodesOf(ts[..i])
      {
        assert ts[..i + 1][..i] == ts[..i];
        if ts[i].Deselect? { occurrences := occurrences + 1; }
        if Names(ts[i]) { nodes := nodes + [NodeRead(ts[i].behind)]; }
      }
      assert ts[..|ts|] == ts;
      var guarded := GuardedNodes(ts);
      r := Reading(occurrences, nodes, guarded);
  }

  // ---- What a violation is ----

  ghost predicate Readable(s: Site) {
    ReadingOf(s.command).Reading?
  }

  function NodeSet(r: Reading): set<Node> {
    if r.Reading? then set n | n in r.nodes else {}
  }

  ghost function Deselected(s: Site): set<Node> {
    NodeSet(ReadingOf(s.command))
  }

  ghost function Guarded(s: Site): set<Node> {
    if Readable(s) then ReadingOf(s.command).guarded else {}
  }

  ghost function Union(sites: seq<Site>): set<Node> {
    set s, n | s in sites && n in Deselected(s) :: n
  }

  // The three kinds of violation a site can have: of its reading, against the other sites, of its guards.
  ghost predicate Misread(s: Site, v: Violation) {
    if Readable(s) then
      var r := ReadingOf(s.command);
      v == Unnamed(s.name, r.occurrences, |r.nodes|) && r.occurrences != |r.nodes|
    else v == CannotScan(s.name)
  }

  ghost predicate Disagreement(s: Site, union: set<Node>, v: Violation) {
    v == Disagrees(s.name) && Readable(s) && Deselected(s) != union
  }

  ghost predicate Mismatch(s: Site, v: Violation) {
    && Readable(s) && v.name == s.name
    && (|| (v.Unguarded? && v.node in Deselected(s) && v.node !in Guarded(s))
        || (v.GuardsOther? && v.node in Guarded(s) && v.node !in Deselected(s)))
  }

  // The violations of the first a, b and c sites of each kind.
  ghost predicate Found(sites: seq<Site>, a: nat, b: nat, c: nat, v: Violation) {
    exists k | 0 <= k < |sites| ::
      || (k < a && Misread(sites[k], v))
      || (k < b && Disagreement(sites[k], Union(sites), v))
      || (k < c && Mismatch(sites[k], v))
  }

  ghost predicate IsViolation(plan: seq<Site>, v: Violation) {
    var sites := Sites(plan);
    Found(sites, |sites|, |sites|, |sites|, v)
  }

  // ---- What a clean plan promises ----

  ghost predicate GuardsNode(ts: Command, c: nat, node: Node) {
    Accepts(ts, c) && GuardOf(ts, c) == node
  }

  // The command can be read, each of its occurrences names one of the nodes, and each node is named and guarded; nothing
  // else is guarded.
  ghost predicate CleanCommand(command: Fragment, nodes: set<Node>) {
    && command.Scanned?
    && var ts := command.tokens;
       && AllNamed(ts)
       && NamesExactly(ts, nodes) && GuardsExactly(ts, nodes)
  }

  ghost predicate NamesExactly(ts: Command, nodes: set<Node>) {
    forall n :: n in nodes <==> exists d :: DeselectsAt(ts, d, n)
  }

  ghost predicate GuardsExactly(ts: Command, nodes: set<Node>) {
    forall n :: n in nodes <==> exists c: nat :: GuardsNode(ts, c, n)
  }

  ghost predicate AllClean(plan: seq<Site>, nodes: set<Node>) {
    forall s | s in plan && IsSite(s) :: CleanCommand(s.command, nodes)
  }

  ghost predicate Clean(plan: seq<Site>) {
    exists nodes: set<Node> :: AllClean(plan, nodes)
  }

  lemma GuardedAre(ts: Command, n: Node)
    ensures n in GuardsBelow(ts, |ts|) <==> exists c: nat :: GuardsNode(ts, c, n)
  {
    if n in GuardsBelow(ts, |ts|) {
      var c: nat :| c < |ts| && Accepts(ts, c) && GuardOf(ts, c) == n;
      assert GuardsNode(ts, c, n);
    }
  }

  // The same in terms of what the check computes.
  lemma CleanReading(s: Site, nodes: set<Node>)
    ensures CleanCommand(s.command, nodes) <==>
            && Readable(s) && |ReadingOf(s.command).nodes| == ReadingOf(s.command).occurrences
            && Deselected(s) == nodes == Guarded(s)
  {
    if s.command.Scanned? {
      var ts := s.command.tokens;
      NodesAre(ts);
      hide NodesOf, Occurrences, GuardsBelow, NamesExactly, GuardsExactly, AllNamed, NodeSet;
      if AllNamed(ts) { NamesReading(s, nodes); }
      GuardsReading(s, nodes);
    }
  }

  lemma NamesReading(s: Site, nodes: set<Node>)
    requires s.command.Scanned? && AllNamed(s.command.tokens)
    ensures NamesExactly(s.command.tokens, nodes) <==> Deselected(s) == nodes
  {
    var ts := s.command.tokens;
    NodesAre(ts);
    hide NodesOf, Occurrences, GuardsBelow, DeselectsAt;
    forall n ensures n in Deselected(s) <==> exists d :: DeselectsAt(ts, d, n) {
      assert n == "" ==> forall d :: !DeselectsAt(ts, d, n);
    }
  }

  lemma GuardsReading(s: Site, nodes: set<Node>)
    requires s.command.Scanned?
    ensures GuardsExactly(s.command.tokens, nodes) <==> Guarded(s) == nodes
  {
    hide GuardsNode, GuardsBelow, NodesOf, Occurrences;
    forall n ensures n in Guarded(s) <==> exists c: nat :: GuardsNode(s.command.tokens, c, n) {
      GuardedAre(s.command.tokens, n);
    }
  }

  lemma UnionOfClean(plan: seq<Site>, nodes: set<Node>)
    requires Sites(plan) != [] && AllClean(plan, nodes)
    ensures Union(Sites(plan)) == nodes
  {
    hide CleanCommand;
    forall s | s in Sites(plan) ensures Deselected(s) == nodes {
      CleanReading(s, nodes);
    }
    assert Sites(plan)[0] in Sites(plan);
  }

  lemma SiteIsClean(plan: seq<Site>, s: Site)
    requires s in plan && IsSite(s) && forall v :: !IsViolation(plan, v)
    ensures CleanCommand(s.command, Union(Sites(plan)))
  {
    hide CleanCommand, ReadingOf, GuardsBelow;
    var sites := Sites(plan);
    var k :| 0 <= k < |sites| && sites[k] == s;
    assert !IsViolation(plan, CannotScan(s.name));
    if Readable(s) {
      var r := ReadingOf(s.command);
      assert !IsViolation(plan, Unnamed(s.name, r.occurrences, |r.nodes|));
      assert !IsViolation(plan, Disagrees(s.name));
      forall n ensures n in Deselected(s) <==> n in Guarded(s) {
        assert !IsViolation(plan, Unguarded(s.name, n));
        assert !IsViolation(plan, GuardsOther(s.name, n));
      }
    }
    CleanReading(s, Union(sites));
  }

  // No violation at all means a clean plan, and the other way round.
  lemma NoViolationIffClean(plan: seq<Site>)
    ensures (forall v :: !IsViolation(plan, v)) <==> Clean(plan)
  {
    hide CleanCommand, ReadingOf, GuardsBelow;
    var sites := Sites(plan);
    if Clean(plan) {
      var nodes :| AllClean(plan, nodes);
      if sites != [] { UnionOfClean(plan, nodes); }
      forall k, v | 0 <= k < |sites|
        ensures !Misread(sites[k], v) && !Disagreement(sites[k], Union(sites), v) && !Mismatch(sites[k], v)
      {
        assert sites[k] in sites;
        CleanReading(sites[k], nodes);
      }
    }
    if forall v :: !IsViolation(plan, v) {
      forall s | s in plan && IsSite(s) ensures CleanCommand(s.command, Union(sites)) {
        SiteIsClean(plan, s);
      }
      assert AllClean(plan, Union(sites));
    }
  }

  // ---- The loops ----

  lemma FoundNext(sites: seq<Site>, i: nat, n: nat)
    requires i < |sites| == n
    ensures forall v :: Found(sites, i + 1, 0, 0, v) <==> Found(sites, i, 0, 0, v) || Misread(sites[i], v)
    ensures forall v ::
              Found(sites, n, i + 1, 0, v) <==> Found(sites, n, i, 0, v) || Disagreement(sites[i], Union(sites), v)
    ensures forall v :: Found(sites, n, n, i + 1, v) <==> Found(sites, n, n, i, v) || Mismatch(sites[i], v)
  {
    hide ReadingOf, Misread, Disagreement, Mismatch;
  }

  lemma UnionNext(sites: seq<Site>, s: Site)
    ensures Union(sites + [s]) == Union(sites) + Deselected(s)
  {
    hide Deselected;
    assert forall t :: t in sites + [s] <==> t in sites || t == s;
  }

  method StructuralViolations(plan: seq<Site>) returns (out: seq<Violation>)
    ensures forall v :: v in out <==> IsViolation(plan, v)
    ensures out == [] <==> Clean(plan)
  {
    hide ReadingOf, CleanCommand;
    var sites := CollectSites(plan);
    out := [];
    var union: set<Node> := {};
    var readings: seq<Reading> := [];
    for i := 0 to |sites|
      invariant forall v :: v in out <==> Found(sites, i, 0, 0, v)
      invariant union == Union(sites[..i])
      invariant |readings| == i && forall k | 0 <= k < i :: readings[k] == ReadingOf(sites[k].command)
    {
      FoundNext(sites, i, |sites|);
      var s := sites[i];
      UnionNext(sites[..i], s);
      assert sites[..i + 1] == sites[..i] + [s] && s in sites;
      var r := ReadSite(s);
      if r.Unreadable? {
        out := out + [CannotScan(s.name)];
      } else {
        if r.occurrences != |r.nodes| { out := out + [Unnamed(s.name, r.occurrences, |r.nodes|)]; }
        union := union + NodeSet(r);
      }
      readings := readings + [r];
    }
    assert sites[..|sites|] == sites;
    for i := 0 to |sites|
      invariant forall v :: v in out <==> Found(sites, |sites|, i, 0, v)
    {
      FoundNext(sites, i, |sites|);
      if readings[i].Reading? && NodeSet(readings[i]) != union {
        out := out + [Disagrees(sites[i].name)];
      }
    }
    for i := 0 to |sites|
      invariant forall v :: v in out <==> Found(sites, |sites|, |sites|, i, v)
    {
      FoundNext(sites, i, |sites|);
      var more := Mismatches(sites[i], readings[i]);
      out := out + more;
    }
    NoViolationIffClean(plan);
    if out != [] { assert out[0] in out; }
  }

  // The nodes of a site deselected without a guard or guarded without being deselected.
  method Mismatches(s: Site, r: Reading) returns (out: seq<Violation>)
    requires r == ReadingOf(s.command)
    ensures forall v :: v in out <==> Mismatch(s, v)
  {
    hide ReadingOf;
    out := [];
    if r.Unreadable? { return; }
    var deselected := NodeSet(r);
    var missing, extra := deselected - r.guarded, r.guarded - deselected;
    while missing != {}
      invariant missing <= deselected - r.guarded
      invariant forall v :: v in out <==> Mismatch(s, v) && v.Unguarded? && v.node !in missing
      decreases missing
    {
      var node :| node in missing;
      out := out + [Unguarded(s.name, node)];
      missing := missing - {node};
    }
    while extra != {}
      invariant extra <= r.guarded - deselected
      invariant forall v :: v in out <==> Mismatch(s, v) && (v.Unguarded? || v.node !in extra)
      decreases extra
    {
      var node :| node in extra;
      out := out + [GuardsOther(s.name, node)];
      extra := extra - {node};
    }
  }

  // ---- What that means when the commands run ----

  // In every execution, the run at d does not happen once the comparison ran and failed.
  ghost predicate Blocks(ts: Command, c: nat, d: nat)
    requires c <= |ts| && d <= |ts|
  {
    forall sh: Behaviour, init: Shell ::
      Executed(ts, sh, init, c) && StatusOf(ts, sh, init, c) != 0 ==> !Executed(ts, sh, init, d)
  }

  // The comparison guards the node, and blocks the first deselecting run and every one that only "&&" joins to it; if it
  // proves its node, the first of them implies that the node was run and exited with 1.
  ghost predicate StandsFor(ts: Command, c: nat, node: Node) {
    && GuardsNode(ts, c, node)
    && Blocks(ts, c, FirstDeselect(ts))
    && (forall d | FirstDeselect(ts) <= d < |ts| && OnlyAnds(ts, c, d) :: Blocks(ts, c, d))
    && (ProvesNode(ts, c) ==> forall e: Execution | Allowed(ts, c, e) :: NodeIsRed(ts, c, e))
  }

  lemma GuardStands(ts: Command, c: nat, node: Node)
    requires GuardsNode(ts, c, node)
    ensures StandsFor(ts, c, node)
  {
    assert c < FirstDeselect(ts);
    hide Accepts, FirstDeselect, ProvesNode, Allowed, NodeIsRed, OnlyAnds, GuardOf;
    FirstRunReached(ts, c);
    forall d, sh: Behaviour, init: Shell | FirstDeselect(ts) <= d <= |ts| && OnlyAnds(ts, c, d)
      ensures Executed(ts, sh, init, c) && StatusOf(ts, sh, init, c) != 0 ==> !Executed(ts, sh, init, d)
    {
      GuardReaches(ts, sh, init, c, d);
    }
    if ProvesNode(ts, c) {
      forall e: Execution | Allowed(ts, c, e) ensures NodeIsRed(ts, c, e) {
        ProvenNodeIsRed(ts, c, e);
      }
    }
  }

  // In a plan without violations every command that deselects can be read, and each node it is read to deselect has a
  // comparison that stands for it; where the node is read directly, it is the one the shell passes.
  lemma CleanPlanIsGuarded(plan: seq<Site>, s: Site)
    requires (forall v :: !IsViolation(plan, v)) && s in plan && IsSite(s)
    ensures s.command.Scanned?
    ensures var ts := s.command.tokens;
            forall d: nat | d < |ts| && ts[d].Deselect? ::
              var node := NodeRead(ts[d].behind);
              && node != "" && (exists c: nat :: StandsFor(ts, c, node))
              && (Direct(ts[d].behind) ==> Passed(ts[d].behind) == Some(node))
  {
    hide Accepts, FirstDeselect, StandsFor, NodeRead, Passed, Direct;
    SiteIsClean(plan, s);
    var ts := s.command.tokens;
    forall d: nat | d < |ts| && ts[d].Deselect?
      ensures var node := NodeRead(ts[d].behind);
              && node != "" && (exists c: nat :: StandsFor(ts, c, node))
              && (Direct(ts[d].behind) ==> Passed(ts[d].behind) == Some(node))
    {
      var node := NodeRead(ts[d].behind);
      assert DeselectsAt(ts, d, node);
      assert node in Union(Sites(plan));
      var c: nat :| GuardsNode(ts, c, node);
      GuardStands(ts, c, node);
      if Direct(ts[d].behind) { DirectIsPassed(ts[d].behind); }
    }
  }

  // Nothing that mentions the flag is passed over in silence: a command that cannot be scanned is a violation, and in a
  // plan without violations every flag of every command is read and guarded.
  lemma CleanPlanMissesNothing(plan: seq<Site>, s: Site)
    requires (forall v :: !IsViolation(plan, v)) && s in plan
    ensures s.command != Unscannable(true)
    ensures s.command.Scanned? ==>
              forall d: nat | d < |s.command.tokens| && s.command.tokens[d].Deselect? ::
                var node := NodeRead(s.command.tokens[d].behind);
                node != "" && exists c: nat :: StandsFor(s.command.tokens, c, node)
  {
    hide StandsFor, NodeRead, Passed, Direct, IsViolation;
    if s.command == Unscannable(true) {
      CleanPlanIsGuarded(plan, s);
    } else if s.command.Scanned? {
      if d :| 0 <= d < |s.command.tokens| && s.command.tokens[d].Deselect? {
        CleanPlanIsGuarded(plan, s);
      }
    }
  }

  // Commands without the flag never make a plan unclean.
  lemma NoFlagsNoViolation(plan: seq<Site>)
    requires forall s | s in plan ::
               if s.command.Scanned? then forall k | 0 <= k < |s.command.tokens| :: !s.command.tokens[k].Deselect?
               else !s.command.mentions
    ensures forall v :: !IsViolation(plan, v)
  {
    assert forall s | s in plan :: !IsSite(s);
    assert AllClean(plan, {});
    NoViolationIffClean(plan);
  }
}
