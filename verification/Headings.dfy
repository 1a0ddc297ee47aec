// The heading path of every statement of a markdown file: _iter_statement_units of scripts/crutch-inventory.py.

module Headings {

  // What the line patterns make of a line: a fence, else a heading of level 1 to 6, else text split into fragments.
  datatype Line = Fence | Heading(level: nat, title: string) | Text(fragments: seq<string>)

  datatype Unit = Unit(line: nat, path: seq<string>, fragment: string)

  datatype Opened = Opened(level: nat, title: string)

  // ---- Which headings are open before a line ----

  predicate InFence(lines: seq<Line>) {
    lines != [] && (InFence(lines[..|lines| - 1]) != lines[|lines| - 1].Fence?)
  }

  // Line j is a heading outside fences.
  predicate IsHeading(lines: seq<Line>, j: nat)
    requires j < |lines|
  {
    lines[j].Heading? && !InFence(lines[..j])
  }

  // No later heading of the same or a smaller level has closed it.
  ghost predicate Open(lines: seq<Line>, j: nat) {
    && j < |lines| && IsHeading(lines, j)
    && forall k | j < k < |lines| && IsHeading(lines, k) :: lines[j].level < lines[k].level
  }

  // The open headings among the first n lines, in order.
  ghost function OpenAmong(lines: seq<Line>, n: nat): seq<Opened>
    requires n <= |lines|
  {
    if n == 0 then [] else OpenAmong(lines, n - 1) + OpenedAt(lines, n - 1)
  }

  ghost function OpenedAt(lines: seq<Line>, j: nat): seq<Opened>
    requires j < |lines|
  {
    if Open(lines, j) then [Opened(lines[j].level, lines[j].title)] else []
  }

  ghost function PathBefore(lines: seq<Line>): seq<Opened> {
    OpenAmong(lines, |lines|)
  }

  function Titles(stack: seq<Opened>): seq<string> {
    if stack == [] then [] else [stack[0].title] + Titles(stack[1..])
  }

  // ---- One more line ----

  function Below(stack: seq<Opened>, level: nat): seq<Opened> {
    if stack == [] then []
    else Below(stack[..|stack| - 1], level) + if stack[|stack| - 1].level < level then [stack[|stack| - 1]] else []
  }

  lemma BelowOneMore(stack: seq<Opened>, o: Opened, level: nat)
    ensures Below(stack + [o], level) == Below(stack, level) + if o.level < level then [o] else []
  {}

  lemma OpenedAtLonger(lines: seq<Line>, line: Line, j: nat, stack: seq<Opened>)
    requires j < |lines|
    ensures !(line.Heading? && !InFence(lines)) ==> OpenedAt(lines + [line], j) == OpenedAt(lines, j)
    ensures line.Heading? && !InFence(lines) ==>
              Below(stack + OpenedAt(lines, j), line.level) == Below(stack, line.level) + OpenedAt(lines + [line], j)
  {
    hide InFence, Open, Below;
    OpenLonger(lines, line, j);
    assert (lines + [line])[j] == lines[j];
    if line.Heading? {
      if Open(lines, j) {
        OpenIsHeading(lines, j);
        BelowOneMore(stack, Opened(lines[j].level, lines[j].title), line.level);
      } else {
        assert stack + OpenedAt(lines, j) == stack;
      }
    }
  }

  lemma OpenIsHeading(lines: seq<Line>, j: nat)
    ensures Open(lines, j) ==> j < |lines| && lines[j].Heading?
  {}

  lemma {:induction false} OpenAmongLonger(lines: seq<Line>, line: Line, n: nat)
    requires n <= |lines|
    ensures var more := lines + [line];
            OpenAmong(more, n) == if line.Heading? && !InFence(lines) then Below(OpenAmong(lines, n), line.level)
                                  else OpenAmong(lines, n)
  {
    hide InFence, Open, OpenedAt;
    if n > 0 {
      OpenAmongLonger(lines, line, n - 1);
      OpenedAtLonger(lines, line, n - 1, OpenAmong(lines, n - 1));
    }
  }

  lemma OpenLonger(lines: seq<Line>, line: Line, j: nat)
    requires j < |lines|
    ensures Open(lines + [line], j) <==>
            Open(lines, j) && (line.Heading? && !InFence(lines) ==> lines[j].level < line.level)
  {
    var more := lines + [line];
    assert forall k | 0 <= k <= |lines| :: more[..k] == lines[..k];
    assert lines[..|lines|] == lines;
    forall k | 0 <= k < |lines| ensures IsHeading(more, k) == IsHeading(lines, k) && more[k] == lines[k] {
      assert more[..k] == lines[..k];
    }
    assert IsHeading(more, |lines|) <==> line.Heading? && !InFence(lines);
  }

  lemma PathAfter(lines: seq<Line>, line: Line)
    ensures PathBefore(lines + [line]) ==
            if line.Heading? && !InFence(lines)
            then Below(PathBefore(lines), line.level) + [Opened(line.level, line.title)]
            else PathBefore(lines)
  {
    var more := lines + [line];
    OpenAmongLonger(lines, line, |lines|);
    assert more[..|lines|] == lines;
    assert Open(more, |lines|) <==> line.Heading? && !InFence(lines);
  }

  // ---- The statements ----

  ghost function UnitsOf(lines: seq<Line>, line: Line): seq<Unit> {
    if line.Text? && !InFence(lines) then UnitsAt(|lines| + 1, Titles(PathBefore(lines)), line.fragments) else []
  }

  function UnitsAt(number: nat, path: seq<string>, fragments: seq<string>): seq<Unit> {
    seq(|fragments|, i requires 0 <= i < |fragments| => Unit(number, path, fragments[i]))
  }

  // Every fragment of text outside fences, with the headings open above it.
  ghost function Units(lines: seq<Line>): seq<Unit> {
    if lines == [] then [] else Units(lines[..|lines| - 1]) + UnitsOf(lines[..|lines| - 1], lines[|lines| - 1])
  }

  lemma OneMoreLine(before: seq<Line>, line: Line)
    ensures Units(before + [line]) == Units(before) + UnitsOf(before, line)
    ensures InFence(before + [line]) == (InFence(before) != line.Fence?)
  {}

  lemma NoLines()
    ensures Units([]) == [] && PathBefore([]) == [] && !InFence([])
  {}

  method StatementUnits(lines: seq<Line>) returns (out: seq<Unit>)
    ensures out == Units(lines)
  {
    hide PathBefore, Titles, Below, Units, InFence, UnitsAt;
    NoLines();
    out := [];
    var stack: seq<Opened> := [];
    var inFence := false;
    for i := 0 to |lines|
      invariant out == Units(lines[..i])
      invariant stack == PathBefore(lines[..i])
      invariant inFence == InFence(lines[..i])
    {
      ghost var before := lines[..i];
      assert lines[..i + 1] == before + [lines[i]];
      OneMoreLine(before, lines[i]);
      PathAfter(before, lines[i]);
      match lines[i]
      case Fence =>
        inFence := !inFence;
      case Heading(level, title) =>
        if !inFence {
          stack := Below(stack, level);
          stack := stack + [Opened(level, title)];
        }
      case Text(fragments) =>
        if !inFence {
          out := out + UnitsAt(i + 1, Titles(stack), fragments);
        }
    }
    assert lines[..|lines|] == lines;
  }

  // ---- What a heading path looks like ----

  ghost predicate Deepening(stack: seq<Opened>) {
    forall i, j | 0 <= i < j < |stack| :: stack[i].level < stack[j].level
  }

  lemma {:induction false} BelowDeepens(stack: seq<Opened>, level: nat)
    requires Deepening(stack)
    ensures Deepening(Below(stack, level))
    ensures forall o | o in Below(stack, level) :: o in stack && o.level < level
  {
    if stack != [] {
      BelowDeepens(stack[..|stack| - 1], level);
    }
  }

  // Levels grow along every heading path.
  lemma {:induction false} PathDeepens(lines: seq<Line>)
    ensures Deepening(PathBefore(lines))
  {
    if lines != [] {
      var most, line := lines[..|lines| - 1], lines[|lines| - 1];
      assert lines == most + [line];
      PathDeepens(most);
      PathAfter(most, line);
      if line.Heading? { BelowDeepens(PathBefore(most), line.level); }
    }
  }

  // With levels growing, a heading closes the end of the path and keeps what comes before it.
  lemma {:induction false} BelowIsPrefix(stack: seq<Opened>, level: nat)
    requires Deepening(stack)
    ensures Below(stack, level) <= stack
    ensures forall i | |Below(stack, level)| <= i < |stack| :: stack[i].level >= level
  {
    if stack != [] {
      var most, top := stack[..|stack| - 1], stack[|stack| - 1];
      assert stack == most + [top];
      BelowIsPrefix(most, level);
      BelowOneMore(most, top, level);
      if top.level < level {
        assert |Below(most, level)| == |most|;
      }
    }
  }

  // A fence that is never closed hides everything after it.
  lemma {:induction false} UnclosedFenceHides(lines: seq<Line>, rest: seq<Line>)
    requires InFence(lines) && forall r | r in rest :: !r.Fence?
    ensures Units(lines + rest) == Units(lines) && PathBefore(lines + rest) == PathBefore(lines) && InFence(lines + rest)
  {
    if rest == [] {
      assert lines + rest == lines;
    } else {
      var most, last := rest[..|rest| - 1], rest[|rest| - 1];
      assert (lines + rest)[..|lines + rest| - 1] == lines + most && lines + rest == (lines + most) + [last];
      UnclosedFenceHides(lines, most);
      PathAfter(lines + most, last);
      assert last in rest;
    }
  }

  // ---- Line by line ----

  function Fences(lines: seq<Line>): nat {
    if lines == [] then 0 else Fences(lines[..|lines| - 1]) + if lines[|lines| - 1].Fence? then 1 else 0
  }

  lemma {:induction false} InFenceIsOdd(lines: seq<Line>)
    ensures InFence(lines) <==> Fences(lines) % 2 == 1
  {
    if lines != [] { InFenceIsOdd(lines[..|lines| - 1]); }
  }

  lemma {:induction false} TitleAt(stack: seq<Opened>, i: nat)
    requires i < |stack|
    ensures |Titles(stack)| == |stack| && Titles(stack)[i] == stack[i].title
  {
    if |stack| > 1 { TitleAt(stack[1..], if i == 0 then 0 else i - 1); }
  }

  ghost predicate Growing(at: seq<nat>, n: nat) {
    forall k | 0 <= k < |at| :: at[k] < n && forall l | k < l < |at| :: at[k] < at[l]
  }

  ghost predicate IsOpenedAt(lines: seq<Line>, j: nat, o: Opened) {
    j < |lines| && lines[j].Heading? && o == Opened(lines[j].level, lines[j].title)
  }

  ghost predicate OpenedAll(lines: seq<Line>, stack: seq<Opened>, at: seq<nat>) {
    |at| == |stack| && forall k | 0 <= k < |at| :: IsOpenedAt(lines, at[k], stack[k])
  }

  ghost predicate ListsOpen(lines: seq<Line>, n: nat, at: seq<nat>) {
    forall j: nat | j < n :: j in at <==> Open(lines, j)
  }

  // The lines of the open headings among the first n, in order.
  lemma {:induction false} OpenLines(lines: seq<Line>, n: nat) returns (at: seq<nat>)
    requires n <= |lines|
    ensures Growing(at, n) && OpenedAll(lines, OpenAmong(lines, n), at) && ListsOpen(lines, n, at)
  {
    hide *;
    at := [];
    if n == 0 {
      NoneOpenYet(lines);
    } else {
      at := OpenLines(lines, n - 1);
      OneMoreOpen(lines, n - 1, OpenAmong(lines, n - 1), at);
      OpenAmongNext(lines, n - 1);
      ListsOneMore(lines, n - 1, at);
      if Open(lines, n - 1) { at := at + [n - 1]; }
    }
  }

  lemma NoneOpenYet(lines: seq<Line>)
    ensures Growing([], 0) && OpenedAll(lines, OpenAmong(lines, 0), []) && ListsOpen(lines, 0, [])
  {}

  lemma ListsOneMore(lines: seq<Line>, n: nat, at: seq<nat>)
    requires ListsOpen(lines, n, at) && Growing(at, n)
    ensures ListsOpen(lines, n + 1, if Open(lines, n) then at + [n] else at)
  {
    hide Open;
  }

  lemma OpenAmongNext(lines: seq<Line>, n: nat)
    requires n < |lines|
    ensures OpenAmong(lines, n + 1) == OpenAmong(lines, n) + OpenedAt(lines, n)
  {}

  lemma OneMoreOpen(lines: seq<Line>, n: nat, stack: seq<Opened>, at: seq<nat>)
    requires n < |lines| && Growing(at, n) && OpenedAll(lines, stack, at)
    ensures Growing(at, n + 1) && Growing(at + [n], n + 1)
    ensures OpenedAll(lines, stack + OpenedAt(lines, n), if Open(lines, n) then at + [n] else at)
  {
    hide Open, InFence;
    OpenIsHeading(lines, n);
    assert stack + [] == stack;
  }

  // The path before a line: the titles of the headings that are open there, in order.
  lemma PathTitles(lines: seq<Line>) returns (at: seq<nat>)
    ensures |at| == |Titles(PathBefore(lines))|
    ensures forall k | 0 <= k < |at| :: at[k] < |lines| && forall l | k < l < |at| :: at[k] < at[l]
    ensures forall k | 0 <= k < |at| :: lines[at[k]].Heading? && Titles(PathBefore(lines))[k] == lines[at[k]].title
    ensures forall j: nat | j < |lines| :: j in at <==> Open(lines, j)
  {
    hide Open, OpenAmong, Titles;
    at := OpenLines(lines, |lines|);
    assert forall k | 0 <= k < |at| :: IsOpenedAt(lines, at[k], PathBefore(lines)[k]);
    if at == [] {
      NoTitles();
    } else {
      forall k | 0 <= k < |at|
        ensures |Titles(PathBefore(lines))| == |at| && Titles(PathBefore(lines))[k] == lines[at[k]].title
      {
        TitleAt(PathBefore(lines), k);
      }
      TitleAt(PathBefore(lines), 0);
    }
  }

  lemma NoTitles()
    ensures Titles([]) == []
  {}

  ghost predicate StatesUnit(lines: seq<Line>, i: int, f: int, u: Unit) {
    && 0 <= i < |lines| && lines[i].Text? && 0 <= f < |lines[i].fragments| && !InFence(lines[..i])
    && u == Unit(i + 1, Titles(PathBefore(lines[..i])), lines[i].fragments[f])
  }

  // A unit stands for one fragment of one line outside fences, and every such fragment has one.
  lemma {:induction false} UnitsIff(lines: seq<Line>, u: Unit)
    ensures u in Units(lines) <==> exists i, f :: StatesUnit(lines, i, f, u)
  {
    if lines != [] {
      hide PathBefore, Titles, InFence;
      var last := |lines| - 1;
      var most, line := lines[..last], lines[last];
      UnitsIff(most, u);
      assert forall i | 0 <= i < last :: most[..i] == lines[..i];
      assert forall i, f :: StatesUnit(most, i, f, u) <==> i < last && StatesUnit(lines, i, f, u);
      if u in UnitsOf(most, line) {
        var f :| 0 <= f < |line.fragments| && UnitsOf(most, line)[f] == u;
        assert StatesUnit(lines, last, f, u);
      }
      if f :| StatesUnit(lines, last, f, u) {
        assert UnitsOf(most, line)[f] == u;
      }
      assert forall i, f | StatesUnit(lines, i, f, u) :: i == last || StatesUnit(most, i, f, u);
    }
  }
}
