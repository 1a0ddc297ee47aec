// The quote scanner of scripts/check-exception-set-enumeration.py: a pass over an array of characters with a stack of
// frames.

module ShellScanner {

  datatype Frame = Top | SingleQuotes | DoubleQuotes | Backquotes | Substitution

  // ---- The scanner ----

  datatype Scanned = Masked(text: string) | Unterminated(frame: Frame) {
    function After(prefix: string): Scanned {
      if Masked? then Masked(prefix + text) else this
    }
  }

  predicate IsBlank(c: char) {
    c == ' ' || c == '\t' || c == '\n'
  }

  function Spaces(n: nat): (s: string)
    ensures |s| == n && forall i | 0 <= i < n :: s[i] == ' '
  {
    if n == 0 then "" else Spaces(n - 1) + " "
  }

  // Open constructs, innermost first, above the top level.
  ghost predicate IsStack(stack: seq<Frame>) {
    && stack != [] && stack[|stack| - 1] == Top
    && forall i | 0 <= i < |stack| - 1 :: stack[i] != Top
  }

  function Line(s: string): (n: nat)
    ensures n <= |s| && '\n' !in s[..n] && (n < |s| ==> s[n] == '\n')
  {
    if s == "" || s[0] == '\n' then 0 else 1 + Line(s[1..])
  }

  function Toggled(frame: Frame, stack: seq<Frame>): (r: seq<Frame>)
    requires IsStack(stack) && frame != Top
    ensures IsStack(r)
  {
    if stack[0] == frame then stack[1..] else [frame] + stack
  }

  // What one round of the scanner consumes: so many characters, masked as mask, leaving stack open.
  datatype Round = Round(mask: string, stack: seq<Frame>)

  // boundary: nothing, or white space, comes right before s.
  function Next(s: string, boundary: bool, stack: seq<Frame>): (r: Round)
    requires s != "" && IsStack(stack)
    ensures 0 < |r.mask| <= |s| && IsStack(r.stack)
  {
    var c, frame := s[0], stack[0];
    if frame == SingleQuotes then Round(" ", if c == '\'' then stack[1..] else stack)
    else if frame == Top && c == '#' && boundary then Round(Spaces(1 + Line(s[1..])), stack)
    else if c == '\\' && |s| > 1 then Round("  ", stack)
    else if c == '`' then Round(" ", Toggled(Backquotes, stack))
    else if c == '"' then Round(" ", Toggled(DoubleQuotes, stack))
    else if c == '\'' && frame != DoubleQuotes then Round(" ", [SingleQuotes] + stack)
    else if c == '$' && |s| > 1 && s[1] == '(' then Round("  ", [Substitution] + stack)
    else if c == ')' && frame == Substitution then Round(" ", stack[1..])
    else Round(if frame == Top then [c] else " ", stack)
  }

  // The mask of what is left of a command.
  function Scan(s: string, boundary: bool, stack: seq<Frame>): Scanned
    requires IsStack(stack)
    decreases |s|
  {
    if s == "" then
      if stack == [Top] then Masked("") else Unterminated(stack[0])
    else
      var r := Next(s, boundary, stack);
      Scan(s[|r.mask|..], IsBlank(s[|r.mask| - 1]), r.stack).After(r.mask)
  }

  function MaskOf(command: string): Scanned {
    Scan(command, true, [Top])
  }

  ghost predicate Boundary(command: string, i: nat)
    requires i <= |command|
  {
    i == 0 || IsBlank(command[i - 1])
  }

  lemma AfterAfter(r: Scanned, a: string, b: string)
    ensures r.After(b).After(a) == r.After(a + b)
  {}

  // With i characters masked as done, the scan of the rest completes the mask of the command.
  ghost predicate Progress(command: string, i: nat, stack: seq<Frame>, done: string) {
    && i <= |command| && IsStack(stack)
    && MaskOf(command) == Scan(command[i..], Boundary(command, i), stack).After(done)
  }

  lemma ProgressStart(command: string)
    ensures IsStack([Top]) && Progress(command, 0, [Top], "")
  {}

  lemma ProgressStep(command: string, i: nat, stack: seq<Frame>, done: string)
    requires i < |command| && Progress(command, i, stack, done)
    ensures var r := Next(command[i..], Boundary(command, i), stack);
            Progress(command, i + |r.mask|, r.stack, done + r.mask)
  {
    var r := Next(command[i..], Boundary(command, i), stack);
    var j := i + |r.mask|;
    assert command[i..][|r.mask|..] == command[j..];
    AfterAfter(Scan(command[j..], Boundary(command, j), r.stack), done, r.mask);
  }

  lemma ProgressEnd(command: string, stack: seq<Frame>, done: string)
    requires Progress(command, |command|, stack, done)
    ensures MaskOf(command) == if stack == [Top] then Masked(done) else Unterminated(stack[0])
  {}

  // The loop state: i characters of out are masked, the others still as in the command.
  ghost predicate Looping(command: string, out: array<char>, i: nat, stack: seq<Frame>)
    reads out
  {
    i <= out.Length == |command| && out[i..] == command[i..] && Progress(command, i, stack, out[..i])
  }

  method MaskQuoted(command: string) returns (r: Scanned)
    ensures r == MaskOf(command)
  {
    var out := Characters(command);
    var stack, i := [Top], 0;
    while i < |command|
      invariant Looping(command, out, i, stack)
      decreases |command| - i
    {
      i, stack := Advance(command, out, i, stack);
    }
    ProgressEnd(command, stack, out[..i]);
    assert out[..i] == out[..];
    return if stack == [Top] then Masked(out[..]) else Unterminated(stack[0]);
  }

  method Characters(command: string) returns (out: array<char>)
    ensures fresh(out) && Looping(command, out, 0, [Top])
  {
    out := new char[|command|](i requires 0 <= i < |command| => command[i]);
    ProgressStart(command);
    assert out[..0] == "" && out[0..] == command == command[0..];
  }

  method Advance(command: string, out: array<char>, i: nat, stack: seq<Frame>) returns (j: nat, left: seq<Frame>)
    requires i < |command| && Looping(command, out, i, stack)
    modifies out
    ensures i < j && Looping(command, out, j, left)
  {
    hide Scan, Next;
    ghost var r := Next(command[i..], Boundary(command, i), stack);
    ghost var before := out[..];
    ProgressStep(command, i, stack, out[..i]);
    j, left := Consume(command, out, i, stack);
    assert out[..j] == out[..i] + out[i..j];
    assert before[..i] == old(out[..i]);
    assert out[j..] == before[j..] == before[i..][j - i..] == command[i..][j - i..] == command[j..];
  }

  // One round of the loop.
  method Consume(command: string, out: array<char>, i: nat, stack: seq<Frame>) returns (j: nat, left: seq<Frame>)
    requires i < |command| == out.Length && IsStack(stack) && out[i..] == command[i..]
    modifies out
    ensures var r := Next(command[i..], Boundary(command, i), stack);
            j == i + |r.mask| <= |command| && left == r.stack && out[i..j] == r.mask
    ensures out[..i] == old(out[..i]) && out[j..] == old(out[j..])
  {
    var frame, c := stack[0], command[i];
    ghost var s := command[i..];
    ghost var r := Next(s, Boundary(command, i), stack);
    assert s[0] == c && out[i] == out[i..][0] == c;
    assert i + 1 < |command| ==> s[1] == command[i + 1];
    j, left := i + 1, stack;
    if frame == SingleQuotes {
      if c == '\'' { left := stack[1..]; }
      out[i] := ' ';
    } else if frame == Top && c == '#' && (i == 0 || IsBlank(command[i - 1])) {
      assert s[1..] == command[i + 1..];
      j := i + 1 + Line(command[i + 1..]);
      Blank(out, i, j);
    } else if c == '\\' && i + 1 < |command| {
      out[i], out[i + 1] := ' ', ' ';
      j := i + 2;
    } else if c == '`' {
      left := Toggled(Backquotes, stack);
      out[i] := ' ';
    } else if c == '"' {
      left := Toggled(DoubleQuotes, stack);
      out[i] := ' ';
    } else if c == '\'' && frame != DoubleQuotes {
      left := [SingleQuotes] + stack;
      out[i] := ' ';
    } else if c == '$' && i + 1 < |command| && command[i + 1] == '(' {
      left := [Substitution] + stack;
      out[i], out[i + 1] := ' ', ' ';
      j := i + 2;
    } else if c == ')' && frame == Substitution {
      left := stack[1..];
      out[i] := ' ';
    } else if frame != Top {
      out[i] := ' ';
    }
    assert left == r.stack;
    assert j == i + |r.mask|;
    assert out[i..j] == r.mask;
  }

  method Blank(out: array<char>, i: nat, j: nat)
    requires i <= j <= out.Length
    modifies out
    ensures out[i..j] == Spaces(j - i) && out[..i] == old(out[..i]) && out[j..] == old(out[j..])
  {
    for k := i to j
      invariant forall m | 0 <= m < out.Length :: out[m] == if i <= m < k then ' ' else old(out[m])
    {
      out[k] := ' ';
    }
  }
}
