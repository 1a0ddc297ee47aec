// The language the quote scanner recognises, as trees, and the proof that the scanner is a parser for it.
//
// The grammar follows the POSIX.1-2017 Shell Command Language (quoting in section 2.2, comments in section 2.3, command
// substitution in section 2.6.3) as far as the scanner does: in double quotes and in backquotes every other construct
// may open again, a "$(" runs to the first ")" not inside another construct, and a backslash hides any character after
// it except inside single quotes.

module ShellGrammar {
  import opened ShellScanner

  // A piece of command text as a list of items, each ordinary, hidden by a backslash, or a nested construct.
  datatype Text = End | Then(item: Item, rest: Text)

  datatype Item =
    | Plain(c: char)
    | Escaped(c: char)
    | Quoted(text: string)
    | Comment(text: string)
    | Nested(frame: Frame, body: Text)

  function Opening(frame: Frame): string {
    match frame
    case Top => ""
    case SingleQuotes => "'"
    case DoubleQuotes => "\""
    case Backquotes => "`"
    case Substitution => "$("
  }

  function Closing(frame: Frame): string {
    match frame
    case Top => ""
    case SingleQuotes => "'"
    case DoubleQuotes => "\""
    case Backquotes => "`"
    case Substitution => ")"
  }

  function Render(t: Text): string {
    match t
    case End => ""
    case Then(item, rest) => RenderItem(item) + Render(rest)
  }

  function RenderItem(item: Item): string {
    match item
    case Plain(c) => [c]
    case Escaped(c) => ['\\', c]
    case Quoted(text) => "'" + text + "'"
    case Comment(text) => "#" + text
    case Nested(frame, body) => Opening(frame) + Render(body) + Closing(frame)
  }

  // Only ordinary characters of the outermost text survive.
  function MaskText(t: Text): string {
    match t
    case End => ""
    case Then(item, rest) => MaskItem(item) + MaskText(rest)
  }

  function MaskItem(item: Item): string {
    if item.Plain? then [item.c] else Spaces(|RenderItem(item)|)
  }

  predicate StartsWith(t: Text, c: char) {
    t.Then? && t.item == Plain(c)
  }

  function EndsBlank(item: Item): bool {
    var s := RenderItem(item);
    s != "" && IsBlank(s[|s| - 1])
  }

  // Text that may stand inside frame; boundary: white space or nothing comes before it.
  ghost predicate Fits(t: Text, frame: Frame, boundary: bool) {
    t.Then? ==> FitsItem(t.item, frame, boundary, t.rest) && Fits(t.rest, frame, EndsBlank(t.item))
  }

  ghost predicate FitsItem(item: Item, frame: Frame, boundary: bool, rest: Text) {
    match item
    case Plain(c) =>
      && c != '`' && c != '"'
      && (c == '\'' ==> frame == DoubleQuotes)
      && (c == ')' ==> frame != Substitution)
      && (c == '#' ==> frame != Top || !boundary)
      && (c == '$' ==> !StartsWith(rest, '('))
      && (c == '\\' ==> frame == Top && rest == End)
    case Escaped(_) => true
    case Quoted(text) => frame != DoubleQuotes && '\'' !in text
    case Comment(text) => frame == Top && boundary && '\n' !in text && (rest == End || StartsWith(rest, '\n'))
    case Nested(inner, body) =>
      && inner != Top && inner != SingleQuotes
      && (inner == DoubleQuotes || inner == Backquotes ==> inner != frame)
      && Fits(body, inner, false)
  }

  ghost predicate IsCommand(t: Text) {
    Fits(t, Top, true)
  }

  // What may follow the text of a frame: its closing, or the end of the command.
  ghost predicate Closes(frame: Frame, after: string) {
    if frame == Top then after == "" else after != "" && after[0] == Closing(frame)[0]
  }

  function MaskIn(t: Text, frame: Frame): string {
    if frame == Top then MaskText(t) else Spaces(|Render(t)|)
  }

  lemma SpacesAdd(m: nat, n: nat)
    ensures Spaces(m) + Spaces(n) == Spaces(m + n)
  {
  }

  // ---- One item ----

  lemma RoundStep(s: string, boundary: bool, stack: seq<Frame>, used: string, mask: string, left: seq<Frame>,
                  rest: string)
    requires IsStack(stack) && s == used + rest && used != ""
    requires Next(s, boundary, stack) == Round(mask, left) && |mask| == |used| && IsStack(left)
    ensures Scan(s, boundary, stack) == Scan(rest, IsBlank(used[|used| - 1]), left).After(mask)
  {
    assert s[|mask|..] == rest && s[|mask| - 1] == used[|used| - 1];
  }

  lemma ScanPlain(c: char, frame: Frame, boundary: bool, st: seq<Frame>, rest: Text, after: string)
    requires frame != SingleQuotes && IsStack([frame] + st) && Closes(frame, after)
    requires FitsItem(Plain(c), frame, boundary, rest) && Fits(rest, frame, IsBlank(c))
    ensures Scan([c] + (Render(rest) + after), boundary, [frame] + st) ==
            Scan(Render(rest) + after, IsBlank(c), [frame] + st).After(if frame == Top then [c] else " ")
  {
    var tail := Render(rest) + after;
    var s := [c] + tail;
    assert s[0] == c && (|s| > 1 ==> s[1] == tail[0]);
    if c == '$' && |s| > 1 { FirstCharacter(rest, frame, after); }
    if c == '\\' { assert tail == ""; }
    RoundStep(s, boundary, [frame] + st, [c], if frame == Top then [c] else " ", [frame] + st, tail);
  }

  // Text begins with "(" only as an ordinary character.
  lemma FirstCharacter(t: Text, frame: Frame, after: string)
    requires frame != SingleQuotes && Closes(frame, after) && Render(t) + after != ""
    requires t.Then? && t.item.Nested? ==> t.item.frame != Top
    ensures (Render(t) + after)[0] == '(' ==> StartsWith(t, '(')
  {}

  lemma ScanEscaped(c: char, frame: Frame, boundary: bool, st: seq<Frame>, tail: string)
    requires frame != SingleQuotes && IsStack([frame] + st)
    ensures Scan(['\\', c] + tail, boundary, [frame] + st) == Scan(tail, IsBlank(c), [frame] + st).After("  ")
  {}

  // Inside single quotes everything up to the next quote is hidden.
  lemma {:induction false} ScanQuoted(text: string, boundary: bool, st: seq<Frame>, tail: string)
    requires IsStack([SingleQuotes] + st) && IsStack(st) && '\'' !in text
    ensures Scan(text + "'" + tail, boundary, [SingleQuotes] + st) == Scan(tail, false, st).After(Spaces(|text| + 1))
  {
    var s := text + "'" + tail;
    if text == "" {
      assert ([SingleQuotes] + st)[1..] == st;
      RoundStep(s, boundary, [SingleQuotes] + st, "'", " ", st, tail);
      assert Spaces(1) == " ";
    } else {
      var more := text[1..] + "'" + tail;
      assert s == [text[0]] + more && text[0] in text;
      RoundStep(s, boundary, [SingleQuotes] + st, [text[0]], " ", [SingleQuotes] + st, more);
      ScanQuoted(text[1..], IsBlank(text[0]), st, tail);
      AfterAfter(Scan(tail, false, st), " ", Spaces(|text|));
      SpacesAdd(1, |text|);
      assert Spaces(1) == " ";
    }
  }

  lemma {:induction false} LineOf(text: string, tail: string)
    requires '\n' !in text && (tail == "" || tail[0] == '\n')
    ensures Line(text + tail) == |text|
  {
    if text == "" {
      assert text + tail == tail;
    } else {
      assert text[0] in text && (text + tail)[1..] == text[1..] + tail;
      LineOf(text[1..], tail);
    }
  }

  lemma ScanComment(text: string, tail: string)
    requires '\n' !in text && (tail == "" || tail[0] == '\n')
    ensures var used := "#" + text;
            Scan(used + tail, true, [Top]) == Scan(tail, IsBlank(used[|used| - 1]), [Top]).After(Spaces(|used|))
  {
    hide Scan;
    var used := "#" + text;
    var s := used + tail;
    LineOf(text, tail);
    assert s[1..] == text + tail && s[0] == '#';
    RoundStep(s, true, [Top], used, Spaces(|used|), [Top], tail);
  }

  lemma ScanOpening(inner: Frame, boundary: bool, stack: seq<Frame>, tail: string)
    requires IsStack(stack) && stack[0] != SingleQuotes && inner != Top && inner != SingleQuotes
    requires inner == DoubleQuotes || inner == Backquotes ==> stack[0] != inner
    ensures IsStack([inner] + stack)
    ensures Scan(Opening(inner) + tail, boundary, stack) ==
            Scan(tail, false, [inner] + stack).After(Spaces(|Opening(inner)|))
  {
    var s := Opening(inner) + tail;
    hide Scan;
    assert s[0] == Opening(inner)[0] && (inner == Substitution ==> s[1] == '(');
    assert Spaces(1) == " " && Spaces(2) == "  ";
    RoundStep(s, boundary, stack, Opening(inner), Spaces(|Opening(inner)|), [inner] + stack, tail);
  }

  lemma ScanClosing(inner: Frame, boundary: bool, stack: seq<Frame>, tail: string)
    requires IsStack([inner] + stack) && IsStack(stack) && inner != Top && inner != SingleQuotes
    ensures Scan(Closing(inner) + tail, boundary, [inner] + stack) == Scan(tail, false, stack).After(" ")
  {
    var s := Closing(inner) + tail;
    assert s[0] == Closing(inner)[0] && ([inner] + stack)[1..] == stack;
    RoundStep(s, boundary, [inner] + stack, Closing(inner), " ", stack, tail);
  }

  // ---- Whole texts ----

  function MaskItemIn(item: Item, frame: Frame): string {
    if frame == Top then MaskItem(item) else Spaces(|RenderItem(item)|)
  }

  // The scanner reads a text that fits its frame exactly as the tree says.
  lemma {:induction false} ScanText(t: Text, frame: Frame, boundary: bool, st: seq<Frame>, after: string)
    returns (b: bool)
    requires frame != SingleQuotes && IsStack([frame] + st) && Fits(t, frame, boundary) && Closes(frame, after)
    ensures Scan(Render(t) + after, boundary, [frame] + st) == Scan(after, b, [frame] + st).After(MaskIn(t, frame))
    decreases t, 0
  {
    hide Scan, Next, MaskIn, MaskItemIn, Render, RenderItem, Closes, IsStack;
    if t == End {
      NothingRendered(after);
      NothingMasked(frame);
      b := boundary;
    } else {
      ScanItem(t.item, frame, boundary, st, t.rest, after);
      b := ScanText(t.rest, frame, EndsBlank(t.item), st, after);
      TextStep(t, frame, Scan(Render(t.rest) + after, EndsBlank(t.item), [frame] + st), Scan(after, b, [frame] + st));
      RenderedStep(t.item, t.rest, after);
    }
  }

  lemma NothingRendered(after: string)
    ensures Render(End) + after == after
  {}

  lemma RenderedStep(item: Item, rest: Text, after: string)
    ensures Render(Then(item, rest)) + after == RenderItem(item) + (Render(rest) + after)
  {}

  lemma TextStep(t: Text, frame: Frame, tail: Scanned, end: Scanned)
    requires t.Then? && tail == end.After(MaskIn(t.rest, frame))
    ensures tail.After(MaskItemIn(t.item, frame)) == end.After(MaskIn(t, frame))
  {}

  lemma NothingMasked(frame: Frame)
    ensures MaskIn(End, frame) == ""
    ensures forall r: Scanned :: r.After("") == r
  {}

  lemma {:induction false} ScanItem(item: Item, frame: Frame, boundary: bool, st: seq<Frame>, rest: Text, after: string)
    requires frame != SingleQuotes && IsStack([frame] + st)
    requires FitsItem(item, frame, boundary, rest) && Fits(rest, frame, EndsBlank(item)) && Closes(frame, after)
    ensures Scan(RenderItem(item) + (Render(rest) + after), boundary, [frame] + st) ==
            Scan(Render(rest) + after, EndsBlank(item), [frame] + st).After(MaskItemIn(item, frame))
    decreases item, 0
  {
    hide Scan, Next, MaskItemIn, MaskItem, RenderItem, Render, Spaces, EndsBlank;
    var tail := Render(rest) + after;
    MaskOfItem(item, frame);
    match item {
      case Plain(c) => ScanPlain(c, frame, boundary, st, rest, after);
      case Escaped(c) => ScanEscaped(c, frame, boundary, st, tail);
      case Quoted(text) => ScanQuotedItem(text, boundary, [frame] + st, tail);
      case Comment(text) => ScanCommentItem(text, st, rest, after);
      case Nested(inner, body) =>
        ScanNested(inner, body, boundary, [frame] + st, tail);
        NestedEnds(inner, body);
    }
  }

  // The mask of an item and how it ends, by kind.
  lemma MaskOfItem(item: Item, frame: Frame)
    ensures MaskItemIn(item, frame) == if item.Plain? && frame == Top then [item.c] else Spaces(|RenderItem(item)|)
    ensures item.Plain? ==> RenderItem(item) == [item.c] && EndsBlank(item) == IsBlank(item.c) && Spaces(|RenderItem(item)|) == " "
    ensures item.Escaped? ==>
              RenderItem(item) == ['\\', item.c] && EndsBlank(item) == IsBlank(item.c) && Spaces(|RenderItem(item)|) == "  "
    ensures item.Quoted? ==> !EndsBlank(item)
  {}

  lemma ScanQuotedItem(text: string, boundary: bool, stack: seq<Frame>, tail: string)
    requires IsStack(stack) && stack[0] != SingleQuotes && stack[0] != DoubleQuotes && '\'' !in text
    ensures Scan(RenderItem(Quoted(text)) + tail, boundary, stack) ==
            Scan(tail, false, stack).After(Spaces(|RenderItem(Quoted(text))|))
  {
    hide Scan, Next;
    assert RenderItem(Quoted(text)) + tail == "'" + (text + "'" + tail);
    ScanQuote(boundary, stack, text + "'" + tail);
    ScanQuoted(text, false, stack, tail);
    AfterAfter(Scan(tail, false, stack), " ", Spaces(|text| + 1));
    SpacesAdd(1, |text| + 1);
    assert Spaces(1) == " ";
  }

  lemma ScanCommentItem(text: string, st: seq<Frame>, rest: Text, after: string)
    requires IsStack([Top] + st) && after == "" && FitsItem(Comment(text), Top, true, rest)
    ensures Scan(RenderItem(Comment(text)) + (Render(rest) + after), true, [Top] + st) ==
            Scan(Render(rest) + after, EndsBlank(Comment(text)), [Top] + st).After(Spaces(|RenderItem(Comment(text))|))
  {
    hide Scan, Next;
    assert ([Top] + st)[0] == Top;
    assert [Top] + st == [Top];
    assert Render(rest) + after == Render(rest);
    if rest.Then? {
      assert RenderItem(rest.item) == "\n" && Render(rest) == "\n" + Render(rest.rest);
    }
    ScanComment(text, Render(rest));
  }

  lemma ScanQuote(boundary: bool, stack: seq<Frame>, tail: string)
    requires IsStack(stack) && stack[0] != SingleQuotes && stack[0] != DoubleQuotes
    ensures IsStack([SingleQuotes] + stack)
    ensures Scan("'" + tail, boundary, stack) == Scan(tail, false, [SingleQuotes] + stack).After(" ")
  {}

  lemma {:induction false} ScanNested(inner: Frame, body: Text, boundary: bool, stack: seq<Frame>, tail: string)
    requires IsStack(stack) && stack[0] != SingleQuotes && inner != Top && inner != SingleQuotes
    requires inner == DoubleQuotes || inner == Backquotes ==> stack[0] != inner
    requires Fits(body, inner, false)
    ensures Scan(RenderItem(Nested(inner, body)) + tail, boundary, stack) ==
            Scan(tail, false, stack).After(Spaces(|RenderItem(Nested(inner, body))|))
    decreases body, 1
  {
    hide Scan, Next;
    var open, close := Opening(inner), Closing(inner) + tail;
    assert RenderItem(Nested(inner, body)) + tail == open + (Render(body) + close);
    ScanOpening(inner, boundary, stack, Render(body) + close);
    var b := ScanText(body, inner, false, stack, close);
    ScanClosing(inner, b, stack, tail);
    AfterThree(Scan(tail, false, stack), |open|, |Render(body)|);
  }

  lemma AfterThree(r: Scanned, i: nat, j: nat)
    ensures r.After(" ").After(Spaces(j)).After(Spaces(i)) == r.After(Spaces(i + j + 1))
  {}

  // ---- The converse: what the scanner accepts is the rendering of a tree ----

  lemma InQuotes(s: string, boundary: bool, st: seq<Frame>)
    requires IsStack([SingleQuotes] + st)
    ensures s == "" ==> !Scan(s, boundary, [SingleQuotes] + st).Masked?
    ensures s != "" && s[0] != '\'' ==>
              Scan(s, boundary, [SingleQuotes] + st) == Scan(s[1..], IsBlank(s[0]), [SingleQuotes] + st).After(" ")
  {}

  lemma {:induction false} QuoteEnds(s: string, boundary: bool, st: seq<Frame>) returns (text: string, tail: string)
    requires IsStack([SingleQuotes] + st)
    requires Scan(s, boundary, [SingleQuotes] + st).Masked?
    ensures s == text + "'" + tail && '\'' !in text
    decreases |s|
  {
    hide Scan, IsStack;
    InQuotes(s, boundary, st);
    if s[0] == '\'' {
      text, tail := "", s[1..];
    } else {
      text, tail := QuoteEnds(s[1..], IsBlank(s[0]), st);
      text := [s[0]] + text;
    }
  }

  lemma StartsWithFirst(t: Text, frame: Frame, c: char)
    requires Fits(t, frame, false) || Fits(t, frame, true)
    requires Render(t) != "" && Render(t)[0] == c && c == '\n'
    ensures StartsWith(t, c)
  {}

  // The construct a character opens in a frame, if any.
  function Opened(s: string, frame: Frame): Frame
    requires s != ""
  {
    if s[0] == '`' then Backquotes
    else if s[0] == '"' then DoubleQuotes
    else if s[0] == '$' && |s| > 1 && s[1] == '(' then Substitution
    else Top
  }

  lemma {:induction false} Parse(s: string, frame: Frame, boundary: bool, st: seq<Frame>)
    returns (t: Text, after: string)
    requires frame != SingleQuotes && IsStack([frame] + st) && Scan(s, boundary, [frame] + st).Masked?
    ensures s == Render(t) + after && Fits(t, frame, boundary) && Closes(frame, after)
    decreases |s|, 1
  {
    hide Scan, Next;
    if s == "" || Closes(frame, s) {
      ScanOfNothing(s, frame, boundary, st);
      t, after := End, s;
      assert Render(End) + s == s;
    } else if frame == Top && s[0] == '#' && boundary {
      t := ParseComment(s, st);
      after := "";
      assert Render(t) + after == Render(t);
    } else if s[0] == '\\' && |s| > 1 {
      t, after := ParseEscaped(s, frame, boundary, st);
    } else if s[0] == '\'' && frame != DoubleQuotes {
      t, after := ParseQuoted(s, frame, boundary, st);
    } else if Opened(s, frame) != Top {
      t, after := ParseNested(s, frame, boundary, st);
    } else {
      t, after := ParsePlain(s, frame, boundary, st);
    }
  }

  lemma ScanOfNothing(s: string, frame: Frame, boundary: bool, st: seq<Frame>)
    requires IsStack([frame] + st) && Scan(s, boundary, [frame] + st).Masked?
    requires s == "" || Closes(frame, s)
    ensures Closes(frame, s)
  {
  }

  lemma {:induction false} ParseEscaped(s: string, frame: Frame, boundary: bool, st: seq<Frame>)
    returns (t: Text, after: string)
    requires frame != SingleQuotes && IsStack([frame] + st)
    requires |s| > 1 && s[0] == '\\' && Scan(s, boundary, [frame] + st).Masked?
    ensures s == Render(t) + after && Fits(t, frame, boundary) && Closes(frame, after)
    decreases |s|, 0
  {
    hide Scan, Next, Closes;
    assert s == ['\\', s[1]] + s[2..];
    ScanEscaped(s[1], frame, boundary, st, s[2..]);
    var rest;
    rest, after := Parse(s[2..], frame, IsBlank(s[1]), st);
    t := Joined(Escaped(s[1]), rest, s, s[2..], after);
  }

  lemma Joined(item: Item, t: Text, s: string, tail: string, after: string) returns (r: Text)
    requires s == RenderItem(item) + tail && tail == Render(t) + after
    ensures r == Then(item, t) && s == Render(r) + after
  {
    r := Then(item, t);
  }

  lemma FitsJoined(item: Item, t: Text, frame: Frame, boundary: bool)
    requires FitsItem(item, frame, boundary, t) && Fits(t, frame, EndsBlank(item))
    ensures Fits(Then(item, t), frame, boundary)
  {}

  lemma {:induction false} ParseComment(s: string, st: seq<Frame>) returns (t: Text)
    requires IsStack([Top] + st) && s != "" && s[0] == '#' && Scan(s, true, [Top] + st).Masked?
    ensures s == Render(t) && Fits(t, Top, true)
    decreases |s|, 0
  {
    hide Scan, Next, Render, Fits, FitsItem;
    var text, tail := CommentText(s);
    ScanComment(text, tail);
    assert ([Top] + st)[0] == Top && [Top] + st == [Top];
    var rest, after := Parse(tail, Top, EndsBlank(Comment(text)), st);
    CommentFits(text, tail, rest, after);
    FitsJoined(Comment(text), rest, Top, true);
    t := Joined(Comment(text), rest, s, tail, after);
    assert Render(t) + after == Render(t);
  }

  lemma CommentText(s: string) returns (text: string, tail: string)
    requires s != "" && s[0] == '#'
    ensures s == "#" + text + tail && s == RenderItem(Comment(text)) + tail && '\n' !in text
    ensures tail == "" || tail[0] == '\n'
  {
    var n := Line(s[1..]);
    text, tail := s[1..][..n], s[1..][n..];
  }

  lemma CommentFits(text: string, tail: string, rest: Text, after: string)
    requires '\n' !in text && (tail == "" || tail[0] == '\n')
    requires tail == Render(rest) + after && after == "" && Fits(rest, Top, EndsBlank(Comment(text)))
    ensures FitsItem(Comment(text), Top, true, rest)
  {
    assert Render(rest) == tail;
    RenderNonEmpty(rest, Top, EndsBlank(Comment(text)));
    StartsIn(rest, EndsBlank(Comment(text)));
  }

  lemma StartsIn(rest: Text, boundary: bool)
    requires Fits(rest, Top, boundary)
    ensures Render(rest) != "" && Render(rest)[0] == '\n' ==> StartsWith(rest, '\n')
  {
    if Render(rest) != "" && Render(rest)[0] == '\n' {
      StartsWithFirst(rest, Top, '\n');
    }
  }

  lemma {:induction false} ParseQuoted(s: string, frame: Frame, boundary: bool, st: seq<Frame>)
    returns (t: Text, after: string)
    requires frame != SingleQuotes && frame != DoubleQuotes && IsStack([frame] + st)
    requires s != "" && s[0] == '\'' && Scan(s, boundary, [frame] + st).Masked?
    ensures s == Render(t) + after && Fits(t, frame, boundary) && Closes(frame, after)
    decreases |s|, 0
  {
    hide Scan, Next;
    var stack := [frame] + st;
    assert s == "'" + s[1..];
    ScanQuote(boundary, stack, s[1..]);
    var text, tail := QuoteEnds(s[1..], false, stack);
    ScanQuoted(text, false, stack, tail);
    var rest;
    rest, after := Parse(tail, frame, false, st);
    t := Joined(Quoted(text), rest, s, tail, after);
  }

  lemma {:induction false} ParseNested(s: string, frame: Frame, boundary: bool, st: seq<Frame>)
    returns (t: Text, after: string)
    requires frame != SingleQuotes && IsStack([frame] + st)
    requires s != "" && !Closes(frame, s) && Opened(s, frame) != Top && Scan(s, boundary, [frame] + st).Masked?
    ensures s == Render(t) + after && Fits(t, frame, boundary) && Closes(frame, after)
    decreases |s|, 0
  {
    hide Scan, Next;
    var stack, inner := [frame] + st, Opened(s, frame);
    var inside := s[|Opening(inner)|..];
    assert s == Opening(inner) + inside;
    ScanOpening(inner, boundary, stack, inside);
    var body, close := Parse(inside, inner, false, stack);
    var tail := AfterBody(inner, body, close, stack);
    var rest;
    rest, after := Parse(tail, frame, false, st);
    t := JoinedNested(inner, body, rest, frame, boundary, s, close, tail, after);
  }

  // Once the body is closed the scan goes on in the enclosing frame.
  lemma AfterBody(inner: Frame, body: Text, close: string, stack: seq<Frame>) returns (tail: string)
    requires IsStack(stack) && stack[0] != SingleQuotes && inner != Top && inner != SingleQuotes
    requires IsStack([inner] + stack) && Fits(body, inner, false) && Closes(inner, close)
    requires Scan(Render(body) + close, false, [inner] + stack).Masked?
    ensures close == Closing(inner) + tail && Scan(tail, false, stack).Masked?
  {
    hide Scan, Next;
    var b := ScanText(body, inner, false, stack, close);
    tail := close[1..];
    assert close == Closing(inner) + tail;
    ScanClosing(inner, b, stack, tail);
  }

  lemma JoinedNested(inner: Frame, body: Text, rest: Text, frame: Frame, boundary: bool,
                     s: string, close: string, tail: string, after: string) returns (t: Text)
    requires inner != Top && inner != SingleQuotes && (inner == DoubleQuotes || inner == Backquotes ==> inner != frame)
    requires Fits(body, inner, false) && Fits(rest, frame, false)
    requires s == Opening(inner) + (Render(body) + close) && close == Closing(inner) + tail && tail == Render(rest) + after
    ensures s == Render(t) + after && Fits(t, frame, boundary)
  {
    hide Render, RenderItem, Fits, FitsItem;
    NestedText(inner, body, s, close, tail);
    NestedFits(inner, body, frame, boundary, rest);
    NestedEnds(inner, body);
    FitsJoined(Nested(inner, body), rest, frame, boundary);
    t := Joined(Nested(inner, body), rest, s, tail, after);
  }

  lemma NestedText(inner: Frame, body: Text, s: string, close: string, tail: string)
    requires s == Opening(inner) + (Render(body) + close) && close == Closing(inner) + tail
    ensures s == RenderItem(Nested(inner, body)) + tail
  {}

  lemma NestedFits(inner: Frame, body: Text, frame: Frame, boundary: bool, rest: Text)
    requires inner != Top && inner != SingleQuotes && (inner == DoubleQuotes || inner == Backquotes ==> inner != frame)
    requires Fits(body, inner, false)
    ensures FitsItem(Nested(inner, body), frame, boundary, rest)
  {}

  lemma NestedEnds(inner: Frame, body: Text)
    requires inner != Top
    ensures !EndsBlank(Nested(inner, body))
  {}

  lemma {:induction false} ParsePlain(s: string, frame: Frame, boundary: bool, st: seq<Frame>)
    returns (t: Text, after: string)
    requires frame != SingleQuotes && IsStack([frame] + st)
    requires IsOrdinary(s, frame, boundary) && Scan(s, boundary, [frame] + st).Masked?
    ensures s == Render(t) + after && Fits(t, frame, boundary) && Closes(frame, after)
    decreases |s|, 0
  {
    hide Scan, Next, Render, Fits, FitsItem, IsOrdinary, Closes;
    var c := OrdinaryCharacter(s, frame, boundary);
    OrdinaryRound(s, frame, boundary, st);
    var rest;
    rest, after := Parse(s[1..], frame, IsBlank(c), st);
    OrdinaryFits(s, frame, boundary, rest, after);
    FitsJoined(Plain(c), rest, frame, boundary);
    t := Joined(Plain(c), rest, s, s[1..], after);
  }

  lemma OrdinaryCharacter(s: string, frame: Frame, boundary: bool) returns (c: char)
    requires IsOrdinary(s, frame, boundary)
    ensures s != "" && c == s[0] && s == RenderItem(Plain(c)) + s[1..] && EndsBlank(Plain(c)) == IsBlank(c)
  {
    c := s[0];
  }

  // An ordinary character fits in front of the text parsed behind it.
  lemma OrdinaryFits(s: string, frame: Frame, boundary: bool, rest: Text, after: string)
    requires IsOrdinary(s, frame, boundary) && s[1..] == Render(rest) + after && Closes(frame, after)
    requires Fits(rest, frame, IsBlank(s[0])) && (s[1..] == "" ==> frame == Top)
    ensures FitsItem(Plain(s[0]), frame, boundary, rest)
  {
    if StartsWith(rest, '(') { assert s[1..][0] == '('; }
    RenderNonEmpty(rest, frame, IsBlank(s[0]));
  }

  predicate IsOrdinary(s: string, frame: Frame, boundary: bool) {
    && s != "" && Opened(s, frame) == Top
    && !(frame != Top && frame != SingleQuotes && s[0] == Closing(frame)[0])
    && !(frame == Top && s[0] == '#' && boundary) && !(s[0] == '\\' && |s| > 1)
    && (s[0] == '\'' ==> frame == DoubleQuotes)
  }

  lemma OrdinaryRound(s: string, frame: Frame, boundary: bool, st: seq<Frame>)
    requires frame != SingleQuotes && IsStack([frame] + st) && IsOrdinary(s, frame, boundary)
    ensures Scan(s, boundary, [frame] + st) ==
            Scan(s[1..], IsBlank(s[0]), [frame] + st).After(if frame == Top then [s[0]] else " ")
    ensures s[1..] == "" && Scan(s, boundary, [frame] + st).Masked? ==> frame == Top
  {}

  lemma RenderNonEmpty(t: Text, frame: Frame, boundary: bool)
    requires Fits(t, frame, boundary)
    ensures t == End || Render(t) != ""
  {}

  // ---- The scanner recognises exactly the rendered trees and keeps exactly their ordinary top-level characters ----

  lemma MaskOfCommand(t: Text)
    requires IsCommand(t)
    ensures MaskOf(Render(t)) == Masked(MaskText(t))
  {
    hide *;
    CommandFits(t);
    var b := ScanText(t, Top, true, [], "");
    ScanToEnd(t, b);
  }

  lemma CommandFits(t: Text)
    requires IsCommand(t)
    ensures Fits(t, Top, true) && IsStack([Top] + []) && Closes(Top, "")
  {
  }

  lemma ScanToEnd(t: Text, b: bool)
    requires IsStack([Top] + []) && Scan(Render(t) + "", true, [Top] + []) == Scan("", b, [Top] + []).After(MaskIn(t, Top))
    ensures MaskOf(Render(t)) == Masked(MaskText(t))
  {
    assert [Top] + [] == [Top] && Render(t) + "" == Render(t) && MaskText(t) + "" == MaskText(t);
  }

  lemma CommandOfMask(command: string) returns (t: Text)
    requires MaskOf(command).Masked?
    ensures IsCommand(t) && Render(t) == command && MaskOf(command) == Masked(MaskText(t))
  {
    var after;
    assert [Top] + [] == [Top];
    t, after := Parse(command, Top, true, []);
    assert Render(t) + "" == Render(t);
    MaskOfCommand(t);
  }

  lemma UnterminatedIffNoCommand(command: string)
    ensures MaskOf(command).Unterminated? <==> !exists t :: IsCommand(t) && Render(t) == command
  {
    if MaskOf(command).Masked? {
      var t := CommandOfMask(command);
    }
    forall t | IsCommand(t) && Render(t) == command ensures MaskOf(command).Masked? {
      MaskOfCommand(t);
    }
  }

  // ---- What a mask looks like ----

  lemma {:induction false} MaskTextShape(t: Text)
    ensures |MaskText(t)| == |Render(t)|
    ensures forall i | 0 <= i < |Render(t)| :: MaskText(t)[i] == Render(t)[i] || MaskText(t)[i] == ' '
  {
    if t.Then? { MaskTextShape(t.rest); }
  }

  ghost predicate NoQuoting(s: string) {
    forall i | 0 <= i < |s| ::
      && s[i] != '\'' && s[i] != '"' && s[i] != '`'
      && (s[i] == '\\' ==> i == |s| - 1)
      && (s[i] == '$' && i + 1 < |s| ==> s[i + 1] != '(')
  }

  lemma {:induction false} MaskTextHasNoQuoting(t: Text, boundary: bool)
    requires Fits(t, Top, boundary)
    ensures NoQuoting(MaskText(t))
  {
    if t.Then? {
      MaskTextHasNoQuoting(t.rest, EndsBlank(t.item));
      if t.item == Plain('$') && t.rest.Then? {
        NonPlainIsMasked(t.rest.item, Top, EndsBlank(t.item), t.rest.rest);
        MaskStart(t.rest);
      }
    }
  }

  // Every other item starts with a character its mask lacks.
  lemma NonPlainIsMasked(item: Item, frame: Frame, boundary: bool, rest: Text)
    requires FitsItem(item, frame, boundary, rest)
    ensures |RenderItem(item)| == |MaskItem(item)| > 0
    ensures item.Plain? || RenderItem(item)[0] != MaskItem(item)[0]
  {
  }

  lemma MaskStart(t: Text)
    requires t.Then? && |RenderItem(t.item)| > 0
    ensures MaskText(t) != "" && (MaskText(t)[0] == '(' ==> StartsWith(t, '('))
  {}

  // A mask has the command's length, differs from it only by spaces, and quotes nothing.
  lemma MaskShape(command: string)
    requires MaskOf(command).Masked?
    ensures var m := MaskOf(command).text;
            && |m| == |command|
            && (forall i | 0 <= i < |m| :: m[i] == command[i] || m[i] == ' ')
            && NoQuoting(m)
  {
    var t := CommandOfMask(command);
    MaskTextShape(t);
    MaskTextHasNoQuoting(t, true);
  }

  // ---- Masking twice ----

  // A "#" that a scan from the start would take for a comment.
  ghost predicate CommentSignAt(s: string, boundary: bool, i: nat)
    requires i < |s|
  {
    s[i] == '#' && if i == 0 then boundary else IsBlank(s[i - 1])
  }

  ghost predicate NoCommentSign(s: string, boundary: bool) {
    forall i | 0 <= i < |s| :: !CommentSignAt(s, boundary, i)
  }

  function PlainText(s: string): Text {
    if s == "" then End else Then(Plain(s[0]), PlainText(s[1..]))
  }

  lemma {:induction false} PlainTextFits(s: string, boundary: bool)
    requires NoQuoting(s) && NoCommentSign(s, boundary)
    ensures Fits(PlainText(s), Top, boundary) && Render(PlainText(s)) == s == MaskText(PlainText(s))
  {
    if s != "" {
      var rest := s[1..];
      assert !CommentSignAt(s, boundary, 0);
      forall i | 0 <= i < |rest| ensures !CommentSignAt(rest, IsBlank(s[0]), i) {
        assert !CommentSignAt(s, boundary, i + 1);
      }
      PlainTextFits(rest, IsBlank(s[0]));
      assert s == [s[0]] + rest;
    }
  }

  lemma {:induction false} UnmaskedHasNoCommentSign(t: Text, boundary: bool)
    requires Fits(t, Top, boundary) && MaskText(t) == Render(t)
    ensures NoCommentSign(Render(t), boundary)
  {
    if t.Then? {
      var s, rest, n := Render(t), Render(t.rest), |RenderItem(t.item)|;
      NonPlainIsMasked(t.item, Top, boundary, t.rest);
      assert s[0] == RenderItem(t.item)[0] && MaskText(t)[0] == MaskItem(t.item)[0];
      assert s[n..] == rest && MaskText(t)[n..] == MaskText(t.rest);
      UnmaskedHasNoCommentSign(t.rest, EndsBlank(t.item));
      forall i | 0 <= i < |s| ensures !CommentSignAt(s, boundary, i) {
        if i > 0 { assert !CommentSignAt(rest, EndsBlank(t.item), i - 1); }
      }
    }
  }

  // A second pass leaves a mask alone exactly when no surviving "#" has come to look like a comment.
  lemma MaskingTwiceIff(command: string)
    requires MaskOf(command).Masked?
    ensures var m := MaskOf(command).text; MaskOf(m) == Masked(m) <==> NoCommentSign(m, true)
  {
    var m := MaskOf(command).text;
    MaskShape(command);
    if NoCommentSign(m, true) {
      PlainTextFits(m, true);
      MaskOfCommand(PlainText(m));
    }
    if MaskOf(m) == Masked(m) {
      var t := CommandOfMask(m);
      UnmaskedHasNoCommentSign(t, true);
    }
  }

  // It does not in general: a "#" right after a quoted word survives the first pass only.
  lemma MaskingTwiceCanDiffer()
    ensures MaskOf("''#") == Masked("  #") && MaskOf("  #") == Masked("   ")
  {
    MaskingOnce();
    MaskingAgain();
  }

  lemma MaskingOnce()
    ensures MaskOf("''#") == Masked("  #")
  {
    hide Scan, Next;
    var t := Then(Quoted(""), Then(Plain('#'), End));
    assert RenderItem(t.item) == "''" && Render(t.rest) == "#" && Spaces(2) == "  ";
    assert Render(t) == "''#" && MaskText(t.rest) == "#" && MaskText(t) == "  #";
    MaskOfCommand(t);
  }

  lemma MaskingAgain()
    ensures MaskOf("  #") == Masked("   ")
  {
    hide Scan, Next;
    var comment := Then(Comment(""), End);
    var t := Then(Plain(' '), Then(Plain(' '), comment));
    assert Render(comment) == "#" && MaskText(comment) == Spaces(1) == " ";
    assert Render(t) == "  #" && MaskText(t) == "   ";
    MaskOfCommand(t);
  }
}
