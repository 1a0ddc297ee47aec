// What follows a "--deselect": the node that scripts/check-exception-set-enumeration.py reads there, and the one the shell
// passes on.

module ShellFlags {
  import opened Options
  import opened CommandLine

  // The text behind the flag: a character the mask keeps; text it blanks, with what that puts into a word; a comment. An
  // escaped newline is a blank, and between two parts of a word quoted text that puts nothing into it.
  datatype Piece = Char(c: char) | Quoted(text: string) | Comment

  type Tail = seq<Piece>

  // ---- What the check reads: (\s+|=)(\S+?)(?=\s|;|\}|$) on the masked text ----

  predicate White(p: Piece) {
    p.Char? ==> IsSpace(p.c)
  }

  predicate Stops(p: Piece) {
    White(p) || p == Char(';') || p == Char('}')
  }

  function SkipAllWhite(t: Tail, i: nat): (j: nat)
    requires i <= |t|
    ensures i <= j <= |t| && (forall k | i <= k < j :: White(t[k])) && (j < |t| ==> !White(t[j]))
    decreases |t| - i
  {
    if i < |t| && White(t[i]) then SkipAllWhite(t, i + 1) else i
  }

  // Where the node read begins, or |t|.
  function NodeStart(t: Tail): (i: nat)
    ensures i <= |t| && (i < |t| ==> 0 < i && !White(t[i]))
    ensures i < |t| && t[0] != Char('=') ==> forall k | 0 <= k < i :: White(t[k])
    ensures i < |t| && t[0] == Char('=') ==> i == 1
  {
    if t == [] then 0
    else if t[0] == Char('=') then if |t| > 1 && !White(t[1]) then 1 else |t|
    else if White(t[0]) then SkipAllWhite(t, 0)
    else |t|
  }

  // The first stop from position i on, or |t|.
  function StopAt(t: Tail, i: nat): (j: nat)
    requires i <= |t|
    ensures i <= j <= |t| && (forall k | i <= k < j :: !Stops(t[k])) && (j < |t| ==> Stops(t[j]))
    decreases |t| - i
  {
    if i < |t| && !Stops(t[i]) then StopAt(t, i + 1) else i
  }

  predicate Reads(t: Tail) {
    NodeStart(t) < |t|
  }

  // The first character of a node may be a stop that is not white.
  function NodeEnd(t: Tail): (j: nat)
    requires Reads(t)
    ensures NodeStart(t) < j <= |t| && forall k | NodeStart(t) <= k < j :: t[k].Char? && !White(t[k])
  {
    StopAt(t, NodeStart(t) + 1)
  }

  function TextOf(t: Tail): string {
    if t == [] then "" else (if t[0].Char? then [t[0].c] else if t[0].Quoted? then t[0].text else "") + TextOf(t[1..])
  }

  // The node read, "" when there is none.
  function NodeRead(t: Tail): string {
    if Reads(t) then TextOf(t[NodeStart(t)..NodeEnd(t)]) else ""
  }

  lemma NodeIs(t: Tail, x: nat, y: nat)
    requires 0 < x < y <= |t| && t[0] != Char('=') && (forall k | 0 <= k < x :: White(t[k])) && !White(t[x])
    requires (forall k | x < k < y :: !Stops(t[k])) && (y < |t| ==> Stops(t[y]))
    ensures NodeStart(t) == x && NodeEnd(t) == y && NodeRead(t) == TextOf(t[x..y])
  {
    hide White, Stops;
    WhiteUpTo(t, 0, x);
    StopsAt(t, x + 1, y);
  }

  lemma {:induction false} WhiteUpTo(t: Tail, i: nat, j: nat)
    requires i <= j < |t| && (forall k | i <= k < j :: White(t[k])) && !White(t[j])
    ensures SkipAllWhite(t, i) == j
    decreases j - i
  {
    if i < j { WhiteUpTo(t, i + 1, j); }
  }

  lemma {:induction false} StopsAt(t: Tail, i: nat, j: nat)
    requires i <= j <= |t| && (forall k | i <= k < j :: !Stops(t[k])) && (j < |t| ==> Stops(t[j]))
    ensures StopAt(t, i) == j
    decreases j - i
  {
    if i < j { StopsAt(t, i + 1, j); }
  }

  // ---- What the shell passes ----

  predicate IsBlankPiece(p: Piece) {
    p == Char(' ') || p == Char('\t')
  }

  predicate EndsWord(p: Piece) {
    p.Comment? || (p.Char? && p.c in " \t\n;&|<>()")
  }

  function WordEnd(t: Tail, i: nat): (j: nat)
    requires i <= |t|
    ensures i <= j <= |t| && (forall k | i <= k < j :: !EndsWord(t[k])) && (j < |t| ==> EndsWord(t[j]))
    decreases |t| - i
  {
    if i < |t| && !EndsWord(t[i]) then WordEnd(t, i + 1) else i
  }

  function SkipBlanks(t: Tail, i: nat): (j: nat)
    requires i <= |t|
    ensures i <= j <= |t| && (forall k | i <= k < j :: IsBlankPiece(t[k])) && (j < |t| ==> !IsBlankPiece(t[j]))
    decreases |t| - i
  {
    if i < |t| && IsBlankPiece(t[i]) then SkipBlanks(t, i + 1) else i
  }

  // The argument of a flag that begins a word: what follows "=" in that word, or the next word.
  function Passed(t: Tail): Option<string> {
    var e := WordEnd(t, 0);
    var own := TextOf(t[..e]);
    if own != "" then if own[0] == '=' then Some(own[1..]) else None
    else
      var i := SkipBlanks(t, e);
      if i == e || i == |t| || EndsWord(t[i]) then None else Some(TextOf(t[i..WordEnd(t, i)]))
  }

  // ---- When the two agree ----

  // The same to the check: only the blanked text differs.
  predicate SameMask(t: Tail, u: Tail) {
    |t| == |u| && forall k | 0 <= k < |t| :: t[k] == u[k] || (t[k].Quoted? && u[k].Quoted?)
  }

  // Only blanks, or "=", before the node, and the node is a whole word of the shell.
  predicate Direct(t: Tail) {
    && Reads(t)
    && (t[0] == Char('=') || forall k | 0 <= k < NodeStart(t) :: IsBlankPiece(t[k]))
    && (forall k | NodeStart(t) <= k < NodeEnd(t) :: !EndsWord(t[k]))
    && (NodeEnd(t) < |t| ==> EndsWord(t[NodeEnd(t)]))
  }

  lemma {:induction false} TextConcat(a: Tail, b: Tail)
    ensures TextOf(a + b) == TextOf(a) + TextOf(b)
  {
    if a == [] {
      assert a + b == b;
    } else {
      assert (a + b)[1..] == a[1..] + b;
      TextConcat(a[1..], b);
    }
  }

  lemma {:induction false} CharsCount(t: Tail)
    requires forall k | 0 <= k < |t| :: t[k].Char?
    ensures |TextOf(t)| == |t| && forall k | 0 <= k < |t| :: TextOf(t)[k] == t[k].c
  {
    if t != [] { CharsCount(t[1..]); }
  }

  lemma WordEndIs(t: Tail, i: nat, j: nat)
    requires i <= j <= |t| && (forall k | i <= k < j :: !EndsWord(t[k])) && (j < |t| ==> EndsWord(t[j]))
    ensures WordEnd(t, i) == j
  {}

  lemma SkipBlanksIs(t: Tail, i: nat, j: nat)
    requires i <= j <= |t| && (forall k | i <= k < j :: IsBlankPiece(t[k])) && (j < |t| ==> !IsBlankPiece(t[j]))
    ensures SkipBlanks(t, i) == j
  {}

  lemma DirectIsPassed(t: Tail)
    requires Direct(t)
    ensures Passed(t) == Some(NodeRead(t))
  {
    var x, y := NodeStart(t), NodeEnd(t);
    WordEndIs(t, x, y);
    if t[0] == Char('=') {
      WordEndIs(t, 0, y);
      assert t[..y] == [t[0]] + t[x..y];
      TextConcat([t[0]], t[x..y]);
      assert TextOf([t[0]]) == "=";
    } else {
      WordEndIs(t, 0, 0);
      SkipBlanksIs(t, 0, x);
    }
  }

  lemma SameStart(t: Tail, u: Tail)
    requires SameMask(t, u)
    ensures NodeStart(t) == NodeStart(u)
  {
    if t != [] {
      assert White(t[0]) == White(u[0]);
      if White(t[0]) { SameSkip(t, u, 0); }
    }
  }

  lemma {:induction false} SameSkip(t: Tail, u: Tail, i: nat)
    requires SameMask(t, u) && i <= |t|
    ensures SkipAllWhite(t, i) == SkipAllWhite(u, i)
    decreases |t| - i
  {
    if i < |t| { SameSkip(t, u, i + 1); }
  }

  lemma {:induction false} SameStop(t: Tail, u: Tail, i: nat)
    requires SameMask(t, u) && i <= |t|
    ensures StopAt(t, i) == StopAt(u, i)
    decreases |t| - i
  {
    if i < |t| { SameStop(t, u, i + 1); }
  }

  lemma SameRead(t: Tail, u: Tail)
    requires SameMask(t, u)
    ensures NodeStart(t) == NodeStart(u) && NodeRead(t) == NodeRead(u) && (Reads(t) ==> NodeEnd(t) == NodeEnd(u))
  {
    SameStart(t, u);
    if Reads(t) {
      SameStop(t, u, NodeStart(t) + 1);
      assert t[NodeStart(t)..NodeEnd(t)] == u[NodeStart(t)..NodeEnd(t)];
    }
  }

  lemma SameNodes(t: Tail, u: Tail)
    requires SameMask(t, u)
    ensures Reads(t) == Reads(u) && NodeRead(t) == NodeRead(u) && (Direct(t) <==> Direct(u))
  {
    hide NodeRead, NodeStart, NodeEnd;
    SameRead(t, u);
    assert forall k | 0 <= k < |t| :: EndsWord(t[k]) == EndsWord(u[k]) && IsBlankPiece(t[k]) == IsBlankPiece(u[k]);
  }

  // Every blanked text replaced.
  function Filled(t: Tail, text: string): (u: Tail)
    ensures SameMask(t, u) && forall k | 0 <= k < |u| && u[k].Quoted? :: u[k].text == text
  {
    seq(|t|, k requires 0 <= k < |t| => if t[k].Quoted? then Quoted(text) else t[k])
  }

  function Crosses(n: nat): (s: string)
    ensures |s| == n && forall k | 0 <= k < n :: s[k] == 'x'
  {
    if n == 0 then "" else "x" + Crosses(n - 1)
  }

  // A text is at least as long as what one of its pieces puts in.
  lemma TextAtLeast(t: Tail, k: nat)
    requires k < |t|
    ensures |TextOf(t)| >= |TextOf([t[k]])|
  {
    assert t == t[..k] + [t[k]] + t[k + 1..];
    TextConcat(t[..k] + [t[k]], t[k + 1..]);
    TextConcat(t[..k], [t[k]]);
  }

  // A word that begins where the node does and ends elsewhere is not the node.
  lemma OtherWord(t: Tail, i: nat)
    requires Reads(t) && i == NodeStart(t) && WordEnd(t, i) != NodeEnd(t)
    requires forall k | 0 <= k < |t| && t[k].Quoted? :: t[k].text != ""
    ensures TextOf(t[i..WordEnd(t, i)]) != NodeRead(t)
  {
    var y, e := NodeEnd(t), WordEnd(t, i);
    CharsCount(t[i..y]);
    if e < y {
      CharsCount(t[i..e]);
    } else {
      assert t[i..e] == t[i..y] + t[y..e];
      TextConcat(t[i..y], t[y..e]);
      TextAtLeast(t[y..e], 0);
    }
  }

  // The first piece of a word shows in its text.
  lemma FirstPiece(t: Tail, i: nat, e: nat)
    requires i < e <= |t|
    ensures TextOf(t[i..e]) == (if t[i].Char? then [t[i].c] else if t[i].Quoted? then t[i].text else "") + TextOf(t[i + 1..e])
  {
    assert t[i..e][1..] == t[i + 1..e];
  }

  // Every blanked text is longer than the node, and begins with a character of its own.
  ghost predicate Crossed(t: Tail) {
    forall k | 0 <= k < |t| && t[k].Quoted? :: |t[k].text| == |NodeRead(t)| + 1 && t[k].text[0] == 'x'
  }

  lemma NotDirectIsNotPassed(t: Tail)
    requires Reads(t) && !Direct(t) && Crossed(t)
    ensures Passed(t) != Some(NodeRead(t))
  {
    var x, e := NodeStart(t), WordEnd(t, 0);
    assert t[..0] == [] && t[0..e] == t[..e];
    if t[0] == Char('=') {
      if WordEnd(t, x) != NodeEnd(t) { OtherWord(t, x); }
      WordEndIs(t, 0, WordEnd(t, x));
      FirstPiece(t, 0, e);
    } else if e > 0 {
      FirstPiece(t, 0, e);
    } else {
      NextWordIsOther(t);
    }
  }

  lemma NextWord(t: Tail)
    requires WordEnd(t, 0) == 0
    ensures var i := SkipBlanks(t, 0);
            Passed(t) == if i == 0 || i == |t| || EndsWord(t[i]) then None else Some(TextOf(t[i..WordEnd(t, i)]))
  {
    assert t[..0] == [];
  }

  // A word that begins before the node is not the node.
  lemma EarlierWord(t: Tail, i: nat)
    requires Reads(t) && Crossed(t) && i < NodeStart(t) && t[0] != Char('=') && !EndsWord(t[i])
    ensures TextOf(t[i..WordEnd(t, i)]) != NodeRead(t)
  {
    NodeBegins(t);
    assert White(t[i]) && !t[i].Comment? && i < WordEnd(t, i);
    hide EndsWord, NodeStart, NodeRead, TextOf, IsSpace, Reads;
    FirstPiece(t, i, WordEnd(t, i));
  }

  lemma NodeBegins(t: Tail)
    requires Reads(t)
    ensures NodeRead(t) != "" && !IsSpace(NodeRead(t)[0])
  {
    var x, y := NodeStart(t), NodeEnd(t);
    assert t[x].Char? && !White(t[x]);
    hide NodeStart, NodeEnd, IsSpace;
    CharsCount(t[x..y]);
  }

  // The next word begins before the node, or ends elsewhere.
  lemma NextWordIsOther(t: Tail)
    requires Reads(t) && !Direct(t) && Crossed(t) && t[0] != Char('=') && WordEnd(t, 0) == 0
    ensures Passed(t) != Some(NodeRead(t))
  {
    hide Passed, NodeStart, NodeEnd, NodeRead, TextOf, EndsWord, Reads, Crossed;
    var x, i := NodeStart(t), SkipBlanks(t, 0);
    NextWord(t);
    assert i <= x by { BlanksAreWhite(t); }
    if i > 0 && i < x && !EndsWord(t[i]) {
      EarlierWord(t, i);
    } else if i == x && WordEnd(t, x) != NodeEnd(t) {
      NotEmpty(t);
      OtherWord(t, x);
    }
  }

  lemma NotEmpty(t: Tail)
    requires Crossed(t)
    ensures forall k | 0 <= k < |t| && t[k].Quoted? :: t[k].text != ""
  {}

  lemma BlanksAreWhite(t: Tail)
    requires Reads(t) && t[0] != Char('=')
    ensures SkipBlanks(t, 0) <= NodeStart(t)
  {}

  // Whatever the blanked text is, the shell passes the node that is read, exactly if the node is read directly.
  lemma ReadIsPassedIff(t: Tail)
    requires Reads(t)
    ensures (forall u | SameMask(t, u) :: Passed(u) == Some(NodeRead(t))) <==> Direct(t)
  {
    if Direct(t) {
      forall u | SameMask(t, u) ensures Passed(u) == Some(NodeRead(t)) {
        SameNodes(t, u);
        DirectIsPassed(u);
      }
    } else {
      var u := Filled(t, Crosses(|NodeRead(t)| + 1));
      SameNodes(t, u);
      NotDirectIsNotPassed(u);
    }
  }
}
