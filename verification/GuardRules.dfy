// Which comparisons scripts/check-exception-set-enumeration.py accepts, said with positions and tokens alone, and what "!"
// does to one.

module GuardRules {
  import opened ShellGuards
  import opened ShellLists
  import opened GuardProofs

  // The first flag is at d, or there is none and d is the end.
  ghost predicate FirstFlagAt(ts: Command, d: nat) {
    d <= |ts| && (d < |ts| ==> ts[d].Deselect?) && forall k | 0 <= k < d :: !ts[k].Deselect?
  }

  predicate LooksBlank(t: Token) {
    t == Space || t == Masked || t == Separator(Newline)
  }

  // An invocation at i has its status saved to the variable at j, before d.
  ghost predicate SavedFrom(ts: Command, i: int, j: int, d: nat, name: string) {
    && 0 <= i && i + 1 < j < d <= |ts| && ts[i].RunNode? && ts[i + 1] == Separator(Semicolon) && ts[j] == SaveStatus(name)
    && forall k | i + 1 < k < j :: LooksBlank(ts[k])
  }

  // A "!" at b opens the conjunct in which the match at m begins.
  ghost predicate BangAt(ts: Command, b: int, m: nat) {
    && 0 <= b < m <= |ts| && (ts[b] == Bang || (ts[b].Word? && |ts[b].text| > 0 && ts[b].text[0] == '!'))
    && (forall k | b <= k < m :: !ts[k].Separator?)
    && exists s :: BlankFrom(ts, s, b)
  }

  // Only white space for the check from the separator before s up to b.
  ghost predicate BlankFrom(ts: Command, s: int, b: int) {
    0 <= s <= b < |ts| && (s > 0 ==> ts[s - 1].Separator?) && forall k | s <= k < b :: ts[k] == Space || ts[k] == Masked
  }

  // "&&" follows the comparison and is the only operator up to d.
  ghost predicate AndUpTo(ts: Command, c: nat, s: int, d: nat) {
    && c < s < d <= |ts| && ts[s] == Separator(And) && (forall k | c < k < s :: ts[k] == Space || ts[k] == Masked)
    && forall k | c < k < d && ts[k].Separator? :: ts[k] == Separator(And)
  }

  // Where the match of a comparison begins.
  function MatchBegins(ts: Command, c: nat): nat
    requires c < |ts| && ts[c].Compare?
  {
    if ts[c].back <= c then c - ts[c].back else c
  }

  ghost predicate MayGuard(ts: Command, c: nat, d: nat) {
    && FirstFlagAt(ts, d) && c < d && ts[c].Compare? && ts[c].value == "1"
    && (exists i, j :: SavedFrom(ts, i, j, d, ts[c].name))
    && (exists s :: AndUpTo(ts, c, s, d))
  }

  lemma {:induction false} FlagIsFirst(ts: Command, d: nat)
    requires FirstFlagAt(ts, d)
    ensures FirstDeselect(ts) == d
  {}

  lemma {:induction false} WhiteRun(ts: Command, i: nat, j: nat)
    requires i <= j <= |ts| && (forall k | i <= k < j :: IsWhite(ts[k])) && (j < |ts| ==> !IsWhite(ts[j]))
    ensures SkipWhite(ts, i) == j
    decreases j - i
  {
    if i < j { WhiteRun(ts, i + 1, j); }
  }

  lemma {:induction false} ConjunctFrom(ts: Command, s: nat, i: nat)
    requires s <= i <= |ts| && (s > 0 ==> ts[s - 1].Separator?) && forall k | s <= k < i :: !ts[k].Separator?
    ensures ConjunctStart(ts, i) == s
    decreases i - s
  {
    if s < i { ConjunctFrom(ts, s, i - 1); }
  }

  lemma NegatedIff(ts: Command, c: nat)
    requires c < |ts| && ts[c].Compare?
    ensures Negated(ts, c) <==> exists b :: BangAt(ts, b, MatchBegins(ts, c))
  {
    var m := MatchBegins(ts, c);
    assert m == MatchStart(ts, c);
    var s := ConjunctStart(ts, m);
    var b := SkipWhite(ts, s);
    if Negated(ts, c) {
      assert BlankFrom(ts, s, b);
      assert BangAt(ts, b, m);
    }
    if a :| BangAt(ts, a, m) {
      var from :| BlankFrom(ts, from, a);
      assert forall k | from <= k < m :: !ts[k].Separator?;
      ConjunctFrom(ts, from, m);
      WhiteRun(ts, from, a);
    }
  }

  lemma CapturesIff(ts: Command, d: nat, i: nat, name: string)
    requires i < d <= |ts|
    ensures Captures(ts[..d], i, name) <==> exists j :: SavedFrom(ts, i, j, d, name)
  {
    var prefix := ts[..d];
    if Captures(prefix, i, name) {
      assert SavedFrom(ts, i, SavedAt(prefix, i), d, name);
    }
    if j :| SavedFrom(ts, i, j, d, name) {
      WhiteRun(prefix, i + 2, j);
    }
  }

  lemma ReachesIff(ts: Command, c: nat, d: nat)
    requires c < d <= |ts|
    ensures Reaches(ts, c, d) <==> exists s :: AndUpTo(ts, c, s, d)
  {
    if Reaches(ts, c, d) {
      var s := SkipWhite(ts, c + 1);
      assert forall k | c < k < s :: IsWhite(ts[k]) && ts[k] != Separator(Newline);
      assert AndUpTo(ts, c, s, d);
    }
    if s :| AndUpTo(ts, c, s, d) {
      WhiteRun(ts, c + 1, s);
    }
  }

  // A comparison is accepted exactly when it may guard and no "!" opens its conjunct.
  lemma AcceptsIff(ts: Command, c: nat, d: nat)
    requires FirstFlagAt(ts, d)
    ensures Accepts(ts, c) <==> MayGuard(ts, c, d) && forall b :: !BangAt(ts, b, MatchBegins(ts, c))
  {
    FlagIsFirst(ts, d);
    if c < d && ts[c].Compare? {
      hide Captures, Reaches, Negated, SavedFrom, AndUpTo, BangAt, MatchBegins;
      NegatedIff(ts, c);
      ReachesIff(ts, c, d);
      var name, l := ts[c].name, LastCapture(ts[..d], ts[c].name, d);
      if l < d {
        CapturesIff(ts, d, l, name);
      } else if i, j :| SavedFrom(ts, i, j, d, name) {
        SavedBefore(ts, i, j, d, name);
        CapturesIff(ts, d, i, name);
      }
    }
  }

  lemma SavedBefore(ts: Command, i: int, j: int, d: nat, name: string)
    requires SavedFrom(ts, i, j, d, name)
    ensures 0 <= i < d
  {}

  // The node is that of the last invocation whose status goes to the variable.
  lemma GuardOfIs(ts: Command, c: nat, d: nat, i: nat, j: nat)
    requires Accepts(ts, c) && FirstFlagAt(ts, d) && SavedFrom(ts, i, j, d, ts[c].name)
    requires forall k, l | i < k :: !SavedFrom(ts, k, l, d, ts[c].name)
    ensures GuardOf(ts, c) == ts[i].node
  {
    FlagIsFirst(ts, d);
    var name, last := ts[c].name, LastCapture(ts[..d], ts[c].name, d);
    hide Captures;
    CapturesIff(ts, d, i, name);
    CapturesIff(ts, d, last, name);
  }

  // ---- Behind "!" ----

  lemma InvertedHasBang(ts: Command, c: nat)
    requires c < |ts| && ts[c].Compare? && Inverted(ts, c)
    ensures exists b :: BangAt(ts, b, MatchBegins(ts, c))
  {
    var b :| InvertedBy(ts, b, c);
    StartIsSeparated(ts, c);
    OneElement(ts, c);
    assert BlankFrom(ts, PlaceAt(ts, c).start, b);
    assert BangAt(ts, b, MatchBegins(ts, c));
  }

  // So no accepted comparison is inverted.
  lemma AcceptedIsNotInverted(ts: Command, c: nat)
    requires Accepts(ts, c)
    ensures !Inverted(ts, c)
  {
    hide Inverted, BangAt, MatchBegins, Accepts;
    AcceptsIff(ts, c, FirstDeselect(ts));
    if Inverted(ts, c) { InvertedHasBang(ts, c); }
  }

  lemma {:induction false} StartIsSeparated(ts: Command, i: nat)
    requires i <= |ts|
    ensures PlaceAt(ts, i).start > 0 ==> ts[PlaceAt(ts, i).start - 1].Separator?
  {
    if i > 0 { StartIsSeparated(ts, i - 1); }
  }

  // And rightly so: with the comparison's status inverted, what "&&" joins to it runs exactly when the saved status is
  // not 1.
  lemma InvertedLetsThrough(ts: Command, c: nat, s: nat, e: Execution)
    requires c < s < |ts| && ts[c].Compare? && Inverted(ts, c) && ts[s] == Separator(And)
    requires forall k | c <= k < s :: !ts[k].Separator?
    requires e.Executes(ts, c)
    requires var sh := e.At(ts, c);
             e.sh(PlaceAt(ts, c).start, sh).status == 0 <==> !IsOne(sh, ts[c].name)
    ensures e.Executes(ts, s + 1) <==> !IsOne(e.At(ts, c), ts[c].name)
  {
    hide Inverted;
    SameElement(ts, e.sh, e.init, c, s);
    AndStep(ts, e.sh, e.init, s);
  }
}
