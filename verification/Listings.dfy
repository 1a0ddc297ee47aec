// One boot's directory of snapshots in scripts/claude-recover.py: naming, rotation and write order.

module Listings {
  import opened SnapshotNames

  const KEEP_PER_BOOT: nat := 50

  // A snapshot file holds sessions and the rest of its content, or cannot be read.
  datatype Body = Unreadable | Readable(sessions: seq<string>, rest: string)

  datatype Snapshot = Snapshot(name: Name, body: Body) {
    predicate HasSessions() {
      body.Readable? && body.sessions != []
    }
  }

  type Listing = seq<Snapshot>

  // The files of one directory, sorted by name.
  ghost predicate Sorted(l: Listing) {
    forall i, j | 0 <= i < j < |l| :: Older(l[i].name, l[j].name)
  }

  predicate Holds(l: Listing, name: Name) {
    exists s | s in l :: s.name == name
  }

  function Suffix(n: nat, l: Listing): Listing {
    if |l| <= n then l else l[|l| - n..]
  }

  // ---- Naming: the first free suffix of the second ----

  ghost function SuffixesFrom(l: Listing, second: nat, n: nat): set<nat> {
    set s | s in l && s.name.second == second && s.name.suffix >= n :: s.name.suffix
  }

  function FreeSuffix(l: Listing, second: nat, n: nat): (free: nat)
    ensures n <= free && !Holds(l, Name(second, free))
    ensures forall m | n <= m < free :: Holds(l, Name(second, m))
    decreases SuffixesFrom(l, second, n)
  {
    if Holds(l, Name(second, n)) then
      assert n in SuffixesFrom(l, second, n) && n !in SuffixesFrom(l, second, n + 1);
      FreeSuffix(l, second, n + 1)
    else n
  }

  method ChooseSuffix(l: Listing, second: nat) returns (n: nat)
    ensures n == FreeSuffix(l, second, 0)
  {
    n := 0;
    while Holds(l, Name(second, n))
      invariant FreeSuffix(l, second, 0) == FreeSuffix(l, second, n)
      decreases SuffixesFrom(l, second, n)
    {
      assert n in SuffixesFrom(l, second, n) && n !in SuffixesFrom(l, second, n + 1);
      n := n + 1;
    }
  }

  function Insert(l: Listing, s: Snapshot): Listing {
    if l == [] || Older(s.name, l[0].name) then [s] + l else [l[0]] + Insert(l[1..], s)
  }

  // Writing a snapshot and dropping all but the newest files of its boot.
  function Record(l: Listing, second: nat, body: Body): Listing {
    Suffix(KEEP_PER_BOOT, Insert(l, Snapshot(Name(second, FreeSuffix(l, second, 0)), body)))
  }

  lemma {:induction false} InsertKeepsSorted(l: Listing, s: Snapshot)
    requires Sorted(l) && !Holds(l, s.name)
    ensures Sorted(Insert(l, s))
    ensures forall t :: t in Insert(l, s) <==> t in l || t == s
    ensures |Insert(l, s)| == |l| + 1
  {
    if l != [] && !Older(s.name, l[0].name) {
      var rest := l[1..];
      InsertKeepsSorted(rest, s);
      assert forall t :: t in l <==> t == l[0] || t in rest;
      assert s.name != l[0].name;
      forall t | t in Insert(rest, s) ensures Older(l[0].name, t.name) {
        if t in rest { var k :| 0 <= k < |rest| && rest[k] == t; }
      }
    }
  }

  lemma {:induction false} InsertNewest(l: Listing, s: Snapshot)
    requires forall t | t in l :: Older(t.name, s.name)
    ensures Insert(l, s) == l + [s]
  {
    if l != [] {
      InsertNewest(l[1..], s);
      assert l == [l[0]] + l[1..];
    }
  }

  lemma {:induction false} SuffixesAreFew(l: Listing, second: nat, free: nat)
    requires forall m: nat | m < free :: Holds(l, Name(second, m))
    ensures free <= |l|
    decreases |l|
  {
    if free > 0 {
      // Drop the file that holds the highest suffix; the lower suffixes are still held.
      var k :| 0 <= k < |l| && l[k].name == Name(second, free - 1);
      var rest := l[..k] + l[k + 1..];
      forall m: nat | m < free - 1 ensures Holds(rest, Name(second, m)) {
        var j :| 0 <= j < |l| && l[j].name == Name(second, m);
        assert rest[if j < k then j else j - 1] == l[j];
      }
      SuffixesAreFew(rest, second, free - 1);
    }
  }

  // In a rotated directory a new suffix never needs a third digit, so names sort as file names do.
  lemma FreeSuffixHasTwoDigits(l: Listing, second: nat)
    requires |l| <= KEEP_PER_BOOT
    ensures FreeSuffix(l, second, 0) <= 99
  {
    SuffixesAreFew(l, second, FreeSuffix(l, second, 0));
  }

  // ---- Write order ----

  datatype Write = Write(second: nat, body: Body, forced: bool)

  // The directory after a history of writes, starting empty.
  function Replay(ws: seq<Write>): Listing {
    if ws == [] then []
    else var last := ws[|ws| - 1]; Record(Replay(ws[..|ws| - 1]), last.second, last.body)
  }

  // The name the i-th write gave its file.
  function NameOf(ws: seq<Write>, i: nat): Name
    requires i < |ws|
  {
    Name(ws[i].second, FreeSuffix(Replay(ws[..i]), ws[i].second, 0))
  }

  ghost predicate Paced(ws: seq<Write>) {
    forall i, j | 0 <= i <= j < |ws| :: ws[i].second <= ws[j].second
  }

  // How many earlier writes share the i-th write's second.
  function Earlier(ws: seq<Write>, i: nat): nat
    requires i < |ws|
  {
    if i == 0 || ws[i - 1].second != ws[i].second then 0 else 1 + Earlier(ws, i - 1)
  }

  // At most 51 writes in any second.
  ghost predicate Spaced(ws: seq<Write>) {
    forall i | 0 <= i < |ws| :: Earlier(ws, i) <= KEEP_PER_BOOT
  }

  function Ideal(ws: seq<Write>): Listing {
    seq(|ws|, i requires 0 <= i < |ws| => Snapshot(Name(ws[i].second, Earlier(ws, i)), ws[i].body))
  }

  ghost predicate NamesIncrease(ws: seq<Write>) {
    forall i, j | 0 <= i < j < |ws| :: Older(NameOf(ws, i), NameOf(ws, j))
  }

  lemma {:induction false} EarlierOfPrefix(ws: seq<Write>, n: nat, i: nat)
    requires i < n <= |ws|
    ensures Earlier(ws[..n], i) == Earlier(ws, i)
  {
    if i > 0 { EarlierOfPrefix(ws, n, i - 1); }
  }

  lemma {:induction false} EarlierCounts(ws: seq<Write>, i: nat, k: nat)
    requires i < |ws| && k <= Earlier(ws, i)
    ensures k <= i && ws[i - k].second == ws[i].second && Earlier(ws, i - k) == Earlier(ws, i) - k
  {
    if k > 0 { EarlierCounts(ws, i - 1, k - 1); }
  }

  // Writes of one second are numbered from 0 upwards.
  lemma {:induction false} IdealIncreases(ws: seq<Write>, i: nat, j: nat)
    requires Paced(ws) && i < j < |ws|
    ensures Older(Ideal(ws)[i].name, Ideal(ws)[j].name)
  {
    if ws[i].second == ws[j].second {
      assert ws[j - 1].second == ws[j].second;
      if i < j - 1 { IdealIncreases(ws, i, j - 1); }
    }
  }

  lemma PrefixOfHistory(ws: seq<Write>, n: nat)
    requires n <= |ws| && Paced(ws) && Spaced(ws)
    ensures Paced(ws[..n]) && Spaced(ws[..n])
  {
    forall i | 0 <= i < n ensures Earlier(ws[..n], i) == Earlier(ws, i) {
      EarlierOfPrefix(ws, n, i);
    }
  }

  // What the directory holds after the first n writes, when it holds the newest of them.
  function Kept(ws: seq<Write>, n: nat): Listing
    requires n <= |ws|
  {
    Suffix(KEEP_PER_BOOT, Ideal(ws)[..n])
  }

  lemma KeptAt(ws: seq<Write>, n: nat, k: nat)
    requires n <= |ws| && k < |Kept(ws, n)|
    ensures var at := n - |Kept(ws, n)| + k; 0 <= at < n && Kept(ws, n)[k] == Ideal(ws)[at]
  {
  }

  lemma {:induction false} KeptAreOlder(ws: seq<Write>, n: nat)
    requires n < |ws| && Paced(ws)
    ensures forall t | t in Kept(ws, n) :: Older(t.name, Ideal(ws)[n].name)
  {
    forall t | t in Kept(ws, n) ensures Older(t.name, Ideal(ws)[n].name) {
      var k :| 0 <= k < |Kept(ws, n)| && Kept(ws, n)[k] == t;
      KeptAt(ws, n, k);
      IdealIncreases(ws, n - |Kept(ws, n)| + k, n);
    }
  }

  lemma {:induction false} LowerSuffixKept(ws: seq<Write>, n: nat, m: nat)
    requires n < |ws| && m < Earlier(ws, n) <= KEEP_PER_BOOT
    ensures Holds(Kept(ws, n), Name(ws[n].second, m))
  {
    var back := Earlier(ws, n) - m;
    EarlierCounts(ws, n, back);
    var k := |Kept(ws, n)| - back;
    EarlierCounts(ws, n, Earlier(ws, n));
    KeptAt(ws, n, k);
    assert Kept(ws, n)[k].name == Name(ws[n].second, m);
  }

  // The next write takes the ideal suffix as long as every lower one of its second is still on disk.
  lemma {:induction false} NextSuffix(ws: seq<Write>, n: nat)
    requires n < |ws| && Paced(ws) && Earlier(ws, n) <= KEEP_PER_BOOT
    ensures FreeSuffix(Kept(ws, n), ws[n].second, 0) == Earlier(ws, n)
  {
    KeptAreOlder(ws, n);
    forall m: nat | m < Earlier(ws, n) ensures Holds(Kept(ws, n), Name(ws[n].second, m)) {
      LowerSuffixKept(ws, n, m);
    }
    assert !Holds(Kept(ws, n), Name(ws[n].second, Earlier(ws, n)));
  }

  lemma KeptStep(ws: seq<Write>, n: nat)
    requires n < |ws|
    ensures Suffix(KEEP_PER_BOOT, Kept(ws, n) + [Ideal(ws)[n]]) == Kept(ws, n + 1)
  {}

  // With at most 51 writes in any second the directory always holds the last 50 writes, in write order.
  lemma {:induction false} ReplayKeepsNewest(ws: seq<Write>, n: nat)
    requires n <= |ws| && Paced(ws) && forall i | 0 <= i < n :: Earlier(ws, i) <= KEEP_PER_BOOT
    ensures Replay(ws[..n]) == Kept(ws, n)
  {
    if n > 0 {
      var m := n - 1;
      ReplayKeepsNewest(ws, m);
      ReplayStep(ws, m);
      RecordIdeal(ws, m);
    }
  }

  lemma ReplayStep(ws: seq<Write>, m: nat)
    requires m < |ws|
    ensures Replay(ws[..m + 1]) == Record(Replay(ws[..m]), ws[m].second, ws[m].body)
  {
    assert ws[..m + 1][..m] == ws[..m] && ws[..m + 1][m] == ws[m];
  }

  lemma {:induction false} RecordIdeal(ws: seq<Write>, m: nat)
    requires m < |ws| && Paced(ws) && Earlier(ws, m) <= KEEP_PER_BOOT
    ensures Record(Kept(ws, m), ws[m].second, ws[m].body) == Kept(ws, m + 1)
  {
    NextSuffix(ws, m);
    KeptAreOlder(ws, m);
    InsertNewest(Kept(ws, m), Ideal(ws)[m]);
    KeptStep(ws, m);
  }

  lemma {:induction false} NamesAreIdeal(ws: seq<Write>, i: nat)
    requires Paced(ws) && i < |ws| && forall j | 0 <= j <= i :: Earlier(ws, j) <= KEEP_PER_BOOT
    ensures NameOf(ws, i) == Ideal(ws)[i].name
  {
    ReplayKeepsNewest(ws, i);
    NextSuffix(ws, i);
  }

  // The 52nd write of a second reuses the first name of that second, which rotation freed, and is rotated away at once.
  lemma {:induction false} OverflowReusesName(ws: seq<Write>, i: nat)
    requires Paced(ws) && i < |ws| && Earlier(ws, i) > KEEP_PER_BOOT
    requires forall j | 0 <= j < i :: Earlier(ws, j) <= KEEP_PER_BOOT
    ensures NameOf(ws, i) == Name(ws[i].second, 0)
    ensures Replay(ws[..i + 1]) == Replay(ws[..i])
    ensures i > 0 && !Older(NameOf(ws, i - 1), NameOf(ws, i))
  {
    var l, s := Kept(ws, i), Snapshot(Name(ws[i].second, 0), ws[i].body);
    ReplayKeepsNewest(ws, i);
    KeptAreNewer(ws, i);
    EarlierCounts(ws, i, KEEP_PER_BOOT + 1);
    assert l[|l| - 1] in l;
    NamesAreIdeal(ws, i - 1);
    ReplayStep(ws, i);
    assert l[0] in l && Insert(l, s) == [s] + l;
  }

  // By then all files are newer than that name.
  lemma {:induction false} KeptAreNewer(ws: seq<Write>, i: nat)
    requires Paced(ws) && i < |ws| && Earlier(ws, i) > KEEP_PER_BOOT
    ensures |Kept(ws, i)| == KEEP_PER_BOOT
    ensures forall t | t in Kept(ws, i) :: Older(Name(ws[i].second, 0), t.name)
  {
    var first := i - KEEP_PER_BOOT - 1;
    EarlierCounts(ws, i, KEEP_PER_BOOT + 1);
    forall t | t in Kept(ws, i) ensures Older(Name(ws[i].second, 0), t.name) {
      var k :| 0 <= k < |Kept(ws, i)| && Kept(ws, i)[k] == t;
      KeptAt(ws, i, k);
      IdealIncreases(ws, first, i - |Kept(ws, i)| + k);
    }
  }

  // The directory always holds the last 50 writes exactly when no second sees more than 51 writes.
  lemma {:induction false} ReplayKeepsNewestIff(ws: seq<Write>)
    requires Paced(ws)
    ensures (forall n | 0 <= n <= |ws| :: Replay(ws[..n]) == Kept(ws, n)) <==> Spaced(ws)
  {
    if Spaced(ws) {
      forall n | 0 <= n <= |ws| ensures Replay(ws[..n]) == Kept(ws, n) {
        ReplayKeepsNewest(ws, n);
      }
    } else {
      var i := FirstOverflow(ws);
      OverflowReusesName(ws, i);
      ReplayKeepsNewest(ws, i);
      KeptAreOlder(ws, i);
      KeptAt(ws, i + 1, |Kept(ws, i + 1)| - 1);
      var last := Kept(ws, i + 1)[|Kept(ws, i + 1)| - 1];
      assert last == Ideal(ws)[i];
      assert last in Kept(ws, i + 1) && last !in Kept(ws, i);
    }
  }

  // File names increase in write order exactly when no second sees more than 51 writes.
  lemma {:induction false} NamesIncreaseIffSpaced(ws: seq<Write>)
    requires Paced(ws)
    ensures NamesIncrease(ws) <==> Spaced(ws)
  {
    if Spaced(ws) {
      forall i, j | 0 <= i < j < |ws| ensures Older(NameOf(ws, i), NameOf(ws, j)) {
        NamesAreIdeal(ws, i);
        NamesAreIdeal(ws, j);
        IdealIncreases(ws, i, j);
      }
    } else {
      var i := FirstOverflow(ws);
      OverflowReusesName(ws, i);
    }
  }

  lemma FirstOverflow(ws: seq<Write>) returns (i: nat)
    requires !Spaced(ws)
    ensures i < |ws| && Earlier(ws, i) > KEEP_PER_BOOT
    ensures forall j | 0 <= j < i :: Earlier(ws, j) <= KEEP_PER_BOOT
  {
    i := 0;
    while Earlier(ws, i) <= KEEP_PER_BOOT
      invariant i < |ws|
      invariant forall j | 0 <= j < i :: Earlier(ws, j) <= KEEP_PER_BOOT
      decreases |ws| - i
    {
      i := i + 1;
    }
  }

  // ---- Write if changed ----

  // What the directory's last file holds, if it can be read.
  function LastBody(l: Listing): Body {
    if l == [] then Unreadable else l[|l| - 1].body
  }

  predicate MustWrite(l: Listing, body: Body, force: bool) {
    force || LastBody(l) != body
  }

  datatype Command = Command(second: nat, body: Body, force: bool)

  // The writes a series of snapshot commands makes.
  function Writes(cs: seq<Command>): seq<Write> {
    if cs == [] then []
    else
      var ws, c := Writes(cs[..|cs| - 1]), cs[|cs| - 1];
      if MustWrite(Replay(ws), c.body, c.force) then ws + [Write(c.second, c.body, c.force)] else ws
  }

  // The last file in name order is the last one written.
  lemma {:induction false} LastIsNewest(ws: seq<Write>)
    requires Paced(ws) && Spaced(ws) && ws != []
    ensures Replay(ws) != [] && LastBody(Replay(ws)) == ws[|ws| - 1].body
    ensures Replay(ws)[|Replay(ws)| - 1].name == NameOf(ws, |ws| - 1)
  {
    assert ws[..|ws|] == ws;
    ReplayKeepsNewest(ws, |ws|);
    KeptAt(ws, |ws|, |Kept(ws, |ws|)| - 1);
    NamesAreIdeal(ws, |ws| - 1);
  }

  // An unforced write never repeats the content of the write before it.
  lemma {:induction false} NoRepeatedWrite(cs: seq<Command>, k: nat)
    requires Paced(Writes(cs)) && Spaced(Writes(cs))
    requires k + 1 < |Writes(cs)| && !Writes(cs)[k + 1].forced
    ensures Writes(cs)[k].body != Writes(cs)[k + 1].body
    decreases |cs|
  {
    var before, ws := Writes(cs[..|cs| - 1]), Writes(cs);
    assert before == ws[..|before|];
    PrefixOfHistory(ws, |before|);
    if k + 1 == |before| {
      LastIsNewest(before);
    } else {
      NoRepeatedWrite(cs[..|cs| - 1], k);
    }
  }

  // After any commands that read their content, the last file holds what the last command saw.
  lemma {:induction false} LastFileIsLastCommand(cs: seq<Command>)
    requires cs != [] && (forall c | c in cs :: c.body.Readable?) && Paced(Writes(cs)) && Spaced(Writes(cs))
    ensures Replay(Writes(cs)) != []
    ensures Replay(Writes(cs))[|Replay(Writes(cs))| - 1].body == cs[|cs| - 1].body
  {
    var ws := Writes(cs[..|cs| - 1]);
    assert cs[|cs| - 1].body.Readable?;
    if Writes(cs) != ws {
      LastIsNewest(Writes(cs));
    }
  }
}
