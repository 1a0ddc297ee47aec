// The snapshot store of scripts/claude-recover.py: one directory per boot, the boot-aware choice of the snapshot to
// restore, and rotation.

module SnapshotStore {
  import opened Options
  import opened SnapshotNames
  import opened Listings

  const KEEP_PREV_BOOTS: nat := 3
  const DEADLINE_S: int := 45 * 60
  const PENDING_RESTORE_WINDOW_S: int := DEADLINE_S + 15 * 60

  type BootId = string

  // The directories that hold at least one snapshot.
  type Store = map<BootId, Listing>

  datatype Choice = Choice(boot: BootId, snap: Snapshot)

  ghost predicate Valid(store: Store) {
    forall b | b in store :: store[b] != [] && Sorted(store[b])
  }

  // No two boots share a snapshot name.
  ghost predicate DistinctNames(store: Store) {
    forall b, c | b in store && c in store && b != c :: DisjointNames(store[b], store[c])
  }

  ghost predicate DisjointNames(l: Listing, m: Listing) {
    forall s, t | s in l && t in m :: s.name != t.name
  }

  function Files(store: Store, boot: BootId): Listing {
    if boot in store then store[boot] else []
  }

  function Newest(l: Listing): Name
    requires l != []
  {
    l[|l| - 1].name
  }

  // ---- Choosing the snapshot to restore ----

  ghost predicate Candidate(store: Store, current: BootId, anyBoot: bool, c: Choice) {
    c.boot in store && (anyBoot || c.boot != current) && c.snap in store[c.boot]
  }

  // The newest session-bearing candidate, or the newest of all when none bears sessions or any boot may be chosen.
  ghost predicate Selected(store: Store, current: BootId, anyBoot: bool, r: Option<Choice>) {
    match r
    case None => forall c :: !Candidate(store, current, anyBoot, c)
    case Some(best) =>
      && Candidate(store, current, anyBoot, best)
      && forall c | Candidate(store, current, anyBoot, c) && c != best ::
           if anyBoot || best.snap.HasSessions() == c.snap.HasSessions() then Older(c.snap.name, best.snap.name)
           else best.snap.HasSessions()
  }

  lemma SelectedUnique(store: Store, current: BootId, anyBoot: bool, r: Option<Choice>, r': Option<Choice>)
    requires Selected(store, current, anyBoot, r) && Selected(store, current, anyBoot, r')
    ensures r == r'
  {}

  // ---- Rotation ----

  // The previous boots whose newest snapshot is newer than boot b's.
  ghost function NewerBoots(store: Store, current: BootId, b: BootId): set<BootId>
    requires Valid(store) && b in store
  {
    set c | c in store && c != current && Older(Newest(store[b]), Newest(store[c]))
  }

  ghost predicate Recent(store: Store, current: BootId, b: BootId)
    requires Valid(store) && b in store
  {
    |NewerBoots(store, current, b)| < KEEP_PREV_BOOTS
  }

  // The position of the newest session-bearing snapshot, or -1.
  function LastWithSessions(l: Listing): (i: int)
    ensures -1 <= i < |l|
    ensures i >= 0 ==> l[i].HasSessions()
    ensures forall j | i < j < |l| :: !l[j].HasSessions()
  {
    if l == [] then -1
    else if l[|l| - 1].HasSessions() then |l| - 1
    else LastWithSessions(l[..|l| - 1])
  }

  // What rotation leaves of a previous boot: its last snapshot and its newest session-bearing one.
  function Thinned(l: Listing): Listing {
    if l == [] then []
    else
      var i, last := LastWithSessions(l), |l| - 1;
      if 0 <= i < last then [l[i], l[last]] else [l[last]]
  }

  ghost function Rotated(store: Store, current: BootId): Store
    requires Valid(store)
  {
    map b | b in store && (b == current || Recent(store, current, b)) ::
      if b == current then Suffix(KEEP_PER_BOOT, store[b]) else Thinned(store[b])
  }

  lemma ThinnedFacts(l: Listing)
    requires Sorted(l) && l != []
    ensures var t := Thinned(l);
            t != [] && |t| <= 2 && Sorted(t) && Newest(t) == Newest(l) && (forall s | s in t :: s in l) &&
            Thinned(t) == t
    ensures forall s | s in l && s.HasSessions() ::
              exists k | k in Thinned(l) && k.HasSessions() :: k == s || Older(s.name, k.name)
  {
    var i, t := LastWithSessions(l), Thinned(l);
    if i >= 0 { assert l[i] in t; }
    forall s | s in l && s.HasSessions()
      ensures exists k | k in t && k.HasSessions() :: k == s || Older(s.name, k.name)
    {
      var j :| 0 <= j < |l| && l[j] == s;
      assert l[i] in t && (j == i || j < i);
    }
    assert t[..|t| - 1] == if |t| == 2 then [t[0]] else [];
    assert LastWithSessions(t[..|t| - 1]) == if |t| == 2 then 0 else -1;
  }

  lemma SuffixFacts(l: Listing)
    requires Sorted(l) && l != []
    ensures var t := Suffix(KEEP_PER_BOOT, l);
            t != [] && |t| <= KEEP_PER_BOOT && Sorted(t) && Newest(t) == Newest(l) && (forall s | s in t :: s in l) &&
            Suffix(KEEP_PER_BOOT, t) == t
  {
  }

  lemma RotatedFiles(store: Store, current: BootId, b: BootId)
    requires Valid(store) && b in Rotated(store, current)
    ensures var l := Rotated(store, current)[b];
            l != [] && Sorted(l) && Newest(l) == Newest(store[b]) && (forall s | s in l :: s in store[b])
  {
    assert b in store && store[b] != [] && Sorted(store[b]);
    if b == current { SuffixFacts(store[b]); } else { ThinnedFacts(store[b]); }
  }

  lemma RotatedValid(store: Store, current: BootId)
    requires Valid(store)
    ensures Valid(Rotated(store, current))
  {
    forall b | b in Rotated(store, current) { RotatedFiles(store, current, b); }
  }

  lemma NewestOfSorted(l: Listing, s: Snapshot)
    requires Sorted(l) && s in l
    ensures s.name == Newest(l) || Older(s.name, Newest(l))
  {}

  // Of the previous boots, the one with the newest snapshot has no newer boot.
  lemma SessionlessPickIsRecent(store: Store, current: BootId, c: Choice)
    requires Valid(store) && Selected(store, current, false, Some(c)) && !c.snap.HasSessions()
    ensures Recent(store, current, c.boot)
  {
    NewestOfSorted(store[c.boot], c.snap);
    forall b | b in store && b != current ensures b !in NewerBoots(store, current, c.boot) {
      var d := Choice(b, store[b][|store[b]| - 1]);
      assert Candidate(store, current, false, d);
    }
    assert NewerBoots(store, current, c.boot) == {};
  }

  // A boot newer than a recent one is recent itself.
  lemma NewerIsRecent(store: Store, current: BootId, b: BootId, c: BootId)
    requires Valid(store) && b in store && Recent(store, current, b) && c in NewerBoots(store, current, b)
    ensures Recent(store, current, c)
  {
    var more, fewer := NewerBoots(store, current, b), NewerBoots(store, current, c);
    assert fewer <= more - {c};
    SubsetSize(fewer, more - {c});
  }

  lemma {:induction false} SubsetSize<T>(a: set<T>, b: set<T>)
    requires a <= b
    ensures |a| <= |b|
  {
    if a != {} {
      var x :| x in a;
      SubsetSize(a - {x}, b - {x});
    }
  }

  lemma NewerBootsAfterRotation(store: Store, current: BootId, b: BootId)
    requires Valid(store) && b in Rotated(store, current) && b != current
    ensures Valid(Rotated(store, current))
    ensures NewerBoots(Rotated(store, current), current, b) == NewerBoots(store, current, b)
  {
    RotatedValid(store, current);
    var r := Rotated(store, current);
    RotatedFiles(store, current, b);
    forall c | c in store && c != current ensures c in NewerBoots(r, current, b) <==> c in NewerBoots(store, current, b) {
      if c in NewerBoots(store, current, b) { NewerIsRecent(store, current, b, c); }
      if c in r { RotatedFiles(store, current, c); }
    }
  }

  lemma RotationIdempotent(store: Store, current: BootId)
    requires Valid(store)
    ensures Valid(Rotated(store, current))
    ensures Rotated(Rotated(store, current), current) == Rotated(store, current)
  {
    RotatedValid(store, current);
    var r := Rotated(store, current);
    forall b | b in r ensures b in Rotated(r, current) && Rotated(r, current)[b] == r[b] {
      if b == current {
        SuffixFacts(store[b]);
      } else {
        NewerBootsAfterRotation(store, current, b);
        ThinnedFacts(store[b]);
      }
    }
  }

  lemma RotatedCandidate(store: Store, current: BootId, anyBoot: bool, c: Choice)
    requires Valid(store) && Candidate(Rotated(store, current), current, anyBoot, c)
    ensures Candidate(store, current, anyBoot, c)
  {}

  lemma SelectedDominates(store: Store, current: BootId, anyBoot: bool, best: Choice, s: Snapshot)
    requires Selected(store, current, anyBoot, Some(best))
    requires s in store[best.boot] && s != best.snap
    ensures if anyBoot || best.snap.HasSessions() == s.HasSessions() then Older(s.name, best.snap.name)
            else best.snap.HasSessions()
  {
    assert Candidate(store, current, anyBoot, Choice(best.boot, s));
  }

  // The selected snapshot survives the thinning of its own directory.
  lemma PickSurvivesThinning(store: Store, current: BootId, c: Choice)
    requires Valid(store) && Selected(store, current, false, Some(c))
    ensures c.snap in Thinned(store[c.boot])
  {
    var l := store[c.boot];
    var i := LastWithSessions(l);
    var j :| 0 <= j < |l| && l[j] == c.snap;
    if c.snap.HasSessions() {
      if i != j { SelectedDominates(store, current, false, c, l[i]); }
    } else if j != |l| - 1 {
      SelectedDominates(store, current, false, c, l[|l| - 1]);
    }
  }

  // Rotation keeps the choice for the current boot exactly when the chosen boot is one of the three newest previous
  // ones.
  lemma RotationKeepsSelectionIff(store: Store, current: BootId, r: Option<Choice>)
    requires Valid(store) && Selected(store, current, false, r)
    ensures Selected(Rotated(store, current), current, false, r) <==>
            (r.Some? ==> Recent(store, current, r.value.boot))
  {
    var rotated := Rotated(store, current);
    forall c | Candidate(rotated, current, false, c) ensures Candidate(store, current, false, c) {
      RotatedCandidate(store, current, false, c);
    }
    if r.Some? {
      PickSurvivesThinning(store, current, r.value);
    }
  }

  // Without a session-bearing candidate the choice is always kept.
  lemma RotationKeepsSessionlessSelection(store: Store, current: BootId, r: Option<Choice>)
    requires Valid(store) && Selected(store, current, false, r)
    requires r.Some? ==> !r.value.snap.HasSessions()
    ensures Selected(Rotated(store, current), current, false, r)
  {
    RotationKeepsSelectionIff(store, current, r);
    if r.Some? { SessionlessPickIsRecent(store, current, r.value); }
  }

  // So is the choice over all boots.
  lemma RotationKeepsAnyBootSelection(store: Store, current: BootId, r: Option<Choice>)
    requires Valid(store) && Selected(store, current, true, r)
    ensures Selected(Rotated(store, current), current, true, r)
  {
    forall c | Candidate(Rotated(store, current), current, true, c) ensures Candidate(store, current, true, c) {
      RotatedCandidate(store, current, true, c);
    }
    if r.Some? {
      var c := r.value;
      var l := store[c.boot];
      forall b | b in store ensures b !in NewerBoots(store, current, c.boot) {
        assert Candidate(store, current, true, Choice(b, store[b][|store[b]| - 1]));
        NewestOfSorted(l, c.snap);
      }
      assert NewerBoots(store, current, c.boot) == {};
      assert Candidate(store, current, true, Choice(c.boot, l[|l| - 1]));
      NewestOfSorted(l, c.snap);
      assert c.snap == l[|l| - 1];
    }
  }

  // ---- How much rotation leaves ----

  ghost function FileCount(store: Store, boots: set<BootId>): nat
    requires boots <= store.Keys
  {
    if boots == {} then 0 else var b :| b in boots; |store[b]| + FileCount(store, boots - {b})
  }

  lemma NewestDiffer(store: Store, b: BootId, c: BootId)
    requires Valid(store) && DistinctNames(store) && b in store && c in store && b != c
    ensures Newest(store[b]) != Newest(store[c])
  {}

  lemma {:induction false} OldestBoot(newest: map<BootId, Name>, boots: set<BootId>) returns (b: BootId)
    requires boots != {} && boots <= newest.Keys
    requires forall c, d | c in newest && d in newest && c != d :: newest[c] != newest[d]
    ensures b in boots && forall c | c in boots && c != b :: Older(newest[b], newest[c])
    decreases boots
  {
    b :| b in boots;
    if boots != {b} {
      var d := OldestBoot(newest, boots - {b});
      if Older(newest[d], newest[b]) { b := d; }
    }
  }

  lemma RotatedDistinct(store: Store, current: BootId)
    requires Valid(store) && DistinctNames(store)
    ensures DistinctNames(Rotated(store, current))
  {
    var r := Rotated(store, current);
    forall b, c | b in r && c in r && b != c ensures DisjointNames(r[b], r[c]) {
      assert DisjointNames(store[b], store[c]);
      RotatedFiles(store, current, b);
      RotatedFiles(store, current, c);
    }
  }

  ghost function NewestNames(store: Store): map<BootId, Name>
    requires Valid(store)
  {
    map b | b in store :: Newest(store[b])
  }

  lemma RecentBootsAreFew(store: Store, current: BootId)
    requires Valid(store) && DistinctNames(store)
    requires forall b | b in store && b != current :: Recent(store, current, b)
    ensures |store.Keys - {current}| <= KEEP_PREV_BOOTS
  {
    var prev, newest := store.Keys - {current}, NewestNames(store);
    forall c, d | c in newest && d in newest && c != d ensures newest[c] != newest[d] {
      NewestDiffer(store, c, d);
    }
    if prev != {} {
      var b := OldestBoot(newest, prev);
      assert prev - {b} <= NewerBoots(store, current, b);
      SubsetSize(prev - {b}, NewerBoots(store, current, b));
    }
  }

  lemma AtMostThreePreviousBoots(store: Store, current: BootId)
    requires Valid(store) && DistinctNames(store)
    ensures |Rotated(store, current).Keys - {current}| <= KEEP_PREV_BOOTS
  {
    RotatedValid(store, current);
    RotatedDistinct(store, current);
    forall b | b in Rotated(store, current) && b != current ensures Recent(Rotated(store, current), current, b) {
      NewerBootsAfterRotation(store, current, b);
    }
    RecentBootsAreFew(Rotated(store, current), current);
  }

  lemma {:induction false} FileCountBound(store: Store, current: BootId, boots: set<BootId>)
    requires boots <= store.Keys
    requires forall b | b in boots :: |store[b]| <= if b == current then KEEP_PER_BOOT else 2
    ensures FileCount(store, boots) <= 2 * |boots - {current}| + KEEP_PER_BOOT
    ensures current !in boots ==> FileCount(store, boots) <= 2 * |boots - {current}|
    decreases boots
  {
    if boots != {} {
      var b :| b in boots && FileCount(store, boots) == |store[b]| + FileCount(store, boots - {b});
      FileCountBound(store, current, boots - {b});
      assert (boots - {b}) - {current} == (boots - {current}) - {b};
    }
  }

  // At most 50 snapshots of the current boot and two of each of three previous boots remain.
  lemma RotationBoundsStore(store: Store, current: BootId)
    requires Valid(store) && DistinctNames(store)
    ensures FileCount(Rotated(store, current), Rotated(store, current).Keys) <= KEEP_PER_BOOT + 2 * KEEP_PREV_BOOTS
  {
    var r := Rotated(store, current);
    forall b | b in r ensures |r[b]| <= if b == current then KEEP_PER_BOOT else 2 {
      if b == current { SuffixFacts(store[b]); } else { ThinnedFacts(store[b]); }
    }
    AtMostThreePreviousBoots(store, current);
    FileCountBound(r, current, r.Keys);
  }
}
