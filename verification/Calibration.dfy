// Percentiles and the flags raised on them: _percentile, _stats and calibration_flags of scripts/budget-calibration.py.

module Calibration {

  import opened Options

  // ---- Sorting ----

  ghost predicate Ascending(s: seq<real>) {
    forall i, j | 0 <= i <= j < |s| :: s[i] <= s[j]
  }

  function Insert(s: seq<real>, x: real): seq<real> {
    if s == [] || x <= s[0] then [x] + s else [s[0]] + Insert(s[1..], x)
  }

  function Sorted(values: seq<real>): seq<real> {
    if values == [] then [] else Insert(Sorted(values[1..]), values[0])
  }

  ghost predicate AtLeast(s: seq<real>, v: real) {
    forall i | 0 <= i < |s| :: v <= s[i]
  }

  lemma {:induction false} InsertSorts(s: seq<real>, x: real, v: real)
    requires Ascending(s) && AtLeast(s, v) && v <= x
    ensures Ascending(Insert(s, x)) && AtLeast(Insert(s, x), v)
  {
    if s != [] && s[0] < x {
      InsertSorts(s[1..], x, s[0]);
    }
  }

  lemma {:induction false} InsertKeeps(s: seq<real>, x: real)
    ensures multiset(Insert(s, x)) == multiset(s) + multiset{x}
  {
    if s != [] && s[0] < x {
      InsertKeeps(s[1..], x);
      assert s == [s[0]] + s[1..];
    }
  }

  lemma {:induction false} SortedAscends(values: seq<real>)
    ensures Ascending(Sorted(values))
  {
    if values != [] {
      SortedAscends(values[1..]);
      var rest := Sorted(values[1..]);
      InsertSorts(rest, values[0], if rest == [] || values[0] <= rest[0] then values[0] else rest[0]);
    }
  }

  lemma {:induction false} SortedKeeps(values: seq<real>)
    ensures multiset(Sorted(values)) == multiset(values)
  {
    if values != [] {
      SortedKeeps(values[1..]);
      InsertKeeps(Sorted(values[1..]), values[0]);
      assert values == [values[0]] + values[1..];
    }
  }

  lemma SortedSorts(values: seq<real>)
    ensures Ascending(Sorted(values)) && multiset(Sorted(values)) == multiset(values) && |Sorted(values)| == |values|
  {
    hide *;
    SortedAscends(values);
    SortedKeeps(values);
    SameLength(Sorted(values), values);
  }

  lemma FirstIsLeast(s: seq<real>, x: real)
    requires Ascending(s) && s != [] && x in multiset(s)
    ensures s[0] <= x
  {}

  lemma RestOf(s: seq<real>)
    requires Ascending(s) && s != []
    ensures Ascending(s[1..]) && multiset(s[1..]) == multiset(s) - multiset{s[0]} && s[0] in multiset(s)
    ensures s == [s[0]] + s[1..]
  {
    assert s == [s[0]] + s[1..];
  }

  lemma SameLength(s: seq<real>, t: seq<real>)
    requires multiset(s) == multiset(t)
    ensures |s| == |t|
  {
    assert |s| == |multiset(s)|;
  }

  lemma SameRest(s: seq<real>, t: seq<real>)
    requires Ascending(s) && Ascending(t) && multiset(s) == multiset(t) && s != [] && t != []
    ensures s[0] == t[0] && s == [s[0]] + s[1..] && t == [t[0]] + t[1..]
    ensures Ascending(s[1..]) && Ascending(t[1..]) && multiset(s[1..]) == multiset(t[1..])
  {
    hide Ascending;
    RestOf(s);
    RestOf(t);
    FirstIsLeast(s, t[0]);
    FirstIsLeast(t, s[0]);
  }

  lemma {:induction false} AscendingUnique(s: seq<real>, t: seq<real>)
    requires Ascending(s) && Ascending(t) && multiset(s) == multiset(t)
    ensures s == t
  {
    SameLength(s, t);
    if s != [] {
      hide Ascending;
      SameRest(s, t);
      AscendingUnique(s[1..], t[1..]);
    }
  }

  // ---- Interpolation ----

  function Ceiling(k: real): int {
    -(-k).Floor
  }

  function Between(x: real, y: real, up: real, down: real): real {
    x * up + y * down
  }

  function At(s: seq<real>, k: real): real
    requires 0.0 <= k <= |s| as real - 1.0
  {
    var f, c := k.Floor, Ceiling(k);
    if f == c then s[f] else Between(s[f], s[c], c as real - k, k - f as real)
  }

  function Percentile(values: seq<real>, pct: real): Option<real>
    requires 0.0 <= pct <= 100.0
  {
    if values == [] then None
    else if |values| == 1 then Some(values[0])
    else
      RankInRange(values, pct);
      Some(At(Sorted(values), PercentileRank(|values|, pct)))
  }

  function PercentileRank(n: nat, pct: real): real {
    (n as real - 1.0) * pct / 100.0
  }

  lemma RankInRange(values: seq<real>, pct: real)
    requires 0.0 <= pct <= 100.0 && values != []
    ensures 0.0 <= PercentileRank(|values|, pct) <= |Sorted(values)| as real - 1.0
    ensures |Sorted(values)| == |values|
  {
    hide Sorted, Ascending;
    SortedSorts(values);
    RankGrows(|values|, 0.0, pct);
    RankGrows(|values|, pct, 100.0);
  }

  lemma RankGrows(n: nat, p: real, q: real)
    requires n > 0 && p <= q
    ensures PercentileRank(n, p) <= PercentileRank(n, q)
    ensures PercentileRank(n, 0.0) == 0.0 && PercentileRank(n, 100.0) == n as real - 1.0
  {
    ScaledRank(n as real - 1.0, p, q, (n as real - 1.0) * p, (n as real - 1.0) * q);
  }

  lemma ScaledRank(m: real, p: real, q: real, mp: real, mq: real)
    requires 0.0 <= m && p <= q && mp == m * p && mq == m * q
    ensures mp <= mq
  {}

  lemma NonNegative(x: real, y: real)
    requires x >= 0.0 && y >= 0.0
    ensures x * y >= 0.0
  {}

  // statistics.median
  function Median(values: seq<real>): Option<real> {
    SortedSorts(values);
    var s, n := Sorted(values), |values|;
    if n == 0 then None
    else if n % 2 == 1 then Some(s[n / 2])
    else Some((s[n / 2 - 1] + s[n / 2]) / 2.0)
  }

  lemma BetweenBounds(x: real, y: real, up: real, down: real)
    requires x <= y && 0.0 <= up && 0.0 <= down && up + down == 1.0
    ensures x <= Between(x, y, up, down) <= y
  {
    BetweenFrom(x, y, up, down);
    NonNegative(y - x, down);
    NonNegative(y - x, up);
    assert (y - x) * down == (y - x) - (y - x) * up by { assert down == 1.0 - up; }
  }

  lemma BetweenFrom(x: real, y: real, up: real, down: real)
    requires up + down == 1.0
    ensures Between(x, y, up, down) == x + (y - x) * down
  {}

  lemma BetweenGrows(x: real, y: real, up: real, down: real, less: real, more: real)
    requires x <= y && up + down == 1.0 && less + more == 1.0 && down <= more
    ensures Between(x, y, up, down) <= Between(x, y, less, more)
  {}

  lemma AtBounds(s: seq<real>, k: real)
    requires Ascending(s) && 0.0 <= k <= |s| as real - 1.0
    ensures s[k.Floor] <= At(s, k) <= s[Ceiling(k)]
  {
    var f, c := k.Floor, Ceiling(k);
    if f != c {
      assert c == f + 1;
      BetweenBounds(s[f], s[c], c as real - k, k - f as real);
    }
  }

  lemma AtGrows(s: seq<real>, k: real, l: real)
    requires Ascending(s) && 0.0 <= k <= l <= |s| as real - 1.0
    ensures At(s, k) <= At(s, l)
  {
    AtBounds(s, k);
    AtBounds(s, l);
    if k.Floor == l.Floor && k.Floor != Ceiling(k) && l.Floor != Ceiling(l) {
      var f := k.Floor;
      assert Ceiling(k) == f + 1 == Ceiling(l);
      BetweenGrows(s[f], s[f + 1], (f + 1) as real - k, k - f as real, (f + 1) as real - l, l - f as real);
    }
  }

  // ---- What a percentile is ----

  lemma PercentileIsMonotone(values: seq<real>, p: real, q: real)
    requires values != [] && 0.0 <= p <= q <= 100.0
    ensures Percentile(values, p).value <= Percentile(values, q).value
  {
    if |values| > 1 {
      SortedSorts(values);
      hide Sorted, Ascending, At, PercentileRank;
      RankInRange(values, p);
      RankInRange(values, q);
      RankGrows(|values|, p, q);
      AtGrows(Sorted(values), PercentileRank(|values|, p), PercentileRank(|values|, q));
    }
  }

  lemma PercentileInAnyOrder(values: seq<real>, others: seq<real>, pct: real)
    requires 0.0 <= pct <= 100.0 && multiset(values) == multiset(others)
    ensures Percentile(values, pct) == Percentile(others, pct) && Median(values) == Median(others)
  {
    assert |values| == |multiset(values)| == |multiset(others)| == |others|;
    SortedSorts(values);
    SortedSorts(others);
    AscendingUnique(Sorted(values), Sorted(others));
    if |values| == 1 {
      assert values[0] in multiset(others);
    }
  }

  // At a whole rank it is the order statistic; in particular the extremes are the least and the greatest value.
  lemma PercentileAtRank(values: seq<real>, pct: real, i: nat)
    requires 0.0 <= pct <= 100.0 && i < |values| && PercentileRank(|values|, pct) == i as real
    ensures |Sorted(values)| == |values| && Percentile(values, pct) == Some(Sorted(values)[i])
  {
    SortedSorts(values);
    if |values| == 1 {
      AscendingUnique(Sorted(values), values);
    }
  }

  lemma PercentileBounds(values: seq<real>, pct: real, v: real)
    requires 0.0 <= pct <= 100.0 && v in values
    ensures Percentile(values, 0.0).value <= v <= Percentile(values, 100.0).value
    ensures Percentile(values, 0.0).value <= Percentile(values, pct).value <= Percentile(values, 100.0).value
    ensures Percentile(values, 0.0).value in values && Percentile(values, 100.0).value in values
  {
    var s, n := Sorted(values), |values|;
    SortedSorts(values);
    assert v in multiset(s);
    var i :| 0 <= i < |s| && s[i] == v;
    assert PercentileRank(n, 0.0) == 0.0 && PercentileRank(n, 100.0) == (n - 1) as real;
    PercentileAtRank(values, 0.0, 0);
    PercentileAtRank(values, 100.0, n - 1);
    PercentileIsMonotone(values, 0.0, pct);
    PercentileIsMonotone(values, pct, 100.0);
    assert s[0] in multiset(values) && s[n - 1] in multiset(values);
  }

  lemma HalfRank(n: nat)
    requires n > 0
    ensures n % 2 == 1 ==> PercentileRank(n, 50.0) == (n / 2) as real
    ensures n % 2 == 0 ==> PercentileRank(n, 50.0) == (n / 2 - 1) as real + 0.5
  {}

  lemma AtHalf(s: seq<real>, i: nat)
    requires i + 1 < |s|
    ensures At(s, i as real + 0.5) == (s[i] + s[i + 1]) / 2.0
  {
    var k := i as real + 0.5;
    assert k.Floor == i && Ceiling(k) == i + 1;
  }

  lemma FiftiethOfSeveral(values: seq<real>)
    requires |values| > 1
    ensures Percentile(values, 50.0) == Median(values)
  {
    hide Sorted, Ascending, At, PercentileRank;
    var s, n := Sorted(values), |values|;
    RankInRange(values, 50.0);
    HalfRank(n);
    if n % 2 == 1 {
      PercentileAtRank(values, 50.0, n / 2);
    } else {
      AtHalf(s, n / 2 - 1);
    }
  }

  lemma FiftiethIsMedian(values: seq<real>)
    ensures Percentile(values, 50.0) == Median(values)
  {
    if |values| > 1 {
      FiftiethOfSeveral(values);
    } else if |values| == 1 {
      SortedSorts(values);
      AscendingUnique(Sorted(values), values);
    }
  }

  // That part of the way from x to y.
  function Along(x: real, y: real, part: real): real {
    x + part * (y - x)
  }

  // Between two ranks it moves straight from one order statistic to the next.
  lemma PercentileBetweenRanks(values: seq<real>, pct: real, i: nat)
    requires 0.0 <= pct <= 100.0 && i + 1 < |values| && i as real <= PercentileRank(|values|, pct) <= (i + 1) as real
    ensures |Sorted(values)| == |values|
    ensures var s, k := Sorted(values), PercentileRank(|values|, pct);
            Percentile(values, pct) == Some(Along(s[i], s[i + 1], k - i as real))
  {
    hide Sorted, PercentileRank, At, Along;
    RankInRange(values, pct);
    assert Percentile(values, pct) == Some(At(Sorted(values), PercentileRank(|values|, pct)));
    AtBetween(Sorted(values), PercentileRank(|values|, pct), i);
  }

  lemma AtBetween(s: seq<real>, k: real, i: nat)
    requires i + 1 < |s| && i as real <= k <= (i + 1) as real
    ensures At(s, k) == Along(s[i], s[i + 1], k - i as real)
  {
    if k == (i + 1) as real {
      assert k.Floor == i + 1 && Ceiling(k) == i + 1;
    } else if k == i as real {
      assert k.Floor == i && Ceiling(k) == i;
    } else {
      assert k.Floor == i && Ceiling(k) == i + 1;
      BetweenFrom(s[i], s[i + 1], (i + 1) as real - k, k - i as real);
    }
  }

  // ---- How many values lie above a percentile ----

  function CountAbove(values: seq<real>, v: real): nat {
    if values == [] then 0 else (if values[0] > v then 1 else 0) + CountAbove(values[1..], v)
  }

  lemma {:induction false} CountAboveInsert(s: seq<real>, x: real, v: real)
    ensures CountAbove(Insert(s, x), v) == CountAbove(s, v) + if x > v then 1 else 0
  {
    if s == [] || x <= s[0] {
      assert ([x] + s)[1..] == s;
    } else {
      CountAboveInsert(s[1..], x, v);
      assert ([s[0]] + Insert(s[1..], x))[1..] == Insert(s[1..], x);
    }
  }

  lemma {:induction false} CountAboveSorted(values: seq<real>, v: real)
    ensures CountAbove(Sorted(values), v) == CountAbove(values, v)
  {
    if values != [] {
      CountAboveSorted(values[1..], v);
      CountAboveInsert(Sorted(values[1..]), values[0], v);
    }
  }

  lemma {:induction false} CountAboveAscending(s: seq<real>, v: real, i: nat)
    requires Ascending(s) && i < |s|
    ensures CountAbove(s, v) <= |s|
    ensures s[i] > v <==> CountAbove(s, v) >= |s| - i
  {
    if i > 0 {
      CountAboveAscending(s[1..], v, i - 1);
    } else if |s| > 1 {
      CountAboveAscending(s[1..], v, 0);
    }
  }

  // Enough values above v push the percentile above v, and a percentile above v needs almost as many.
  lemma PercentileCounts(values: seq<real>, pct: real, v: real)
    requires 0.0 <= pct <= 100.0 && values != []
    ensures var k := PercentileRank(|values|, pct);
            && (CountAbove(values, v) >= |values| - k.Floor ==> Percentile(values, pct).value > v)
            && (Percentile(values, pct).value > v ==> CountAbove(values, v) >= |values| - Ceiling(k))
  {
    var s, k := Sorted(values), PercentileRank(|values|, pct);
    SortedSorts(values);
    RankInRange(values, pct);
    CountAboveSorted(values, v);
    if |values| == 1 {
      AscendingUnique(s, values);
      assert k == 0.0;
    }
    AtBounds(s, k);
    CountAboveAscending(s, v, k.Floor);
    CountAboveAscending(s, v, Ceiling(k));
  }

  // ---- Flags ----

  const UNDERSET_P90_MULT: real := 1.0
  const OVERPROV_MEDIAN_FRAC: real := 0.3

  datatype Group = Group(kind: string, tier: string, costs: seq<real>)

  datatype Flag = Raise(group: Group) | Lower(group: Group)

  // The tiers with a configured value.
  type Tiers = map<string, real>

  // The group has enough costs and a configured tier, and its 90th percentile exceeds the tier.
  ghost predicate Raised(g: Group, tiers: Tiers, minSamples: nat) {
    |g.costs| >= minSamples && g.tier in tiers && g.costs != [] && Percentile(g.costs, 90.0).value > tiers[g.tier]
  }

  // The same with the percentile not above the tier, and the median below 0.3 of it.
  ghost predicate Lowered(g: Group, tiers: Tiers, minSamples: nat) {
    && |g.costs| >= minSamples && g.tier in tiers && g.costs != []
    && Percentile(g.costs, 90.0).value <= tiers[g.tier]
    && Median(g.costs).value < 0.3 * tiers[g.tier]
  }

  ghost function FlagsOf(groups: seq<Group>, tiers: Tiers, minSamples: nat): seq<Flag> {
    if groups == [] then []
    else
      var g := groups[|groups| - 1];
      FlagsOf(groups[..|groups| - 1], tiers, minSamples)
      + if Raised(g, tiers, minSamples) then [Raise(g)] else if Lowered(g, tiers, minSamples) then [Lower(g)] else []
  }

  // The flags stand for the groups at these positions, in their order, and no group is missed.
  ghost predicate FlagsAt(groups: seq<Group>, tiers: Tiers, minSamples: nat, flags: seq<Flag>, at: seq<nat>) {
    && |at| == |flags|
    && (forall k | 0 <= k < |at| :: at[k] < |groups| && forall l | k < l < |at| :: at[k] < at[l])
    && (forall k | 0 <= k < |at| :: FlagFits(groups[at[k]], tiers, minSamples, flags[k]))
    && forall i: nat | i < |groups| ::
         i in at <==> Raised(groups[i], tiers, minSamples) || Lowered(groups[i], tiers, minSamples)
  }

  ghost predicate FlagFits(g: Group, tiers: Tiers, minSamples: nat, flag: Flag) {
    (Raised(g, tiers, minSamples) && flag == Raise(g)) || (Lowered(g, tiers, minSamples) && flag == Lower(g))
  }

  lemma {:induction false} FlagPositions(groups: seq<Group>, tiers: Tiers, minSamples: nat) returns (at: seq<nat>)
    ensures FlagsAt(groups, tiers, minSamples, FlagsOf(groups, tiers, minSamples), at)
  {
    at := [];
    if groups != [] {
      hide FlagsAt, Raised, Lowered;
      var last := |groups| - 1;
      at := FlagPositions(groups[..last], tiers, minSamples);
      assert groups == groups[..last] + [groups[last]];
      FlagsAtNext(groups[..last], groups[last], tiers, minSamples, FlagsOf(groups[..last], tiers, minSamples), at);
      if Raised(groups[last], tiers, minSamples) || Lowered(groups[last], tiers, minSamples) {
        at := at + [last];
      }
    }
  }

  lemma FlagsAtNext(groups: seq<Group>, g: Group, tiers: Tiers, minSamples: nat, flags: seq<Flag>, at: seq<nat>)
    requires FlagsAt(groups, tiers, minSamples, flags, at)
    ensures var more, flag := groups + [g],
              if Raised(g, tiers, minSamples) then Raise(g) else Lower(g);
            if Raised(g, tiers, minSamples) || Lowered(g, tiers, minSamples)
            then FlagsAt(more, tiers, minSamples, flags + [flag], at + [|groups|])
            else FlagsAt(more, tiers, minSamples, flags, at)
  {
    hide Raised, Lowered;
    assert forall i | 0 <= i < |groups| :: (groups + [g])[i] == groups[i];
  }

  // A group is flagged exactly for its own costs, and never both ways.
  lemma FlaggedIff(groups: seq<Group>, tiers: Tiers, minSamples: nat, g: Group)
    ensures var flags := FlagsOf(groups, tiers, minSamples);
            && (Raise(g) in flags <==> g in groups && Raised(g, tiers, minSamples))
            && (Lower(g) in flags <==> g in groups && Lowered(g, tiers, minSamples))
            && !(Raise(g) in flags && Lower(g) in flags)
  {
    assert !(Raised(g, tiers, minSamples) && Lowered(g, tiers, minSamples));
    hide Raised, Lowered, FlagsOf, FlagsAt, FlagFits;
    var flags := FlagsOf(groups, tiers, minSamples);
    var at := FlagPositions(groups, tiers, minSamples);
    FlagOfGroup(groups, tiers, minSamples, flags, at, g);
    if Raise(g) in flags {
      GroupOfFlag(groups, tiers, minSamples, flags, at, Raise(g));
      assert Raised(g, tiers, minSamples) by { FitsRaise(g, tiers, minSamples); }
    }
    if Lower(g) in flags {
      GroupOfFlag(groups, tiers, minSamples, flags, at, Lower(g));
      assert Lowered(g, tiers, minSamples) by { FitsRaise(g, tiers, minSamples); }
    }
  }

  lemma FitsRaise(g: Group, tiers: Tiers, minSamples: nat)
    ensures FlagFits(g, tiers, minSamples, Raise(g)) ==> Raised(g, tiers, minSamples)
    ensures FlagFits(g, tiers, minSamples, Lower(g)) ==> Lowered(g, tiers, minSamples)
  {}

  lemma FlagOfGroup(groups: seq<Group>, tiers: Tiers, minSamples: nat, flags: seq<Flag>, at: seq<nat>, g: Group)
    requires FlagsAt(groups, tiers, minSamples, flags, at) && !(Raised(g, tiers, minSamples) && Lowered(g, tiers, minSamples))
    ensures g in groups && Raised(g, tiers, minSamples) ==> Raise(g) in flags
    ensures g in groups && Lowered(g, tiers, minSamples) ==> Lower(g) in flags
  {
    hide Raised, Lowered;
    if g in groups && (Raised(g, tiers, minSamples) || Lowered(g, tiers, minSamples)) {
      var i :| 0 <= i < |groups| && groups[i] == g;
      var k :| 0 <= k < |at| && at[k] == i;
      assert FlagFits(g, tiers, minSamples, flags[k]) && flags[k] in flags;
    }
  }

  lemma GroupOfFlag(groups: seq<Group>, tiers: Tiers, minSamples: nat, flags: seq<Flag>, at: seq<nat>, flag: Flag)
    requires FlagsAt(groups, tiers, minSamples, flags, at) && flag in flags
    ensures flag.group in groups && FlagFits(flag.group, tiers, minSamples, flag)
  {
    hide Raised, Lowered;
    var k :| 0 <= k < |flags| && flags[k] == flag;
    assert FlagFits(groups[at[k]], tiers, minSamples, flag);
  }

  method CalibrationFlags(groups: seq<Group>, tiers: Tiers, minSamples: nat) returns (flags: seq<Flag>)
    ensures flags == FlagsOf(groups, tiers, minSamples)
    ensures forall g :: Raise(g) in flags <==> g in groups && Raised(g, tiers, minSamples)
    ensures forall g :: Lower(g) in flags <==> g in groups && Lowered(g, tiers, minSamples)
  {
    flags := [];
    for i := 0 to |groups|
      invariant flags == FlagsOf(groups[..i], tiers, minSamples)
    {
      var g := groups[i];
      assert groups[..i + 1][..i] == groups[..i];
      if |g.costs| < minSamples || g.tier !in tiers {
        continue;
      }
      var value := tiers[g.tier];
      var p90, median := Percentile(g.costs, 90.0), Median(g.costs);
      if p90.Some? && p90.value > value * UNDERSET_P90_MULT {
        flags := flags + [Raise(g)];
      } else if median.Some? && median.value < value * OVERPROV_MEDIAN_FRAC {
        flags := flags + [Lower(g)];
      }
    }
    assert groups[..|groups|] == groups;
    forall g
      ensures Raise(g) in flags <==> g in groups && Raised(g, tiers, minSamples)
      ensures Lower(g) in flags <==> g in groups && Lowered(g, tiers, minSamples)
    {
      FlaggedIff(groups, tiers, minSamples, g);
    }
  }

  // A group whose median exceeds its tier is always raised: no spread of costs can hide it.
  lemma HighMedianIsRaised(groups: seq<Group>, g: Group, tiers: Tiers, minSamples: nat)
    requires g in groups && |g.costs| >= minSamples && g.tier in tiers && g.costs != []
    requires Median(g.costs).value > tiers[g.tier]
    ensures Raise(g) in FlagsOf(groups, tiers, minSamples)
  {
    FiftiethIsMedian(g.costs);
    PercentileIsMonotone(g.costs, 50.0, 90.0);
    FlaggedIff(groups, tiers, minSamples, g);
  }
}
