// Effort booked from prompt gaps: _covered_gap_seconds, _note_gap_loss and _stamp_prompt_ts of
// scripts/hook-engine-start.py.

module Effort {

  import opened Options
  import opened Multisets

  datatype Run = Run(start: real, end: real)

  function Max(x: real, y: real): real { if x < y then y else x }

  function Min(x: real, y: real): real { if x < y then x else y }

  // ---- Seconds of [lo, hi] during which some run was going on ----

  function Covered(runs: seq<Run>, lo: real, hi: real): real {
    if runs == [] || hi <= lo then 0.0
    else
      var a, b, rest := Max(lo, runs[0].start), Min(hi, runs[0].end), runs[1..];
      if b <= a then Covered(rest, lo, hi) else Covered(rest, lo, a) + (b - a) + Covered(rest, b, hi)
  }

  lemma {:induction false} CoveredBounds(runs: seq<Run>, lo: real, hi: real)
    requires lo <= hi
    ensures 0.0 <= Covered(runs, lo, hi) <= hi - lo
  {
    if runs != [] && lo < hi {
      var a, b, rest := Max(lo, runs[0].start), Min(hi, runs[0].end), runs[1..];
      if b <= a {
        CoveredBounds(rest, lo, hi);
      } else {
        CoveredBounds(rest, lo, a);
        CoveredBounds(rest, b, hi);
      }
    }
  }

  // Splitting the gap splits the time covered.
  lemma {:induction false} CoveredSplits(runs: seq<Run>, lo: real, m: real, hi: real)
    requires lo <= m <= hi
    ensures Covered(runs, lo, hi) == Covered(runs, lo, m) + Covered(runs, m, hi)
  {
    if runs != [] && lo < m < hi {
      var a, b, rest := Max(lo, runs[0].start), Min(hi, runs[0].end), runs[1..];
      if b <= a {
        CoveredSplits(rest, lo, m, hi);
      } else if m <= a {
        CoveredSplits(rest, lo, m, a);
      } else if b <= m {
        CoveredSplits(rest, b, m, hi);
      }
    }
  }

  // Inclusion and exclusion: what one more run adds.
  lemma RunAdded(r: Run, rest: seq<Run>, lo: real, hi: real)
    requires lo <= hi
    ensures var a, b := Max(lo, r.start), Max(Max(lo, r.start), Min(hi, r.end));
            Covered([r] + rest, lo, hi) == Covered(rest, lo, hi) + (b - a) - Covered(rest, a, b)
  {
    assert ([r] + rest)[1..] == rest;
    var a, b := Max(lo, r.start), Min(hi, r.end);
    if lo < hi && a < b {
      CoveredSplits(rest, lo, a, hi);
      CoveredSplits(rest, a, b, hi);
    }
  }

  lemma RunsSwapped(r: Run, s: Run, rest: seq<Run>, lo: real, hi: real)
    requires lo <= hi
    ensures Covered([r, s] + rest, lo, hi) == Covered([s, r] + rest, lo, hi)
  {
    hide Covered;
    assert [r, s] + rest == [r] + ([s] + rest) && [s, r] + rest == [s] + ([r] + rest);
    var a, b := Max(lo, r.start), Max(Max(lo, r.start), Min(hi, r.end));
    var c, d := Max(lo, s.start), Max(Max(lo, s.start), Min(hi, s.end));
    RunAdded(r, [s] + rest, lo, hi);
    RunAdded(s, rest, lo, hi);
    RunAdded(s, rest, a, b);
    RunAdded(s, [r] + rest, lo, hi);
    RunAdded(r, rest, lo, hi);
    RunAdded(r, rest, c, d);
    EmptyGap(rest, Max(a, s.start), Max(Max(a, s.start), Min(b, s.end)), Max(c, r.start), Max(Max(c, r.start), Min(d, r.end)));
  }

  // Two gaps that are both empty, or the same, are covered alike.
  lemma EmptyGap(runs: seq<Run>, a: real, b: real, c: real, d: real)
    ensures b <= a && d <= c ==> Covered(runs, a, b) == Covered(runs, c, d) == 0.0
  {}

  lemma {:induction false} RunToFront(p: seq<Run>, r: Run, q: seq<Run>, lo: real, hi: real)
    requires lo <= hi
    ensures Covered(p + [r] + q, lo, hi) == Covered([r] + p + q, lo, hi)
  {
    if p == [] {
      assert p + [r] + q == [r] + p + q;
    } else {
      var x, rest := p[0], p[1..] + [r] + q;
      assert p + [r] + q == [x] + rest && [r] + p + q == [r, x] + (p[1..] + q);
      var a, b := Max(lo, x.start), Min(hi, x.end);
      forall l, h | l <= h ensures Covered(rest, l, h) == Covered([r] + (p[1..] + q), l, h) {
        RunToFront(p[1..], r, q, l, h);
        assert [r] + p[1..] + q == [r] + (p[1..] + q);
      }
      assert Covered([x] + rest, lo, hi) == Covered([x] + ([r] + (p[1..] + q)), lo, hi) by {
        assert ([x] + rest)[1..] == rest && ([x] + ([r] + (p[1..] + q)))[1..] == [r] + (p[1..] + q);
      }
      assert [x] + ([r] + (p[1..] + q)) == [x, r] + (p[1..] + q);
      RunsSwapped(x, r, p[1..] + q, lo, hi);
    }
  }

  lemma RunAddedAlike(r: Run, some: seq<Run>, others: seq<Run>, lo: real, hi: real)
    requires lo <= hi && forall l, h | l <= h :: Covered(some, l, h) == Covered(others, l, h)
    ensures Covered([r] + some, lo, hi) == Covered([r] + others, lo, hi)
  {}

  // The order of the runs does not matter.
  lemma {:induction false} CoveredInAnyOrder(runs: seq<Run>, others: seq<Run>, lo: real, hi: real)
    requires lo <= hi && multiset(runs) == multiset(others)
    ensures Covered(runs, lo, hi) == Covered(others, lo, hi)
    decreases |runs|
  {
    if runs == [] {
      assert |others| == |multiset(others)| == 0;
    } else {
      hide Covered;
      var r, rest := runs[0], runs[1..];
      assert runs == [r] + rest;
      var p, q := TakenOut(others, r, rest);
      forall l, h | l <= h ensures Covered(rest, l, h) == Covered(p + q, l, h) {
        CoveredInAnyOrder(rest, p + q, l, h);
      }
      RunAddedAlike(r, rest, p + q, lo, hi);
      RunToFront(p, r, q, lo, hi);
      assert [r] + p + q == [r] + (p + q);
    }
  }

  function Without(runs: seq<Run>, i: nat): seq<Run>
    requires i < |runs|
  {
    runs[..i] + runs[i + 1..]
  }

  // Taking a run away never covers more.
  lemma CoveredWithout(runs: seq<Run>, i: nat, lo: real, hi: real)
    requires i < |runs| && lo <= hi
    ensures Covered(Without(runs, i), lo, hi) <= Covered(runs, lo, hi)
  {
    var r, rest := runs[i], Without(runs, i);
    assert runs == runs[..i] + [r] + runs[i + 1..];
    RunToFront(runs[..i], r, runs[i + 1..], lo, hi);
    assert [r] + runs[..i] + runs[i + 1..] == [r] + rest;
    RunAdded(r, rest, lo, hi);
    CoveredBounds(rest, Max(lo, r.start), Max(Max(lo, r.start), Min(hi, r.end)));
  }

  // ---- Covered time is the length of the union of the runs ----

  // The run and the inside of the gap have no time in common.
  predicate Misses(r: Run, lo: real, hi: real) {
    r.end <= lo || hi <= r.start || r.end <= r.start
  }

  lemma {:induction false} NothingCovered(runs: seq<Run>, lo: real, hi: real)
    requires forall i | 0 <= i < |runs| :: Misses(runs[i], lo, hi)
    ensures Covered(runs, lo, hi) == 0.0
  {
    if runs != [] { NothingCovered(runs[1..], lo, hi); }
  }

  lemma OneRunCovers(runs: seq<Run>, i: nat, lo: real, hi: real)
    requires i < |runs| && lo <= hi && runs[i].start <= lo && hi <= runs[i].end
    ensures Covered(runs, lo, hi) == hi - lo
  {
    var r, rest := runs[i], Without(runs, i);
    assert runs == runs[..i] + [r] + runs[i + 1..];
    RunToFront(runs[..i], r, runs[i + 1..], lo, hi);
    assert [r] + runs[..i] + runs[i + 1..] == [r] + rest;
    RunAdded(r, rest, lo, hi);
  }

  // A way to measure gaps that adds up, counts nothing where no run is, and everything inside one run.
  ghost predicate MeasuresUnion(f: (real, real) -> real, runs: seq<Run>) {
    && (forall lo, m, hi | lo <= m <= hi :: f(lo, hi) == f(lo, m) + f(m, hi))
    && (forall lo, hi | lo <= hi && (forall i | 0 <= i < |runs| :: Misses(runs[i], lo, hi)) :: f(lo, hi) == 0.0)
    && (forall lo, hi, i | 0 <= i < |runs| && lo <= hi && runs[i].start <= lo && hi <= runs[i].end :: f(lo, hi) == hi - lo)
  }

  // Where runs begin and end inside the gap.
  ghost function Cuts(runs: seq<Run>, lo: real, hi: real): set<real> {
    (set r | r in runs && lo < r.start < hi :: r.start) + (set r | r in runs && lo < r.end < hi :: r.end)
  }

  lemma CutIsBetween(runs: seq<Run>, lo: real, m: real, hi: real)
    requires m in Cuts(runs, lo, hi)
    ensures lo < m < hi && Cuts(runs, lo, m) < Cuts(runs, lo, hi) && Cuts(runs, m, hi) < Cuts(runs, lo, hi)
  {
    assert m !in Cuts(runs, lo, m) && m !in Cuts(runs, m, hi);
  }

  // Only one way of measuring does that.
  lemma {:induction false} CoveredIsUnionLength(f: (real, real) -> real, runs: seq<Run>, lo: real, hi: real)
    requires MeasuresUnion(f, runs) && lo <= hi
    ensures Covered(runs, lo, hi) == f(lo, hi)
    decreases Cuts(runs, lo, hi)
  {
    hide Covered, Cuts;
    if m :| m in Cuts(runs, lo, hi) {
      CutIsBetween(runs, lo, m, hi);
      CoveredIsUnionLength(f, runs, lo, m);
      CoveredIsUnionLength(f, runs, m, hi);
      CoveredSplits(runs, lo, m, hi);
    } else if i :| 0 <= i < |runs| && !Misses(runs[i], lo, hi) {
      NoCutInside(runs, i, lo, hi);
      OneRunCovers(runs, i, lo, hi);
    } else {
      NothingCovered(runs, lo, hi);
    }
  }

  lemma NoCutInside(runs: seq<Run>, i: nat, lo: real, hi: real)
    requires i < |runs| && (forall m :: m !in Cuts(runs, lo, hi)) && lo <= hi && !Misses(runs[i], lo, hi)
    ensures runs[i].start <= lo && hi <= runs[i].end
  {
    assert runs[i] in runs;
    assert runs[i].start !in Cuts(runs, lo, hi) && runs[i].end !in Cuts(runs, lo, hi);
  }

  lemma CoveredMeasuresUnion(runs: seq<Run>)
    ensures MeasuresUnion((lo, hi) => Covered(runs, lo, hi), runs)
  {
    var f := (lo: real, hi: real) => Covered(runs, lo, hi);
    hide Covered;
    forall lo, m, hi | lo <= m <= hi ensures f(lo, hi) == f(lo, m) + f(m, hi) {
      CoveredSplits(runs, lo, m, hi);
    }
    forall lo, hi | lo <= hi && (forall i | 0 <= i < |runs| :: Misses(runs[i], lo, hi)) ensures f(lo, hi) == 0.0 {
      NothingCovered(runs, lo, hi);
    }
    forall lo, hi, i | 0 <= i < |runs| && lo <= hi && runs[i].start <= lo && hi <= runs[i].end
      ensures f(lo, hi) == hi - lo
    {
      OneRunCovers(runs, i, lo, hi);
    }
  }

  // ---- A run that is still open counts up to the end of the gap ----

  function UpTo(runs: seq<Run>, hi: real): seq<Run> {
    seq(|runs|, i requires 0 <= i < |runs| => Run(runs[i].start, Min(runs[i].end, hi)))
  }

  lemma {:induction false} CoveredUpTo(runs: seq<Run>, lo: real, hi: real, end: real)
    requires hi <= end
    ensures Covered(UpTo(runs, end), lo, hi) == Covered(runs, lo, hi)
  {
    if runs != [] && lo < hi {
      var a, b, rest := Max(lo, runs[0].start), Min(hi, runs[0].end), runs[1..];
      assert UpTo(runs, end)[1..] == UpTo(rest, end);
      CoveredUpTo(rest, lo, hi, end);
      if a < b {
        CoveredUpTo(rest, lo, a, end);
        CoveredUpTo(rest, b, hi, end);
      }
    }
  }

  // ---- Booking the gap before a prompt ----

  function Booking(runs: seq<Run>, lo: real, hi: real, cap: real): real {
    Min(Max(0.0, (hi - lo) - Covered(runs, lo, hi)) / 60.0, cap)
  }

  // The runs are those known when the prompt arrives, each open one up to that moment.
  datatype Prompt = Prompt(now: real, blocked: bool, runs: seq<Run>)

  datatype Ledger = Ledger(last: Option<real>, prompts: nat, minutes: real)

  predicate Counts(last: Option<real>, p: Prompt) {
    last.Some? && p.now > last.value && !p.blocked
  }

  function Booked(last: Option<real>, p: Prompt, cap: real): real {
    if Counts(last, p) then Booking(p.runs, last.value, p.now, cap) else 0.0
  }

  function Stamp(l: Ledger, p: Prompt, cap: real): Ledger {
    Ledger(Some(p.now), l.prompts + 1, l.minutes + Booked(l.last, p, cap))
  }

  class SessionState {
    var lastPrompt: Option<real>
    var promptCount: nat
    var activeMinutes: real

    constructor ()
      ensures Contents() == Ledger(None, 0, 0.0)
    {
      lastPrompt, promptCount, activeMinutes := None, 0, 0.0;
    }

    function Contents(): Ledger
      reads this
    {
      Ledger(lastPrompt, promptCount, activeMinutes)
    }

    // Stamps a prompt; the loss is what the live run, at that position, cost the booking.
    method StampPrompt(p: Prompt, live: Option<nat>, cap: real) returns (loss: Option<real>)
      requires live.Some? ==> live.value < |p.runs|
      modifies this
      ensures Contents() == Stamp(old(Contents()), p, cap)
      ensures loss.Some? <==> live.Some? && Counts(old(lastPrompt), p) && Covered(p.runs, old(lastPrompt).value, p.now) > 0.0
      ensures loss.Some? ==> loss.value >= 0.0
      ensures loss.Some? ==>
                activeMinutes + loss.value
                == old(activeMinutes) + Booked(old(lastPrompt), p.(runs := Without(p.runs, live.value)), cap)
    {
      loss := None;
      var previous := lastPrompt;
      lastPrompt := Some(p.now);
      promptCount := promptCount + 1;
      if previous.Some? && p.now > previous.value && !p.blocked {
        var covered := Covered(p.runs, previous.value, p.now);
        var uncovered := (p.now - previous.value) - covered;
        var elapsed := Min(Max(0.0, uncovered) / 60.0, cap);
        if covered > 0.0 && live.Some? {
          CoveredWithout(p.runs, live.value, previous.value, p.now);
          loss := Some(Lost(Without(p.runs, live.value), previous.value, p.now, cap, elapsed));
        }
        activeMinutes := activeMinutes + elapsed;
      }
    }
  }

  // What booking without a run would add to what was booked.
  function Lost(others: seq<Run>, lo: real, hi: real, cap: real, booked: real): real {
    Min(Max(0.0, (hi - lo) - Covered(others, lo, hi)) / 60.0, cap) - booked
  }

  // ---- Whole histories ----

  function After(h: seq<Prompt>, cap: real): Ledger {
    if h == [] then Ledger(None, 0, 0.0) else Stamp(After(h[..|h| - 1], cap), h[|h| - 1], cap)
  }

  function Last(h: seq<Prompt>): Option<real> {
    if h == [] then None else Some(h[|h| - 1].now)
  }

  function GapLength(last: Option<real>, p: Prompt): real {
    if Counts(last, p) then p.now - last.value else 0.0
  }

  function GapCovered(last: Option<real>, p: Prompt): real {
    if Counts(last, p) then Covered(p.runs, last.value, p.now) else 0.0
  }

  // Sums over the gaps that count: their lengths and their covered seconds.
  function GapSeconds(h: seq<Prompt>): real {
    if h == [] then 0.0 else GapSeconds(h[..|h| - 1]) + GapLength(Last(h[..|h| - 1]), h[|h| - 1])
  }

  function CoveredSeconds(h: seq<Prompt>): real {
    if h == [] then 0.0 else CoveredSeconds(h[..|h| - 1]) + GapCovered(Last(h[..|h| - 1]), h[|h| - 1])
  }

  // No gap that counts is long enough for the cap to matter.
  predicate NeverCapped(h: seq<Prompt>, cap: real) {
    h == [] || (NeverCapped(h[..|h| - 1], cap) && Uncapped(Last(h[..|h| - 1]), h[|h| - 1], cap))
  }

  predicate Uncapped(last: Option<real>, p: Prompt, cap: real) {
    Counts(last, p) ==> (p.now - last.value) - Covered(p.runs, last.value, p.now) <= 60.0 * cap
  }

  lemma OneGap(last: Option<real>, p: Prompt, cap: real)
    requires Counts(last, p)
    ensures Booked(last, p, cap) <= cap
    ensures 60.0 * Booked(last, p, cap) + Covered(p.runs, last.value, p.now) <= p.now - last.value
    ensures 60.0 * Booked(last, p, cap) + Covered(p.runs, last.value, p.now) == p.now - last.value <==> Uncapped(last, p, cap)
    ensures !Uncapped(last, p, cap) ==> Booked(last, p, cap) == cap
  {
    CoveredBounds(p.runs, last.value, p.now);
  }

  // Booked minutes and covered seconds never exceed the gaps, and fill them exactly when the cap never cuts one.
  lemma {:induction false} GapsConserved(h: seq<Prompt>, cap: real)
    ensures After(h, cap).last == Last(h) && After(h, cap).prompts == |h|
    ensures 60.0 * After(h, cap).minutes + CoveredSeconds(h) <= GapSeconds(h)
    ensures 60.0 * After(h, cap).minutes + CoveredSeconds(h) == GapSeconds(h) <==> NeverCapped(h, cap)
  {
    if h != [] {
      var most, p := h[..|h| - 1], h[|h| - 1];
      GapsConserved(most, cap);
      if Counts(Last(most), p) {
        hide Covered, Booking;
        OneGap(Last(most), p, cap);
      }
    }
  }

  // What the i-th prompt of a history without runs should book.
  function CappedGap(h: seq<Prompt>, i: nat, cap: real): real
    requires i < |h|
  {
    if i == 0 || h[i].now <= h[i - 1].now || h[i].blocked then 0.0
    else if h[i].now - h[i - 1].now > 60.0 * cap then cap
    else (h[i].now - h[i - 1].now) / 60.0
  }

  function CappedGaps(h: seq<Prompt>, n: nat, cap: real): real
    requires n <= |h|
  {
    if n == 0 then 0.0 else CappedGaps(h, n - 1, cap) + CappedGap(h, n - 1, cap)
  }

  // Without runs the booked minutes are the capped gaps.
  lemma {:induction false} NoRunsBookTheGaps(h: seq<Prompt>, n: nat, cap: real)
    requires n <= |h| && forall p | p in h :: p.runs == []
    ensures After(h[..n], cap).minutes == CappedGaps(h, n, cap)
    ensures After(h[..n], cap).last == if n == 0 then None else Some(h[n - 1].now)
  {
    if n > 0 {
      var m := n - 1;
      assert h[..n][..m] == h[..m] && h[..n][m] == h[m];
      NoRunsBookTheGaps(h, m, cap);
      if m > 0 { NothingCovered(h[m].runs, h[m - 1].now, h[m].now); }
    }
  }

  // ---- Against the clock ----

  predicate Forward(h: seq<Prompt>) {
    forall i | 0 < i < |h| :: h[i - 1].now <= h[i].now
  }

  // The gaps that do not count because the session was waiting for a decision.
  function BlockedLength(last: Option<real>, p: Prompt): real {
    if last.Some? && p.now > last.value && p.blocked then p.now - last.value else 0.0
  }

  function BlockedSeconds(h: seq<Prompt>): real {
    if h == [] then 0.0 else BlockedSeconds(h[..|h| - 1]) + BlockedLength(Last(h[..|h| - 1]), h[|h| - 1])
  }

  // Counted and blocked gaps add up to the time that passed exactly when the clock never goes back.
  lemma {:induction false} GapsAreElapsedIff(h: seq<Prompt>)
    requires h != []
    ensures GapSeconds(h) + BlockedSeconds(h) >= h[|h| - 1].now - h[0].now
    ensures GapSeconds(h) + BlockedSeconds(h) == h[|h| - 1].now - h[0].now <==> Forward(h)
  {
    var most, p := h[..|h| - 1], h[|h| - 1];
    if most == [] {
      assert GapSeconds(most) == BlockedSeconds(most) == 0.0;
    } else {
      GapsAreElapsedIff(most);
      assert most[0] == h[0] && most[|most| - 1] == h[|h| - 2];
      assert Forward(h) <==> Forward(most) && h[|h| - 2].now <= p.now by {
        assert forall i | 0 <= i < |most| :: most[i] == h[i];
      }
    }
  }

  // Each prompt sees the runs as they were at that moment.
  predicate Sees(h: seq<Prompt>, runs: seq<Run>) {
    forall p | p in h :: p.runs == UpTo(runs, p.now)
  }

  lemma NoTimeCovered(runs: seq<Run>, at: real)
    ensures Covered(runs, at, at) == 0.0
  {}

  lemma EarlierPrompts(h: seq<Prompt>, runs: seq<Run>)
    requires |h| > 1 && Forward(h) && Sees(h, runs)
    ensures var most, p := h[..|h| - 1], h[|h| - 1];
            && Forward(most) && Sees(most, runs) && most[0] == h[0]
            && p.runs == UpTo(runs, p.now) && most[|most| - 1].now <= p.now
  {}

  // What one gap books and its covered time fit into it, whether it counts or not.
  lemma AnyGap(last: real, p: Prompt, runs: seq<Run>, cap: real)
    requires last <= p.now && p.runs == UpTo(runs, p.now)
    ensures 60.0 * Booked(Some(last), p, cap) + Covered(runs, last, p.now) <= p.now - last
  {
    hide Covered, UpTo, Booking;
    CoveredBounds(runs, last, p.now);
    CoveredUpTo(runs, last, p.now, p.now);
    if Counts(Some(last), p) {
      OneGap(Some(last), p, cap);
    }
  }

  // With a clock that never goes back, no second is counted both as active and as covered, nor twice.
  lemma {:induction false} NoSecondCountsTwice(h: seq<Prompt>, runs: seq<Run>, cap: real)
    requires h != [] && Forward(h) && Sees(h, runs)
    ensures h[0].now <= h[|h| - 1].now && After(h, cap).last == Some(h[|h| - 1].now)
    ensures 60.0 * After(h, cap).minutes + Covered(runs, h[0].now, h[|h| - 1].now) <= h[|h| - 1].now - h[0].now
  {
    hide Covered, UpTo, Forward, Sees, Booked;
    var most, p := h[..|h| - 1], h[|h| - 1];
    if most == [] {
      NoTimeCovered(runs, p.now);
      FirstPromptBooksNothing(h, cap);
    } else {
      EarlierPrompts(h, runs);
      NoSecondCountsTwice(most, runs, cap);
      var lo := most[|most| - 1].now;
      AnyGap(lo, p, runs, cap);
      CoveredSplits(runs, h[0].now, lo, p.now);
    }
  }

  lemma FirstPromptBooksNothing(h: seq<Prompt>, cap: real)
    requires |h| == 1
    ensures After(h, cap) == Ledger(Some(h[0].now), 1, 0.0)
  {
    assert After(h[..0], cap) == Ledger(None, 0, 0.0);
  }

  // A clock that goes back makes the same seconds count again.
  lemma SteppedClockCountsTwice()
    ensures var h := [Prompt(0.0, false, []), Prompt(600.0, false, []), Prompt(0.0, false, []), Prompt(600.0, false, [])];
            60.0 * After(h, 30.0).minutes > h[3].now - h[0].now
  {
    var a, b := Prompt(0.0, false, []), Prompt(600.0, false, []);
    var h := [a, b, a, b];
    assert h[..3] == [a, b, a] && [a, b, a][..2] == [a, b] && [a, b][..1] == [a] && [a][..0] == [];
    assert After([a], 30.0) == Ledger(Some(0.0), 1, 0.0) by { assert After([], 30.0) == Ledger(None, 0, 0.0); }
    assert After([a, b], 30.0) == Ledger(Some(600.0), 2, 10.0);
    assert After([a, b, a], 30.0) == Ledger(Some(0.0), 3, 10.0);
    assert After(h, 30.0).minutes == 20.0;
  }
}
