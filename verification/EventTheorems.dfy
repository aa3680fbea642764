/** Passes of the loop in source/TimerEventHandler.c: when the handler's thread
  follows a null pointer. */
module EventTheorems {
  import opened Timespecs
  import opened Timers
  import opened EventOrder

  /** A pass in which the first event rings: the two readings of the clock, and the
    form in which its new end time is written. */
  datatype Pass = Pass(reading: Reading, end: Time) {
    /** The time between the two readings. */
    function Gap(): int {
      reading.second - reading.first
    }
  }

  /** Each pass comes when the first event is due, however late, and the clock, which
    shows `now` at the start, does not run backward. */
  predicate IsRun(list: seq<Timing>, ps: seq<Pass>, now: int)
    requires list != []
    decreases |ps|
  {
    ps == [] ||
    (&& now <= ps[0].reading.first <= ps[0].reading.second
     && Nanos(list[0].end) <= ps[0].reading.first
     && IsNextEnd(ps[0].end, list[0], ps[0].reading)
     && IsRun(PutBack(list, ps[0].end), ps[1..], ps[0].reading.second))
  }

  /** The gaps of the passes add up to `budget` at most. */
  predicate GapsWithin(ps: seq<Pass>, budget: int)
    decreases |ps|
  {
    ps == [] || (ps[0].Gap() <= budget && GapsWithin(ps[1..], budget - ps[0].Gap()))
  }

  /** No end time is written with a full second of nanoseconds. */
  predicate CanonicalPasses(ps: seq<Pass>) {
    forall i :: 0 <= i < |ps| ==> Canonical(ps[i].end)
  }

  /** In one of the passes the event would have to be put back first. */
  predicate FollowsNull(list: seq<Timing>, ps: seq<Pass>)
    requires list != []
    decreases |ps|
  {
    ps != [] &&
    (StaysFirst(list, ps[0].end) || FollowsNull(PutBack(list, ps[0].end), ps[1..]))
  }

  /** However long the handler runs, whatever the clock shows, and however the end
    times are written. */
  ghost predicate NeverFollowsNull(list: seq<Timing>, now: int)
    requires list != []
  {
    forall ps :: IsRun(list, ps, now) ==> !FollowsNull(list, ps)
  }

  /** The same for runs in which no more than `budget` goes by within the checks. */
  ghost predicate SafeWithin(list: seq<Timing>, now: int, budget: int)
    requires list != []
  {
    forall ps :: IsRun(list, ps, now) && GapsWithin(ps, budget) ==> !FollowsNull(list, ps)
  }

  function End(timing: Timing): int {
    Nanos(timing.end)
  }

  function Period(timing: Timing): int {
    Nanos(timing.run)
  }

  /** A list in order, of timers that run, whose clock has been on for a second: then
    no end time is zero seconds. */
  predicate InOrder(list: seq<Timing>) {
    && AllNormal(Ends(list)) && Sorted(Ends(list))
    && forall i :: 0 <= i < |list| ==> End(list[i]) >= NANOS_PER_SECOND && Period(list[i]) > 0
  }

  predicate SamePeriod(list: seq<Timing>, p: int) {
    forall i :: 0 <= i < |list| ==> Period(list[i]) == p
  }

  /** The elements of the list after a pass. */
  lemma PutBackElements(list: seq<Timing>, t: Time)
    requires list != []
    ensures var k, r := Place(Ends(list[1..]), t), PutBack(list, t);
      && |r| == |list| && k < |list| && r[k] == Timing(t, list[0].run)
      && (forall i :: 0 <= i < k ==> r[i] == list[i + 1])
      && (forall i :: k < i < |list| ==> r[i] == list[i])
  {
    hide Place;
    InsertedElements(list[1..], Place(Ends(list[1..]), t), Timing(t, list[0].run));
  }

  lemma OrderedEnds(list: seq<Timing>, i: nat, j: nat)
    requires InOrder(list) && i <= j < |list|
    ensures End(list[i]) <= End(list[j]) && Normal(list[i].end)
  {
    hide Nanos, Normal;
    assert Normal(Ends(list)[i]);
    assert i < j ==> Nanos(Ends(list)[i]) <= Nanos(Ends(list)[j]);
  }

  lemma RestInOrder(list: seq<Timing>)
    requires list != [] && InOrder(list)
    ensures AllNormal(Ends(list[1..])) && Sorted(Ends(list[1..]))
  {
    hide Nanos, Normal;
    assert Ends(list[1..]) == Ends(list)[1..];
  }

  /** A pass keeps the list in order. */
  lemma PassKeepsOrder(list: seq<Timing>, t: Time)
    requires list != [] && InOrder(list) && Normal(t) && Nanos(t) >= End(list[0])
    ensures InOrder(PutBack(list, t))
  {
    hide InsertedAt, PutBack, Place, Sorted, AllNormal, Normal, Ends;
    RestInOrder(list);
    PutBackKeys(list, t);
    PutBackElements(list, t);
    InsertionKeepsSorted(Ends(list[1..]), t);
  }

  /** The new end has seconds, so the event is put back. */
  lemma NextEndHasSeconds(list: seq<Timing>, t: Time)
    requires list != [] && InOrder(list) && Normal(t) && Nanos(t) >= End(list[0]) + Period(list[0])
    ensures t.sec != 0
  {
  }

  lemma PassKeepsPeriods(list: seq<Timing>, t: Time, p: int)
    requires list != [] && SamePeriod(list, p)
    ensures SamePeriod(PutBack(list, t), p)
  {
    hide PutBack, Place;
    PutBackElements(list, t);
  }

  /** A pass takes the first event past every other one that ends before `t`. */
  lemma GoesBehind(list: seq<Timing>, t: Time, j: nat)
    requires InOrder(list) && 0 < j < |list| && Normal(t) && End(list[j]) < Nanos(t)
    ensures j <= Place(Ends(list[1..]), t) && !StaysFirst(list, t)
  {
    hide Place, Normal, InOrder, Nanos, CmpFast;
    var keys, k := Ends(list[1..]), Place(Ends(list[1..]), t);
    OrderedEnds(list, 1, j);
    CmpFollowsTime(t, keys[0]);
    if k < j {
      OrderedEnds(list, k + 1, j);
      CmpFollowsTime(t, keys[k]);
    }
  }

  // ---------- Runs ----------

  lemma MoreBudget(ps: seq<Pass>, budget: int, more: int)
    requires GapsWithin(ps, budget) && budget <= more
    ensures GapsWithin(ps, more)
    decreases |ps|
  {
    if ps != [] {
      MoreBudget(ps[1..], budget - ps[0].Gap(), more - ps[0].Gap());
    }
  }

  /** What the first pass of a run does. */
  lemma RunBegins(list: seq<Timing>, ps: seq<Pass>, now: int)
    requires list != [] && ps != [] && IsRun(list, ps, now)
    ensures var p := ps[0];
      && p.Gap() >= 0 && Normal(p.end)
      && Nanos(p.end) == End(list[0]) + Period(list[0]) + p.Gap()
      && PutBack(list, p.end) != []
      && IsRun(PutBack(list, p.end), ps[1..], p.reading.second)
  {
    hide Normal, Nanos, PutBack;
    PutBackElements(list, ps[0].end);
  }

  lemma GapsLeft(ps: seq<Pass>, budget: int)
    requires ps != [] && GapsWithin(ps, budget)
    ensures ps[0].Gap() <= budget && GapsWithin(ps[1..], budget - ps[0].Gap())
  {
  }

  lemma FollowsLater(list: seq<Timing>, ps: seq<Pass>)
    requires list != [] && ps != [] && PutBack(list, ps[0].end) != []
    ensures FollowsNull(list, ps) <==>
      StaysFirst(list, ps[0].end) || FollowsNull(PutBack(list, ps[0].end), ps[1..])
  {
    hide PutBack, StaysFirst;
  }

  /** A pass at `now` or when the first event is due, with the gap that its new end
    tells. */
  function PassAt(list: seq<Timing>, t: Time, now: int): (p: Pass)
    requires list != []
    ensures p.Gap() == Nanos(t) - End(list[0]) - Period(list[0])
  {
    var first := if now < End(list[0]) then End(list[0]) else now;
    Pass(Reading(first, first + Nanos(t) - End(list[0]) - Period(list[0])), t)
  }

  /** Such a pass before a run that fails. */
  lemma FirstPass(list: seq<Timing>, t: Time, now: int, ps: seq<Pass>)
    requires list != [] && Normal(t) && Nanos(t) >= End(list[0]) + Period(list[0])
    requires PutBack(list, t) != [] && FollowsNull(PutBack(list, t), ps)
    requires IsRun(PutBack(list, t), ps, PassAt(list, t, now).reading.second)
    ensures var all := [PassAt(list, t, now)] + ps; IsRun(list, all, now) && FollowsNull(list, all)
  {
    hide PutBack, StaysFirst, Normal, Nanos;
    var all := [PassAt(list, t, now)] + ps;
    assert all[0] == PassAt(list, t, now) && all[1..] == ps;
  }

  lemma FirstGap(p: Pass, ps: seq<Pass>, budget: int)
    requires p.Gap() <= budget && GapsWithin(ps, budget - p.Gap())
    ensures GapsWithin([p] + ps, budget)
  {
    assert ([p] + ps)[1..] == ps;
  }

  /** A run of one pass in which the event stays first; its end time may be written
    like the next one's. */
  lemma LastPass(list: seq<Timing>, now: int) returns (ps: seq<Pass>)
    requires |list| > 1 && Normal(list[1].end)
    requires End(list[0]) + Period(list[0]) <= End(list[1])
    ensures IsRun(list, ps, now) && FollowsNull(list, ps) && GapsWithin(ps, 0)
    ensures Canonical(list[1].end) ==> CanonicalPasses(ps)
  {
    hide PutBack, Ends;
    var n := End(list[0]) + Period(list[0]);
    var t := if n == End(list[1]) then list[1].end else FromNanos(n);
    CmpFollowsTime(t, list[1].end);
    assert Ends(list[1..])[0] == list[1].end;
    ps := [PassAt(list, t, now)];
    assert ps[1..] == [];
  }

  // ---------- Any clock ----------

  /** The event before index `m` could ring again by `x`, and all behind it end at
    `x` or later. */
  predicate Pushed(list: seq<Timing>, x: int, m: nat) {
    && 0 < m <= |list| && End(list[m - 1]) + Period(list[m - 1]) <= x
    && forall i :: m <= i < |list| ==> End(list[i]) >= x
  }

  /** Gaps that are long enough push the first event behind that time. */
  lemma PassPushes(list: seq<Timing>, t: Time, x: int, m: nat)
    requires InOrder(list) && Pushed(list, x, m) && m > 1 && Normal(t) && Nanos(t) >= x
    ensures |PutBack(list, t)| == |list| && Pushed(PutBack(list, t), x, m - 1)
  {
    hide PutBack, Place, Normal, InOrder, Nanos;
    assert End(list[m - 1]) < x by {
      hide *;
      PeriodsArePositive(list, m - 1);
    }
    GoesBehind(list, t, m - 1);
    PutBackElements(list, t);
  }

  lemma PeriodsArePositive(list: seq<Timing>, i: nat)
    requires InOrder(list) && i < |list|
    ensures Period(list[i]) > 0
  {
  }

  lemma {:induction false} PushedFails(list: seq<Timing>, now: int, x: int, m: nat) returns (ps: seq<Pass>)
    requires |list| > 1 && InOrder(list) && Pushed(list, x, m)
    ensures IsRun(list, ps, now) && FollowsNull(list, ps)
    decreases m
  {
    hide PutBack, InOrder, Normal, Nanos, FollowsNull, IsRun, GapsWithin;
    var n := End(list[0]) + Period(list[0]);
    PeriodsArePositive(list, 0);
    OrderedEnds(list, 1, 1);
    if n <= End(list[1]) {
      ps := LastPass(list, now);
    } else {
      var t := FromNanos(if n < x then x else n);
      var p := PassAt(list, t, now);
      PassKeepsOrder(list, t);
      PassPushes(list, t, x, m);
      var others := PushedFails(PutBack(list, t), p.reading.second, x, m - 1);
      ps := [p] + others;
      FirstPass(list, t, now, others);
    }
  }

  lemma {:induction false} OneTimerIsSafe(list: seq<Timing>, ps: seq<Pass>)
    requires |list| == 1
    ensures !FollowsNull(list, ps)
    decreases |ps|
  {
    if ps != [] {
      hide PutBack;
      PutBackElements(list, ps[0].end);
      OneTimerIsSafe(PutBack(list, ps[0].end), ps[1..]);
    }
  }

  /** Any timers, and a clock of which nothing is known but that it does not run
    backward: the null pointer is never followed if and only if there is a single
    timer. */
  lemma AnyClock(list: seq<Timing>, now: int)
    requires list != [] && InOrder(list)
    ensures NeverFollowsNull(list, now) <==> |list| == 1
  {
    hide InOrder, IsRun, FollowsNull, Nanos;
    if |list| == 1 {
      forall ps | IsRun(list, ps, now)
        ensures !FollowsNull(list, ps)
      {
        OneTimerIsSafe(list, ps);
      }
    } else {
      var m := |list|;
      var ps := PushedFails(list, now, End(list[m - 1]) + Period(list[m - 1]), m);
    }
  }

  // ---------- Equal periods ----------

  /** Two events end further apart than the budget, in either direction around the
    period, and the earlier one before the first one would end again. */
  predicate AreApart(list: seq<Timing>, p: int, budget: int, i: nat, j: nat)
    requires i < j < |list|
  {
    && End(list[i]) < End(list[0]) + p
    && End(list[i]) + budget < End(list[j])
    && End(list[j]) + budget < End(list[i]) + p
  }

  predicate Spread(list: seq<Timing>, p: int, budget: int) {
    exists i, j :: 0 <= i < j < |list| && AreApart(list, p, budget, i, j)
  }

  /** A pass of such a list does not fail, and leaves two such events for what is left
    of the budget. */
  lemma PassKeepsSpread(list: seq<Timing>, t: Time, p: int, budget: int, gap: int)
    requires list != [] && InOrder(list) && SamePeriod(list, p) && Spread(list, p, budget)
    requires 0 <= gap <= budget && Normal(t) && Nanos(t) == End(list[0]) + p + gap
    ensures !StaysFirst(list, t) && Spread(PutBack(list, t), p, budget - gap)
  {
    hide PutBack, Place, StaysFirst, Normal, Nanos, InOrder;
    var i, j :| 0 <= i < j < |list| && AreApart(list, p, budget, i, j);
    var m := if i == 0 then j else i;
    GoesBehind(list, t, m);
    OrderedEnds(list, 0, 1);
    PutBackElements(list, t);
    var k, r := Place(Ends(list[1..]), t), PutBack(list, t);
    var a, b := m - 1, if i == 0 then k else if j - 1 < k then j - 1 else j;
    assert r[0] == list[1] && r[a] == list[m];
    assert AreApart(r, p, budget - gap, a, b);
  }

  /** As long as the gaps do not add up to the distance of two events, the null
    pointer is not followed. */
  lemma {:induction false} SpreadIsSafe(list: seq<Timing>, ps: seq<Pass>, now: int, p: int, budget: int)
    requires list != [] && InOrder(list) && SamePeriod(list, p) && Spread(list, p, budget)
    requires IsRun(list, ps, now) && GapsWithin(ps, budget)
    ensures !FollowsNull(list, ps)
    decreases |ps|
  {
    if ps != [] {
      hide PutBack, InOrder, SamePeriod, Spread, IsRun, GapsWithin, FollowsNull, StaysFirst, Normal, Nanos;
      var t := ps[0].end;
      RunBegins(list, ps, now);
      GapsLeft(ps, budget);
      FollowsLater(list, ps);
      FirstPeriod(list, p);
      PassKeepsOrder(list, t);
      PassKeepsPeriods(list, t, p);
      PassKeepsSpread(list, t, p, budget, ps[0].Gap());
      SpreadIsSafe(PutBack(list, t), ps[1..], ps[0].reading.second, p, budget - ps[0].Gap());
    }
  }

  lemma FirstPeriod(list: seq<Timing>, p: int)
    requires list != [] && InOrder(list) && SamePeriod(list, p)
    ensures Period(list[0]) == p > 0
  {
  }

  /** Some event ends within one period after the first, and not together with it. */
  predicate Interleaved(list: seq<Timing>, p: int)
    requires list != []
  {
    exists j :: 0 < j < |list| && End(list[0]) < End(list[j]) < End(list[0]) + p
  }

  lemma InterleavedIsSpread(list: seq<Timing>, p: int)
    requires list != [] && p > 0 && Interleaved(list, p)
    ensures Spread(list, p, 0)
  {
    var j :| 0 < j < |list| && End(list[0]) < End(list[j]) < End(list[0]) + p;
    assert AreApart(list, p, 0, 0, j);
  }

  /** The first `m` events end at `e`, the others a period later or more. */
  predicate Packed(list: seq<Timing>, p: int, m: nat) {
    && 0 < m <= |list|
    && (forall i :: 0 <= i < m ==> End(list[i]) == End(list[0]))
    && (forall i :: m <= i < |list| ==> End(list[i]) >= End(list[0]) + p)
  }

  lemma {:induction false} PackedPrefix(list: seq<Timing>, p: int, m: nat) returns (n: nat)
    requires list != [] && InOrder(list) && !Interleaved(list, p) && p > 0
    requires 0 < m <= |list| && forall i :: 0 <= i < m ==> End(list[i]) == End(list[0])
    ensures Packed(list, p, n)
    decreases |list| - m
  {
    if m < |list| && End(list[m]) == End(list[0]) {
      n := PackedPrefix(list, p, m + 1);
    } else {
      n := m;
      forall i | m <= i < |list|
        ensures End(list[i]) >= End(list[0]) + p
      {
        OrderedEnds(list, 0, m);
        OrderedEnds(list, m, i);
      }
    }
  }

  lemma PackedAlone(list: seq<Timing>, p: int)
    requires |list| > 1 && InOrder(list) && SamePeriod(list, p) && Packed(list, p, 1)
    ensures Normal(list[1].end) && End(list[0]) + Period(list[0]) <= End(list[1])
  {
    OrderedEnds(list, 1, 1);
  }

  lemma PackedSize(list: seq<Timing>, p: int, m: nat)
    requires list != [] && SamePeriod(list, p) && Packed(list, p, m)
    ensures 0 < m <= |list| && Period(list[0]) == p
  {
  }

  /** The first of several events that end together goes behind the others. */
  lemma PassUnpacks(list: seq<Timing>, t: Time, p: int, m: nat)
    requires list != [] && Packed(list, p, m) && m > 1 && InOrder(list) && SamePeriod(list, p)
    requires Normal(t) && Nanos(t) == End(list[0]) + p
    ensures |PutBack(list, t)| == |list| && Packed(PutBack(list, t), p, m - 1)
  {
    hide PutBack, Place, Normal, InOrder;
    FirstPeriod(list, p);
    GoesBehind(list, t, m - 1);
    PutBackElements(list, t);
  }

  lemma {:induction false} PackedFails(list: seq<Timing>, now: int, p: int, m: nat) returns (ps: seq<Pass>)
    requires |list| > 1 && InOrder(list) && SamePeriod(list, p) && Packed(list, p, m)
    ensures IsRun(list, ps, now) && FollowsNull(list, ps) && GapsWithin(ps, 0)
    decreases m
  {
    hide PutBack, InOrder, Packed, IsRun, FollowsNull, GapsWithin;
    if m == 1 {
      PackedAlone(list, p);
      ps := LastPass(list, now);
    } else {
      PackedSize(list, p, m);
      FirstPeriod(list, p);
      var t := FromNanos(End(list[0]) + p);
      var first := PassAt(list, t, now);
      PassKeepsOrder(list, t);
      PassKeepsPeriods(list, t, p);
      PassUnpacks(list, t, p, m);
      hide SamePeriod;
      var others := PackedFails(PutBack(list, t), first.reading.second, p, m - 1);
      FirstPass(list, t, now, others);
      FirstGap(first, others, 0);
      ps := [first] + others;
    }
  }

  /** Any number of timers with one period, if no time goes by within a check: the
    null pointer is never followed if and only if there is a single timer, or one of
    them ends within a period after the first and not together with it. */
  lemma EqualPeriods(list: seq<Timing>, now: int, p: int)
    requires list != [] && InOrder(list) && SamePeriod(list, p)
    ensures SafeWithin(list, now, 0) <==> |list| == 1 || Interleaved(list, p)
  {
    hide InOrder, SamePeriod, IsRun, FollowsNull, GapsWithin, Interleaved, Spread;
    FirstPeriod(list, p);
    if |list| == 1 {
      forall ps | IsRun(list, ps, now)
        ensures !FollowsNull(list, ps)
      {
        OneTimerIsSafe(list, ps);
      }
    } else if Interleaved(list, p) {
      InterleavedIsSpread(list, p);
      forall ps | IsRun(list, ps, now) && GapsWithin(ps, 0)
        ensures !FollowsNull(list, ps)
      {
        SpreadIsSafe(list, ps, now, p, 0);
      }
    } else {
      var m := PackedPrefix(list, p, 1);
      var ps := PackedFails(list, now, p, m);
    }
  }

  // ---------- Two timers ----------

  /** How far two timers are from a pass that fails: the first one's period, the
    other's, and the time between their ends. */
  function Distance(u: int, v: int, d: int): int {
    if d >= u then 0
    else if u == v then 1
    else if u < v then 2 * (u - d) + 2
    else 2 * d + 1
  }

  lemma DistanceShrinks(u: int, v: int, d: int)
    requires 0 < u && 0 < v && 0 <= d < u
    requires u != v || d == 0
    ensures 0 <= Distance(v, u, u - d) < Distance(u, v, d)
  {
  }

  /** The order of two timers after a pass that does not fail. */
  lemma TwoSwap(a: Timing, b: Timing, t: Time)
    requires Normal(t) && Normal(b.end) && Nanos(t) > End(b)
    ensures PutBack([a, b], t) == [b, Timing(t, a.run)] && !StaysFirst([a, b], t)
  {
    hide Normal, Nanos, CmpFast;
    CmpFollowsTime(t, b.end);
    assert [a, b][1..] == [b] && Ends([b]) == [b.end];
    assert Place([b.end], t) == 1;
  }

  lemma TwoInOrder(a: Timing, b: Timing)
    requires InOrder([a, b])
    ensures Normal(a.end) && Normal(b.end) && End(a) <= End(b) && Period(a) > 0 && Period(b) > 0
  {
    OrderedEnds([a, b], 0, 1);
    OrderedEnds([a, b], 1, 1);
    assert [a, b][0] == a && [a, b][1] == b;
  }

  /** A pass that takes the first of two timers behind the other, before a run that
    fails. */
  lemma TwoPass(a: Timing, b: Timing, gap: nat, now: int) returns (first: Pass, next: Timing)
    requires InOrder([a, b]) && End(a) + Period(a) + gap > End(b)
    ensures first.Gap() == gap && next.run == a.run && End(next) == End(a) + Period(a) + gap
    ensures InOrder([b, next]) && Canonical(next.end)
    ensures forall ps :: IsRun([b, next], ps, first.reading.second) && FollowsNull([b, next], ps) ==>
      IsRun([a, b], [first] + ps, now) && FollowsNull([a, b], [first] + ps)
  {
    hide PutBack, InOrder, IsRun, FollowsNull;
    TwoInOrder(a, b);
    var t := FromNanos(End(a) + Period(a) + gap);
    first, next := PassAt([a, b], t, now), Timing(t, a.run);
    TwoSwap(a, b, t);
    PassKeepsOrder([a, b], t);
    forall ps | IsRun([b, next], ps, first.reading.second) && FollowsNull([b, next], ps)
      ensures IsRun([a, b], [first] + ps, now) && FollowsNull([a, b], [first] + ps)
    {
      FirstPass([a, b], t, now, ps);
    }
  }

  lemma {:induction false} TwoFail(a: Timing, b: Timing, now: int) returns (ps: seq<Pass>)
    requires InOrder([a, b])
    requires Period(a) != Period(b) || End(a) == End(b) || End(b) >= End(a) + Period(a)
    ensures IsRun([a, b], ps, now) && FollowsNull([a, b], ps) && GapsWithin(ps, 0)
    decreases Distance(Period(a), Period(b), End(b) - End(a))
  {
    hide InOrder, IsRun, FollowsNull, GapsWithin, Nanos, Normal, Distance;
    TwoInOrder(a, b);
    if End(a) + Period(a) <= End(b) {
      ps := LastPass([a, b], now);
    } else {
      var first, next := TwoPass(a, b, 0, now);
      DistanceShrinks(Period(a), Period(b), End(b) - End(a));
      var others := TwoFail(b, next, first.reading.second);
      FirstGap(first, others, 0);
      ps := [first] + others;
    }
  }

  /** A gap as long as the distance to the other timer, in one of two passes. */
  lemma TwoFailByGaps(a: Timing, b: Timing, now: int, budget: nat) returns (ps: seq<Pass>)
    requires InOrder([a, b]) && Period(a) == Period(b) && End(a) < End(b) < End(a) + Period(a)
    requires End(b) <= End(a) + budget || End(a) + Period(a) <= End(b) + budget
    ensures IsRun([a, b], ps, now) && FollowsNull([a, b], ps) && GapsWithin(ps, budget)
  {
    hide InOrder, IsRun, FollowsNull, GapsWithin, Nanos, Normal;
    TwoInOrder(a, b);
    if End(b) <= End(a) + budget {
      var first, next := TwoPass(a, b, budget, now);
      var last := LastPass([b, next], first.reading.second);
      FirstGap(first, last, budget);
      ps := [first] + last;
    } else {
      var first, next := TwoPass(a, b, 0, now);
      var second, other := TwoPass(b, next, budget, first.reading.second);
      var last := LastPass([next, other], second.reading.second);
      FirstGap(second, last, budget);
      FirstGap(first, [second] + last, budget);
      ps := [first] + ([second] + last);
    }
  }

  /** Two timers, whatever their periods: while no more than `budget` goes by within
    the checks, the null pointer is never followed if and only if the periods are
    equal and the ends are further apart than the budget, in either direction around
    the period. Without gaps: less than one period apart, but not equal. */
  lemma TwoTimers(a: Timing, b: Timing, now: int, budget: nat)
    requires InOrder([a, b])
    ensures SafeWithin([a, b], now, budget) <==>
      Period(a) == Period(b) && End(a) + budget < End(b) && End(b) + budget < End(a) + Period(a)
  {
    hide InOrder, IsRun, FollowsNull, GapsWithin, Nanos, Normal, Spread;
    TwoInOrder(a, b);
    var list := [a, b];
    assert list[0] == a && list[1] == b;
    var p := Period(a);
    if p == Period(b) && End(a) + budget < End(b) && End(b) + budget < End(a) + p {
      TwoSpread(a, b, p, budget);
      forall ps | IsRun(list, ps, now) && GapsWithin(ps, budget)
        ensures !FollowsNull(list, ps)
      {
        SpreadIsSafe(list, ps, now, p, budget);
      }
    } else if p != Period(b) || End(a) == End(b) || End(b) >= End(a) + p {
      var ps := TwoFail(a, b, now);
      MoreBudget(ps, 0, budget);
    } else {
      var ps := TwoFailByGaps(a, b, now, budget);
    }
  }

  lemma TwoSpread(a: Timing, b: Timing, p: int, budget: nat)
    requires Period(a) == Period(b) == p > 0
    requires End(a) + budget < End(b) && End(b) + budget < End(a) + p
    ensures Spread([a, b], p, budget) && SamePeriod([a, b], p)
  {
    assert AreApart([a, b], p, budget, 0, 1);
  }

  /** Whether two timers with the periods `u` and `v`, whose ends are `d` apart, fail
    in a run with these gaps. */
  predicate Fails(d: int, u: int, v: int, ps: seq<Pass>)
    decreases |ps|
  {
    ps != [] && (d >= u + ps[0].Gap() || Fails(u + ps[0].Gap() - d, v, u, ps[1..]))
  }

  /** That decides any run of two timers: the null pointer is followed when the next
    timer ends no earlier than a period and a gap after the first one. */
  lemma {:induction false} TwoTimersRun(a: Timing, b: Timing, ps: seq<Pass>, now: int)
    requires InOrder([a, b]) && Canonical(b.end) && CanonicalPasses(ps)
    requires IsRun([a, b], ps, now)
    ensures FollowsNull([a, b], ps) <==> Fails(End(b) - End(a), Period(a), Period(b), ps)
    decreases |ps|
  {
    if ps != [] {
      hide PutBack, InOrder, IsRun, Nanos, Normal, StaysFirst;
      var t, next := ps[0].end, Timing(ps[0].end, a.run);
      TwoInOrder(a, b);
      RunBegins([a, b], ps, now);
      TwoStaysFirst(a, b, t);
      if Nanos(t) > End(b) {
        TwoSwap(a, b, t);
        PassKeepsOrder([a, b], t);
        TwoTimersRun(b, next, ps[1..], ps[0].reading.second);
      }
    }
  }

  lemma TwoStaysFirst(a: Timing, b: Timing, t: Time)
    requires Canonical(t) && Canonical(b.end)
    ensures StaysFirst([a, b], t) <==> Nanos(t) <= End(b)
  {
    hide Nanos;
    CmpFollowsTime(t, b.end);
    assert [a, b][1..] == [b] && Ends([b])[0] == b.end;
  }
}
