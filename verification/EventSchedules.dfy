/** When the handler's thread follows a null pointer, for any number of timers with
  any periods, read off the times at which they ring. */
module EventSchedules {
  import opened Memory
  import opened Timespecs
  import opened Timers
  import opened EventOrder
  import opened EventTheorems

  /** The timer rings at `x`, if it is left to itself. */
  predicate RingsAt(timing: Timing, x: int)
    requires Period(timing) > 0
  {
    x >= End(timing) && (x - End(timing)) % Period(timing) == 0
  }

  /** Some timer that rings at `x` does not ring again before another one does. */
  predicate Covered(list: seq<Timing>, x: int)
    requires InOrder(list)
  {
    exists i, j, y {:trigger RingsAt(list[i], x), RingsAt(list[j], y)} ::
      && 0 <= i < |list| && 0 <= j < |list|
      && RingsAt(list[i], x) && RingsAt(list[j], y) && x < y < x + Period(list[i])
  }

  /** That is so at every time at which a timer rings. */
  ghost predicate AlwaysCovered(list: seq<Timing>)
    requires InOrder(list)
  {
    forall i, x {:trigger RingsAt(list[i], x)} ::
      0 <= i < |list| && RingsAt(list[i], x) ==> Covered(list, x)
  }

  /** No end time is written with a full second of nanoseconds. */
  predicate AllCanonical(list: seq<Timing>) {
    forall i :: 0 <= i < |list| ==> Canonical(list[i].end)
  }

  /** Timers that end together stand in the order of their periods. */
  predicate TiesByPeriod(list: seq<Timing>) {
    forall i, j :: 0 <= i < j < |list| && End(list[i]) == End(list[j]) ==>
      Period(list[i]) <= Period(list[j])
  }

  /** Every timer began no later than the first one ends. */
  predicate AllBegun(list: seq<Timing>) {
    forall i :: 0 <= i < |list| ==> End(list[i]) - Period(list[i]) <= End(list[0])
  }

  /** No run follows the null pointer in which no time goes by within a check and the
    times are written canonically, so that they are always compared right. */
  ghost predicate SafeOnTime(list: seq<Timing>, now: int)
    requires list != []
  {
    forall ps :: IsRun(list, ps, now) && GapsWithin(ps, 0) && CanonicalPasses(ps) ==> !FollowsNull(list, ps)
  }

  lemma NextMultiple(d: int, p: int)
    requires p > 0
    ensures d > 0 && d % p == 0 ==> d >= p
    ensures (d - p) % p == d % p
  {
    var q, r := d / p, d % p;
    assert d == q * p + r;
    assert d - p == (q - 1) * p + r;
    Remainder(d - p, q - 1, r, p);
    if 0 < d < p {
      Remainder(d, 0, d, p);
    }
  }

  /** After its ring a timer rings at the same times but that one. */
  lemma RingsAfterRing(timing: Timing, t: Time, x: int)
    requires Period(timing) > 0 && Nanos(t) == End(timing) + Period(timing)
    ensures RingsAt(Timing(t, timing.run), x) <==> RingsAt(timing, x) && x != End(timing)
  {
    NextMultiple(x - End(timing), Period(timing));
  }

  lemma NoRingBeforeThePeriod(timing: Timing, x: int)
    requires Period(timing) > 0 && RingsAt(timing, x) && x > End(timing)
    ensures x >= End(timing) + Period(timing)
  {
    NextMultiple(x - End(timing), Period(timing));
  }

  /** Where an element of the list is after a pass. */
  function Index(list: seq<Timing>, t: Time, i: nat): (r: nat)
    requires i < |list|
    ensures r < |list|
  {
    var k := Place(Ends(list[1..]), t);
    if i == 0 then k else if i - 1 < k then i - 1 else i
  }

  /** A pass takes the first ring out of the schedule. */
  lemma PassRings(list: seq<Timing>, t: Time, i: nat, x: int)
    requires InOrder(list) && i < |list|
    requires Normal(t) && Nanos(t) == End(list[0]) + Period(list[0])
    ensures InOrder(PutBack(list, t))
    ensures var r := PutBack(list, t);
      && |r| == |list| && Period(r[Index(list, t, i)]) == Period(list[i])
      && (RingsAt(r[Index(list, t, i)], x) <==> RingsAt(list[i], x) && (i == 0 ==> x != End(list[0])))
  {
    PassKeepsOrder(list, t);
    PutBackElements(list, t);
    RingsAfterRing(list[0], t, x);
    hide PutBack, Place, RingsAt;
  }

  /** The index of an element before the pass. */
  lemma IndexBefore(list: seq<Timing>, t: Time, m: nat) returns (i: nat)
    requires m < |list|
    ensures i < |list| && Index(list, t, i) == m
  {
    var k := Place(Ends(list[1..]), t);
    i := if m == k then 0 else if m < k then m + 1 else m;
  }

  lemma CanonicalIsNormal(t: Time)
    requires Canonical(t)
    ensures Normal(t)
  {
  }

  // ---------- When every ring is covered ----------

  /** The cover of the first ring is a timer that ends before the first one rings
    again. */
  lemma CoverIsNext(list: seq<Timing>)
    requires InOrder(list) && |list| > 1 && Covered(list, End(list[0]))
    ensures End(list[1]) < End(list[0]) + Period(list[0])
  {
    var x := End(list[0]);
    var i, j, y :| 0 <= i < |list| && 0 <= j < |list| && RingsAt(list[i], x) && RingsAt(list[j], y)
      && x < y < x + Period(list[i]);
    assert End(list[i]) <= x && End(list[j]) <= y;
    OrderedEnds(list, 0, 1);
    if j == 0 {
      NoRingBeforeThePeriod(list[0], y);
    } else {
      OrderedEnds(list, 1, j);
    }
    if i > 0 {
      OrderedEnds(list, 1, i);
    }
    hide InOrder, RingsAt;
  }

  /** The first event does not stay first. */
  lemma CoveredFits(list: seq<Timing>, t: Time)
    requires InOrder(list) && |list| > 1 && AlwaysCovered(list)
    requires Normal(t) && Nanos(t) == End(list[0]) + Period(list[0])
    ensures !StaysFirst(list, t)
  {
    hide Covered, InOrder, StaysFirst, Nanos;
    RingsAtItsEnd(list);
    CoverIsNext(list);
    GoesBehind(list, t, 1);
  }

  lemma RingsAtItsEnd(list: seq<Timing>)
    requires InOrder(list) && list != [] && AlwaysCovered(list)
    ensures Covered(list, End(list[0]))
  {
    hide Covered;
    assert RingsAt(list[0], End(list[0]));
  }

  /** A cover of a ring of event `o` that the first ring is no part of. */
  lemma OtherCover(list: seq<Timing>, o: nat, x: int) returns (i: nat, j: nat, y: int)
    requires InOrder(list) && o < |list| && TiesByPeriod(list)
    requires Covered(list, x) && RingsAt(list[o], x) && (o == 0 ==> x != End(list[0]))
    ensures i < |list| && j < |list| && RingsAt(list[i], x) && RingsAt(list[j], y)
    ensures x < y < x + Period(list[i])
    ensures (i == 0 ==> x != End(list[0])) && (j == 0 ==> y != End(list[0]))
  {
    var c, d, z :| 0 <= c < |list| && 0 <= d < |list| && RingsAt(list[c], x) && RingsAt(list[d], z)
      && x < z < x + Period(list[c]);
    i, j, y := c, d, z;
    OrderedEnds(list, 0, o);
    assert End(list[o]) <= x;
    if c == 0 && x == End(list[0]) {
      assert Period(list[0]) <= Period(list[o]);
      i := o;
    }
    hide RingsAt, InOrder, Covered;
  }

  /** The cover of a ring that is still to come. */
  lemma CoverStays(list: seq<Timing>, t: Time, o: nat, x: int)
    requires InOrder(list) && o < |list| && TiesByPeriod(list) && InOrder(PutBack(list, t))
    requires Normal(t) && Nanos(t) == End(list[0]) + Period(list[0])
    requires Covered(list, x) && RingsAt(list[o], x) && (o == 0 ==> x != End(list[0]))
    ensures Covered(PutBack(list, t), x)
  {
    hide PutBack, RingsAt, InOrder, Index, Covered, TiesByPeriod;
    var i, j, y := OtherCover(list, o, x);
    PassRings(list, t, i, x);
    PassRings(list, t, j, y);
    CoverFrom(PutBack(list, t), x, Index(list, t, i), Index(list, t, j), y);
  }

  lemma RingStaysCovered(list: seq<Timing>, t: Time, m: nat, x: int)
    requires InOrder(list) && list != [] && AlwaysCovered(list) && TiesByPeriod(list)
    requires Normal(t) && Nanos(t) == End(list[0]) + Period(list[0])
    requires InOrder(PutBack(list, t)) && m < |list| == |PutBack(list, t)|
    requires RingsAt(PutBack(list, t)[m], x)
    ensures Covered(PutBack(list, t), x)
  {
    var o := IndexBefore(list, t, m);
    assert Period(list[o]) > 0;
    hide PutBack, RingsAt, InOrder, Index, Covered, TiesByPeriod;
    PassRings(list, t, o, x);
    assert RingsAt(list[o], x);
    CoverStays(list, t, o, x);
  }

  lemma CoverFrom(list: seq<Timing>, x: int, i: nat, j: nat, y: int)
    requires InOrder(list) && i < |list| && j < |list|
    requires RingsAt(list[i], x) && RingsAt(list[j], y) && x < y < x + Period(list[i])
    ensures Covered(list, x)
  {
  }

  lemma PassKeepsCanonical(list: seq<Timing>, t: Time)
    requires list != [] && AllCanonical(list) && Canonical(t)
    ensures AllCanonical(PutBack(list, t))
  {
    PutBackElements(list, t);
    hide PutBack, Place, Canonical;
  }

  /** The ends before the new one are earlier, those behind it are not. */
  lemma PlaceSplits(list: seq<Timing>, t: Time, i: nat)
    requires InOrder(list) && AllCanonical(list) && Canonical(t) && 0 < i < |list|
    ensures End(list[i]) < Nanos(t) <==> i - 1 < Place(Ends(list[1..]), t)
  {
    hide Place, Normal, InOrder, Nanos, CmpFast, AllCanonical;
    CanonicalIsNormal(t);
    CanonicalEnd(list, i);
    var k := Place(Ends(list[1..]), t);
    assert Ends(list[1..])[i - 1] == list[i].end;
    if End(list[i]) < Nanos(t) {
      GoesBehind(list, t, i);
    } else if i - 1 < k {
      CmpFollowsTime(t, list[i].end);
    }
  }

  lemma CanonicalEnd(list: seq<Timing>, i: nat)
    requires AllCanonical(list) && i < |list|
    ensures Canonical(list[i].end)
  {
  }

  lemma PassKeepsBegun(list: seq<Timing>, t: Time)
    requires InOrder(list) && list != [] && AllBegun(list)
    requires Normal(t) && Nanos(t) == End(list[0]) + Period(list[0])
    ensures AllBegun(PutBack(list, t))
  {
    PutBackElements(list, t);
    var r := PutBack(list, t);
    if |list| > 1 {
      OrderedEnds(list, 0, 1);
    }
    assert End(r[0]) >= End(list[0]);
    hide PutBack, Place, InOrder;
  }

  lemma PassKeepsTies(list: seq<Timing>, t: Time)
    requires InOrder(list) && list != [] && TiesByPeriod(list) && AllBegun(list) && AllCanonical(list)
    requires Canonical(t) && Nanos(t) == End(list[0]) + Period(list[0])
    ensures TiesByPeriod(PutBack(list, t))
  {
    hide PutBack, Place, InOrder, Canonical, AllCanonical;
    PutBackElements(list, t);
    var k, r := Place(Ends(list[1..]), t), PutBack(list, t);
    forall i, j | 0 <= i < j < |r| && End(r[i]) == End(r[j])
      ensures Period(r[i]) <= Period(r[j])
    {
      if j == k {
        PlaceSplits(list, t, i + 1);
      } else if i == k {
        assert r[j] == list[j];
        assert End(list[j]) - Period(list[j]) <= End(list[0]);
      }
    }
  }

  /** Everything that makes a list safe. */
  ghost predicate Settled(list: seq<Timing>) {
    InOrder(list) && TiesByPeriod(list) && AllBegun(list) && AllCanonical(list)
  }

  lemma PassKeepsSettled(list: seq<Timing>, t: Time)
    requires list != [] && Settled(list) && Canonical(t) && Nanos(t) == End(list[0]) + Period(list[0])
    ensures Settled(PutBack(list, t)) && |PutBack(list, t)| == |list|
  {
    hide PutBack, InOrder, TiesByPeriod, AllBegun, AllCanonical, Canonical, Nanos;
    CanonicalIsNormal(t);
    FirstIsPositive(list);
    PassKeepsOrder(list, t);
    PassKeepsTies(list, t);
    PassKeepsBegun(list, t);
    PassKeepsCanonical(list, t);
    PutBackElements(list, t);
  }

  lemma FirstIsPositive(list: seq<Timing>)
    requires list != [] && InOrder(list)
    ensures Period(list[0]) > 0
  {
  }

  lemma PassKeepsCovered(list: seq<Timing>, t: Time)
    requires |list| > 1 && Settled(list) && AlwaysCovered(list)
    requires Canonical(t) && Nanos(t) == End(list[0]) + Period(list[0]) && InOrder(PutBack(list, t))
    ensures AlwaysCovered(PutBack(list, t)) && !StaysFirst(list, t)
  {
    hide PutBack, RingsAt, Covered, StaysFirst, Nanos, TiesByPeriod, AllBegun, AllCanonical;
    CoveredFits(list, t);
    PutBackElements(list, t);
    var r := PutBack(list, t);
    forall m, x {:trigger RingsAt(r[m], x)} | 0 <= m < |r| && RingsAt(r[m], x)
      ensures Covered(r, x)
    {
      RingStaysCovered(list, t, m, x);
    }
  }

  lemma {:induction false} CoveredIsSafe(list: seq<Timing>, ps: seq<Pass>, now: int)
    requires |list| > 1 && Settled(list) && AlwaysCovered(list)
    requires IsRun(list, ps, now) && GapsWithin(ps, 0) && CanonicalPasses(ps)
    ensures !FollowsNull(list, ps)
    decreases |ps|
  {
    if ps != [] {
      hide PutBack, InOrder, TiesByPeriod, AllBegun, AllCanonical, AlwaysCovered, IsRun, GapsWithin,
        FollowsNull, StaysFirst, Canonical, Nanos;
      var t := ps[0].end;
      RunBegins(list, ps, now);
      GapsLeft(ps, 0);
      FollowsLater(list, ps);
      PassKeepsSettled(list, t);
      PassKeepsCovered(list, t);
      CoveredIsSafe(PutBack(list, t), ps[1..], ps[0].reading.second);
    }
  }

  // ---------- When a ring is not covered ----------

  /** Some timer rings at `x`, and every one that does rings again before, or when,
    another one does. */
  ghost predicate Uncovered(list: seq<Timing>, x: int)
    requires InOrder(list)
  {
    (exists i :: 0 <= i < |list| && RingsAt(list[i], x)) && !Covered(list, x)
  }

  /** How far the ends are from `x`. */
  function Slack(list: seq<Timing>, x: int): (r: nat) {
    if list == [] then 0
    else (if End(list[0]) <= x then x + 1 - End(list[0]) else 0) + Slack(list[1..], x)
  }

  lemma {:induction false} SlackConcat(a: seq<Timing>, b: seq<Timing>, x: int)
    ensures Slack(a + b, x) == Slack(a, x) + Slack(b, x)
    decreases |a|
  {
    if a == [] {
      assert a + b == b;
    } else {
      assert (a + b)[1..] == a[1..] + b;
      SlackConcat(a[1..], b, x);
    }
  }

  lemma PassShrinksSlack(list: seq<Timing>, t: Time, x: int)
    requires list != [] && End(list[0]) <= x && Nanos(t) > End(list[0])
    ensures Slack(PutBack(list, t), x) < Slack(list, x)
  {
    var rest, one := list[1..], [Timing(t, list[0].run)];
    var k := Place(Ends(rest), t);
    assert PutBack(list, t) == rest[..k] + one + rest[k..];
    assert rest == rest[..k] + rest[k..];
    SlackConcat(rest[..k] + one, rest[k..], x);
    SlackConcat(rest[..k], one, x);
    SlackConcat(rest[..k], rest[k..], x);
    assert one[1..] == [];
    hide PutBack, Place;
  }

  lemma CoverOf(list: seq<Timing>, x: int) returns (i: nat, j: nat, y: int)
    requires InOrder(list) && Covered(list, x)
    ensures i < |list| && j < |list| && Period(list[i]) > 0 && Period(list[j]) > 0
    ensures RingsAt(list[i], x) && RingsAt(list[j], y) && x < y < x + Period(list[i])
  {
    i, j, y :| 0 <= i < |list| && 0 <= j < |list| && RingsAt(list[i], x) && RingsAt(list[j], y)
      && x < y < x + Period(list[i]);
  }

  /** A cover after a pass was one before. */
  lemma CoverWas(list: seq<Timing>, t: Time, x: int)
    requires InOrder(list) && list != [] && InOrder(PutBack(list, t)) && |PutBack(list, t)| == |list|
    requires Normal(t) && Nanos(t) == End(list[0]) + Period(list[0])
    requires Covered(PutBack(list, t), x)
    ensures Covered(list, x)
  {
    hide PutBack, RingsAt, InOrder, Index, Covered;
    var a, b, y := CoverOf(PutBack(list, t), x);
    var i := IndexBefore(list, t, a);
    var j := IndexBefore(list, t, b);
    PassRings(list, t, i, x);
    PassRings(list, t, j, y);
    CoverFrom(list, x, i, j, y);
  }

  lemma UncoveredBy(list: seq<Timing>, x: int, i: nat)
    requires InOrder(list) && i < |list| && RingsAt(list[i], x) && !Covered(list, x)
    ensures Uncovered(list, x)
  {
  }

  /** An event that rings at `x`, but is not first if that time has come. */
  lemma RingsLater(list: seq<Timing>, x: int) returns (i: nat)
    requires InOrder(list) && list != [] && Uncovered(list, x)
    requires End(list[0]) < x || (|list| > 1 && End(list[1]) == x)
    ensures i < |list| && Period(list[i]) > 0 && RingsAt(list[i], x)
    ensures i == 0 ==> x != End(list[0])
    ensures !Covered(list, x)
  {
    i :| 0 <= i < |list| && RingsAt(list[i], x);
    if End(list[0]) == x {
      i := 1;
    }
  }

  /** A pass before `x`, or one of several at `x`, leaves it uncovered. */
  lemma UncoveredStays(list: seq<Timing>, t: Time, x: int)
    requires InOrder(list) && list != [] && Uncovered(list, x)
    requires Normal(t) && Nanos(t) == End(list[0]) + Period(list[0])
    requires End(list[0]) < x || (|list| > 1 && End(list[1]) == x)
    ensures InOrder(PutBack(list, t)) && Uncovered(PutBack(list, t), x)
  {
    hide PutBack, RingsAt, InOrder, Index, Covered, Uncovered;
    var i := RingsLater(list, x);
    PassRings(list, t, i, x);
    if Covered(PutBack(list, t), x) {
      CoverWas(list, t, x);
    }
    UncoveredBy(PutBack(list, t), x, Index(list, t, i));
  }

  /** At `x` itself a single timer that is not covered stays first. */
  lemma UncoveredFails(list: seq<Timing>, x: int)
    requires InOrder(list) && |list| > 1 && Uncovered(list, x)
    requires End(list[0]) == x < End(list[1])
    ensures End(list[1]) >= x + Period(list[0])
  {
    assert RingsAt(list[0], x) && RingsAt(list[1], End(list[1]));
    if End(list[1]) < x + Period(list[0]) {
      CoverFrom(list, x, 0, 1, End(list[1]));
    }
  }

  lemma UncoveredIsAhead(list: seq<Timing>, x: int)
    requires InOrder(list) && list != [] && Uncovered(list, x)
    ensures End(list[0]) <= x && Period(list[0]) > 0
  {
    var i :| 0 <= i < |list| && RingsAt(list[i], x);
    OrderedEnds(list, 0, i);
  }

  /** A pass that does not fail, and comes closer to `x`. */
  lemma UncoveredStep(list: seq<Timing>, t: Time, x: int)
    requires InOrder(list) && |list| > 1 && AllCanonical(list) && Uncovered(list, x)
    requires Canonical(t) && Nanos(t) == End(list[0]) + Period(list[0]) > End(list[1])
    ensures var r := PutBack(list, t);
      && |r| == |list| && InOrder(r) && AllCanonical(r) && Uncovered(r, x)
      && Slack(r, x) < Slack(list, x)
  {
    hide PutBack, InOrder, Uncovered, Place, Slack, AllCanonical;
    UncoveredIsAhead(list, x);
    OrderedEnds(list, 0, 1);
    if End(list[0]) == x < End(list[1]) {
      UncoveredFails(list, x);
    }
    UncoveredStays(list, t, x);
    PassShrinksSlack(list, t, x);
    PassKeepsCanonical(list, t);
    PutBackElements(list, t);
  }

  lemma {:induction false} UncoveredRuns(list: seq<Timing>, now: int, x: int) returns (ps: seq<Pass>)
    requires InOrder(list) && |list| > 1 && AllCanonical(list) && Uncovered(list, x)
    ensures IsRun(list, ps, now) && GapsWithin(ps, 0) && CanonicalPasses(ps) && FollowsNull(list, ps)
    decreases Slack(list, x)
  {
    hide PutBack, InOrder, Uncovered, Slack, IsRun, GapsWithin, FollowsNull, Canonical, Nanos, Normal;
    OrderedEnds(list, 1, 1);
    UncoveredIsAhead(list, x);
    if End(list[0]) + Period(list[0]) <= End(list[1]) {
      ps := LastPass(list, now);
    } else {
      var t := FromNanos(End(list[0]) + Period(list[0]));
      var first := PassAt(list, t, now);
      CanonicalIsNormal(t);
      UncoveredStep(list, t, x);
      var others := UncoveredRuns(PutBack(list, t), first.reading.second, x);
      FirstPass(list, t, now, others);
      FirstGap(first, others, 0);
      ps := [first] + others;
    }
  }

  /** Any timers, if no time goes by within a check: in a list as the handler leaves
    it, the null pointer is never followed if and only if there is a single timer, or
    at every time at which timers ring one of them does not ring again before another
    one does. */
  lemma AnyPeriods(list: seq<Timing>, now: int)
    requires list != [] && InOrder(list) && AllCanonical(list)
    ensures SafeOnTime(list, now) ==> |list| == 1 || AlwaysCovered(list)
    ensures TiesByPeriod(list) && AllBegun(list) ==>
      (SafeOnTime(list, now) <==> |list| == 1 || AlwaysCovered(list))
  {
    hide InOrder, AllCanonical, TiesByPeriod, AllBegun, IsRun, GapsWithin, FollowsNull, RingsAt, Covered;
    if |list| == 1 {
      forall ps | IsRun(list, ps, now)
        ensures !FollowsNull(list, ps)
      {
        OneTimerIsSafe(list, ps);
      }
    } else if !AlwaysCovered(list) {
      var x := UncoveredTime(list);
      var ps := UncoveredRuns(list, now, x);
    } else if TiesByPeriod(list) && AllBegun(list) {
      forall ps | IsRun(list, ps, now) && GapsWithin(ps, 0) && CanonicalPasses(ps)
        ensures !FollowsNull(list, ps)
      {
        CoveredIsSafe(list, ps, now);
      }
    }
  }

  lemma UncoveredTime(list: seq<Timing>) returns (x: int)
    requires InOrder(list) && !AlwaysCovered(list)
    ensures Uncovered(list, x)
  {
    hide Covered;
    var i, y :| 0 <= i < |list| && RingsAt(list[i], y) && !Covered(list, y);
    x := y;
  }

  // ---------- Deciding it ----------

  predicate CommonMultiple(list: seq<Timing>, n: int)
    requires InOrder(list)
  {
    n > 0 && forall i :: 0 <= i < |list| ==> n % Period(list[i]) == 0
  }

  /** After its end a timer rings again a multiple of its period later, and did so a
    multiple before. */
  lemma RingsPeriodically(timing: Timing, n: int, x: int)
    requires Period(timing) > 0 && n > 0 && n % Period(timing) == 0 && x >= End(timing)
    ensures RingsAt(timing, x) <==> RingsAt(timing, x + n)
  {
    var p, d := Period(timing), x - End(timing);
    var q, r := d / p, d % p;
    assert d == q * p + r;
    assert n == (n / p) * p;
    assert d + n == (q + n / p) * p + r;
    Remainder(d + n, q + n / p, r, p);
  }

  /** A cover after the last end is one a common multiple of the periods later. */
  lemma CoverRecurs(list: seq<Timing>, n: int, x: int)
    requires InOrder(list) && list != [] && CommonMultiple(list, n)
    requires x >= End(list[|list| - 1]) && Covered(list, x)
    ensures Covered(list, x + n)
  {
    hide RingsAt, Covered, InOrder, Nanos;
    var i, j, y := CoverOf(list, x);
    OrderedEnds(list, i, |list| - 1);
    OrderedEnds(list, j, |list| - 1);
    assert n % Period(list[i]) == 0 && n % Period(list[j]) == 0;
    RingsPeriodically(list[i], n, x);
    RingsPeriodically(list[j], n, y);
    CoverFrom(list, x + n, i, j, y + n);
  }

  /** Every ring is covered up to that time. */
  ghost predicate CoveredUntil(list: seq<Timing>, last: int)
    requires InOrder(list)
  {
    forall i, x {:trigger RingsAt(list[i], x)} ::
      0 <= i < |list| && x <= last && RingsAt(list[i], x) ==> Covered(list, x)
  }

  lemma {:induction false} RingIsCovered(list: seq<Timing>, n: int, i: nat, x: int)
    requires InOrder(list) && i < |list| && CommonMultiple(list, n) && RingsAt(list[i], x)
    requires CoveredUntil(list, End(list[|list| - 1]) + n)
    ensures Covered(list, x)
    decreases x - End(list[|list| - 1])
  {
    hide InOrder, Covered, Nanos;
    if x > End(list[|list| - 1]) + n {
      OrderedEnds(list, i, |list| - 1);
      PeriodsArePositive(list, i);
      assert n % Period(list[i]) == 0;
      RingsPeriodically(list[i], n, x - n);
      RingIsCovered(list, n, i, x - n);
      CoverRecurs(list, n, x - n);
    }
  }

  /** To see that every ring is covered it is enough to look at the times up to a
    common multiple of the periods after the last end. */
  lemma CoverageIsDecidable(list: seq<Timing>, n: int)
    requires InOrder(list) && list != [] && CommonMultiple(list, n)
    ensures AlwaysCovered(list) <==> CoveredUntil(list, End(list[|list| - 1]) + n)
  {
    hide Covered, RingsAt, CommonMultiple;
    if CoveredUntil(list, End(list[|list| - 1]) + n) {
      forall i, x {:trigger RingsAt(list[i], x)} | 0 <= i < |list| && RingsAt(list[i], x)
        ensures Covered(list, x)
      {
        RingIsCovered(list, n, i, x);
      }
    }
  }

  // ---------- Lists that the handler makes ----------

  /** What `TimerEventHandler_start` leaves of a list in the order of run times: timers
    that end together stand in the order of their periods, and all have begun by the
    first end if and only if the last one has. */
  lemma StartSettles(list: seq<Timing>, nows: seq<Time>)
    requires list != [] && |nows| == |list| && AreSums(Ends(list), nows, Runs(list))
    requires Sorted(nows) && Sorted(Runs(list))
    ensures IsOrdered(Ends(list)) && TiesByPeriod(list)
    ensures AllBegun(list) <==> Nanos(nows[|list| - 1]) <= End(list[0])
  {
    hide Nanos, Normal;
    SumsInOrder(Runs(list), nows, Ends(list));
    forall i | 0 <= i < |list|
      ensures End(list[i]) - Period(list[i]) == Nanos(nows[i]) <= Nanos(nows[|list| - 1])
      ensures Normal(Ends(list)[i])
    {
      assert Ends(list)[i] == list[i].end && Runs(list)[i] == list[i].run;
    }
    forall i, j | 0 <= i < j < |list|
      ensures Period(list[i]) <= Period(list[j])
    {
      assert Runs(list)[i] == list[i].run && Runs(list)[j] == list[j].run;
    }
  }

  /** The list after `add_event` has put a timer that began at `now` into its place. */
  function WithTimer(list: seq<Timing>, timing: Timing): seq<Timing> {
    InsertedAt(list, Place(Ends(list), timing.end), timing)
  }

  lemma WithTimerElements(list: seq<Timing>, timing: Timing)
    requires list != [] && !BelongsFirst(Ends(list), timing.end)
    ensures var k, r := Place(Ends(list), timing.end), WithTimer(list, timing);
      && 0 < k <= |list| && |r| == |list| + 1 && r[0] == list[0] && r[k] == timing
      && forall i {:trigger r[i]} :: 0 <= i < |r| && i != k ==> r[i] == list[if i < k then i else i - 1]
  {
    hide Place;
    BelongsFirstIsPlaceZero(Ends(list), timing.end);
    InsertedElements(list, Place(Ends(list), timing.end), timing);
  }

  lemma AdditionKeepsOrder(list: seq<Timing>, timing: Timing)
    requires list != [] && InOrder(list) && !BelongsFirst(Ends(list), timing.end)
    requires Normal(timing.end) && End(timing) >= NANOS_PER_SECOND && Period(timing) > 0
    ensures InOrder(WithTimer(list, timing))
  {
    hide InsertedAt, Place, Sorted, AllNormal, Normal, Ends, BelongsFirst;
    InsertedKeys(list, Place(Ends(list), timing.end), timing);
    InsertionKeepsSorted(Ends(list), timing.end);
    WithTimerElements(list, timing);
    hide WithTimer;
  }

  /** Timers behind the place end no earlier, those before it end earlier. */
  lemma AdditionSplits(list: seq<Timing>, t: Time, i: nat)
    requires InOrder(list) && AllCanonical(list) && Canonical(t) && i < |list|
    ensures End(list[i]) < Nanos(t) <==> i < Place(Ends(list), t)
  {
    hide Place, Normal, InOrder, Nanos, CmpFast, AllCanonical;
    var k := Place(Ends(list), t);
    CanonicalIsNormal(t);
    CanonicalEnd(list, i);
    if i < k {
      CmpFollowsTime(t, Ends(list)[i]);
    } else {
      OrderedEnds(list, k, i);
      CmpFollowsTime(t, Ends(list)[k]);
    }
  }

  /** The list stays as the theorem asks for it, for a timer that began when all the
    others had begun: exactly if the first event was not yet due. */
  lemma AdditionSettles(list: seq<Timing>, timing: Timing, now: int)
    requires list != [] && InOrder(list) && TiesByPeriod(list) && AllCanonical(list)
    requires Canonical(timing.end) && End(timing) == now + Period(timing) >= NANOS_PER_SECOND
    requires Period(timing) > 0 && !BelongsFirst(Ends(list), timing.end)
    requires AllBegun(list) && forall i :: 0 <= i < |list| ==> End(list[i]) - Period(list[i]) <= now
    ensures var r := WithTimer(list, timing);
      && InOrder(r) && AllCanonical(r) && TiesByPeriod(r)
      && (AllBegun(r) <==> now <= End(list[0]))
  {
    hide WithTimer, Place, InOrder, Canonical, BelongsFirst, Nanos;
    CanonicalIsNormal(timing.end);
    AdditionKeepsOrder(list, timing);
    WithTimerElements(list, timing);
    var k, r := Place(Ends(list), timing.end), WithTimer(list, timing);
    forall i, j | 0 <= i < j < |r| && End(r[i]) == End(r[j])
      ensures Period(r[i]) <= Period(r[j])
    {
      if j == k {
        AdditionSplits(list, timing.end, i);
      } else if i == k {
        assert r[j] == list[j - 1];
      }
    }
    assert now <= End(list[0]) ==> AllBegun(r);
    assert AllBegun(r) ==> End(r[k]) - Period(r[k]) <= End(r[0]);
  }
}
