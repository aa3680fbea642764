/** source/Timer.c and source/TimerEvent.c: a timer rings when its end time has
  come; an event starts its timer again each time it rings. Readings of the
  clock are parameters. */
module Timers {
  import opened AlibErrors
  import opened Memory
  import opened Timespecs

  class Timer {
    const runTime: Timespec
    const endTime: Timespec
    var rang: nat

    /** The two times are parts of the timer, not shared with each other. */
    predicate Valid() {
      runTime != endTime
    }

    function Run(): int
      reads runTime
    {
      Nanos(runTime.Value())
    }

    function End(): int
      reads endTime
    {
      Nanos(endTime.Value())
    }

    /** `newTimer`, of a time that is not zero. */
    constructor (sec: SizeT, nsec: SizeT)
      requires sec != 0 || nsec != 0
      ensures Valid() && fresh(runTime) && fresh(endTime)
      ensures IsFixed(Time(ToLong(sec), ToLong(nsec)), runTime.Value())
      ensures endTime.Value() == Time(0, 0) && rang == 1
    {
      runTime := new Timespec(0, 0);
      endTime := new Timespec(0, 0);
      rang := 1;
      new;
      var _ := runTime.Init(ToLong(sec), ToLong(nsec));
    }

    /** `Timer_begin`. */
    method Begin(now: Time)
      requires Valid()
      modifies `rang, endTime
      ensures End() == Nanos(now) + Run() && Normal(endTime.Value()) && rang == 0
      ensures IsFixed(Time(runTime.sec + now.sec, runTime.nsec + now.nsec), endTime.Value())
    {
      endTime.Set(now);
      Add(runTime, endTime, endTime);
      rang := 0;
    }

    /** `Timer_begin_before`. */
    method BeginBefore(interval: Timespec, now: Time)
      requires Valid() && interval != endTime
      modifies `rang, endTime
      ensures End() == Nanos(now) + Run() - Nanos(interval.Value())
      ensures Normal(endTime.Value()) && rang == 0
    {
      Begin(now);
      Subtract(endTime, interval, endTime);
    }

    /** `Timer_get_time_status`. Its error branch is never reached; the remaining
      and the overrun time are never both positive, and their difference is the
      time from now to the end. */
    method GetTimeStatus(now: Time, rTime: Timespec?, oTime: Timespec?) returns (err: int)
      requires Valid() && {rTime, oTime} !! {endTime}
      requires rTime != null ==> rTime != oTime
      modifies `rang, rTime, oTime
      ensures err == ALIB_OK
      ensures rang == if End() <= Nanos(now) then 1 else old(rang)
      ensures rTime != null ==>
        && Nanos(rTime.Value()) == Max(0, End() - Nanos(now)) && Normal(rTime.Value())
        && (Nanos(rTime.Value()) == 0 <==> rTime.Value() == Time(0, 0))
      ensures oTime != null ==>
        Nanos(oTime.Value()) == Max(0, Nanos(now) - End()) && Normal(oTime.Value())
    {
      var left := new Timespec(now.sec, now.nsec);
      Subtract(endTime, left, left);
      ghost var difference := left.Value();
      err := left.FixValues();
      FixedIsUnique(difference, left.Value(), left.Value());
      if left.nsec <= 0 && left.sec <= 0 {
        rang := 1;
        if rTime != null {
          rTime.Set(Time(0, 0));
        }
        if oTime != null {
          oTime.Set(Time(-left.sec, -left.nsec));
        }
      } else if left.sec >= 0 && left.nsec >= 0 {
        if oTime != null {
          oTime.Set(Time(0, 0));
        }
        if rTime != null {
          rTime.Set(left.Value());
        }
      } else {
        return ALIB_UNKNOWN_ERR;
      }
      err := ALIB_OK;
    }

    /** `Timer_check`: once a timer has rung, it stays so until it begins again. */
    method Check(now: Time) returns (r: int)
      requires Valid()
      modifies `rang
      ensures r == rang
      ensures rang == if old(rang) == 0 && End() <= Nanos(now) then 1 else old(rang)
    {
      if rang != 0 {
        return rang;
      }
      var err := GetTimeStatus(now, null, null);
      if err != ALIB_OK {
        return err;
      }
      r := rang;
    }
  }

  /** The two readings of the clock within one check, in nanoseconds. */
  datatype Reading = Reading(first: int, second: int)

  /** What `TimerEvent.Check` does to the end time. */
  function CheckEnd(end: int, run: int, r: Reading): int {
    if end > r.first then end else r.second + run - (r.first - end)
  }

  class TimerEvent {
    const timer: Timer
    /** Whether there is a callback, the handler's or the user's. */
    var hasCallback: bool
    var inCallback: bool
    var deleteState: bool
    ghost var freed: bool

    constructor (timer: Timer, hasCallback: bool)
      ensures this.timer == timer && this.hasCallback == hasCallback
      ensures !inCallback && !deleteState && !freed
    {
      this.timer, this.hasCallback := timer, hasCallback;
      inCallback, deleteState, freed := false, false, false;
    }

    /** `freeTimerEvent`: within a callback the event is only marked. */
    method Free()
      modifies `deleteState, `freed, `inCallback
      ensures deleteState && inCallback == old(inCallback)
      ensures freed == (old(freed) || !old(inCallback))
    {
      deleteState := true;
      if !inCallback {
        inCallback := true;
        inCallback := false;
        freed := true;
      }
    }

    /** `TimerEvent_check`, at two readings of the clock. The callback may free the
      event, and that waits until it has returned. The flag `rangIn` is what the
      caller's variable held: it is not written when the timer rings and there is
      nothing to call. */
    method Check(now1: Time, now2: Time, rangIn: bool, callbackFrees: bool)
      returns (next: Time, rang: bool)
      requires timer.Valid() && !inCallback && !deleteState && !freed
      modifies this`inCallback, this`deleteState, this`freed, timer`rang, timer.endTime
      ensures timer.End() ==
        CheckEnd(old(timer.End()), timer.Run(), Reading(Nanos(now1), Nanos(now2)))
      ensures if old(timer.End()) > Nanos(now1) then
          timer.endTime.Value() == old(timer.endTime.Value()) && next == timer.endTime.Value() && !rang
        else
          && Normal(timer.endTime.Value()) && timer.rang == 0
          && next == (if freed then Time(0, 0) else timer.endTime.Value())
          && rang == (hasCallback || rangIn)
      ensures freed == (callbackFrees && hasCallback && old(timer.End()) <= Nanos(now1))
      ensures !inCallback && deleteState == freed
    {
      var rTime := new Timespec(0, 0);
      var oTime := new Timespec(0, 0);
      var err := timer.GetTimeStatus(now1, rTime, oTime);
      if err != ALIB_OK {
        // The source begins the timer again; no error ever gets here.
        assert false;
      }
      if rTime.nsec != 0 || rTime.sec != 0 {
        return timer.endTime.Value(), false;
      }
      timer.BeginBefore(oTime, now2);
      rang := rangIn;
      if hasCallback {
        rang := true;
        CallBack(callbackFrees);
        if deleteState {
          Free();
          return Time(0, 0), rang;
        }
      }
      next := timer.endTime.Value();
    }

    /** The callback, as far as it matters here. */
    method CallBack(frees: bool)
      requires !inCallback && !deleteState && !freed
      modifies `inCallback, `deleteState, `freed
      ensures !inCallback && !freed && deleteState == frees
    {
      inCallback := true;
      if frees {
        Free();
      }
      inCallback := false;
    }
  }

  /** `TimerEvent_compare_least_remaining_time`. */
  function CompareLeastRemainingTime(te1: TimerEvent?, te2: TimerEvent?): (r: int)
    reads if te1 == null then {} else {te1.timer.endTime}
    reads if te2 == null then {} else {te2.timer.endTime}
    ensures te1 == null && te2 == null ==> r == 0
    ensures te1 == null && te2 != null ==> r == -1
    ensures te1 != null && te2 == null ==> r == 1
    ensures te1 != null && te2 != null ==>
      Normal(te1.timer.endTime.Value()) && Normal(te2.timer.endTime.Value()) ==>
        && (r == 1 ==> te1.timer.End() >= te2.timer.End())
        && (r == -1 ==> te1.timer.End() <= te2.timer.End())
        && (r == 0 <==> te1.timer.endTime.Value() == te2.timer.endTime.Value())
  {
    if te1 == null && te2 != null then -1
    else if te1 != null && te2 == null then 1
    else if te1 == null && te2 == null then 0
    else CmpFast(te1.timer.endTime.Value(), te2.timer.endTime.Value())
  }

  /** The comparison orders any events, missing ones first. */
  lemma ComparisonIsATotalOrder(a: TimerEvent?, b: TimerEvent?, c: TimerEvent?)
    ensures CompareLeastRemainingTime(a, b) == -CompareLeastRemainingTime(b, a)
    ensures CompareLeastRemainingTime(a, b) <= 0 && CompareLeastRemainingTime(b, c) <= 0 ==>
      CompareLeastRemainingTime(a, c) <= 0
  {
    if a != null && b != null && c != null {
      CmpIsTotalOrder(a.timer.endTime.Value(), b.timer.endTime.Value(), c.timer.endTime.Value());
    }
  }

  // ---------- Many checks ----------

  function EndAfter(end: int, run: int, rs: seq<Reading>): int
    decreases |rs|
  {
    if rs == [] then end else EndAfter(CheckEnd(end, run, rs[0]), run, rs[1..])
  }

  /** How often the timer rings. */
  function Rings(end: int, run: int, rs: seq<Reading>): nat
    decreases |rs|
  {
    if rs == [] then 0
    else (if end > rs[0].first then 0 else 1) + Rings(CheckEnd(end, run, rs[0]), run, rs[1..])
  }

  /** The time between the two readings, added up over the checks that ring. */
  function Gaps(end: int, run: int, rs: seq<Reading>): int
    decreases |rs|
  {
    if rs == [] then 0
    else (if end > rs[0].first then 0 else rs[0].second - rs[0].first)
         + Gaps(CheckEnd(end, run, rs[0]), run, rs[1..])
  }

  /** However late the checks come, lateness does not add up: only the time between
    the two readings within a check does. */
  lemma {:induction false} NoDrift(end: int, run: int, rs: seq<Reading>)
    ensures EndAfter(end, run, rs) == end + Rings(end, run, rs) * run + Gaps(end, run, rs)
    decreases |rs|
  {
    if rs != [] {
      var next := CheckEnd(end, run, rs[0]);
      NoDrift(next, run, rs[1..]);
      var n := Rings(next, run, rs[1..]);
      assert (n + 1) * run == n * run + run;
    }
  }

  /** Neither reading of a check is after `now`, and the second is not before the
    first. */
  predicate Until(rs: seq<Reading>, now: int) {
    forall i :: 0 <= i < |rs| ==> rs[i].first <= rs[i].second <= now
  }

  /** Up to `now` the time between readings adds up, and without a ring to nothing. */
  lemma {:induction false} GapsAddUp(end: int, run: int, rs: seq<Reading>, now: int)
    requires run > 0 && Until(rs, now)
    ensures Gaps(end, run, rs) >= 0
    ensures Rings(end, run, rs) == 0 ==> Gaps(end, run, rs) == 0 && EndAfter(end, run, rs) == end
    ensures Rings(end, run, rs) > 0 ==> EndAfter(end, run, rs) <= now + run
    decreases |rs|
  {
    if rs != [] {
      var next := CheckEnd(end, run, rs[0]);
      GapsAddUp(next, run, rs[1..], now);
    }
  }

  /** The multiples of the period from `end` up to `now`. */
  function RingsDue(end: int, run: int, now: int): int
    requires run > 0
  {
    if end > now then 0 else (now - end) / run + 1
  }

  /** When the last check has left the end in the future, the number of rings so far
    depends on the clock and on the time between the two readings of the ringing
    checks: not on when, how often or how late the timer was checked. */
  lemma RingsDependOnTheClockAlone(end: int, run: int, rs: seq<Reading>, now: int)
    requires run > 0 && Until(rs, now)
    requires EndAfter(end, run, rs) > now
    ensures Rings(end, run, rs) == RingsDue(end + Gaps(end, run, rs), run, now)
  {
    NoDrift(end, run, rs);
    GapsAddUp(end, run, rs, now);
    var n, first := Rings(end, run, rs), end + Gaps(end, run, rs);
    if n > 0 {
      Scaled(1, n, run);
      Quotient(now - first, run, n);
    }
  }

  /** `n` checks while the clock stands still. */
  function Frozen(now: int, n: nat): (r: seq<Reading>)
    ensures |r| == n
  {
    seq(n, _ => Reading(now, now))
  }

  /** Checked over and over while the clock stands still, the timer rings each time
    until it has caught up with every ring that is due. */
  lemma {:induction false} CatchesUp(end: int, run: int, now: int)
    requires run > 0
    ensures var n := RingsDue(end, run, now);
      && n >= 0 && Rings(end, run, Frozen(now, n)) == n
      && now < EndAfter(end, run, Frozen(now, n)) <= Max(end, now + run)
    decreases now - end
  {
    if end <= now {
      var n := RingsDue(end, run, now);
      var q := (now - end) / run;
      if now - end >= run {
        assert (now - end) == q * run + (now - end) % run;
        Quotient(now - end - run, run, q);
      } else {
        Quotient(now - end, run, 1);
      }
      assert n == 1 + RingsDue(end + run, run, now);
      CatchesUp(end + run, run, now);
      assert Frozen(now, n)[1..] == Frozen(now, n - 1);
    }
  }
}
