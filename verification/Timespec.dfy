/** source/alib_time.c: times in seconds and nanoseconds, whose parts may be
  negative. The parts are unbounded integers here. */
module Timespecs {
  import opened AlibErrors

  const NANOS_PER_SECOND := 1_000_000_000

  /** The value of a `struct timespec`. */
  datatype Time = Time(sec: int, nsec: int)

  /** The time in nanoseconds. */
  function Nanos(t: Time): int {
    t.sec * NANOS_PER_SECOND + t.nsec
  }

  /** No mixed signs, and a nanosecond part of at most one second. */
  predicate Normal(t: Time) {
    && (t.sec > 0 ==> t.nsec >= 0) && (t.sec < 0 ==> t.nsec <= 0)
    && -NANOS_PER_SECOND <= t.nsec <= NANOS_PER_SECOND
  }

  /** The same, with less than one second in the nanosecond part. */
  predicate Canonical(t: Time) {
    Normal(t) && -NANOS_PER_SECOND < t.nsec < NANOS_PER_SECOND
  }

  /** What fixing promises: the same time in canonical form; but a normal one
    stays as it is. */
  predicate IsFixed(before: Time, after: Time) {
    if Normal(before) then after == before else Canonical(after) && Nanos(after) == Nanos(before)
  }

  /** C's division and remainder, which truncate toward zero. */
  function TruncDiv(a: int, b: int): int
    requires b > 0
  {
    if a >= 0 then a / b else -(-a / b)
  }

  function TruncMod(a: int, b: int): int
    requires b > 0
  {
    a - b * TruncDiv(a, b)
  }

  /** `timespec_cmp_fast`. */
  function CmpFast(a: Time, b: Time): int {
    if a.sec > b.sec then 1
    else if a.sec == b.sec then
      if a.nsec > b.nsec then 1 else if a.nsec == b.nsec then 0 else -1
    else -1
  }

  function Sign(n: int): int {
    if n > 0 then 1 else if n == 0 then 0 else -1
  }

  /** The canonical form of a number of nanoseconds. */
  function FromNanos(n: int): (t: Time)
    ensures Canonical(t) && Nanos(t) == n
  {
    Time(TruncDiv(n, NANOS_PER_SECOND), TruncMod(n, NANOS_PER_SECOND))
  }

  /** A time has one canonical form. */
  lemma CanonicalIsUnique(a: Time, b: Time)
    requires Canonical(a) && Canonical(b) && Nanos(a) == Nanos(b)
    ensures a == b
  {
  }

  /** Fixing leaves no choice. */
  lemma FixedIsUnique(t: Time, a: Time, b: Time)
    requires IsFixed(t, a) && IsFixed(t, b)
    ensures a == b && Normal(a) && Nanos(a) == Nanos(t) && IsFixed(a, a)
  {
    if !Normal(t) {
      CanonicalIsUnique(a, b);
    }
  }

  /** On fixed times the comparison never contradicts the order of the times, and
    it gives that order exactly unless they are the same time written twice: once
    with a full second of nanoseconds. */
  lemma CmpFollowsTime(a: Time, b: Time)
    requires Normal(a) && Normal(b)
    ensures CmpFast(a, b) == 1 ==> Nanos(a) >= Nanos(b)
    ensures CmpFast(a, b) == -1 ==> Nanos(a) <= Nanos(b)
    ensures CmpFast(a, b) == 0 <==> a == b
    ensures CmpFast(a, b) == Sign(Nanos(a) - Nanos(b)) <==> a == b || Nanos(a) != Nanos(b)
    ensures a != b && Nanos(a) == Nanos(b) ==> !Canonical(a) || !Canonical(b)
  {
  }

  /** Of any two times, the comparison looks at the seconds first. */
  lemma CmpLooksAtSecondsFirst(a: Time, b: Time)
    ensures a.sec != b.sec ==> CmpFast(a, b) == Sign(a.sec - b.sec)
    ensures a.sec == b.sec ==> CmpFast(a, b) == Sign(a.nsec - b.nsec)
  {
  }

  /** A full second of nanoseconds that has the sign of the seconds is not carried. */
  lemma FullSecondStays(sec: int, after: Time)
    ensures sec >= 0 && IsFixed(Time(sec, NANOS_PER_SECOND), after) ==> after == Time(sec, NANOS_PER_SECOND)
    ensures sec <= 0 && IsFixed(Time(sec, -NANOS_PER_SECOND), after) ==> after == Time(sec, -NANOS_PER_SECOND)
  {
  }

  /** It fails on such a pair. */
  lemma OneTimeTwoForms()
    ensures var a, b := Time(1, 0), Time(0, NANOS_PER_SECOND);
      Normal(a) && Normal(b) && Nanos(a) == Nanos(b) && CmpFast(a, b) == 1
  {
  }

  /** The comparison is a total order, as a sort requires. */
  lemma CmpIsTotalOrder(a: Time, b: Time, c: Time)
    ensures CmpFast(a, b) == -CmpFast(b, a)
    ensures CmpFast(a, b) <= 0 && CmpFast(b, c) <= 0 ==> CmpFast(a, c) <= 0
    ensures CmpFast(a, b) == 0 <==> a == b
  {
  }

  class Timespec {
    var sec: int
    var nsec: int

    function Value(): Time
      reads this
    {
      Time(sec, nsec)
    }

    constructor (sec: int, nsec: int)
      ensures Value() == Time(sec, nsec)
    {
      this.sec, this.nsec := sec, nsec;
    }

    /** `timespec_fix_values_fast`. */
    method FixValuesFast()
      modifies this
      ensures IsFixed(old(Value()), Value())
    {
      if nsec > NANOS_PER_SECOND || nsec < -NANOS_PER_SECOND {
        sec := sec + TruncDiv(nsec, NANOS_PER_SECOND);
        nsec := TruncMod(nsec, NANOS_PER_SECOND);
      }
      if nsec < 0 && sec > 0 {
        sec := sec - 1;
        nsec := nsec + NANOS_PER_SECOND;
      } else if nsec > 0 && sec < 0 {
        sec := sec + 1;
        nsec := nsec - NANOS_PER_SECOND;
      }
    }

    /** `timespec_fix_values`: its test for an error never succeeds. */
    method FixValues() returns (r: int)
      modifies this
      ensures IsFixed(old(Value()), Value()) && r == ALIB_OK
    {
      FixValuesFast();
      if (sec < 0 && nsec > 0) || (sec > 0 && nsec < 0) {
        return ALIB_OBJ_CORRUPTION;
      }
      r := ALIB_OK;
    }

    /** `timespec_init`. */
    method Init(sec: int, nsec: int) returns (r: int)
      modifies this
      ensures IsFixed(Time(sec, nsec), Value()) && r == ALIB_OK
    {
      this.sec, this.nsec := sec, nsec;
      r := FixValues();
    }

    /** A whole struct assigned at once. */
    method Set(t: Time)
      modifies this
      ensures Value() == t
    {
      sec, nsec := t.sec, t.nsec;
    }
  }

  /** `timespec_subtract`; `diff` may be one of the operands. */
  method Subtract(a: Timespec, b: Timespec, diff: Timespec)
    modifies diff
    ensures Nanos(diff.Value()) == old(Nanos(a.Value()) - Nanos(b.Value()))
    ensures Normal(diff.Value())
    ensures IsFixed(old(Time(a.sec - b.sec, a.nsec - b.nsec)), diff.Value())
  {
    diff.sec := a.sec - b.sec;
    diff.nsec := a.nsec - b.nsec;
    diff.FixValuesFast();
  }

  /** `timespec_add`; `sum` may be one of the operands. */
  method Add(a: Timespec, b: Timespec, sum: Timespec)
    modifies sum
    ensures Nanos(sum.Value()) == old(Nanos(a.Value()) + Nanos(b.Value()))
    ensures Normal(sum.Value())
    ensures IsFixed(old(Time(a.sec + b.sec, a.nsec + b.nsec)), sum.Value())
  {
    sum.sec := a.sec + b.sec;
    sum.nsec := a.nsec + b.nsec;
    sum.FixValuesFast();
  }

  /** `timespec_cmp`, of copies it fixes first: it follows the order of any two
    times, and is exact when it does not meet a time written in two ways. */
  method Cmp(a: Time, b: Time) returns (r: int)
    ensures r == 1 ==> Nanos(a) >= Nanos(b)
    ensures r == -1 ==> Nanos(a) <= Nanos(b)
    ensures r == 0 ==> Nanos(a) == Nanos(b)
    ensures !(Normal(a) && !Canonical(a)) && !(Normal(b) && !Canonical(b)) ==>
      r == Sign(Nanos(a) - Nanos(b))
  {
    var fixedA := new Timespec(a.sec, a.nsec);
    var fixedB := new Timespec(b.sec, b.nsec);
    var _ := fixedA.FixValues();
    var _ := fixedB.FixValues();
    FixedIsUnique(a, fixedA.Value(), fixedA.Value());
    FixedIsUnique(b, fixedB.Value(), fixedB.Value());
    CmpFollowsTime(fixedA.Value(), fixedB.Value());
    r := CmpFast(fixedA.Value(), fixedB.Value());
  }
}
