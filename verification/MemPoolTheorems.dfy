/** Runs of reservations and returns on a pool. */
module MemPoolTheorems {
  import opened Memory
  import opened MemPools

  datatype Op = Reserve | Unreserve(k: nat)

  /** The pool, and the blocks its users hold: what they were given and have not
    given back. */
  datatype State = State(flags: seq<bool>, held: set<nat>)

  /** The block handed out, if any. */
  function HandedOut(st: State, maxCap: SizeT): set<nat>
    requires |st.flags| <= SIZE_MAX
  {
    var k := FirstFree(st.flags);
    if k < |Reserved(st.flags, maxCap)| then {k} else {}
  }

  /** Users give back only blocks that they hold. */
  predicate Allowed(st: State, op: Op) {
    op.Unreserve? ==> op.k in st.held && op.k < |st.flags|
  }

  function Step(st: State, op: Op, maxCap: SizeT): (r: State)
    requires |st.flags| <= SIZE_MAX && Allowed(st, op)
    ensures |st.flags| <= |r.flags| <= SIZE_MAX
  {
    match op
    case Reserve => State(Reserved(st.flags, maxCap), st.held + HandedOut(st, maxCap))
    case Unreserve(k) => State(st.flags[k := false], st.held - {k})
  }

  predicate Legal(st: State, ops: seq<Op>, maxCap: SizeT)
    requires |st.flags| <= SIZE_MAX
    decreases |ops|
  {
    ops == [] || (Allowed(st, ops[0]) && Legal(Step(st, ops[0], maxCap), ops[1..], maxCap))
  }

  function Run(st: State, ops: seq<Op>, maxCap: SizeT): (r: State)
    requires |st.flags| <= SIZE_MAX && Legal(st, ops, maxCap)
    ensures |st.flags| <= |r.flags| <= SIZE_MAX
    decreases |ops|
  {
    if ops == [] then st else Run(Step(st, ops[0], maxCap), ops[1..], maxCap)
  }

  function Start(cap: SizeT): State {
    State(AllFree(cap), {})
  }

  /** The pool and its users agree on who has what. */
  ghost predicate Agreed(st: State) {
    && (forall k: nat :: k in st.held <==> k < |st.flags| && st.flags[k])
    && CountReserved(st.flags) == |st.held|
  }

  /** Room that is made holds free blocks. */
  lemma WidenedFlags(flags: seq<bool>, maxCap: SizeT)
    requires |flags| <= SIZE_MAX
    ensures var wide := Widened(flags, maxCap);
      && |flags| <= |wide| && CountReserved(wide) == CountReserved(flags)
      && (forall i :: 0 <= i < |wide| ==> wide[i] == (i < |flags| && flags[i]))
      && (FirstFree(flags) == |wide| <==> FirstFree(flags) == |flags| && Stuck(|flags|, maxCap))
      && |wide| == if FirstFree(flags) < |flags| || Stuck(|flags|, maxCap) then |flags| else Doubled(|flags|)
  {
    hide CountReserved;
    MoreFree(flags, |Widened(flags, maxCap)| - |flags|);
  }

  /** The pool grows when no block is free and it can, and only then. */
  lemma GrowsWhenFull(flags: seq<bool>, maxCap: SizeT)
    requires |flags| <= SIZE_MAX
    ensures |Reserved(flags, maxCap)| ==
      if CountReserved(flags) < |flags| || |flags| == maxCap || |flags| == 0 then |flags|
      else Min(2 * |flags|, SIZE_MAX)
  {
    hide Widened, CountReserved, Stuck, FirstFree, Doubled;
    WidenedFlags(flags, maxCap);
    AllReserved(flags);
    StuckInWords(|flags|, maxCap);
  }

  /** A reservation changes the flag of the block handed out, and no other. */
  lemma ReservationSetsOneFlag(flags: seq<bool>, maxCap: SizeT)
    requires |flags| <= SIZE_MAX
    ensures var k, r := FirstFree(flags), Reserved(flags, maxCap);
      && |flags| <= |r| && CountReserved(r) == CountReserved(flags) + (if k < |r| then 1 else 0)
      && (forall i :: 0 <= i < |r| ==> r[i] == (i == k || (i < |flags| && flags[i])))
      && (k == |r| <==> k == |flags| && Stuck(|flags|, maxCap))
  {
    hide Widened, CountReserved, Stuck, FirstFree, Doubled;
    var k, wide := FirstFree(flags), Widened(flags, maxCap);
    WidenedFlags(flags, maxCap);
    if k < |wide| {
      SetFlag(wide, k, true);
    }
  }

  /** A block that is handed out was held by nobody, and none is refused while one
    is free or the pool can grow. */
  lemma ReserveIsSafe(st: State, maxCap: SizeT)
    requires |st.flags| <= SIZE_MAX && Agreed(st)
    ensures HandedOut(st, maxCap) !! st.held
    ensures HandedOut(st, maxCap) == {} <==>
      && (|st.flags| == maxCap || |st.flags| == 0 || |st.flags| == SIZE_MAX)
      && forall k: nat :: k < |st.flags| ==> k in st.held
    ensures Agreed(Step(st, Reserve, maxCap))
  {
    hide CountReserved, Reserved, Stuck, FirstFree;
    ReservationSetsOneFlag(st.flags, maxCap);
    StuckInWords(|st.flags|, maxCap);
    var k, r := FirstFree(st.flags), Reserved(st.flags, maxCap);
    assert k !in st.held;
    if k < |r| {
      assert |st.held + {k}| == |st.held| + 1;
    } else {
      assert st.held + {} == st.held;
    }
  }

  lemma UnreserveIsSafe(st: State, k: nat)
    requires |st.flags| <= SIZE_MAX && Agreed(st) && k in st.held
    ensures Agreed(State(st.flags[k := false], st.held - {k}))
  {
    SetFlag(st.flags, k, false);
    hide CountReserved;
  }

  lemma {:induction false} StartAgrees(cap: SizeT)
    ensures Agreed(Start(cap))
  {
    MoreFree([], cap);
    assert [] + AllFree(cap) == AllFree(cap);
  }

  /** Over every run the pool agrees with its users. */
  lemma {:induction false} RunAgrees(st: State, ops: seq<Op>, maxCap: SizeT)
    requires |st.flags| <= SIZE_MAX && Agreed(st) && Legal(st, ops, maxCap)
    ensures Agreed(Run(st, ops, maxCap))
    decreases |ops|
  {
    if ops != [] {
      if ops[0].Reserve? {
        ReserveIsSafe(st, maxCap);
      } else {
        UnreserveIsSafe(st, ops[0].k);
      }
      RunAgrees(Step(st, ops[0], maxCap), ops[1..], maxCap);
    }
  }

  // ---------- Does the capacity respect the maximum? ----------

  /** Doubling the capacity, as far as a `size_t` goes, meets the maximum. */
  predicate MeetsMaximum(cap: SizeT, maxCap: SizeT)
    decreases SIZE_MAX - cap
  {
    cap == maxCap || (cap < maxCap && (cap == 0 || MeetsMaximum(Doubled(cap), maxCap)))
  }

  lemma {:induction false} StaysOnTheLadder(st: State, ops: seq<Op>, maxCap: SizeT)
    requires |st.flags| <= SIZE_MAX && Legal(st, ops, maxCap)
    requires MeetsMaximum(|st.flags|, maxCap)
    ensures |Run(st, ops, maxCap).flags| <= maxCap
    decreases |ops|
  {
    if ops != [] {
      var next := Step(st, ops[0], maxCap);
      assert |next.flags| == |st.flags| || (|next.flags| == Doubled(|st.flags|) && |st.flags| != maxCap);
      StaysOnTheLadder(next, ops[1..], maxCap);
    }
  }

  /** Nothing but reservations. */
  function Reservations(n: nat): (r: seq<Op>)
    ensures |r| == n
  {
    seq(n, _ => Reserve)
  }

  lemma {:induction false} ReservationsAreLegal(st: State, n: nat, maxCap: SizeT)
    requires |st.flags| <= SIZE_MAX
    ensures Legal(st, Reservations(n), maxCap)
    decreases n
  {
    if n > 0 {
      assert Reservations(n)[1..] == Reservations(n - 1);
      ReservationsAreLegal(Step(st, Reserve, maxCap), n - 1, maxCap);
    }
  }

  /** Off the ladder every reservation succeeds, and stays off the ladder. */
  lemma ReservationSucceeds(st: State, maxCap: SizeT)
    requires |st.flags| <= maxCap < SIZE_MAX && !MeetsMaximum(|st.flags|, maxCap)
    ensures var next := Reserved(st.flags, maxCap);
      !MeetsMaximum(|next|, maxCap) && CountReserved(next) == CountReserved(st.flags) + 1
  {
    ReservationSetsOneFlag(st.flags, maxCap);
    hide CountReserved, Reserved;
  }

  /** It does so until the maximum is exceeded. */
  lemma {:induction false} ReservationsExceed(st: State, n: nat, maxCap: SizeT)
    requires |st.flags| <= SIZE_MAX && Legal(st, Reservations(n), maxCap)
    requires !MeetsMaximum(|st.flags|, maxCap) && maxCap < SIZE_MAX
    ensures CountReserved(st.flags) + n > maxCap ==>
      |Run(st, Reservations(n), maxCap).flags| > maxCap
    decreases n
  {
    if |st.flags| <= maxCap && n > 0 {
      assert Reservations(n)[1..] == Reservations(n - 1);
      ReservationSucceeds(st, maxCap);
      hide Reserved, CountReserved, MeetsMaximum, Reservations;
      ReservationsExceed(Step(st, Reserve, maxCap), n - 1, maxCap);
    }
  }

  /** The promise of a maximum holds in every run exactly when doubling the start
    capacity meets it. */
  lemma CapacityWithinMaximum(cap: SizeT, maxCap: SizeT)
    requires cap <= maxCap
    ensures (forall ops :: Legal(Start(cap), ops, maxCap) ==> |Run(Start(cap), ops, maxCap).flags| <= maxCap)
       <==> MeetsMaximum(cap, maxCap)
  {
    if MeetsMaximum(cap, maxCap) {
      forall ops | Legal(Start(cap), ops, maxCap)
        ensures |Run(Start(cap), ops, maxCap).flags| <= maxCap
      {
        StaysOnTheLadder(Start(cap), ops, maxCap);
      }
    } else {
      var ops := Reservations(maxCap + 1);
      StartAgrees(cap);
      SaturationMeetsMaximum(cap);
      ReservationsAreLegal(Start(cap), maxCap + 1, maxCap);
      ReservationsExceed(Start(cap), maxCap + 1, maxCap);
      assert |Run(Start(cap), ops, maxCap).flags| > maxCap;
    }
  }

  lemma {:induction false} SaturationMeetsMaximum(cap: SizeT)
    ensures MeetsMaximum(cap, SIZE_MAX)
    decreases SIZE_MAX - cap
  {
    if 0 < cap < SIZE_MAX {
      SaturationMeetsMaximum(Doubled(cap));
    }
  }

  function DoubledTimes(cap: nat, k: nat): (r: nat)
    ensures r >= cap && (cap > 0 && k > 0 ==> r >= 2 * cap)
    decreases k
  {
    if k == 0 then cap else DoubledTimes(2 * cap, k - 1)
  }

  /** The maximum is the capacity, doubled some number of times. */
  ghost predicate Reaches(cap: nat, maxCap: nat) {
    exists k: nat :: DoubledTimes(cap, k) == maxCap
  }

  lemma ReachesItself(cap: nat)
    ensures Reaches(cap, cap)
  {
    assert DoubledTimes(cap, 0) == cap;
  }

  lemma ReachesBeyond(cap: nat, maxCap: nat)
    requires maxCap < cap
    ensures !Reaches(cap, maxCap)
  {
  }

  lemma ReachesByDoubling(cap: nat, maxCap: nat)
    requires cap < maxCap
    ensures Reaches(cap, maxCap) <==> Reaches(2 * cap, maxCap)
  {
    if k: nat :| DoubledTimes(cap, k) == maxCap {
      assert DoubledTimes(2 * cap, k - 1) == maxCap;
    }
    if k: nat :| DoubledTimes(2 * cap, k) == maxCap {
      assert DoubledTimes(cap, k + 1) == maxCap;
    }
  }

  lemma MeetsByDoubling(cap: SizeT, maxCap: SizeT)
    requires 0 < cap < maxCap < SIZE_MAX
    ensures MeetsMaximum(cap, maxCap) <==> 2 * cap <= maxCap && MeetsMaximum(2 * cap, maxCap)
  {
  }

  /** The same condition as a caller would write it. */
  lemma {:induction false} MeetsMaximumInWords(cap: SizeT, maxCap: SizeT)
    requires 0 < cap <= maxCap
    ensures MeetsMaximum(cap, maxCap) <==> maxCap == SIZE_MAX || Reaches(cap, maxCap)
    decreases SIZE_MAX - cap
  {
    hide Reaches;
    if maxCap == SIZE_MAX {
      SaturationMeetsMaximum(cap);
    } else if cap == maxCap {
      ReachesItself(cap);
    } else {
      MeetsByDoubling(cap, maxCap);
      ReachesByDoubling(cap, maxCap);
      if 2 * cap <= maxCap {
        MeetsMaximumInWords(2 * cap, maxCap);
      } else {
        ReachesBeyond(2 * cap, maxCap);
      }
    }
  }

  // ---------- When is a reservation refused? ----------

  /** The number of blocks that the pool hands out at most. */
  function Limit(cap: SizeT, maxCap: SizeT): SizeT {
    if MeetsMaximum(cap, maxCap) then maxCap else SIZE_MAX
  }

  /** A pool that grows keeps its limit. */
  lemma StepKeepsLimit(st: State, op: Op, maxCap: SizeT)
    requires 0 < |st.flags| <= SIZE_MAX && Allowed(st, op)
    ensures 0 < |Step(st, op, maxCap).flags|
    ensures Limit(|Step(st, op, maxCap).flags|, maxCap) == Limit(|st.flags|, maxCap)
  {
    var n := |Step(st, op, maxCap).flags|;
    assert n == |st.flags| || (n == Doubled(|st.flags|) && |st.flags| != maxCap);
  }

  lemma {:induction false} RunKeepsLimit(st: State, ops: seq<Op>, maxCap: SizeT)
    requires 0 < |st.flags| <= SIZE_MAX && Legal(st, ops, maxCap)
    ensures var r := Run(st, ops, maxCap);
      0 < |r.flags| && Limit(|r.flags|, maxCap) == Limit(|st.flags|, maxCap)
    decreases |ops|
  {
    hide Limit, Step;
    if ops != [] {
      StepKeepsLimit(st, ops[0], maxCap);
      RunKeepsLimit(Step(st, ops[0], maxCap), ops[1..], maxCap);
    }
  }

  lemma AllHeld(st: State)
    requires Agreed(st)
    ensures |st.held| <= |st.flags|
    ensures (forall k: nat :: k < |st.flags| ==> k in st.held) <==> |st.held| == |st.flags|
  {
    AllReserved(st.flags);
    hide CountReserved;
  }

  /** After every run from a positive start capacity the next reservation is refused if
    and only if as many blocks are held as the maximum says, when doubling the start
    capacity meets it, and as a `size_t` can count when it does not. */
  lemma RefusedAtTheLimit(cap: SizeT, ops: seq<Op>, maxCap: SizeT)
    requires 0 < cap && Legal(Start(cap), ops, maxCap)
    ensures var r := Run(Start(cap), ops, maxCap);
      HandedOut(r, maxCap) == {} <==>
        |r.held| == if MeetsMaximum(cap, maxCap) then maxCap else SIZE_MAX
  {
    hide Run, Legal, HandedOut, Agreed;
    var r := Run(Start(cap), ops, maxCap);
    StartAgrees(cap);
    RunAgrees(Start(cap), ops, maxCap);
    RunKeepsLimit(Start(cap), ops, maxCap);
    ReserveIsSafe(r, maxCap);
    AllHeld(r);
    LimitIsReached(|r.flags|, maxCap);
  }

  /** The pool cannot grow exactly at its limit. */
  lemma LimitIsReached(n: SizeT, maxCap: SizeT)
    requires 0 < n
    ensures n <= Limit(n, maxCap)
    ensures n == maxCap || n == SIZE_MAX <==> n == Limit(n, maxCap)
  {
    SaturationMeetsMaximum(n);
  }
}
