/** The event list of source/TimerEventHandler.c on values: the order it is kept in,
  and what a pass of the handler's loop does to it. */
module EventOrder {
  import opened Timespecs
  import opened Timers

  predicate AllNormal(keys: seq<Time>) {
    forall i :: 0 <= i < |keys| ==> Normal(keys[i])
  }

  /** In the order of their times. */
  predicate Sorted(keys: seq<Time>) {
    forall i, j :: 0 <= i < j < |keys| ==> Nanos(keys[i]) <= Nanos(keys[j])
  }

  predicate IsOrdered(keys: seq<Time>) {
    AllNormal(keys) && Sorted(keys)
  }

  /** Where the search for the place of a key stops. */
  function Place(keys: seq<Time>, key: Time): (r: nat)
    ensures r <= |keys| && (r < |keys| ==> CmpFast(key, keys[r]) <= 0)
    ensures forall i :: 0 <= i < r ==> CmpFast(key, keys[i]) > 0
  {
    if keys == [] || CmpFast(key, keys[0]) <= 0 then 0 else 1 + Place(keys[1..], key)
  }

  function InsertedAt<T>(s: seq<T>, k: nat, x: T): seq<T>
    requires k <= |s|
  {
    s[..k] + [x] + s[k..]
  }

  /** The search compares the parts of the times, and finds a right place for the
    time all the same. */
  lemma PlaceIsRight(keys: seq<Time>, key: Time)
    requires AllNormal(keys) && Sorted(keys) && Normal(key)
    ensures var k := Place(keys, key);
      && (forall i :: 0 <= i < k ==> Nanos(keys[i]) <= Nanos(key))
      && (forall i :: k <= i < |keys| ==> Nanos(key) <= Nanos(keys[i]))
  {
    var k := Place(keys, key);
    forall i | 0 <= i < k
      ensures Nanos(keys[i]) <= Nanos(key)
    {
      CmpFollowsTime(key, keys[i]);
    }
    if k < |keys| {
      CmpFollowsTime(key, keys[k]);
    }
  }

  lemma InsertedElements<T>(s: seq<T>, k: nat, x: T)
    requires k <= |s|
    ensures |InsertedAt(s, k, x)| == |s| + 1
    ensures forall i :: 0 <= i <= |s| ==>
      InsertedAt(s, k, x)[i] == if i < k then s[i] else if i == k then x else s[i - 1]
  {
  }

  lemma InsertionKeepsSorted(keys: seq<Time>, key: Time)
    requires AllNormal(keys) && Sorted(keys) && Normal(key)
    ensures AllNormal(InsertedAt(keys, Place(keys, key), key))
    ensures Sorted(InsertedAt(keys, Place(keys, key), key))
  {
    hide Nanos, Normal, Place;
    PlaceIsRight(keys, key);
    InsertedElements(keys, Place(keys, key), key);
  }

  // ---------- Beginning ----------

  /** Every end time is a run time after the time it began at. */
  predicate AreSums(ends: seq<Time>, nows: seq<Time>, runs: seq<Time>) {
    && |ends| <= |nows| && |ends| <= |runs|
    && forall i :: 0 <= i < |ends| ==>
      Normal(ends[i]) && Nanos(ends[i]) == Nanos(nows[i]) + Nanos(runs[i])
  }

  lemma NoSums(nows: seq<Time>, runs: seq<Time>)
    ensures AreSums([], nows, runs)
  {
  }

  /** Timers that begin one after the other, the shortest first, end in that
    order. */
  lemma SumsInOrder(runs: seq<Time>, nows: seq<Time>, ends: seq<Time>)
    requires |ends| == |runs| == |nows| && Sorted(runs) && Sorted(nows) && AreSums(ends, nows, runs)
    ensures Sorted(ends)
  {
    hide Nanos;
  }

  // ---------- Adding ----------

  /** An event that belongs before the first one of a list, or has its time. The
    source inserts it before the first node and follows that node's null pointer. */
  predicate BelongsFirst(keys: seq<Time>, key: Time) {
    keys != [] && CmpFast(key, keys[0]) <= 0
  }

  /** It is what the search finds at the start of the list. */
  lemma BelongsFirstIsPlaceZero(keys: seq<Time>, key: Time)
    ensures BelongsFirst(keys, key) <==> keys != [] && Place(keys, key) == 0
  {
  }

  // ---------- Passes of the loop ----------

  /** An event's timer: when it ends, and for how long it runs. */
  datatype Timing = Timing(end: Time, run: Time)

  function Ends(list: seq<Timing>): (r: seq<Time>)
    ensures |r| == |list| && forall i :: 0 <= i < |list| ==> r[i] == list[i].end
  {
    seq(|list|, i requires 0 <= i < |list| => list[i].end)
  }

  function Runs(list: seq<Timing>): (r: seq<Time>)
    ensures |r| == |list| && forall i :: 0 <= i < |list| ==> r[i] == list[i].run
  {
    seq(|list|, i requires 0 <= i < |list| => list[i].run)
  }

  /** `t` is a normal form of the end time after the timer has rung in a check. */
  predicate IsNextEnd(t: Time, timing: Timing, r: Reading) {
    Normal(t) && Nanos(t) == CheckEnd(Nanos(timing.end), Nanos(timing.run), r)
  }

  /** The first event rings, gets the end time `t` and is put back. */
  function PutBack(list: seq<Timing>, t: Time): seq<Timing>
    requires list != []
  {
    InsertedAt(list[1..], Place(Ends(list[1..]), t), Timing(t, list[0].run))
  }

  /** It would have to be put back before the others. */
  predicate StaysFirst(list: seq<Timing>, t: Time)
    requires list != []
  {
    BelongsFirst(Ends(list[1..]), t)
  }

  /** In nanoseconds, for canonical times: it stays first unless its new end is after
    the next one's. */
  lemma RingFitsBehind(list: seq<Timing>, t: Time, r: Reading)
    requires |list| > 1 && IsNextEnd(t, list[0], r) && Canonical(t) && Canonical(list[1].end)
    ensures StaysFirst(list, t) <==>
      CheckEnd(Nanos(list[0].end), Nanos(list[0].run), r) <= Nanos(list[1].end)
  {
    CmpFollowsTime(t, list[1].end);
    assert Ends(list[1..])[0] == list[1].end;
  }

  lemma InsertedKeys(list: seq<Timing>, k: nat, timing: Timing)
    requires k <= |list|
    ensures Ends(InsertedAt(list, k, timing)) == InsertedAt(Ends(list), k, timing.end)
    ensures Runs(InsertedAt(list, k, timing)) == InsertedAt(Runs(list), k, timing.run)
  {
    hide Ends, Runs;
    InsertedElements(list, k, timing);
    InsertedElements(Ends(list), k, timing.end);
    InsertedElements(Runs(list), k, timing.run);
  }

  /** The keys of the list that results. */
  lemma PutBackKeys(list: seq<Timing>, t: Time)
    requires list != []
    ensures Ends(list[1..]) == Ends(list)[1..] && Runs(list[1..]) == Runs(list)[1..]
    ensures var k := Place(Ends(list[1..]), t);
      && Ends(PutBack(list, t)) == InsertedAt(Ends(list)[1..], k, t)
      && Runs(PutBack(list, t)) == InsertedAt(Runs(list)[1..], k, list[0].run)
  {
    hide InsertedAt, Place, Ends, Runs;
    assert Ends(list[1..]) == Ends(list)[1..];
    assert Runs(list[1..]) == Runs(list)[1..];
    InsertedKeys(list[1..], Place(Ends(list[1..]), t), Timing(t, list[0].run));
  }
}
