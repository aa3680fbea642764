/** source/TimerEventHandler.c, without its thread: events in a list that is kept
  in the order of their end times while the handler runs, and in the order of
  their run times before. */
module TimerEventHandlers {
  import opened AlibErrors
  import opened Timespecs
  import opened Timers
  import opened EventOrder
  import opened DListItems
  import opened DLists

  /** The time that the list is sorted by. */
  function Clock(e: TimerEvent, running: bool): Timespec {
    if running then e.timer.endTime else e.timer.runTime
  }

  function Clocks(events: seq<TimerEvent>, running: bool): (r: seq<Timespec>)
    ensures |r| == |events|
    ensures forall i :: 0 <= i < |events| ==> r[i] == Clock(events[i], running)
  {
    seq(|events|, i requires 0 <= i < |events| => Clock(events[i], running))
  }

  function TimersOf(events: seq<TimerEvent>): (r: seq<Timer>)
    ensures |r| == |events| && forall i :: 0 <= i < |events| ==> r[i] == events[i].timer
  {
    seq(|events|, i requires 0 <= i < |events| => events[i].timer)
  }

  function KeyOf(e: TimerEvent, running: bool): Time
    reads Clock(e, running)
  {
    Clock(e, running).Value()
  }

  /** What the clocks show. */
  ghost predicate Show(clocks: seq<Timespec>, keys: seq<Time>)
    reads clocks
  {
    |clocks| == |keys| && forall i :: 0 <= i < |keys| ==> clocks[i].Value() == keys[i]
  }

  /** No two events share the parts of a timer. */
  ghost predicate Separate(events: seq<TimerEvent>) {
    && (forall i :: 0 <= i < |events| ==> events[i].timer.Valid())
    && (forall i, j :: 0 <= i < j < |events| ==> Apart(events[i], events[j]))
  }

  predicate Apart(a: TimerEvent, b: TimerEvent) {
    && a != b && a.timer != b.timer && a.timer.endTime != b.timer.endTime
    && a.timer.endTime != b.timer.runTime && a.timer.runTime != b.timer.endTime
  }

  function OneOrNone(itm: DListItem?): set<DListItem> {
    if itm == null then {} else {itm}
  }

  /** `event` shares nothing with the events. */
  predicate CanJoin(events: seq<TimerEvent>, event: TimerEvent) {
    event.timer.Valid() && forall i :: 0 <= i < |events| ==> Apart(events[i], event)
  }

  lemma SeparateInserted(events: seq<TimerEvent>, k: nat, event: TimerEvent)
    requires Separate(events) && CanJoin(events, event) && k <= |events|
    ensures Separate(InsertedAt(events, k, event))
  {
    InsertedElements(events, k, event);
    hide InsertedAt;
  }

  lemma ShowInserted(events: seq<TimerEvent>, running: bool, keys: seq<Time>, k: nat, event: TimerEvent)
    requires Show(Clocks(events, running), keys) && k <= |events|
    ensures Show(Clocks(InsertedAt(events, k, event), running), InsertedAt(keys, k, KeyOf(event, running)))
  {
    InsertedElements(events, k, event);
    InsertedElements(keys, k, KeyOf(event, running));
    hide InsertedAt, Clocks;
  }

  /** `DList_pull_out` of the first item. */
  method PullFirst(list: DList) returns (itm: DListItem)
    requires list.Valid() && list.items != []
    modifies list, list.items`next, list.items`prev, list.items`parent
    ensures list.Valid() && list.items == old(list.items)[1..]
    ensures itm == old(list.items)[0] && Chain([itm]) && itm.parent == null
  {
    ghost var items := list.items;
    assert [] + items[1..] == items[1..];
    assert Without(items, 0, 1) == items[1..];
    hide Chain, Without;
    itm := list.PullOut(0);
    assert itm.parent == [itm][0].parent;
  }

  lemma ShowConcat(a: seq<Timespec>, b: seq<Timespec>, x: seq<Time>, y: seq<Time>)
    requires |a| == |x|
    ensures Show(a + b, x + y) <==> Show(a, x) && Show(b, y)
  {
    if Show(a + b, x + y) {
      forall i | 0 <= i < |x|
        ensures a[i].Value() == x[i]
      {
        assert (a + b)[i].Value() == (x + y)[i];
      }
      forall i | 0 <= i < |y|
        ensures b[i].Value() == y[i]
      {
        assert (a + b)[|a| + i].Value() == (x + y)[|a| + i];
      }
    }
  }

  lemma ShowTail(events: seq<TimerEvent>, running: bool, keys: seq<Time>)
    requires events != [] && Show(Clocks(events, running), keys)
    ensures Show(Clocks(events[1..], running), keys[1..])
    ensures keys[0] == KeyOf(events[0], running)
  {
    assert Clocks(events, running)[0].Value() == keys[0];
    assert Clocks(events[1..], running) == Clocks(events, running)[1..];
  }

  lemma ShowMoved(events: seq<TimerEvent>, running: bool, keys: seq<Time>, k: nat)
    requires events != [] && Show(Clocks(events, running), keys) && k < |events|
    ensures Show(Clocks(InsertedAt(events[1..], k, events[0]), running), InsertedAt(keys[1..], k, keys[0]))
  {
    ShowTail(events, running, keys);
    ShowInserted(events[1..], running, keys[1..], k, events[0]);
  }

  /** The event at its place keeps the list in order. */
  predicate OrderedBy(keys: seq<Time>, t: Time) {
    IsOrdered(keys) && Normal(t) ==> IsOrdered(InsertedAt(keys, Place(keys, t), t))
  }

  lemma OrderedInsertion(keys: seq<Time>)
    ensures forall t :: OrderedBy(keys, t)
  {
    forall t
      ensures OrderedBy(keys, t)
    {
      if IsOrdered(keys) && Normal(t) {
        InsertionKeepsSorted(keys, t);
      }
    }
  }

  lemma JoinsRest(es: seq<TimerEvent>)
    requires es != [] && Separate(es)
    ensures CanJoin(es[1..], es[0]) && es[0].timer.endTime !in Clocks(es, false)
  {
    forall i | 0 <= i < |es|
      ensures Clocks(es, false)[i] != es[0].timer.endTime
    {
      assert i > 0 ==> Apart(es[0], es[i]);
    }
    forall i | 0 <= i < |es| - 1
      ensures Apart(es[1..][i], es[0])
    {
      assert Apart(es[0], es[i + 1]);
    }
  }

  /** Only the rest of the list and the first timer's period matter. */
  lemma HeadChanged(timings: seq<Timing>, t: Time)
    requires timings != []
    ensures var next := timings[0 := Timing(t, timings[0].run)];
      && next != [] && next[0] == Timing(t, timings[0].run)
      && next[1..] == timings[1..] && PutBack(next, t) == PutBack(timings, t)
      && (StaysFirst(next, t) <==> StaysFirst(timings, t))
      && (t == timings[0].end ==> next == timings)
  {
  }

  lemma OrderedPutBack(timings: seq<Timing>, t: Time, r: Reading)
    requires timings != [] && IsNextEnd(t, timings[0], r)
    ensures IsOrdered(Ends(timings)) ==> IsOrdered(Ends(PutBack(timings, t)))
  {
    PutBackKeys(timings, t);
    if IsOrdered(Ends(timings)) {
      var rest := Ends(timings)[1..];
      assert IsOrdered(rest);
      hide Ends, PutBack, Sorted, AllNormal;
      InsertionKeepsSorted(rest, t);
    }
  }

  /** What a pass of the loop comes to. */
  datatype PassResult = NotYet | Moved | Kept | Freed | NullPointer

  /** `DList_remove_item` of the first item. */
  method RemoveFirst(list: DList)
    requires list.Valid() && list.items != []
    modifies list, list.items`next, list.items`prev
    ensures list.Valid() && list.items == old(list.items)[1..]
  {
    ghost var items := list.items;
    assert [] + items[1..] == items[1..];
    assert Without(items, 0, 1) == items[1..];
    assert list.begin.parent == list;
    hide Chain, Owned, Without;
    var _ := list.RemoveItem(list.begin, 0);
  }

  class TimerEventHandler {
    const list: DList
    /** THREAD_IS_RUNNING. */
    var running: bool
    /** The events, in the order of the list. */
    ghost var events: seq<TimerEvent>

    /** The items hold the events. */
    ghost predicate Holds()
      reads `events, list`items, list.items`value
    {
      && |events| == |list.items|
      && forall i :: 0 <= i < |events| ==> list.items[i].value == events[i]
    }

    ghost predicate Valid()
      reads this, list, list.items
    {
      list.Valid() && Holds() && Separate(events)
    }

    constructor ()
      ensures Valid() && events == [] && !running
    {
      list := new DList();
      running := false;
      events := [];
    }

    /** `t` is the key of the event once `add_event` has begun its timer, if it
      does: on a running handler with other events, when the end time is unset. */
    ghost predicate IsStartKey(event: TimerEvent, now: Time, t: Time)
      reads `running, event.timer.endTime, event.timer.runTime
    {
      if running && event.timer.endTime.sec == 0 then
        IsFixed(Time(event.timer.runTime.sec + now.sec, event.timer.runTime.nsec + now.nsec), t)
      else
        t == KeyOf(event, running)
    }

    /** `DListItem_get_next_item`. */
    function Next(it: DListItem, ghost k: nat): (r: DListItem?)
      requires Valid() && k < |events| && it == list.items[k]
      reads this, list, list.items, it
      ensures r == ItemAt(list.items, k + 1)
    {
      it.next
    }

    /** `DListItem_get_prev_item`. */
    function Prev(it: DListItem, ghost k: nat): (r: DListItem?)
      requires Valid() && k < |events| && it == list.items[k]
      reads this, list, list.items, it
      ensures r == ItemAt(list.items, k - 1)
    {
      it.prev
    }

    /** The search in `add_event`. */
    method FindPlace(event: TimerEvent, ghost keys: seq<Time>) returns (it: DListItem?, ghost k: nat)
      requires Valid() && events != [] && Show(Clocks(events, running), keys)
      ensures k == Place(keys, KeyOf(event, running))
      ensures it == ItemAt(list.items, k)
    {
      it := list.begin;
      k := 0;
      assert |events| == |list.items| && it == ItemAt(list.items, 0);
      hide Separate, CmpFast, Place, Owned, Chain, Holds;
      while it != null && IsBehind(event, it, k)
        invariant k <= |events| && it == ItemAt(list.items, k)
        invariant k <= Place(keys, KeyOf(event, running))
        decreases |events| - k
      {
        assert Clocks(events, running)[k].Value() == keys[k];
        it := Next(it, k);
        k := k + 1;
      }
      assert k < |keys| ==> Clocks(events, running)[k].Value() == keys[k];
    }

    /** Whether the event belongs behind the one in `it`. */
    predicate IsBehind(event: TimerEvent, it: DListItem, ghost k: nat)
      requires Holds() && k < |events| && it == list.items[k]
      reads this, list, list.items, it, Clock(events[k], running), Clock(event, running)
      ensures IsBehind(event, it, k) <==> CmpFast(KeyOf(event, running), KeyOf(events[k], running)) > 0
    {
      CmpFast(KeyOf(event, running), KeyOf(it.value as TimerEvent, running)) > 0
    }

    /** The item goes before another, or behind all. */
    method InsertItem(it: DListItem?, itm: DListItem, event: TimerEvent, ghost k: nat)
      requires Valid() && k <= |events| && it == ItemAt(list.items, k)
      requires k > 0 || events == []
      requires itm !in list.items && Chain([itm]) && itm.parent == null && itm.value == event
      requires CanJoin(events, event)
      modifies `events, list, list.items`next, list.items`prev, list.items`parent
      modifies itm`next, itm`prev, itm`parent
      ensures Valid() && events == InsertedAt(old(events), k, event)
    {
      SeparateInserted(events, k, event);
      hide Separate, InsertedAt, CanJoin, Chain, Owned, Stands, Holds;
      LinkItem(it, itm, event, k);
    }

    /** The same, and no clock is touched. */
    method InsertUntimed(it: DListItem?, itm: DListItem, event: TimerEvent, ghost k: nat,
                         ghost clocks: seq<Timespec>, ghost times: seq<Time>)
      requires Valid() && k <= |events| && it == ItemAt(list.items, k)
      requires k > 0 || events == []
      requires itm !in list.items && Chain([itm]) && itm.parent == null && itm.value == event
      requires CanJoin(events, event) && Show(clocks, times)
      modifies `events, list, list.items`next, list.items`prev, list.items`parent
      modifies itm`next, itm`prev, itm`parent
      ensures Valid() && events == InsertedAt(old(events), k, event) && Show(clocks, times)
    {
      hide InsertedAt, Chain, CanJoin, Valid;
      InsertItem(it, itm, event, k);
    }

    method InsertShown(it: DListItem?, itm: DListItem, event: TimerEvent, ghost k: nat, ghost keys: seq<Time>)
      requires Valid() && k <= |events| && it == ItemAt(list.items, k)
      requires k > 0 || events == []
      requires itm !in list.items && Chain([itm]) && itm.parent == null && itm.value == event
      requires CanJoin(events, event) && Show(Clocks(events, running), keys)
      modifies `events, list, list.items`next, list.items`prev, list.items`parent
      modifies itm`next, itm`prev, itm`parent
      ensures Valid() && events == InsertedAt(old(events), k, event)
      ensures KeyOf(event, running) == old(KeyOf(event, running))
      ensures Show(Clocks(events, running), InsertedAt(keys, k, KeyOf(event, running)))
    {
      ghost var t := KeyOf(event, running);
      ghost var all, times := InsertedAt(events, k, event), InsertedAt(keys, k, t);
      ShowInserted(events, running, keys, k, event);
      assert all[k] == event && times[k] == t;
      hide InsertedAt, Chain, CanJoin, Valid;
      InsertUntimed(it, itm, event, k, Clocks(all, running), times);
      assert Clocks(all, running)[k].Value() == t;
    }

    method LinkItem(it: DListItem?, itm: DListItem, event: TimerEvent, ghost k: nat)
      requires list.Valid() && Holds() && k <= |events| && it == ItemAt(list.items, k)
      requires k > 0 || events == []
      requires itm !in list.items && Chain([itm]) && itm.parent == null && itm.value == event
      modifies `events, list, list.items`next, list.items`prev, list.items`parent
      modifies itm`next, itm`prev, itm`parent
      ensures list.Valid() && Holds() && events == InsertedAt(old(events), k, event)
    {
      ghost var items := list.items;
      assert Stands(itm, [itm], 0) && Disjoint(items, [itm]);
      assert Owned([itm], null);
      hide Chain, Disjoint, Owned, Stands;
      var err;
      if it != null {
        assert it.parent == list;
        err := list.InsertItemBefore(it, itm, k, [itm], 0);
      } else {
        err := list.PushBack(itm, [itm], 0);
      }
      assert list.items == InsertedAt(items, k, itm);
      Record(items, itm, event, k);
    }

    method Record(ghost items: seq<DListItem>, ghost itm: DListItem, ghost event: TimerEvent, ghost k: nat)
      requires k <= |items| == |events| && list.items == InsertedAt(items, k, itm)
      requires itm.value == event && forall i :: 0 <= i < |events| ==> items[i].value == events[i]
      modifies `events
      ensures Holds() && events == InsertedAt(old(events), k, event)
    {
      InsertedElements(items, k, itm);
      InsertedElements(events, k, event);
      hide InsertedAt;
      events := InsertedAt(events, k, event);
    }

    /** Begins the timer of an event that has no end time yet. */
    method BeginIfUnset(event: TimerEvent, now: Time, ghost keys: seq<Time>)
      requires Valid() && CanJoin(events, event) && Show(Clocks(events, running), keys)
      modifies event.timer`rang, event.timer.endTime
      ensures Valid() && Show(Clocks(events, running), keys)
      ensures var t := KeyOf(event, running); old(IsStartKey(event, now, t))
    {
      hide Separate, Holds, Chain, Owned;
      if running && event.timer.endTime.sec == 0 {
        event.timer.Begin(now);
      }
    }

    /** The event, and no other, has come into the list of `es` with the times `keys`,
      at the place of its own time. */
    ghost predicate Added(es: seq<TimerEvent>, keys: seq<Time>, event: TimerEvent)
      requires |es| == |keys|
      reads `events, `running, Clocks(events, running), Clock(event, running)
    {
      var t := KeyOf(event, running);
      && events == InsertedAt(es, Place(keys, t), event)
      && Show(Clocks(events, running), InsertedAt(keys, Place(keys, t), t))
    }

    lemma AddedAtPlace(es: seq<TimerEvent>, keys: seq<Time>, event: TimerEvent)
      requires |es| == |keys| && Added(es, keys, event)
      ensures var t := KeyOf(event, running);
        && events == InsertedAt(es, Place(keys, t), event)
        && Show(Clocks(events, running), InsertedAt(keys, Place(keys, t), t))
    {
    }

    /** What the key is, as times. */
    lemma StartKeys(event: TimerEvent, now: Time, keys: seq<Time>)
      requires Show(Clocks(events, running), keys)
      ensures |events| == |keys|
      ensures forall t :: IsStartKey(event, now, t) ==>
        if running && event.timer.endTime.sec == 0 then
          Normal(t) && Nanos(t) == Nanos(event.timer.runTime.Value()) + Nanos(now)
        else
          t == KeyOf(event, running)
    {
    }

    /** The pointer that an insertion before the first node writes through is null. */
    ghost predicate NullBeforeFirst()
      reads list, list.items
    {
      list.items != [] && list.items[0].prev == null
    }

    /** `add_event`; `keys` are the times the list is sorted by. It follows a null
      pointer exactly when the event belongs before the first one of the list, or has
      its time: the insertion before the first node writes through that node's
      previous pointer. On an empty list the timer is not begun. */
    method AddEvent(event: TimerEvent, itm: DListItem?, now: Time, ghost keys: seq<Time>)
      returns (err: int, nullPointer: bool)
      requires Valid() && CanJoin(events, event) && Show(Clocks(events, running), keys)
      requires itm != null ==>
        itm !in list.items && Chain([itm]) && itm.parent == null && itm.value == event
      modifies `events, list, list.items`next, list.items`prev, list.items`parent
      modifies OneOrNone(itm)`next, OneOrNone(itm)`prev, OneOrNone(itm)`parent
      modifies event.timer`rang, event.timer.endTime
      ensures Valid() && err == ALIB_OK
      ensures var t := KeyOf(event, running);
        if keys == [] then t == old(KeyOf(event, running)) else old(IsStartKey(event, now, t))
      ensures nullPointer <==> BelongsFirst(keys, KeyOf(event, running))
      ensures nullPointer ==> NullBeforeFirst() && events == old(events)
      ensures keys != [] && running && old(event.timer.endTime.sec) == 0 ==>
        var t := KeyOf(event, running);
        Normal(t) && Nanos(t) == Nanos(old(event.timer.runTime.Value())) + Nanos(now)
      ensures keys != [] && running && old(event.timer.endTime.sec) != 0 ==>
        KeyOf(event, running) == old(event.timer.endTime.Value())
      ensures !nullPointer ==>
        var t := KeyOf(event, running);
        && events == InsertedAt(old(events), Place(keys, t), event)
        && Show(Clocks(events, running), InsertedAt(keys, Place(keys, t), t))
      ensures OrderedBy(keys, KeyOf(event, running))
    {
      var item := itm;
      if item == null {
        item := new DListItem(event);
      }
      OrderedInsertion(keys);
      hide Valid, CanJoin, Show, Added, OrderedBy, BelongsFirst, NullBeforeFirst, InsertedAt, Place, Clocks;
      StartKeys(event, now, keys);
      ghost var es := events;
      nullPointer := AddItem(event, item, now, keys);
      if !nullPointer {
        AddedAtPlace(es, keys, event);
      }
      err := ALIB_OK;
    }

    method FirstItem() returns (it: DListItem?)
      requires Valid()
      ensures |list.items| == |events| && it == ItemAt(list.items, 0)
      ensures it == null <==> events == []
    {
      it := list.Get(0);
    }

    lemma NothingFirst(keys: seq<Time>, t: Time)
      requires keys == []
      ensures !BelongsFirst(keys, t)
    {
    }

    /** `add_event` of an event that has its item. */
    method AddItem(event: TimerEvent, item: DListItem, now: Time, ghost keys: seq<Time>)
      returns (nullPointer: bool)
      requires Valid() && CanJoin(events, event) && Show(Clocks(events, running), keys)
      requires item !in list.items && Chain([item]) && item.parent == null && item.value == event
      modifies `events, list, list.items`next, list.items`prev, list.items`parent
      modifies item`next, item`prev, item`parent, event.timer`rang, event.timer.endTime
      ensures Valid()
      ensures var t := KeyOf(event, running);
        if keys == [] then t == old(KeyOf(event, running)) else old(IsStartKey(event, now, t))
      ensures nullPointer <==> BelongsFirst(keys, KeyOf(event, running))
      ensures nullPointer ==> NullBeforeFirst() && events == old(events)
      ensures !nullPointer ==> Added(old(events), keys, event)
    {
      hide Chain, Owned, Separate, Clocks, CmpFast, InsertedAt, Place, NullBeforeFirst, Valid, Show, CanJoin,
        IsStartKey, Added, BelongsFirst;
      var it := FirstItem();
      if it == null {
        InsertFirst(item, event, keys);
        NothingFirst(keys, KeyOf(event, running));
        nullPointer := false;
      } else {
        nullPointer := AddBehind(event, item, now, keys);
      }
    }

    method InsertFirst(item: DListItem, event: TimerEvent, ghost keys: seq<Time>)
      requires Valid() && CanJoin(events, event) && events == [] && Show(Clocks(events, running), keys)
      requires item !in list.items && Chain([item]) && item.parent == null && item.value == event
      modifies `events, list, list.items`next, list.items`prev, list.items`parent
      modifies item`next, item`prev, item`parent
      ensures Valid() && Added(old(events), keys, event)
      ensures KeyOf(event, running) == old(KeyOf(event, running)) && keys == []
    {
      hide Chain, Owned, Separate, Clocks, InsertedAt;
      InsertShown(null, item, event, 0, keys);
    }

    /** `add_event` on a list that is not empty. */
    method AddBehind(event: TimerEvent, item: DListItem, now: Time, ghost keys: seq<Time>)
      returns (nullPointer: bool)
      requires Valid() && CanJoin(events, event) && events != [] && Show(Clocks(events, running), keys)
      requires item !in list.items && Chain([item]) && item.parent == null && item.value == event
      modifies `events, list, list.items`next, list.items`prev, list.items`parent
      modifies item`next, item`prev, item`parent, event.timer`rang, event.timer.endTime
      ensures Valid() && keys != []
      ensures var t := KeyOf(event, running); old(IsStartKey(event, now, t))
      ensures nullPointer <==> BelongsFirst(keys, KeyOf(event, running))
      ensures nullPointer ==> NullBeforeFirst() && events == old(events)
      ensures !nullPointer ==> Added(old(events), keys, event)
    {
      assert |events| == |list.items|;
      hide Chain, Owned, Separate, Holds, Clocks, CmpFast, InsertedAt, Apart, IsStartKey, CanJoin, Place;
      BeginIfUnset(event, now, keys);
      nullPointer := InsertAtPlace(event, item, keys);
    }

    /** The search and the insertion. */
    method InsertAtPlace(event: TimerEvent, item: DListItem, ghost keys: seq<Time>)
      returns (nullPointer: bool)
      requires Valid() && CanJoin(events, event) && events != [] && Show(Clocks(events, running), keys)
      requires item !in list.items && Chain([item]) && item.parent == null && item.value == event
      modifies `events, list, list.items`next, list.items`prev, list.items`parent
      modifies item`next, item`prev, item`parent
      ensures Valid() && KeyOf(event, running) == old(KeyOf(event, running))
      ensures nullPointer <==> BelongsFirst(keys, KeyOf(event, running))
      ensures nullPointer ==> NullBeforeFirst() && events == old(events)
      ensures !nullPointer ==> Added(old(events), keys, event)
    {
      assert |events| == |list.items|;
      hide Chain, Owned, Separate, Holds, Clocks, CmpFast, InsertedAt, CanJoin, Place, KeyOf;
      var it, k := FindPlace(event, keys);
      BelongsFirstIsPlaceZero(keys, KeyOf(event, running));
      if it != null {
        var prev := Prev(it, k);
        if prev == null {
          return true;
        }
      }
      InsertShown(it, item, event, k, keys);
      nullPointer := false;
    }

    /** `TimerEvent_begin` on the event in `it`, as the last of those that began. */
    method BeginEvent(it: DListItem, nows: seq<Time>, i: nat, ghost runs: seq<Time>, ghost ends: seq<Time>)
      returns (ghost end: Time)
      requires Valid() && i < |events| && it == list.items[i] && |nows| == |events|
      requires Show(Clocks(events, false), runs) && Show(Clocks(events[..i], true), ends)
      requires AreSums(ends, nows, runs)
      modifies events[i].timer`rang, events[i].timer.endTime
      ensures Valid() && Show(Clocks(events, false), runs)
      ensures Show(Clocks(events[..i + 1], true), ends + [end]) && AreSums(ends + [end], nows, runs)
    {
      hide Nanos, Normal, Chain, Owned, Clocks;
      assert Clocks(events, false)[i].Value() == runs[i];
      assert Clocks(events[..i + 1], true) == Clocks(events[..i], true) + [events[i].timer.endTime];
      (it.value as TimerEvent).timer.Begin(nows[i]);
      end := events[i].timer.endTime.Value();
    }

    /** `TimerEventHandler_start`: its loop, which reads the clock once for each
      event, and the start of the thread. */
    method Start(nows: seq<Time>, ghost runs: seq<Time>) returns (err: int, ghost ends: seq<Time>)
      requires Valid() && |nows| == |events| && Show(Clocks(events, false), runs)
      modifies `running, TimersOf(events)`rang, Clocks(events, true)
      ensures Valid() && running && err == ALIB_OK
      ensures old(running) ==> unchanged(Clocks(events, true))
      ensures !old(running) ==>
        && Show(Clocks(events, true), ends) && AreSums(ends, nows, runs)
        && (Sorted(nows) && Sorted(runs) ==> Sorted(ends))
    {
      hide AreSums, Separate, Chain, Owned, Holds;
      if running {
        return ALIB_OK, [];
      }
      ends := BeginAll(nows, runs);
      running := true;
      if Sorted(nows) && Sorted(runs) {
        SumsInOrder(runs, nows, ends);
      }
      err := ALIB_OK;
    }

    /** The loop. */
    method BeginAll(nows: seq<Time>, ghost runs: seq<Time>) returns (ghost ends: seq<Time>)
      requires Valid() && |nows| == |events| && Show(Clocks(events, false), runs)
      modifies TimersOf(events)`rang, Clocks(events, true)
      ensures Valid() && Show(Clocks(events, true), ends) && AreSums(ends, nows, runs)
    {
      hide AreSums, Valid, Separate, Chain, Owned, Holds;
      ends := [];
      NoSums(nows, runs);
      var it := FirstItem();
      var i := 0;
      assert events[..|events|] == events;
      while it != null
        invariant Valid() && i <= |events| && it == ItemAt(list.items, i)
        invariant Show(Clocks(events, false), runs)
        invariant Show(Clocks(events[..i], true), ends) && AreSums(ends, nows, runs)
        decreases |events| - i
      {
        ghost var end := BeginEvent(it, nows, i, runs, ends);
        ends := ends + [end];
        it := Next(it, i);
        i := i + 1;
      }
    }

    /** The first item leaves the list, with its event; no clock is touched. */
    method TakeHead(ghost clocks: seq<Timespec>, ghost times: seq<Time>) returns (itm: DListItem)
      requires Valid() && events != [] && Show(clocks, times)
      modifies `events, list, list.items`next, list.items`prev, list.items`parent
      ensures Valid() && events == old(events)[1..] && Show(clocks, times)
      ensures itm == old(list.items)[0] && list.items == old(list.items)[1..]
      ensures itm !in list.items && Chain([itm]) && itm.parent == null && itm.value == old(events)[0]
    {
      hide Valid;
      itm := PullHead();
    }

    method PullHead() returns (itm: DListItem)
      requires Valid() && events != []
      modifies `events, list, list.items`next, list.items`prev, list.items`parent
      ensures Valid() && events == old(events)[1..]
      ensures itm == old(list.items)[0] && list.items == old(list.items)[1..]
      ensures itm !in list.items && Chain([itm]) && itm.parent == null && itm.value == old(events)[0]
    {
      ghost var items := list.items;
      assert items[0] !in items[1..];
      hide Chain, Separate, DList.Valid;
      itm := PullFirst(list);
      Forget(items);
    }

    method Forget(ghost items: seq<DListItem>)
      requires events != [] && Separate(events) && list.Valid()
      requires |items| == |events| && list.items == items[1..]
      requires forall i :: 0 <= i < |events| ==> items[i].value == events[i]
      modifies `events
      ensures Valid() && events == old(events)[1..]
    {
      hide Chain, Owned;
      events := events[1..];
    }

    /** `remove_event` of the first event: the search for its node starts there. */
    method RemoveHead(ghost clocks: seq<Timespec>, ghost times: seq<Time>)
      requires Valid() && events != [] && Show(clocks, times)
      modifies `events, list, list.items`next, list.items`prev
      ensures Valid() && events == old(events)[1..] && Show(clocks, times)
    {
      hide Valid;
      DropHead();
    }

    method DropHead()
      requires Valid() && events != []
      modifies `events, list, list.items`next, list.items`prev
      ensures Valid() && events == old(events)[1..]
    {
      ghost var items := list.items;
      hide Chain, Separate, DList.Valid;
      RemoveFirst(list);
      Forget(items);
    }

    /** The timers of the events, in the order of the list. */
    ghost predicate Timed(timings: seq<Timing>)
      reads `events, Clocks(events, true), Clocks(events, false)
    {
      Show(Clocks(events, true), Ends(timings)) && Show(Clocks(events, false), Runs(timings))
    }

    /** One pass of the loop of `timer_loop`, up to the waiting. The first event is
      checked. If its callback frees it, it is removed. Otherwise, if it rings, it is
      put back where it belongs now, unless its new end time has no seconds. If it
      would stay first before others, the source follows a null pointer. */
    method CheckHead(now1: Time, now2: Time, callbackFrees: bool,
                     ghost first: TimerEvent, ghost timings: seq<Timing>)
      returns (r: PassResult)
      requires Valid() && running && events != [] && Timed(timings) && first == events[0]
      requires first.hasCallback && !first.inCallback && !first.deleteState && !first.freed
      modifies `events, list, list.items`next, list.items`prev, list.items`parent
      modifies first`inCallback, first`deleteState, first`freed, first.timer`rang, first.timer.endTime
      ensures Valid()
      ensures r.NotYet? <==> Nanos(timings[0].end) > Nanos(now1)
      ensures r.Freed? <==> !r.NotYet? && callbackFrees
      ensures r.NotYet? ==> events == old(events) && Timed(timings)
      ensures r.Freed? ==> first.freed && events == old(events)[1..] && Timed(timings[1..])
      ensures !r.NotYet? && !r.Freed? ==>
        var t := first.timer.endTime.Value();
        && IsNextEnd(t, timings[0], Reading(Nanos(now1), Nanos(now2)))
        && (r.Kept? <==> t.sec == 0)
        && (r.NullPointer? <==> t.sec != 0 && StaysFirst(timings, t))
        && (r.Kept? ==> events == old(events) && Timed(timings[0 := Timing(t, timings[0].run)]))
        && (r.Moved? ==>
          && events == InsertedAt(old(events)[1..], Place(Ends(timings[1..]), t), old(events)[0])
          && Timed(PutBack(timings, t)))
        && (IsOrdered(Ends(timings)) ==> IsOrdered(Ends(PutBack(timings, t))))
    {
      hide Valid, Timed, Separate, IsNextEnd, PutBack, IsOrdered, StaysFirst, Ends, Nanos, Place, InsertedAt;
      TimedLength(timings);
      var event := FirstEvent();
      var eTime, rang := CheckFirst(event, now1, now2, callbackFrees, timings);
      ghost var t := event.timer.endTime.Value();
      ghost var next := timings[0 := Timing(t, timings[0].run)];
      HeadChanged(timings, t);
      if event.deleteState {
        Drop(next);
        return Freed;
      }
      if !rang {
        return NotYet;
      }
      OrderedPutBack(timings, t, Reading(Nanos(now1), Nanos(now2)));
      ghost var es := events;
      r := Settle(event, eTime, now2, next);
      if r.Moved? {
        PutBackAtPlace(es, next, t);
      }
    }

    lemma PutBackAtPlace(es: seq<TimerEvent>, timings: seq<Timing>, t: Time)
      requires es != [] && |es| == |timings| && WasPutBack(es, timings, t)
      ensures events == InsertedAt(es[1..], Place(Ends(timings[1..]), t), es[0]) && Timed(PutBack(timings, t))
    {
    }

    /** The first event has rung and is still there. */
    method Settle(event: TimerEvent, eTime: Time, now: Time, ghost timings: seq<Timing>)
      returns (r: PassResult)
      requires Valid() && running && events != [] && event == events[0] && Timed(timings)
      requires eTime == timings[0].end
      modifies `events, list, list.items`next, list.items`prev, list.items`parent
      modifies event.timer`rang, event.timer.endTime
      ensures Valid() && event.timer.endTime.Value() == old(event.timer.endTime.Value()) == eTime
      ensures r == if eTime.sec == 0 then Kept else if StaysFirst(timings, eTime) then NullPointer else Moved
      ensures r.Kept? ==> events == old(events) && Timed(timings)
      ensures r.Moved? ==> WasPutBack(old(events), timings, eTime)
    {
      assert Clocks(events, true)[0].Value() == Ends(timings)[0];
      hide Clocks, Timed, Valid, WasPutBack, StaysFirst;
      if eTime.sec == 0 {
        return Kept;
      }
      var nullPointer := ReAdd(event, now, timings);
      r := if nullPointer then NullPointer else Moved;
    }

    lemma TimedLength(timings: seq<Timing>)
      requires Timed(timings)
      ensures |timings| == |events|
    {
    }

    /** The event of the first item. */
    function FirstEvent(): (event: TimerEvent)
      requires Valid() && events != []
      reads this, list, list.items
      ensures event == events[0]
    {
      list.begin.value as TimerEvent
    }

    /** The first of the events `es` now stands at the place of its new end time, and
      all timers are as the values say. */
    ghost predicate WasPutBack(es: seq<TimerEvent>, timings: seq<Timing>, t: Time)
      requires es != [] && |es| == |timings|
      reads `events, Clocks(events, true), Clocks(events, false)
    {
      && events == InsertedAt(es[1..], Place(Ends(timings[1..]), t), es[0])
      && Timed(PutBack(timings, t))
    }

    /** The check of the first event. */
    method CheckFirst(event: TimerEvent, now1: Time, now2: Time, callbackFrees: bool,
                      ghost timings: seq<Timing>)
      returns (eTime: Time, rang: bool)
      requires Valid() && events != [] && Timed(timings) && event == events[0]
      requires event.hasCallback && !event.inCallback && !event.deleteState && !event.freed
      modifies event`inCallback, event`deleteState, event`freed
      modifies event.timer`rang, event.timer.endTime
      ensures Valid() && Timed(timings[0 := Timing(event.timer.endTime.Value(), timings[0].run)])
      ensures rang == (Nanos(timings[0].end) <= Nanos(now1))
      ensures event.deleteState == event.freed == (rang && callbackFrees)
      ensures eTime == if event.freed then Time(0, 0) else event.timer.endTime.Value()
      ensures if rang then
          IsNextEnd(event.timer.endTime.Value(), timings[0], Reading(Nanos(now1), Nanos(now2)))
        else
          event.timer.endTime.Value() == timings[0].end
    {
      hide Chain, Owned, Holds, Nanos, Normal, Clocks, Ends, Runs;
      ghost var ends, runs := Clocks(events, true), Clocks(events, false);
      assert ends[0].Value() == Ends(timings)[0] && runs[0].Value() == Runs(timings)[0];
      assert forall i :: 0 < i < |events| ==> Apart(events[0], events[i]);
      assert forall i :: 0 <= i < |events| ==> runs[i] != event.timer.endTime;
      eTime, rang := event.Check(now1, now2, false, callbackFrees);
    }

    /** The first event was freed. */
    method Drop(ghost timings: seq<Timing>)
      requires Valid() && events != [] && Timed(timings)
      modifies `events, list, list.items`next, list.items`prev
      ensures Valid() && events == old(events)[1..] && Timed(timings[1..])
    {
      ghost var es, ends, runs := events, Ends(timings), Runs(timings);
      ghost var ce, cr := Clocks(es, true), Clocks(es, false);
      ShowConcat(ce, cr, ends, runs);
      assert Ends(timings[1..]) == ends[1..] && Runs(timings[1..]) == runs[1..];
      hide Show, Clocks, Ends, Runs, Valid;
      RemoveHead(ce + cr, ends + runs);
      ShowConcat(ce, cr, ends, runs);
      ShowTail(es, true, ends);
      ShowTail(es, false, runs);
    }

    /** `add_event` touches no other clock than the event's. */
    method AddKeeping(event: TimerEvent, itm: DListItem, now: Time, ghost keys: seq<Time>,
                      ghost clocks: seq<Timespec>, ghost times: seq<Time>)
      returns (nullPointer: bool)
      requires Valid() && CanJoin(events, event) && Show(Clocks(events, running), keys)
      requires itm !in list.items && Chain([itm]) && itm.parent == null && itm.value == event
      requires event.timer.endTime.sec != 0 && running
      requires Show(clocks, times) && event.timer.endTime !in clocks
      modifies `events, list, list.items`next, list.items`prev, list.items`parent
      modifies itm`next, itm`prev, itm`parent
      modifies event.timer`rang, event.timer.endTime
      ensures Valid() && Show(clocks, times)
      ensures event.timer.endTime.Value() == old(event.timer.endTime.Value())
      ensures nullPointer <==> BelongsFirst(keys, event.timer.endTime.Value())
      ensures !nullPointer ==> Added(old(events), keys, event)
    {
      hide Chain, CanJoin, Clocks, InsertedAt, Place, BelongsFirst, IsOrdered, Valid, Normal, Added;
      nullPointer := AddItem(event, itm, now, keys);
    }

    lemma HeadJoinsRest()
      requires Valid() && events != []
      ensures CanJoin(events[1..], events[0]) && events[0].timer.endTime !in Clocks(events, false)
      ensures list.items != [] && list.items[0] in list.items
    {
      hide Chain, Owned;
      JoinsRest(events);
    }

    /** Pulls the first item out and adds it again. */
    method ReAdd(event: TimerEvent, now: Time, ghost timings: seq<Timing>) returns (nullPointer: bool)
      requires Valid() && running && events != [] && event == events[0]
      requires Timed(timings) && timings[0].end.sec != 0
      modifies `events, list, list.items`next, list.items`prev, list.items`parent
      modifies event.timer`rang, event.timer.endTime
      ensures Valid() && event.timer.endTime.Value() == timings[0].end
      ensures nullPointer <==> StaysFirst(timings, timings[0].end)
      ensures !nullPointer ==> WasPutBack(old(events), timings, timings[0].end)
    {
      hide Show, Clocks, Ends, Runs, Valid, CanJoin, Timed, WasPutBack, StaysFirst, Chain;
      ghost var es := events;
      HeadJoinsRest();
      var itm := TakeTimed(timings);
      nullPointer := AddBack(event, itm, now, es, timings);
    }

    /** The second half, after the first event of `es` was pulled out. */
    method AddBack(event: TimerEvent, itm: DListItem, now: Time,
                   ghost es: seq<TimerEvent>, ghost timings: seq<Timing>)
      returns (nullPointer: bool)
      requires Valid() && running && es != [] && event == es[0] && events == es[1..]
      requires |es| == |timings| && timings[0].end.sec != 0
      requires CanJoin(es[1..], event) && event.timer.endTime !in Clocks(es, false)
      requires itm !in list.items && Chain([itm]) && itm.parent == null && itm.value == event
      requires Show(Clocks(events, true), Ends(timings)[1..]) && Show(Clocks(es, false), Runs(timings))
      requires event.timer.endTime.Value() == timings[0].end
      modifies `events, list, list.items`next, list.items`prev, list.items`parent
      modifies itm`next, itm`prev, itm`parent
      modifies event.timer`rang, event.timer.endTime
      ensures Valid() && event.timer.endTime.Value() == timings[0].end
      ensures nullPointer <==> StaysFirst(timings, timings[0].end)
      ensures !nullPointer ==> WasPutBack(es, timings, timings[0].end)
    {
      hide Show, Clocks, Ends, Runs, Valid, CanJoin, InsertedAt, Place, PutBack, Added, Timed, WasPutBack, Chain;
      PutBackKeys(timings, timings[0].end);
      nullPointer := AddKeeping(event, itm, now, Ends(timings)[1..], Clocks(es, false), Runs(timings));
      if !nullPointer {
        PutBackIsTimed(es, timings);
      }
    }

    /** The first item leaves the list, and all clocks go on showing the same. */
    method TakeTimed(ghost timings: seq<Timing>) returns (itm: DListItem)
      requires Valid() && events != [] && Timed(timings)
      modifies `events, list, list.items`next, list.items`prev, list.items`parent
      ensures Valid() && events == old(events)[1..]
      ensures itm == old(list.items)[0] && list.items == old(list.items)[1..]
      ensures itm !in list.items && Chain([itm]) && itm.parent == null && itm.value == old(events)[0]
      ensures |timings| == |old(events)|
      ensures Show(Clocks(events, true), Ends(timings)[1..])
      ensures Show(Clocks(old(events), false), Runs(timings))
      ensures old(events)[0].timer.endTime.Value() == Ends(timings)[0]
    {
      ghost var es, ends, runs := events, Ends(timings), Runs(timings);
      ghost var ce, cr := Clocks(es, true), Clocks(es, false);
      ShowConcat(ce, cr, ends, runs);
      hide Show, Clocks, Ends, Runs, Valid;
      itm := TakeHead(ce + cr, ends + runs);
      ShowConcat(ce, cr, ends, runs);
      ShowTail(es, true, ends);
    }

    lemma PutBackIsTimed(es: seq<TimerEvent>, timings: seq<Timing>)
      requires running && es != [] && |es| == |timings|
      requires Added(es[1..], Ends(timings)[1..], es[0])
      requires es[0].timer.endTime.Value() == timings[0].end
      requires Show(Clocks(es, false), Runs(timings))
      ensures WasPutBack(es, timings, timings[0].end)
    {
      var t := timings[0].end;
      PutBackKeys(timings, t);
      assert Runs(timings)[0] == timings[0].run;
      hide Show, Clocks, Ends, Runs, InsertedAt, Place, PutBack;
      ShowMoved(es, false, Runs(timings), Place(Ends(timings[1..]), t));
    }
  }
}
