/** source/ArrayList.c: a list whose items sit in any of its slots. Most scans
  have no effective bound test: they rely on `count` being the number of items. */
module ArrayLists {
  import opened AlibErrors
  import opened Memory
  import opened SlotSeq

  /** `calloc` followed by a copy. */
  method NewSlots(n: nat, init: seq<object?>) returns (a: array<object?>)
    requires |init| <= n
    ensures fresh(a) && a[..] == Padded(init, n)
  {
    a := new object?[n](_ => null);
    for i := 0 to |init|
      invariant a[..i] == init[..i]
      invariant forall k :: i <= k < n ==> a[k] == null
    {
      a[i] := init[i];
    }
  }

  /** A scan meets the items in their order: at a full slot, the next one. */
  lemma NextItem(s: seq<object?>, all: seq<object>, at: nat, done: nat, kept: nat)
    requires at <= |s| && kept <= done < |all| && Items(s[at..]) == all[done..]
    ensures at < |s|
    ensures s[at] == null ==> Items(s[at + 1..]) == all[done..]
    ensures s[at] != null ==>
      && s[at] == all[done] && Items(s[at + 1..]) == all[done + 1..]
      && all[kept..done] + [s[at]] == all[kept..done + 1]
  {
    if at < |s| {
      ItemsStep(s, at);
      assert all[done..][0] == all[done] && all[done..][1..] == all[done + 1..];
    }
  }

  /** An addition to a full list, after it has grown as far as it can. */
  lemma BehindFull(s: seq<object?>, item: object, maxCap: SizeT)
    requires |Items(s)| == |s| <= SIZE_MAX && |s| != maxCap
    ensures var grown := Padded(s, ExpandedCap(|s|, maxCap));
      && (|s| < maxCap ==>
        |s| < |grown| && grown[|s| := item] == Added(s, item, maxCap)
        && |Items(Added(s, item, maxCap))| == |s| + 1)
      && (|s| > maxCap ==> grown == s)
  {
    hide Items;
    FullIffAsManyItems(s);
    if |s| < maxCap {
      AddedItems(s, item, maxCap);
    }
  }

  /** Behind the last slot no item is left. */
  lemma NothingLeft(s: seq<object?>)
    ensures Items(s[|s|..]) == []
  {
    assert s[|s|..] == [];
  }

  /** The slots `t` start with the items of `s` at the indices `from`: where there was an
    item, the same; where there was none, one from behind, and a later hole takes an
    earlier one. */
  ghost predicate SiftedFrom(s: seq<object?>, t: seq<object?>, from: seq<nat>) {
    && |from| <= |s| == |t|
    && (forall i :: 0 <= i < |from| ==>
      i <= from[i] < |s| && t[i] != null && t[i] == s[from[i]] && (from[i] == i <==> s[i] != null))
    && (forall i, j :: 0 <= i < j < |from| && s[i] == null && s[j] == null ==> from[j] < from[i])
  }

  /** No hole was filled from a slot before `low`. */
  ghost predicate ComeFrom(s: seq<object?>, from: seq<nat>, low: nat) {
    |from| <= |s| && forall i :: 0 <= i < |from| && s[i] == null ==> low <= from[i]
  }

  lemma NothingSifted(s: seq<object?>)
    ensures SiftedFrom(s, s, []) && ComeFrom(s, [], |s|)
  {
  }

  /** One more slot at the front, whose item was in slot `src`. */
  lemma SiftStep(s: seq<object?>, t: seq<object?>, after: seq<object?>, from: seq<nat>, src: nat, low: nat)
    requires SiftedFrom(s, t, from) && |from| < |s| == |after|
    requires |from| <= src < |s| && low <= |s| && s[src] != null && after[|from|] == s[src]
    requires forall i :: 0 <= i < |from| ==> after[i] == t[i]
    requires s[|from|] == null <==> src > |from|
    requires ComeFrom(s, from, if src > |from| then src + 1 else low)
    requires src > |from| ==> low == src
    ensures SiftedFrom(s, after, from + [src]) && ComeFrom(s, from + [src], low)
  {
  }

  lemma FewerComeFrom(s: seq<object?>, from: seq<nat>, low: nat, high: nat)
    requires ComeFrom(s, from, high) && low <= high
    ensures ComeFrom(s, from, low)
  {
  }

  /** `x` is the first element of `s` that meets the test. */
  ghost predicate IsFirst(x: object, s: seq<object>, test: object -> bool) {
    exists k :: 0 <= k < |s| && s[k] == x && forall j :: 0 <= j < k ==> !test(s[j])
  }

  /** The slots while a scan that started at `from` has emptied those before `at`. */
  ghost function Swept(s: seq<object?>, from: nat, at: nat): (r: seq<object?>)
    requires from <= at <= |s|
    ensures |r| == |s|
  {
    s[..from] + Nulls(at - from) + s[at..]
  }

  lemma SweptStart(s: seq<object?>, from: nat)
    requires from <= |s|
    ensures Swept(s, from, from) == s
  {
  }

  lemma SweptStep(s: seq<object?>, from: nat, at: nat)
    requires from <= at <= |s|
    ensures at < |s| ==>
      && Swept(s, from, at)[at] == s[at]
      && Swept(s, from, at)[at := null] == Swept(s, from, at + 1)
      && (s[at] == null ==> Swept(s, from, at) == Swept(s, from, at + 1))
  {
  }

  lemma SweptToTheEnd(s: seq<object?>, from: nat, at: nat)
    requires from <= at <= |s| && Items(s[at..]) == []
    ensures Swept(s, from, at) == Swept(s, from, |s|)
  {
    NoItems(s[at..]);
    assert s[|s|..] == [];
  }

  /** When the first `k` slots are full there are `k` items or more, and exactly
    `k` when the others are empty. */
  lemma SiftOutcome(t: seq<object?>, k: nat)
    requires k <= |t| && forall i :: 0 <= i < k ==> t[i] != null
    ensures |Items(t)| >= k
    ensures |Items(t)| == k ==> t == Padded(Items(t), |t|)
    ensures (forall i :: k <= i < |t| ==> t[i] == null) ==> |Items(t)| == k
  {
    ItemsInFront(t, k);
    hide Items, Padded;
    if forall i :: k <= i < |t| ==> t[i] == null {
      assert t[k..] == Nulls(|t| - k);
      NoItems(t[k..]);
    }
  }

  lemma PermutedTwice(s: seq<object?>, t: seq<object?>)
    ensures Permuted(s, s)
    ensures forall u {:trigger Permuted(t, u)} :: Permuted(s, t) && Permuted(t, u) ==> Permuted(s, u)
  {
  }

  /** An item that moves to an empty slot. */
  lemma Swapped(s: seq<object?>, k: nat, end: nat)
    requires k < end < |s| && s[k] == null
    ensures Permuted(s, s[k := s[end]][end := null])
  {
  }

  lemma PaddedNext(items: seq<object?>, n: nat, x: object?)
    requires |items| < n
    ensures |Padded(items, n)| == n && Padded(items, n)[|items| := x] == Padded(items + [x], n)
  {
  }

  class ArrayList {
    var list: array?<object?>
    var count: nat
    var capacity: SizeT
    const maxCap: SizeT
    /** Whether there is a callback to free items with. */
    const frees: bool
    /** The items handed to that callback so far. */
    ghost var freed: seq<object>

    ghost predicate Shaped()
      reads this
    {
      && (list == null <==> capacity == 0)
      && (list != null ==> list.Length == capacity)
      && 0 < maxCap
    }

    ghost function Slots(): (s: seq<object?>)
      requires Shaped()
      reads this, list
      ensures |s| == capacity
    {
      if list == null then [] else list[..]
    }

    /** The invariant of the whole object: `count` is the number of items. */
    ghost predicate Valid()
      reads this, list
    {
      Shaped() && count == |Items(Slots())|
    }

    /** The items the callback is called on. */
    ghost function Handed(items: seq<object>): seq<object> {
      if frees then items else []
    }

    lemma HandedOneMore(before: seq<object>, items: seq<object>, x: object?)
      ensures before + Handed([]) == before
      ensures x != null ==> before + Handed(items) + Handed([x]) == before + Handed(items + [x])
    {
    }

    /** `newArrayList_ex` with a valid capacity. */
    constructor (frees: bool, startCapacity: SizeT, maxCapacity: SizeT)
      requires maxCapacity == 0 || startCapacity <= maxCapacity
      ensures Valid() && Slots() == Nulls(startCapacity) && freed == []
      ensures maxCap == (if maxCapacity == 0 then SIZE_MAX else maxCapacity)
      ensures this.frees == frees && capacity <= maxCap
      ensures list != null ==> fresh(list)
    {
      this.maxCap := if maxCapacity == 0 then SIZE_MAX else maxCapacity;
      this.frees := frees;
      this.capacity := startCapacity;
      this.count := 0;
      this.freed := [];
      if startCapacity > 0 {
        var a := NewSlots(startCapacity, []);
        this.list := a;
      } else {
        this.list := null;
      }
      new;
      ItemsOfNulls(startCapacity);
      assert Slots() == Nulls(startCapacity);
    }

    /** `ArrayList_remove_by_ptr`: the slot is emptied, the item freed. */
    method RemoveByPtr(i: nat)
      requires Shaped() && i < capacity && list[i] != null && count > 0
      modifies `count, `freed, list
      ensures Shaped() && Slots() == old(Slots())[i := null] && count == old(count) - 1
      ensures freed == old(freed) + Handed([old(list[i])])
    {
      var item := list[i];
      list[i] := null;
      count := count - 1;
      if frees {
        freed := freed + [item];
      }
    }

    /** `ArrayList_resize`. Shrinking frees what no longer fits; a resize to zero
      drops the items without freeing them. */
    method Resize(newCap: SizeT) returns (r: SizeT)
      requires Valid()
      modifies this, list
      ensures Valid() && r == capacity
      ensures list == null || list == old(list) || fresh(list)
      ensures Slots() == Resized(old(Slots()), newCap, maxCap)
      ensures freed == old(freed) + Handed(CutOff(old(Slots()), newCap))
    {
      hide Items;
      if newCap == capacity {
        return newCap;
      }
      ResizedItems(Slots(), newCap, maxCap);
      var size := newCap;
      if list == null {
        if size > maxCap {
          size := maxCap;
        }
        list := NewSlots(size, []);
        assert list[..] == Nulls(size);
      } else if size > 0 {
        if size < capacity {
          ShrinkTo(size);
        } else {
          list := NewSlots(size, list[..]);
        }
      } else {
        list := null;
        count := 0;
      }
      capacity := size;
      r := capacity;
    }

    /** The shrinking branch: two scans over the same pointer, the first bounded
      by the items still to copy, the second by the items still to free. */
    method ShrinkTo(newCap: SizeT)
      requires Valid() && list != null && 0 < newCap < capacity
      modifies `list, `count, `freed, list
      ensures fresh(list) && list[..] == Resized(old(Slots()), newCap, maxCap)
      ensures count == Min(old(count), newCap)
      ensures freed == old(freed) + Handed(CutOff(old(Slots()), newCap))
    {
      var temp, at := CopyFirst(newCap);
      FreeFrom(newCap, at);
      list := temp;
    }

    /** Copies the first items, and returns the slot behind the last one. */
    method CopyFirst(newCap: SizeT) returns (temp: array<object?>, at: nat)
      requires Valid() && list != null && newCap < capacity
      ensures fresh(temp) && temp[..] == Padded(Take(Items(Slots()), newCap), newCap)
      ensures at <= capacity
      ensures Items(Slots()[at..]) == Items(Slots())[Min(newCap, count)..]
    {
      hide Items, Padded;
      temp := NewSlots(newCap, []);
      ghost var s := Slots();
      var i := 0;
      at := 0;
      assert s[0..] == s && Items(s)[..0] == [];
      while i < count && i < newCap
        invariant i <= count && i <= newCap && at <= capacity
        invariant Items(s[at..]) == Items(s)[i..]
        invariant temp[..] == Padded(Items(s)[..i], newCap)
        decreases capacity - at
      {
        NextItem(s, Items(s), at, i, 0);
        if list[at] != null {
          PaddedNext(Items(s)[..i], newCap, list[at]);
          temp[i] := list[at];
          i := i + 1;
        }
        at := at + 1;
      }
    }

    /** One step of such a loop. */
    method EmptySlot(at: nat)
      requires Shaped() && at < capacity && (Slots()[at] != null ==> count > 0)
      modifies `count, `freed, list
      ensures Shaped() && Slots() == old(Slots())[at := null]
      ensures old(Slots())[at] == null ==> count == old(count) && freed == old(freed)
      ensures old(Slots())[at] != null ==>
        count == old(count) - 1 && freed == old(freed) + Handed([old(Slots())[at]])
    {
      hide Handed;
      if list[at] != null {
        RemoveByPtr(at);
      }
    }

    /** The loop of `ArrayList_clear`, and of the truncation in `ArrayList_resize`:
      frees items from slot `from` on until `keep` are left. */
    method FreeFrom(keep: nat, from: nat)
      requires Valid() && list != null && from <= capacity
      requires Items(Slots()[from..]) == Items(Slots())[Min(keep, count)..]
      modifies `count, `freed, list
      ensures Shaped() && count == Min(old(count), keep)
      ensures freed == old(freed) + Handed(Items(old(Slots()))[Min(keep, old(count))..])
      ensures Slots() == Swept(old(Slots()), from, capacity)
    {
      ghost var rest := Items(Slots())[Min(keep, count)..];
      hide Items, Handed, Swept;
      FreeRest(keep, from, rest);
    }

    /** The loop: the items to free are `rest`. */
    method FreeRest(keep: nat, from: nat, ghost rest: seq<object>)
      requires Shaped() && list != null && from <= capacity && Items(Slots()[from..]) == rest
      requires |rest| == Max(0, count - keep)
      modifies `count, `freed, list
      ensures Shaped() && count == old(count) - |rest|
      ensures freed == old(freed) + Handed(rest)
      ensures Slots() == Swept(old(Slots()), from, capacity)
    {
      hide Items, Handed, Swept, Freeing, Shaped, Slots;
      ghost var s, was, done := Slots(), freed, 0;
      FreeingStarts(from, rest);
      var at := from;
      while count > keep
        invariant at <= |s| && done <= |rest| && count == old(count) - done
        invariant Freeing(s, from, at, rest, done, was)
        decreases |s| - at
      {
        done := FreeNext(s, from, at, rest, done, was);
        at := at + 1;
      }
      assert done == |rest|;
      FreeingEnds(s, from, at, rest, was);
    }

    lemma FreeingStarts(from: nat, rest: seq<object>)
      requires Shaped() && from <= capacity && Items(Slots()[from..]) == rest
      ensures Freeing(Slots(), from, from, rest, 0, freed)
    {
      HandedOneMore(freed, [], null);
      SweptStart(Slots(), from);
      hide Items, Handed, Swept;
    }

    lemma FreeingEnds(s: seq<object?>, from: nat, at: nat, rest: seq<object>, was: seq<object>)
      requires Freeing(s, from, at, rest, |rest|, was)
      ensures Shaped() && |s| == capacity
      ensures freed == was + Handed(rest) && Slots() == Swept(s, from, |s|)
    {
      assert rest[0..|rest|] == rest && rest[|rest|..] == [];
      SweptToTheEnd(s, from, at);
    }

    /** A scan from slot `from` has reached `at` and freed the first `done` of the
      items it is to free. */
    ghost predicate Freeing(s: seq<object?>, from: nat, at: nat, rest: seq<object>, done: nat,
                            was: seq<object>)
      reads this, list
    {
      && Shaped() && from <= at <= |s| && done <= |rest|
      && Slots() == Swept(s, from, at)
      && Items(s[at..]) == rest[done..]
      && freed == was + Handed(rest[0..done])
    }

    method FreeNext(ghost s: seq<object?>, ghost from: nat, at: nat,
                    ghost rest: seq<object>, ghost done: nat, ghost was: seq<object>)
      returns (ghost next: nat)
      requires Freeing(s, from, at, rest, done, was) && done < |rest| <= count + done
      modifies `count, `freed, list
      ensures at < |s| && done <= next <= |rest| && count == old(count) - (next - done)
      ensures Freeing(s, from, at + 1, rest, next, was)
    {
      NextItem(s, rest, at, done, 0);
      SweptStep(s, from, at);
      HandedOneMore(was, rest[0..done], s[at]);
      hide Items, Handed, Swept;
      next := if s[at] == null then done else done + 1;
      EmptySlot(at);
    }

    /** `ArrayList_shrink`. */
    method Shrink() returns (r: SizeT)
      requires Valid()
      modifies this, list
      ensures Valid() && r == capacity == old(count)
      ensures list == null || list == old(list) || fresh(list)
      ensures Items(Slots()) == Items(old(Slots())) && freed == old(freed)
    {
      ResizedItems(Slots(), count, maxCap);
      r := Resize(count);
    }

    /** `ArrayList_expand`: double, or grow to the maximum. */
    method Expand() returns (r: SizeT)
      requires Valid()
      modifies this, list
      ensures Valid() && r == capacity
      ensures list == null || list == old(list) || fresh(list)
      ensures Slots() == Padded(old(Slots()), ExpandedCap(old(capacity), maxCap))
      ensures capacity == if old(capacity) == 0 then 1
                          else if old(capacity) < maxCap then Min(2 * old(capacity), maxCap)
                          else old(capacity)
      ensures freed == old(freed) && count == old(count)
    {
      ExpansionDoubles(capacity, maxCap);
      ghost var s := Slots();
      assert Padded(s, |s|) == s;
      if capacity == 0 {
        var _ := Resize(1);
      } else if capacity < maxCap {
        if maxCap - capacity < capacity {
          var _ := Resize(maxCap);
        } else {
          var _ := Resize(capacity * 2);
        }
      }
      ResizedItems(s, ExpandedCap(|s|, maxCap), maxCap);
      r := capacity;
    }

    /** `ArrayList_add`: 1 on success. A full list whose capacity exceeds the maximum,
      which only a resize beyond the maximum brings about, does not grow, and the
      source writes behind the array: it counts an item that is nowhere. */
    method Add(item: object?) returns (r: int, ghost overrun: bool)
      requires Valid()
      modifies this, list
      ensures list == null || list == old(list) || fresh(list)
      ensures freed == old(freed)
      ensures r == if item == null || old(count) == old(capacity) == maxCap then 0 else 1
      ensures overrun == (item != null && old(count) == old(capacity) && maxCap < old(capacity))
      ensures !overrun ==> Valid()
      ensures !overrun ==>
        Slots() == if item == null then old(Slots()) else Added(old(Slots()), item, maxCap)
      ensures overrun ==> Shaped() && Slots() == old(Slots()) && count == capacity + 1
      ensures capacity == if item == null || old(count) < old(capacity) || maxCap <= old(capacity) then old(capacity)
                          else if old(capacity) == 0 then 1
                          else Min(2 * old(capacity), maxCap)
    {
      overrun := false;
      if item == null {
        return 0, overrun;
      }
      FullIffAsManyItems(Slots());
      if count < capacity {
        r := PutInFirstNull(item);
      } else if capacity == maxCap {
        r := 0;
      } else {
        overrun := maxCap < capacity;
        AddBehind(item);
        r := 1;
      }
    }

    /** The scan of `ArrayList_add`; it always meets an empty slot. */
    method PutInFirstNull(item: object) returns (r: int)
      requires Valid() && FirstNull(Slots()) < capacity
      modifies `count, list
      ensures Valid() && r == 1
      ensures Slots() == old(Slots())[FirstNull(old(Slots())) := item]
    {
      ghost var s, k := Slots(), FirstNull(Slots());
      var i := 0;
      while i < capacity
        invariant i <= k && Valid() && Slots() == s
      {
        if list[i] == null {
          ItemsUpdate(s, i, item);
          ItemsUpdate(s, i, null);
          assert s[i := null] == s;
          hide Items;
          list[i] := item;
          count := count + 1;
          assert Slots() == s[i := item];
          return 1;
        }
        i := i + 1;
      }
      assert false;
    }

    /** The growing branch of `ArrayList_add`. It does not ask whether the list has
      grown; what a write behind the array destroys is not part of this model. */
    method AddBehind(item: object)
      requires Valid() && count == capacity != maxCap
      modifies this, list
      ensures freed == old(freed) && count == old(count) + 1
      ensures list == null || list == old(list) || fresh(list)
      ensures old(capacity) < maxCap ==> Valid() && Slots() == Added(old(Slots()), item, maxCap)
      ensures old(capacity) > maxCap ==>
        Shaped() && capacity == old(capacity) && Slots() == old(Slots())
    {
      hide Items, Padded, Added, ExpandedCap;
      ghost var s := Slots();
      BehindFull(s, item, maxCap);
      var _ := Expand();
      if count < capacity {
        list[count] := item;
      }
      count := count + 1;
      assert |s| < maxCap ==> Slots() == Padded(s, ExpandedCap(|s|, maxCap))[|s| := item];
    }

    /** `ArrayList_remove` and, without freeing, `ArrayList_remove_no_free`. */
    method RemoveItem(item: object?, free: bool)
      requires Valid()
      modifies `count, `freed, list
      ensures Valid()
      ensures item == null ==> Slots() == old(Slots()) && freed == old(freed)
      ensures item != null ==>
        && Slots() == Removed(old(Slots()), item)
        && freed == old(freed) + (if free && item in old(Slots()) then Handed([item]) else [])
    {
      hide Items;
      if item == null {
        return;
      }
      ghost var s := Slots();
      var i := 0;
      while i < capacity
        invariant i <= capacity && i <= FirstOf(s, item)
        invariant Valid() && Slots() == s && freed == old(freed)
      {
        if list[i] == item {
          ItemsUpdate(s, i, null);
          ItemsUpdate(s, i, item);
          assert s[i := item] == s;
          if free {
            RemoveByPtr(i);
          } else {
            list[i] := null;
            count := count - 1;
            assert Slots() == s[i := null];
          }
          return;
        }
        i := i + 1;
      }
    }

    /** `ArrayList_clear`. */
    method Clear()
      requires Valid()
      modifies `count, `freed, list
      ensures Valid() && count == 0
      ensures Slots() == Nulls(capacity)
      ensures freed == old(freed) + Handed(Items(old(Slots())))
    {
      if list == null {
        return;
      }
      ghost var s := Slots();
      assert s[0..] == s && Items(s)[0..] == Items(s);
      ItemsOfNulls(capacity);
      hide Items;
      FreeFrom(0, 0);
      assert Swept(s, 0, capacity) == Nulls(capacity);
    }

    /** `ArrayList_sift`, with two pointers. It permutes the slots so that the
      first `count` are full: an item there stays, and the holes take the items from
      behind, the last one first. The corruption branch is reached exactly when
      `count` exceeds the number of items, and then repairs it. */
    method Sift() returns (r: int, ghost from: seq<nat>)
      requires Shaped() && count <= capacity
      modifies `count, list
      ensures Shaped()
      ensures SameItems(old(Slots()), Slots())
      ensures count == Min(old(count), |Items(old(Slots()))|)
      ensures r == if old(count) <= |Items(old(Slots()))| then ALIB_OK else ALIB_OBJ_CORRUPTION
      ensures |from| == count && SiftedFrom(old(Slots()), Slots(), from)
      ensures old(count) >= |Items(old(Slots()))| ==>
        Valid() && Slots() == Padded(Items(Slots()), capacity)
    {
      hide Items, Padded, SameItems, Permuted;
      ghost var s := Slots();
      var k;
      r, k, from := SiftSlots();
      ghost var t := Slots();
      PermutedItems(s, t);
      SiftOutcome(t, k);
      assert k <= |Items(s)| == |Items(t)|;
      assert r == ALIB_OBJ_CORRUPTION ==> |Items(s)| == k < count;
      if r == ALIB_OBJ_CORRUPTION {
        count := k;
      }
    }

    /** The inner loop of `ArrayList_sift`: the last full slot behind `k`, or `k`. */
    method LastFull(k: nat, from: nat) returns (end: nat)
      requires Shaped() && k <= from < capacity
      requires forall i :: from < i < capacity ==> list[i] == null
      ensures k <= end <= from && (end > k ==> list[end] != null)
      ensures forall i :: end < i < capacity ==> list[i] == null
    {
      end := from;
      while end != k && list[end] == null
        invariant k <= end <= from
        invariant forall i :: end < i < capacity ==> list[i] == null
      {
        end := end - 1;
      }
    }

    method MoveItem(k: nat, end: nat)
      requires Shaped() && k < end < capacity && list[k] == null
      modifies list
      ensures Shaped() && Permuted(old(Slots()), Slots())
      ensures list[k] == old(list[end]) && list[end] == null
      ensures forall i :: 0 <= i < capacity && i != k && i != end ==> list[i] == old(list[i])
    {
      Swapped(Slots(), k, end);
      ghost var s := Slots();
      hide Permuted;
      list[k] := list[end];
      list[end] := null;
      assert Slots() == s[k := s[end]][end := null];
    }

    /** The state of the loop of `ArrayList_sift`: `k` slots are full, those behind them are
      the old ones up to `low`, and behind `end` no slot is full. */
    ghost predicate Sifting(s: seq<object?>, from: seq<nat>, k: nat, low: nat, end: nat)
      reads this, list
    {
      && Shaped() && capacity == |s| && end < capacity && k == |from| && k <= low <= capacity
      && (if low == capacity then end == capacity - 1 else low == end && list[end] == null)
      && Permuted(s, Slots()) && SiftedFrom(s, Slots(), from) && ComeFrom(s, from, low)
      && (forall i :: k <= i < low ==> list[i] == s[i])
      && (forall i :: end < i < capacity ==> list[i] == null)
    }

    /** One more full slot, or none is left. */
    method SiftOne(k: nat, end: nat, ghost s: seq<object?>, ghost from: seq<nat>, ghost low: nat)
      returns (e: nat, full: bool, ghost next: seq<nat>, ghost lower: nat)
      requires Sifting(s, from, k, low, end) && k < capacity
      modifies list
      ensures full ==> Sifting(s, next, k + 1, lower, e)
      ensures !full ==>
        && next == from && Shaped() && Permuted(s, Slots()) && SiftedFrom(s, Slots(), from)
        && forall i :: k <= i < capacity ==> list[i] == null
    {
      hide Permuted, SiftedFrom, ComeFrom;
      e, full, next, lower := end, true, from, low;
      ghost var t, src := Slots(), k;
      if list[k] == null {
        e := LastFull(k, end);
        if e == k {
          full := false;
          return;
        }
        PermutedTwice(s, t);
        MoveItem(k, e);
        FewerComeFrom(s, from, e + 1, low);
        src, lower := e, e;
      }
      SiftStep(s, t, Slots(), from, src, lower);
      next := from + [src];
    }

    lemma StartsSifting()
      requires Shaped() && 0 < capacity
      ensures Sifting(Slots(), [], 0, capacity, capacity - 1)
    {
      hide SiftedFrom, ComeFrom, Permuted;
      PermutedTwice(Slots(), Slots());
      NothingSifted(Slots());
    }

    /** The loop of `ArrayList_sift`: `k` slots are full when it stops. */
    method SiftSlots() returns (r: int, k: nat, ghost from: seq<nat>)
      requires Shaped() && count <= capacity
      modifies list
      ensures Shaped() && Permuted(old(Slots()), Slots())
      ensures k == |from| <= count && SiftedFrom(old(Slots()), Slots(), from)
      ensures if r == ALIB_OK then k == count
              else r == ALIB_OBJ_CORRUPTION && k < count && forall i :: k <= i < capacity ==> list[i] == null
    {
      hide Permuted, SiftedFrom, ComeFrom;
      ghost var s := Slots();
      ghost var low: nat := capacity;
      k, from := 0, [];
      PermutedTwice(s, s);
      NothingSifted(s);
      if count == 0 {
        return ALIB_OK, 0, [];
      }
      StartsSifting();
      var end: nat, full := capacity - 1, true;
      while k < count
        invariant k <= count && Sifting(s, from, k, low, end)
      {
        end, full, from, low := SiftOne(k, end, s, from, low);
        if !full {
          return ALIB_OBJ_CORRUPTION, k, from;
        }
        k := k + 1;
      }
      r := ALIB_OK;
    }

    /** `ArrayList_find_item_by_value`: the first item that compares equal. */
    method FindItemByValue(equal: object -> bool) returns (r: object?)
      requires Valid()
      ensures r == null ==> forall x :: x in Items(Slots()) ==> !equal(x)
      ensures r != null ==> equal(r) && IsFirst(r, Items(Slots()), equal)
    {
      hide Items;
      ghost var s := Slots();
      ghost var all := Items(s);
      var at, left := 0, count;
      assert s[0..] == s;
      while left > 0
        invariant Valid() && Slots() == s && at <= capacity && 0 <= left <= |all|
        invariant Items(s[at..]) == all[|all| - left..]
        invariant forall j :: 0 <= j < |all| - left ==> !equal(all[j])
        decreases capacity - at
      {
        NextItem(s, all, at, |all| - left, 0);
        var x := list[at];
        if x != null {
          if equal(x) {
            return x;
          }
          left := left - 1;
        }
        at := at + 1;
      }
      r := null;
    }

    /** `ArrayList_get_by_index`: the item at an index that counts items only. */
    method GetByIndex(vIndex: nat) returns (r: object?)
      requires Valid()
      ensures r == if vIndex < count then Items(Slots())[vIndex] else null
    {
      hide Items;
      if vIndex >= count {
        return null;
      }
      ghost var s := Slots();
      ghost var all := Items(s);
      var at, left := 0, vIndex;
      assert s[0..] == s;
      while at < capacity
        invariant Valid() && Slots() == s && at <= capacity && 0 <= left <= vIndex < |all|
        invariant Items(s[at..]) == all[vIndex - left..]
      {
        NextItem(s, all, at, vIndex - left, 0);
        var x := list[at];
        if x != null {
          if left == 0 {
            return x;
          }
          left := left - 1;
        }
        at := at + 1;
      }
      NothingLeft(s);
      assert false;
    }

    /** `ArrayList_get_item_index`: the index of the first occurrence, or -1. The
      loop's first test never changes; the second one ends it. */
    method GetItemIndex(item: object?) returns (r: int)
      requires Valid()
      ensures r == -1 <==> item == null || item !in Items(Slots())
      ensures r != -1 ==>
        0 <= r < count && Items(Slots())[r] == item && item !in Items(Slots())[..r]
    {
      hide Items;
      if item == null {
        return ALIB_BAD_ARG;
      }
      ghost var s := Slots();
      ghost var all := Items(s);
      var at, index := 0, 0;
      assert s[0..] == s;
      while 0 < capacity && index < count
        invariant Valid() && Slots() == s && at <= capacity && index <= |all|
        invariant Items(s[at..]) == all[index..]
        invariant item !in all[..index]
        decreases capacity - at
      {
        NextItem(s, all, at, index, 0);
        if list[at] != null {
          if list[at] == item {
            return index;
          }
          assert all[..index + 1] == all[..index] + [all[index]];
          index := index + 1;
        }
        at := at + 1;
      }
      assert all[..index] == all;
      r := -1;
    }
  }
}
