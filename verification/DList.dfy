/** source/DList.c: a list object over a chain of items, with its ends and its
  length cached. */
module DLists {
  import opened AlibErrors
  import opened Memory
  import opened DListItems

  class DList {
    var begin: DListItem?
    var end: DListItem?
    var count: nat
    /** The items, in order. */
    ghost var items: seq<DListItem>

    /** Everything but the cached end is right. */
    ghost predicate ValidButEnd()
      reads this, items`next, items`prev, items`parent
    {
      && Chain(items) && Owned(items, this)
      && begin == ItemAt(items, 0)
      && count == |items|
    }

    ghost predicate Valid()
      reads this, items`next, items`prev, items`parent
    {
      ValidButEnd() && end == ItemAt(items, |items| - 1)
    }

    /** `newDList`. */
    constructor ()
      ensures Valid() && items == []
    {
      begin, end, count := null, null, 0;
      items := [];
    }

    /** `item` is the `j`-th item of the detached chain `ns`. */
    ghost predicate Fresh(item: DListItem?, ns: seq<DListItem>, j: nat)
      reads this, ns`next, ns`prev, ns`parent
    {
      && Stands(item, ns, j) && Disjoint(items, ns)
      && (item != null ==> Owned(ns, item.parent))
    }

    /** Stores the ends and the length of the new chain. */
    method Cache(first: DListItem?, last: DListItem?, n: nat, ghost all: seq<DListItem>)
      requires Chain(all) && Owned(all, this)
      requires first == ItemAt(all, 0) && n == |all|
      modifies `begin, `end, `count, `items
      ensures ValidButEnd() && items == all && end == last
    {
      hide Chain, Owned;
      begin, end, count := first, last, n;
      items := all;
    }

    /** The end of the insertions: items that came into an empty list have no
      parent yet. */
    method Adopt(first: DListItem, ghost all: seq<DListItem>)
      requires Stands(first, all, 0)
      requires Owned(all, null) || Owned(all, this)
      modifies all`parent
      ensures Chain(all) && Owned(all, this)
    {
      assert first.parent == all[0].parent;
      if first.parent == null {
        SetListParent(first, this, all, 0);
      }
    }

    /** The insertion is complete. */
    method Settle(first: DListItem, last: DListItem, n: nat, ghost all: seq<DListItem>)
      requires Stands(first, all, 0) && last == ItemAt(all, |all| - 1) && n == |all|
      requires Owned(all, null) || Owned(all, this)
      modifies `begin, `end, `count, `items, all`parent
      ensures Valid() && items == all
    {
      hide Chain, Owned;
      Adopt(first, all);
      Cache(first, last, n, all);
    }

    /** Joins a detached chain to the end of the list's. */
    method SpliceBack(item: DListItem, ghost ns: seq<DListItem>, ghost j: nat) returns (r: DListItem)
      requires Valid() && Fresh(item, ns, j) && item.parent == null
      modifies items`next, ns`prev, ns`parent
      ensures r == ns[0] && Chain(items + ns)
      ensures Owned(items + ns, if items == [] then null else this)
    {
      assert items == [] ==> items + ns == ns;
      assert items != [] ==> Stands(end, items, |items| - 1) && end.parent == this;
      hide Chain;
      r := DListItems.PushBack(end, item, items, if end == null then 0 else |items| - 1, ns, j);
    }

    /** Joins a detached chain to the start of the list's. */
    method SpliceForward(item: DListItem, ghost ns: seq<DListItem>, ghost j: nat)
      returns (r: DListItem)
      requires Valid() && Fresh(item, ns, j) && item.parent == null
      modifies items`prev, ns`next, ns`parent
      ensures r == ns[0] && Chain(ns + items)
      ensures Owned(ns + items, if items == [] then null else this)
    {
      assert items == [] ==> ns + items == ns;
      assert items != [] ==> Stands(begin, items, 0) && begin.parent == this;
      hide Chain;
      r := DListItems.PushForward(begin, item, items, 0, ns, j);
    }

    /** `DList_push_back`, of a whole chain. */
    method PushBack(item: DListItem?, ghost ns: seq<DListItem>, ghost j: nat) returns (r: int)
      requires Valid() && Fresh(item, ns, j)
      modifies this, items`next, items`parent, ns`prev, ns`parent
      ensures Valid()
      ensures item == null || old(item.parent) != null ==>
        r == ALIB_BAD_ARG && items == old(items)
      ensures item != null && old(item.parent) == null ==>
        r == ALIB_OK && items == old(items) + ns
    {
      if item == null || item.parent != null {
        return ALIB_BAD_ARG;
      }
      hide Chain, Owned, Disjoint;
      var itemLen := Count(item, ns, j);
      ghost var all := items + ns;
      var spliced := SpliceBack(item, ns, j);
      var first := if begin == null then spliced else begin;
      assert first == all[0] && spliced == all[|items|];
      var last := GetLastItem(spliced, all, |items|);
      Settle(first, last, count + itemLen, all);
      r := ALIB_OK;
    }

    /** `DList_push_forward`, of a whole chain. */
    method PushForward(item: DListItem?, ghost ns: seq<DListItem>, ghost j: nat) returns (r: int)
      requires Valid() && Fresh(item, ns, j)
      modifies this, items`prev, items`parent, ns`next, ns`parent
      ensures Valid()
      ensures item == null || old(item.parent) != null ==>
        r == ALIB_BAD_ARG && items == old(items)
      ensures item != null && old(item.parent) == null ==>
        r == ALIB_OK && items == ns + old(items)
    {
      if item == null || item.parent != null {
        return ALIB_BAD_ARG;
      }
      hide Chain, Owned, Disjoint;
      var itemLen := Count(item, ns, j);
      ghost var all := ns + items;
      var first := SpliceForward(item, ns, j);
      assert first == all[0];
      var last := end;
      if last == null {
        last := GetLastItem(first, all, 0);
      }
      Settle(first, last, count + itemLen, all);
      r := ALIB_OK;
    }

    /** `DList_get`, from the nearer end. */
    method Get(index: nat) returns (r: DListItem?)
      requires Valid()
      ensures r == ItemAt(items, index)
    {
      if index >= count {
        return null;
      }
      if index == 0 {
        r := begin;
      } else {
        r := Nearer(index);
      }
    }

    /** The item at an index of the list, reached from the nearer end. */
    method Nearer(index: nat) returns (r: DListItem)
      requires Valid() && index < count
      ensures r == items[index]
    {
      var exceeds: int;
      if index < count / 2 {
        r, exceeds := GetByRelativeIndex(begin, index, items, 0);
      } else {
        r, exceeds := GetByRelativeIndex(end, index - (count - 1), items, |items| - 1);
      }
    }

    /** `DList_insert`, of a whole chain, anywhere but before the first item of a
      non-empty list: there the source dereferences a null pointer. */
    method Insert(index: nat, item: DListItem?, ghost ns: seq<DListItem>, ghost j: nat) returns (r: int)
      requires Valid() && Fresh(item, ns, j)
      requires item != null && item.parent == null ==> begin == null || index > 0
      modifies this, items`next, items`prev, items`parent, ns`next, ns`prev, ns`parent
      ensures Valid()
      ensures item == null || old(item.parent) != null ==>
        r == ALIB_BAD_ARG && items == old(items)
      ensures item != null && old(item.parent) == null ==>
        r == ALIB_OK && items == Spliced(old(items), Min(index, |old(items)|), ns)
    {
      hide Chain, Owned, Disjoint;
      if item == null || item.parent != null {
        return ALIB_BAD_ARG;
      }
      var itemCount := Count(item, ns, j);
      if begin == null {
        var first := GetFirstItem(item, ns, j);
        var last := GetLastItem(item, ns, j);
        assert Spliced(items, Min(index, |items|), ns) == ns;
        Settle(first, last, count + itemCount, ns);
      } else {
        InsertInside(index, item, itemCount, ns, j);
      }
      r := ALIB_OK;
    }

    /** `DList_insert` on a non-empty list. */
    method InsertInside(index: nat, item: DListItem, itemCount: nat,
                        ghost ns: seq<DListItem>, ghost j: nat)
      requires Valid() && Fresh(item, ns, j) && item.parent == null && items != [] && index > 0
      requires itemCount == |ns|
      modifies this, items`next, items`prev, items`parent, ns`next, ns`prev, ns`parent
      ensures Valid() && items == Spliced(old(items), Min(index, |old(items)|), ns)
    {
      hide Chain, Owned, Disjoint;
      ghost var all := Spliced(items, Min(index, |items|), ns);
      assert all[0] == items[0];
      assert index >= count ==> all[|items| - 1] == items[|items| - 1];
      assert index < count ==> all[|all| - 1] == items[|items| - 1];
      SpliceAt(index, item, ns, j);
      var last := end;
      if index >= count {
        last := GetLastItem(end, all, |items| - 1);
      }
      Settle(begin, last, count + itemCount, all);
    }

    /** The pointer updates of `DList_insert` on a non-empty list. */
    method SpliceAt(index: nat, item: DListItem, ghost ns: seq<DListItem>, ghost j: nat)
      requires Valid() && Fresh(item, ns, j) && item.parent == null && items != [] && index > 0
      modifies items`next, items`prev, ns`next, ns`prev, ns`parent
      ensures var all := Spliced(items, Min(index, |items|), ns);
              Chain(all) && Owned(all, this)
    {
      if index >= count {
        assert end.parent == this;
        hide Chain;
        var _ := InsertAfter(end, item, items, |items| - 1, ns, j);
      } else {
        var at := Nearer(index);
        assert at.parent == this && at.prev != null;
        hide Chain;
        var _ := InsertBefore(at, item, items, index, ns, j);
      }
    }

    /** `DList_insert_before`. The length is raised by one, which is right exactly
      when a single item is inserted. */
    method InsertItemBefore(cur: DListItem?, item: DListItem?, ghost k: nat,
                            ghost ns: seq<DListItem>, ghost j: nat) returns (r: int)
      requires Valid() && Fresh(item, ns, j)
      requires cur != null && cur.parent == this ==> k < |items| && cur == items[k]
      requires cur != null && cur.parent == this && item != null && item.parent == null ==> k > 0
      modifies this, items`next, items`prev, ns`next, ns`prev, ns`parent
      ensures cur == null || old(cur.parent) != this || item == null || old(item.parent) != null ==>
        r == ALIB_BAD_ARG && Valid() && items == old(items)
      ensures cur != null && old(cur.parent) == this && item != null && old(item.parent) == null ==>
        && r == ALIB_OK && items == Spliced(old(items), k, ns)
        && Chain(items) && Owned(items, this) && count == old(count) + 1
        && (Valid() <==> |ns| == 1)
    {
      if cur == null || cur.parent != this || item == null || item.parent != null {
        return ALIB_BAD_ARG;
      }
      ghost var all := Spliced(items, k, ns);
      assert all[0] == items[0] && all[|all| - 1] == items[|items| - 1];
      assert cur.prev != null;
      hide Chain;
      var _ := InsertBefore(cur, item, items, k, ns, j);
      hide Owned;
      CacheCount(count + 1, all);
      r := ALIB_OK;
    }

    /** Stores a length. */
    method CacheCount(n: nat, ghost all: seq<DListItem>)
      requires Chain(all) && Owned(all, this)
      requires begin == ItemAt(all, 0) && end == ItemAt(all, |all| - 1)
      modifies this`count, this`items
      ensures items == all && count == n && Chain(all) && Owned(all, this)
      ensures Valid() <==> n == |all|
    {
      hide Chain, Owned;
      count := n;
      items := all;
    }

    /** `DList_remove`. */
    method Remove(index: nat) returns (r: int)
      requires Valid()
      modifies this, items`next, items`prev
      ensures Valid()
      ensures index >= old(count) ==> r == ALIB_BAD_ARG && items == old(items)
      ensures index < old(count) ==> r == ALIB_OK && items == Without(old(items), index, 1)
    {
      if index >= count {
        return ALIB_BAD_ARG;
      }
      var item := if index == 0 then begin else if index == count - 1 then end else null;
      if item == null {
        item := Nearer(index);
      }
      TakeOut(item, index);
      r := ALIB_OK;
    }

    /** `DList_remove_item`. */
    method RemoveItem(item: DListItem, ghost k: nat) returns (r: int)
      requires Valid()
      requires item.parent == this ==> k < |items| && items[k] == item
      modifies this, items`next, items`prev
      ensures Valid()
      ensures old(item.parent) != this ==> r == ALIB_BAD_ARG && items == old(items)
      ensures old(item.parent) == this ==> r == ALIB_OK && items == Without(old(items), k, 1)
    {
      if item.parent != this {
        return ALIB_BAD_ARG;
      }
      TakeOut(item, k);
      r := ALIB_OK;
    }

    /** Deletes an item and moves the end that pointed to it, as both removals
      do. */
    method TakeOut(item: DListItem, ghost k: nat)
      requires Valid() && k < |items| && items[k] == item
      modifies this, items`next, items`prev
      ensures Valid() && items == Without(old(items), k, 1)
    {
      ghost var rest := Without(items, k, 1);
      assert Owned(rest, this);
      assert item == begin <==> k == 0;
      assert item == end <==> k == |items| - 1;
      var first, last := begin, end;
      var neighbour := Delete(item, items, k);
      if item == first {
        first := neighbour;
        if first == null {
          last := null;
        }
      } else if item == last {
        last := neighbour;
      }
      hide Chain, Owned;
      assert first == ItemAt(rest, 0);
      assert last == ItemAt(rest, |rest| - 1);
      Cache(first, last, count - 1, rest);
    }

    /** `DList_pull_out`. */
    method PullOut(index: nat) returns (r: DListItem?)
      requires Valid()
      modifies this, items`next, items`prev, items`parent
      ensures Valid()
      ensures index >= old(count) ==> r == null && items == old(items)
      ensures index < old(count) ==>
        && r == old(items)[index] && Chain([r]) && Owned([r], null)
        && items == Without(old(items), index, 1)
    {
      hide Chain, Owned, Without, Stands;
      if index >= count {
        return null;
      }
      ghost var rest := Without(items, index, 1);
      EndsWithout(items, index, 1);
      WithoutOwned(items, index, 1, this);
      var first, last := begin, end;
      var at, _ := FindCut(index, 0);
      var neighbour;
      r, neighbour := DListItems.PullOut(at, items, index);
      if index == 0 {
        first := neighbour;
        if first == null {
          last := null;
        }
      } else if index == count - 1 {
        last := neighbour;
      }
      PutOut(first, last, count - 1, rest, [at]);
    }

    /** Stores what a removal leaves; `part` is the chain it took out. */
    method PutOut(first: DListItem?, last: DListItem?, n: nat,
                  ghost all: seq<DListItem>, ghost part: seq<DListItem>)
      requires Chain(all) && Owned(all, this) && Chain(part) && Owned(part, null)
      requires first == ItemAt(all, 0) && last == ItemAt(all, |all| - 1) && n == |all|
      modifies `begin, `end, `count, `items
      ensures Valid() && items == all && Chain(part) && Owned(part, null)
    {
      hide Chain, Owned;
      Cache(first, last, n, all);
    }

    /** Whether `DList_pull_out_count` keeps the list right. */
    predicate CutKeepsValid(index: nat, n: SizeT)
      reads this
    {
      index == 0 ||
      if n <= LONG_MAX + 1 then index == count - 1 || index + n <= count
      else index == 1 && (count == 2 || index + n == count)
    }

    /** `DList_pull_out_count`. See `TakesTheRange` for what it takes out of a list.
      When the range starts inside the list and runs past its end, the cached end goes
      stale. When the count turns negative as a `long` and the range starts behind the
      first item, items are in no list any more, but still counted. When the range
      starts beyond the end, see `PullBeyond`. On an empty list the source follows a
      null pointer if the sum of the arguments wraps to zero. */
    method PullOutCount(index: nat, n: SizeT) returns (r: DListItem?)
      requires Valid() && index <= LONG_MAX
      requires count > 0 || index + n != WORD
      modifies this, items`next, items`prev, items`parent
      ensures old(count) == 0 || (n == 0 && index < old(count)) ==>
        r == null && Valid() && items == old(items)
      ensures n > 0 && index < old(count) ==>
        var s, e := old(items), LastOfRange(|old(items)|, index, n);
        && r == s[index] && Parted(Pulled(s, index, e), Kept(s, index, e), Astray(s, index, e), this)
        && items == Kept(s, index, e) && begin == ItemAt(items, 0)
        && count == |items| + |Astray(s, index, e)|
        && end == CachedEnd(s, index, n)
        && (Valid() <==> old(CutKeepsValid(index, n)))
      ensures 0 < old(count) <= index ==> CachesBeyond(old(items), index, n)
      ensures 0 < old(count) <= index && n == 0 ==> r == null && Chain(items) && Owned(items, this)
      ensures 0 < old(count) <= index && n > 0 ==>
        var s, k, e := old(items), old(count) - 1, LastOfRange(old(count), old(count) - 1, n);
        r == s[k] && Parted([s[k]], Kept(s, k, e), Astray(s, k, e), this)
    {
      if count == 0 || (n == 0 && index < count) {
        return null;
      }
      if index >= count {
        r := PullBeyond(index, n, items);
        return;
      }
      r := PullRange(index, n, items, LastOfRange(|items|, index, n));
    }

    /** The list after a range that starts beyond the end of the items `s`: it is pulled
      from the last item on, if any is asked for, and the list's ends stay, the last one
      unless the sum of the arguments is the length. */
    ghost predicate CachesBeyond(s: seq<DListItem>, index: nat, n: SizeT)
      requires s != []
      reads this
    {
      var k := |s| - 1;
      && begin == s[0]
      && end == (if (index + n) % WORD == |s| then ItemAt(s, k - 1) else s[k])
      && items == (if n == 0 then s else Kept(s, k, LastOfRange(|s|, k, n)))
      && count == if n == 0 then |s| else k
    }

    /** The walk to an index beyond the end stops at the last item. */
    method PullBeyond(index: nat, n: SizeT, ghost s: seq<DListItem>) returns (r: DListItem?)
      requires Valid() && 0 < count <= index <= LONG_MAX && s == items
      modifies this, items`next, items`prev, items`parent
      ensures CachesBeyond(s, index, n)
      ensures n == 0 ==> r == null && Chain(s) && Owned(s, this)
      ensures n > 0 ==>
        var k, e := |s| - 1, LastOfRange(|s|, |s| - 1, n);
        r == s[k] && Parted([s[k]], Kept(s, k, e), Astray(s, k, e), this)
    {
      ghost var k := |s| - 1;
      var at, _ := GetByRelativeIndex(end, index - (count - 1), items, k);
      var last := end;
      if (index + n) % WORD == count {
        last := at.prev;
      }
      if n == 0 {
        r := null;
        StoreTail(0, last, s);
      } else {
        ghost var e := LastOfRange(|s|, k, n);
        r := PullLast(at, n, last, s, e, [at], Kept(s, k, e), Astray(s, k, e));
      }
    }

    method PullLast(at: DListItem, n: SizeT, last: DListItem?, ghost s: seq<DListItem>, ghost e: nat,
                    ghost part: seq<DListItem>, ghost rest: seq<DListItem>, ghost lost: seq<DListItem>)
      returns (r: DListItem)
      requires Valid() && items == s && s != [] && at == s[|s| - 1]
      requires 0 < n && e == LastOfRange(|s|, |s| - 1, n)
      requires part == [at] && rest == Kept(s, |s| - 1, e) && lost == Astray(s, |s| - 1, e)
      modifies this, s`next, s`prev, s`parent
      ensures Parted(part, rest, lost, this)
      ensures r == at && items == rest && count == |s| - 1
      ensures begin == old(begin) && end == last
    {
      hide Chain, Owned, Parted, Kept, Astray;
      LastStands(at);
      PulledLast(s, e);
      var neighbour;
      r, neighbour := PullOutSome(at, n, s, |s| - 1, e);
      StoreTail(1, last, rest);
    }

    lemma LastStands(at: DListItem)
      requires Valid() && items != [] && at == items[|items| - 1]
      ensures Stands(at, items, |items| - 1) && at.parent == this && Owned(items, this)
    {
    }

    /** Lowers the length and stores the end. */
    method StoreTail(pulled: nat, last: DListItem?, ghost rest: seq<DListItem>)
      requires pulled <= count
      modifies `end, `count, `items
      ensures items == rest && count == old(count) - pulled && end == last
    {
      end := last;
      count := count - pulled;
      items := rest;
    }

    /** The same for a range that is not empty and starts inside. */
    method PullRange(index: nat, n: SizeT, ghost s: seq<DListItem>, ghost e: nat) returns (r: DListItem)
      requires Valid() && 0 < n && index < count && s == items && e == LastOfRange(|s|, index, n)
      modifies this, items`next, items`prev, items`parent
      ensures r == s[index] && Parted(Pulled(s, index, e), Kept(s, index, e), Astray(s, index, e), this)
      ensures items == Kept(s, index, e) && begin == ItemAt(items, 0)
      ensures count == |items| + |Astray(s, index, e)|
      ensures end == CachedEnd(s, index, n)
      ensures Valid() <==> old(CutKeepsValid(index, n))
    {
      hide Chain, Owned, Parted, Pulled, Kept, Astray, CachedEnd, LastOfRange, Circle, Distinct, Disjoint;
      CachedEndIsRight(s, index, n);
      PartElements(s, index, e);
      var first, last;
      r, first, last := PullPart(index, n, s, e);
      CountOut(r, first, last, Pulled(s, index, e), Kept(s, index, e), Astray(s, index, e));
    }

    /** Lowers the length by that of the part taken out and stores the ends. */
    method CountOut(r: DListItem, first: DListItem?, last: DListItem?, ghost part: seq<DListItem>,
                    ghost rest: seq<DListItem>, ghost lost: seq<DListItem>)
      requires part != [] && r == part[0] && Parted(part, rest, lost, this)
      requires count == |part| + |rest| + |lost|
      modifies `begin, `end, `count, `items
      ensures Parted(part, rest, lost, this) && items == rest && count == |rest| + |lost|
      ensures begin == first && end == last
      ensures Valid() <==> lost == [] && first == ItemAt(rest, 0) && last == ItemAt(rest, |rest| - 1)
    {
      hide Chain, Owned, Circle;
      var pulled := Count(r, part, 0);
      begin, end, count := first, last, count - pulled;
      items := rest;
    }

    /** The pointer updates of `DList_pull_out_count`, and the ends it caches. */
    method PullPart(index: nat, n: SizeT, ghost s: seq<DListItem>, ghost e: nat)
      returns (r: DListItem, first: DListItem?, last: DListItem?)
      requires Valid() && 0 < n && index < count && s == items && e == LastOfRange(|s|, index, n)
      modifies items`next, items`prev, items`parent
      ensures r == s[index] && Parted(Pulled(s, index, e), Kept(s, index, e), Astray(s, index, e), this)
      ensures first == ItemAt(Kept(s, index, e), 0)
      ensures last == CachedEnd(s, index, n)
    {
      hide Chain, Owned, Parted, Pulled, Kept, Astray, Stands;
      FirstKept(s, index, e);
      first := begin;
      r, last := FindCut(index, n);
      var neighbour;
      r, neighbour := PullOutSome(r, n, s, index, e);
      if index == 0 {
        first := neighbour;
        if first == null {
          last := null;
        }
      } else if index == count - 1 {
        last := neighbour;
      }
    }

    /** Where a removal starts, and the end it will leave if it starts inside. */
    method FindCut(index: nat, n: nat) returns (r: DListItem, last: DListItem?)
      requires Valid() && index < count
      ensures Stands(r, items, index) && r.parent == this
      ensures last == if 0 < index < count - 1 && index + n == count then items[index - 1] else end
    {
      last := end;
      if index == 0 {
        r := begin;
      } else if index == count - 1 {
        r := end;
      } else {
        r := Nearer(index);
        if index + n == count {
          last := r.prev;
        }
      }
    }

    /** Whether `DList_move` keeps the cached end right. */
    predicate MoveKeepsEnd(fromIndex: nat, toIndex: nat)
      reads this
    {
      !(fromIndex < toIndex && toIndex == count - 1)
    }

    /** `DList_move`. A move to exactly the last index leaves the cached end on
      the item before it. On an empty list the source dereferences a null
      pointer when asked to move the first item. */
    method Move(fromIndex: nat, toIndex: nat) returns (r: int)
      requires Valid() && fromIndex <= LONG_MAX && toIndex <= LONG_MAX
      requires count > 0 || fromIndex > 0 || toIndex == 0
      modifies this, items`next, items`prev
      ensures old(count) == 1 || fromIndex == toIndex ==>
        r == fromIndex && Valid() && items == old(items)
      ensures old(count) == 0 && fromIndex != toIndex ==>
        r == ALIB_BAD_ARG && Valid() && items == old(items)
      ensures old(count) > 1 && fromIndex != toIndex && fromIndex >= old(count) ==>
        r == ALIB_BAD_INDEX && Valid() && items == old(items)
      ensures old(count) > 1 && fromIndex != toIndex && fromIndex < old(count) ==>
        && r == Clamp(toIndex, |old(items)|)
        && items == Moved(old(items), fromIndex, Clamp(toIndex, |old(items)|))
        && ValidButEnd() && (Valid() <==> old(MoveKeepsEnd(fromIndex, toIndex)))
        && (!old(MoveKeepsEnd(fromIndex, toIndex)) ==> end == old(items)[|old(items)| - 1])
    {
      if fromIndex == toIndex || count == 1 {
        return fromIndex;
      }
      if fromIndex >= count {
        r := DListItems.Move(begin, fromIndex, toIndex, items, 0);
        return;
      }
      r := MoveWithin(fromIndex, toIndex,
                      Moved(items, fromIndex, Clamp(toIndex, |items|)));
    }

    /** The same for an item that exists. */
    method MoveWithin(fromIndex: nat, toIndex: nat, ghost out: seq<DListItem>) returns (r: int)
      requires Valid() && fromIndex <= LONG_MAX && toIndex <= LONG_MAX
      requires fromIndex != toIndex && fromIndex < count && 1 < count
      requires out == Moved(items, fromIndex, Clamp(toIndex, |items|))
      modifies this, items`next, items`prev
      ensures r == Clamp(toIndex, |out|) && items == out && ValidButEnd()
      ensures Valid() <==> old(MoveKeepsEnd(fromIndex, toIndex))
      ensures !old(MoveKeepsEnd(fromIndex, toIndex)) ==> end == old(items)[|old(items)| - 1]
    {
      hide Chain, Owned, Moved, Stands;
      ghost var to := Clamp(toIndex, |items|);
      MovedOwned(items, fromIndex, to, this);
      MovedEnds(items, fromIndex, to);
      var first, last := EndsLeft(fromIndex);
      r := DListItems.Move(first, fromIndex, toIndex, items, if fromIndex == 0 then 1 else 0);
      CacheMoved(first, last, toIndex, out);
    }

    /** The ends, without the item at the index. */
    method EndsLeft(fromIndex: nat) returns (first: DListItem, last: DListItem)
      requires Valid() && fromIndex < count && 1 < count
      ensures first == items[if fromIndex == 0 then 1 else 0]
      ensures last == items[if fromIndex == count - 1 then count - 2 else count - 1]
      ensures Stands(first, items, if fromIndex == 0 then 1 else 0)
    {
      hide Owned;
      first, last := begin, end;
      if fromIndex == 0 {
        first := first.next;
      }
      if fromIndex == count - 1 {
        last := last.prev;
      }
    }

    /** The new ends after a move; the list is only searched for an end when the
      target is the first index, or beyond the last one. */
    method CacheMoved(first: DListItem, last: DListItem, toIndex: nat, ghost out: seq<DListItem>)
      requires Chain(out) && Owned(out, this) && 1 < count == |out|
      requires first == if toIndex == 0 then out[1] else out[0]
      requires toIndex >= count ==> last == out[count - 2]
      modifies `begin, `end, `count, `items
      ensures items == out && ValidButEnd()
      ensures end == if toIndex >= |out| then out[|out| - 1] else last
    {
      hide Chain, Owned;
      var b, e := first, last;
      if toIndex == 0 {
        b := GetFirstItem(b, out, 1);
      } else if toIndex >= count {
        e := GetLastItem(e, out, count - 2);
      }
      Cache(b, e, count, out);
    }
  }

  /** The end that `DList_pull_out_count` caches. */
  function CachedEnd(s: seq<DListItem>, k: nat, n: SizeT): DListItem?
    requires k < |s| && 0 < n
  {
    if k == 0 && LastOfRange(|s|, k, n) + 1 == |s| then null
    else if k > 0 && (k == |s| - 1 || k + n == |s|) then s[k - 1]
    else s[|s| - 1]
  }

  lemma PulledLast(s: seq<DListItem>, e: nat)
    requires e < |s|
    ensures Pulled(s, |s| - 1, e) == [s[|s| - 1]]
  {
  }

  lemma FirstKept(s: seq<DListItem>, k: nat, e: nat)
    requires k < |s| && e < |s|
    ensures ItemAt(Kept(s, k, e), 0) == if k > 0 then s[0] else ItemAt(s, e + 1)
  {
  }

  lemma LastKept(s: seq<DListItem>, k: nat, e: nat)
    requires k < |s| && e < |s|
    ensures var rest := Kept(s, k, e);
      ItemAt(rest, |rest| - 1) ==
        if e < k then s[e] else if e + 1 < |s| then s[|s| - 1] else ItemAt(s, k - 1)
  {
  }

  /** It is the real end, and no item is astray, exactly in these cases. In the others it is
    the old end, or the item before the range when that starts at the old end or seems to
    stop there. */
  lemma CachedEndIsRight(s: seq<DListItem>, k: nat, n: SizeT)
    requires Chain(s) && 0 < n && k < |s|
    ensures var e := LastOfRange(|s|, k, n);
      var rest := Kept(s, k, e);
      Astray(s, k, e) == [] && CachedEnd(s, k, n) == ItemAt(rest, |rest| - 1)
      <==> (k == 0 ||
            if n <= LONG_MAX + 1 then k == |s| - 1 || k + n <= |s|
            else k == 1 && (|s| == 2 || k + n == |s|))
    ensures k > 0 ==>
      CachedEnd(s, k, n) == s[if k == |s| - 1 || k + n == |s| then k - 1 else |s| - 1]
  {
    hide Kept;
    var e := LastOfRange(|s|, k, n);
    LastKept(s, k, e);
    if k > 0 {
      assert s[k - 1] != s[|s| - 1];
    }
  }

  /** What stands where after a move. */
  lemma MovedElements(s: seq<DListItem>, from: nat, to: nat)
    requires from < |s| && to < |s|
    ensures |Moved(s, from, to)| == |s|
    ensures forall i :: 0 <= i < |s| ==>
      Moved(s, from, to)[i] ==
        if i == to then s[from]
        else
          var j := if i < to then i else i - 1;
          s[if j < from then j else j + 1]
  {
  }

  lemma MovedOwned(s: seq<DListItem>, from: nat, to: nat, p: object)
    requires from < |s| && to < |s| && Owned(s, p)
    ensures Owned(Moved(s, from, to), p)
  {
    hide Moved;
    MovedElements(s, from, to);
  }

  /** Where the old ends are after a move. */
  lemma MovedEnds(s: seq<DListItem>, from: nat, to: nat)
    requires Chain(s) && 1 < |s| && from < |s| && to < |s|
    ensures var out, n := Moved(s, from, to), |s|;
      && |out| == n
      && out[to] == s[from]
      && (from == 0 && to > 0 ==> out[0] == s[1])
      && (to == 0 && from > 0 ==> out[1] == s[0])
      && (to > 0 && from > 0 ==> out[0] == s[0])
      && (from == n - 1 && to < n - 1 ==> out[n - 1] == s[n - 2])
      && (to == n - 1 && from < n - 1 ==> out[n - 2] == s[n - 1] && out[n - 1] != s[n - 1])
      && (to == from ==> out == s)
      && (to < n - 1 && from < n - 1 ==> out[n - 1] == s[n - 1])
  {
    hide Moved;
    MovedElements(s, from, to);
  }

  lemma WithoutOwned(s: seq<DListItem>, k: nat, m: nat, p: object)
    requires k + m <= |s| && Owned(s, p)
    ensures Owned(Without(s, k, m), p)
  {
  }

  /** The ends of what is left after taking out `m` items. */
  lemma EndsWithout(s: seq<DListItem>, k: nat, m: nat)
    requires Chain(s) && 0 < m && k + m <= |s|
    ensures var rest := Without(s, k, m);
      && |rest| == |s| - m
      && ItemAt(rest, 0) == (if k > 0 then s[0] else ItemAt(s, m))
      && ItemAt(rest, |rest| - 1)
         == (if k + m < |s| then s[|s| - 1] else if k > 0 then s[k - 1] else null)
    ensures k > 0 ==> s[k - 1] != s[|s| - 1]
  {
  }
}
