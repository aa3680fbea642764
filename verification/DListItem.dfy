/** source/DListItem.c: doubly linked chains of items. Any item stands for the
  chain it is in; the methods are proved against the sequence of its items,
  which they take as a ghost argument together with the item's index. */
module DListItems {
  import opened AlibErrors
  import opened Memory

  function Clamp(i: int, n: nat): nat
    requires 0 < n
  {
    if i < 0 then 0 else if i >= n then n - 1 else i
  }

  /** The item at index `i`, or null outside the sequence. */
  function ItemAt(s: seq<DListItem>, i: int): DListItem? {
    if 0 <= i < |s| then s[i] else null
  }

  ghost predicate Distinct(s: seq<DListItem>) {
    forall i, j :: 0 <= i < j < |s| ==> s[i] != s[j]
  }

  ghost predicate Disjoint(a: seq<DListItem>, b: seq<DListItem>) {
    forall i, j :: 0 <= i < |a| && 0 <= j < |b| ==> a[i] != b[j]
  }

  /** The items of `s` are linked in this order, and to nothing else. */
  ghost predicate Chain(s: seq<DListItem>)
    reads s`next, s`prev
  {
    && Distinct(s)
    && (forall i {:trigger s[i].next} :: 0 <= i < |s| ==> s[i].next == ItemAt(s, i + 1))
    && (forall i {:trigger s[i].prev} :: 0 <= i < |s| ==> s[i].prev == ItemAt(s, i - 1))
  }

  /** A stretch of a chain: the same, between the neighbours `p` and `q`. */
  ghost predicate Segment(s: seq<DListItem>, p: DListItem?, q: DListItem?)
    reads s`next, s`prev
  {
    && s != [] && Distinct(s)
    && (forall i {:trigger s[i].next} :: 0 <= i < |s| ==> s[i].next == if i + 1 < |s| then s[i + 1] else q)
    && (forall i {:trigger s[i].prev} :: 0 <= i < |s| ==> s[i].prev == if i > 0 then s[i - 1] else p)
  }

  lemma ChainIsSegment(s: seq<DListItem>)
    ensures s != [] ==> (Chain(s) <==> Segment(s, null, null))
  {
  }

  lemma SplitChain(a: seq<DListItem>, b: seq<DListItem>)
    requires Chain(a + b) && a != [] && b != []
    ensures Segment(a, null, b[0]) && Segment(b, a[|a| - 1], null) && Disjoint(a, b)
  {
    assert forall i :: 0 <= i < |a| ==> (a + b)[i] == a[i];
    assert forall i :: 0 <= i < |b| ==> (a + b)[|a| + i] == b[i];
  }

  lemma DisjointParts(a: seq<DListItem>, b: seq<DListItem>, c: seq<DListItem>)
    requires Disjoint(a + c, b) && Disjoint(a, c)
    ensures Disjoint(b, c) && Disjoint(a, b + c)
  {
    assert forall i :: 0 <= i < |a| ==> (a + c)[i] == a[i];
    assert forall i :: 0 <= i < |c| ==> (a + c)[|a| + i] == c[i];
  }

  /** Every item of `s` has the parent `p`. */
  ghost predicate Owned(s: seq<DListItem>, p: object?)
    reads s`parent
  {
    forall i {:trigger s[i].parent} :: 0 <= i < |s| ==> s[i].parent == p
  }

  /** `item` is the `k`-th item of the chain `s`; the null item has no chain. */
  ghost predicate Stands(item: DListItem?, s: seq<DListItem>, k: nat)
    reads s`next, s`prev
  {
    if item == null then s == [] else k < |s| && s[k] == item && Chain(s)
  }

  class DListItem {
    var next: DListItem?
    var prev: DListItem?
    var parent: object?
    var value: object?

    /** `newDListItem` without an old list. */
    constructor (value: object?)
      ensures next == null && prev == null && parent == null && this.value == value
      ensures Chain([this]) && Owned([this], null)
    {
      this.value := value;
      this.next, this.prev, this.parent := null, null, null;
    }
  }

  // ---------- Walking ----------

  /** `DListItem_get_first_item`. */
  method GetFirstItem(list: DListItem?, ghost s: seq<DListItem>, ghost k: nat) returns (r: DListItem?)
    requires Stands(list, s, k)
    ensures r == ItemAt(s, 0)
  {
    if list == null {
      return null;
    }
    r := list;
    ghost var i: int := k;
    while r.prev != null
      invariant 0 <= i < |s| && r == s[i]
      decreases i
    {
      r := r.prev;
      i := i - 1;
    }
  }

  /** `DListItem_get_last_item`. */
  method GetLastItem(list: DListItem?, ghost s: seq<DListItem>, ghost k: nat) returns (r: DListItem?)
    requires Stands(list, s, k)
    ensures r == ItemAt(s, |s| - 1)
  {
    if list == null {
      return null;
    }
    r := list;
    ghost var i := k;
    while r.next != null
      invariant i < |s| && r == s[i]
      decreases |s| - i
    {
      r := r.next;
      i := i + 1;
    }
  }

  /** `DListItem_get`: the item at `index`, or the last one and how far `index`
    is beyond it. */
  method Get(list: DListItem, index: nat, ghost s: seq<DListItem>, ghost k: nat)
    returns (r: DListItem, exceeds: nat)
    requires Stands(list, s, k)
    ensures r == s[Clamp(index, |s|)] && exceeds == index - Clamp(index, |s|)
  {
    r := GetFirstItem(list, s, k);
    exceeds := index;
    ghost var i := 0;
    while exceeds > 0 && r.next != null
      invariant i < |s| && r == s[i] && i + exceeds == index
    {
      r := r.next;
      exceeds := exceeds - 1;
      i := i + 1;
    }
  }

  /** `DListItem_get_by_relative_index`: `index` items on from `list`, in either
    direction, stopping at the ends. */
  method GetByRelativeIndex(list: DListItem, index: int, ghost s: seq<DListItem>, ghost k: nat)
    returns (r: DListItem, exceeds: int)
    requires Stands(list, s, k)
    ensures r == s[Clamp(k + index, |s|)] && exceeds == k + index - Clamp(k + index, |s|)
    ensures r == if k + index < 0 then s[0] else if k + index < |s| then s[k + index] else s[|s| - 1]
  {
    r := list;
    exceeds := index;
    ghost var i: int := k;
    if index > 0 {
      while exceeds != 0 && r.next != null
        invariant 0 <= i < |s| && r == s[i] && i + exceeds == k + index && exceeds >= 0
        decreases exceeds
      {
        r := r.next;
        exceeds := exceeds - 1;
        i := i + 1;
      }
    } else {
      while exceeds != 0 && r.prev != null
        invariant 0 <= i < |s| && r == s[i] && i + exceeds == k + index && exceeds <= 0
        decreases -exceeds
      {
        r := r.prev;
        exceeds := exceeds + 1;
        i := i - 1;
      }
    }
  }

  /** `DListItem_count`: the whole chain, whichever item is given. */
  method Count(list: DListItem?, ghost s: seq<DListItem>, ghost k: nat) returns (count: nat)
    requires Stands(list, s, k)
    ensures count == |s|
  {
    count := 0;
    if list == null {
      return;
    }
    var it := list.prev;
    ghost var i: int := k - 1;
    while it != null
      invariant -1 <= i < |s| && it == ItemAt(s, i) && count == k - 1 - i
      decreases i
    {
      it := it.prev;
      count := count + 1;
      i := i - 1;
    }
    it := list;
    i := k;
    while it != null
      invariant 0 <= i <= |s| && it == ItemAt(s, i) && count == i
      decreases |s| - i
    {
      it := it.next;
      count := count + 1;
      i := i + 1;
    }
  }

  /** `DListItem_index`. */
  method Index(list: DListItem, ghost s: seq<DListItem>, ghost k: nat) returns (index: nat)
    requires Stands(list, s, k)
    ensures index == k
  {
    var begin := GetFirstItem(list, s, k);
    index := 0;
    while begin != list
      invariant index <= k && begin == s[index]
      decreases k - index
    {
      begin := begin.next;
      index := index + 1;
    }
  }

  /** `DListItem_set_list_parent`. It relies on all items having one parent. */
  method SetListParent(list: DListItem, p: object?, ghost s: seq<DListItem>, ghost k: nat)
    requires Stands(list, s, k) && Owned(s, list.parent)
    modifies s`parent
    ensures Chain(s) && Owned(s, p)
  {
    if list.parent == p {
      return;
    }
    var it := GetFirstItem(list, s, k);
    ghost var i := 0;
    while it != null
      invariant 0 <= i <= |s| && it == ItemAt(s, i)
      invariant Chain(s)
      invariant forall m {:trigger s[m].parent} :: 0 <= m < i ==> s[m].parent == p
      decreases |s| - i
    {
      it.parent := p;
      it := it.next;
      i := i + 1;
    }
  }

  // ---------- Splicing ----------

  /** Links the end of one stretch to the start of another. */
  method Tie(last: DListItem, first: DListItem, ghost a: seq<DListItem>, ghost b: seq<DListItem>,
             ghost p: DListItem?, ghost q: DListItem?)
    requires a != [] && b != [] && a[|a| - 1] == last && b[0] == first && Disjoint(a, b)
    requires Segment(a, p, last.next) && Segment(b, first.prev, q)
    modifies last`next, first`prev
    ensures Segment(a + b, p, q)
  {
    last.next := first;
    first.prev := last;
  }

  /** Links the end of one chain to the start of another. */
  method Join(last: DListItem, first: DListItem, ghost a: seq<DListItem>, ghost b: seq<DListItem>)
    requires a != [] && Stands(last, a, |a| - 1) && Stands(first, b, 0) && Disjoint(a, b)
    modifies last`next, first`prev
    ensures Chain(a + b)
  {
    last.next := first;
    first.prev := last;
  }

  /** `DListItem_push_back`. */
  method PushBack(list: DListItem?, newItem: DListItem?,
                  ghost ls: seq<DListItem>, ghost k: nat, ghost ns: seq<DListItem>, ghost j: nat)
    returns (r: DListItem?)
    requires Stands(list, ls, k) && Stands(newItem, ns, j) && Disjoint(ls, ns)
    requires list != null ==> Owned(ls, list.parent)
    requires newItem != null ==> Owned(ns, newItem.parent)
    modifies ls`next, ns`prev, ns`parent
    ensures list == null ==> r == ItemAt(ns, 0)
    ensures list != null && (newItem == null || old(newItem.parent) != null) ==> r == list
    ensures list == null || newItem == null || old(newItem.parent) != null ==>
      unchanged(ls) && unchanged(ns)
    ensures list != null && newItem != null && old(newItem.parent) == null ==>
      r == ns[0] && Chain(ls + ns) && Owned(ls + ns, list.parent)
  {
    if list == null {
      r := GetFirstItem(newItem, ns, j);
      return;
    }
    if newItem == null || newItem.parent != null {
      return list;
    }
    var last := GetLastItem(list, ls, k);
    var first := GetFirstItem(newItem, ns, j);
    SetListParent(first, last.parent, ns, 0);
    Join(last, first, ls, ns);
    r := first;
  }

  /** `DListItem_push_forward`. */
  method PushForward(list: DListItem?, newItem: DListItem?,
                     ghost ls: seq<DListItem>, ghost k: nat, ghost ns: seq<DListItem>, ghost j: nat)
    returns (r: DListItem?)
    requires Stands(list, ls, k) && Stands(newItem, ns, j) && Disjoint(ls, ns)
    requires list != null ==> Owned(ls, list.parent)
    requires newItem != null ==> Owned(ns, newItem.parent)
    modifies ns`next, ls`prev, ns`parent
    ensures list == null ==> r == ItemAt(ns, 0)
    ensures list != null && (newItem == null || old(newItem.parent) != null) ==> r == list
    ensures list == null || newItem == null || old(newItem.parent) != null ==>
      unchanged(ls) && unchanged(ns)
    ensures list != null && newItem != null && old(newItem.parent) == null ==>
      r == ns[0] && Chain(ns + ls) && Owned(ns + ls, list.parent)
  {
    if list == null {
      r := GetFirstItem(newItem, ns, j);
      return;
    }
    if newItem == null || newItem.parent != null {
      return list;
    }
    var last := GetLastItem(newItem, ns, j);
    var first := GetFirstItem(newItem, ns, j);
    SetListParent(first, list.parent, ns, 0);
    var head := GetFirstItem(list, ls, k);
    Join(last, head, ns, ls);
    r := first;
  }

  /** `b` between the items `k` and `k + 1` of `a`. */
  function Spliced(a: seq<DListItem>, k: nat, b: seq<DListItem>): seq<DListItem>
    requires k <= |a|
  {
    a[..k] + b + a[k..]
  }

  /** `a` without `n` items from index `k` on. */
  function Without(a: seq<DListItem>, k: nat, n: nat): seq<DListItem>
    requires k + n <= |a|
  {
    a[..k] + a[k + n..]
  }

  /** Splicing a chain in and taking it out undo each other; it stands at the index asked
    for. */
  lemma SplicedAndTakenOut(a: seq<DListItem>, k: nat, b: seq<DListItem>, n: nat)
    requires k <= |a|
    ensures |Spliced(a, k, b)| == |a| + |b| && Spliced(a, k, b)[k..k + |b|] == b
    ensures Spliced(a, k, b)[..k] == a[..k] && Spliced(a, k, b)[k + |b|..] == a[k..]
    ensures Without(Spliced(a, k, b), k, |b|) == a
    ensures k + n <= |a| ==> Spliced(Without(a, k, n), k, a[k..k + n]) == a
  {
    assert Spliced(a, k, b)[..k] == a[..k];
    assert Spliced(a, k, b)[k + |b|..] == a[k..];
    if k + n <= |a| {
      assert a == a[..k] + a[k..k + n] + a[k + n..];
      assert Without(a, k, n)[..k] == a[..k] && Without(a, k, n)[k..] == a[k + n..];
    }
  }

  /** The pointer updates of `DListItem_insert_after`: `b` comes between `item`, the
    last of `before`, and what is behind it. */
  method LinkAfter(item: DListItem, first: DListItem, last: DListItem,
                   ghost before: seq<DListItem>, ghost b: seq<DListItem>, ghost behind: seq<DListItem>)
    requires before != [] && Stands(item, before + behind, |before| - 1) && Disjoint(before + behind, b)
    requires b != [] && Stands(first, b, 0) && Stands(last, b, |b| - 1)
    modifies last`next, behind`prev, first`prev, item`next
    ensures Chain(before + (b + behind))
  {
    ChainIsSegment(b);
    ChainIsSegment(before);
    ChainIsSegment(before + (b + behind));
    assert item.next == ItemAt(behind, 0);
    if behind != [] {
      SplitChain(before, behind);
    } else {
      assert before + [] == before && b + [] == b;
    }
    DisjointParts(before, b, behind);
    hide Chain, Segment, Disjoint;
    if item.next != null {
      Tie(last, item.next, b, behind, null, null);
    } else {
      last.next := item.next;
    }
    Tie(item, first, before, b + behind, null, null);
  }

  /** `DListItem_insert_after`. */
  method InsertAfter(list: DListItem?, newItem: DListItem?,
                     ghost ls: seq<DListItem>, ghost k: nat, ghost ns: seq<DListItem>, ghost j: nat)
    returns (r: DListItem?)
    requires Stands(list, ls, k) && Stands(newItem, ns, j) && Disjoint(ls, ns)
    requires list != null ==> Owned(ls, list.parent)
    requires newItem != null ==> Owned(ns, newItem.parent)
    modifies ls`next, ns`next, ls`prev, ns`prev, ns`parent
    ensures list == null ==> r == ItemAt(ns, 0)
    ensures list != null && (newItem == null || old(newItem.parent) != null) ==> r == list
    ensures list == null || newItem == null || old(newItem.parent) != null ==>
      unchanged(ls) && unchanged(ns)
    ensures list != null && newItem != null && old(newItem.parent) == null ==>
      r == ns[0] && Chain(Spliced(ls, k + 1, ns)) && Owned(Spliced(ls, k + 1, ns), list.parent)
  {
    if list == null {
      r := GetFirstItem(newItem, ns, j);
      return;
    }
    if newItem == null || newItem.parent != null {
      return list;
    }
    r := SpliceAfter(list, newItem, ls, k, ns, j, Spliced(ls, k + 1, ns));
  }

  /** The ends of a detached chain, which gets the parent of another one. */
  method Give(newItem: DListItem, p: object?, ghost ls: seq<DListItem>, ghost ns: seq<DListItem>, ghost j: nat)
    returns (first: DListItem, last: DListItem)
    requires Stands(newItem, ns, j) && Owned(ns, null) && Disjoint(ls, ns) && Owned(ls, p)
    modifies ns`parent
    ensures Stands(first, ns, 0) && Stands(last, ns, |ns| - 1)
    ensures Owned(ns, p) && Owned(ls, p)
    ensures forall i :: 0 <= i < |ls| ==> ls[i].parent == p
  {
    hide Chain, Distinct;
    last := GetLastItem(newItem, ns, j);
    first := GetFirstItem(newItem, ns, j);
    SetListParent(first, p, ns, 0);
  }

  lemma SplicedOwned(a: seq<DListItem>, k: nat, b: seq<DListItem>, p: object?)
    requires k <= |a| && Owned(a, p) && Owned(b, p)
    ensures Owned(Spliced(a, k, b), p)
    ensures a == a[..k] + a[k..] && Spliced(a, k, b) == a[..k] + (b + a[k..])
  {
  }

  method SpliceAfter(list: DListItem, newItem: DListItem, ghost ls: seq<DListItem>, ghost k: nat,
                     ghost ns: seq<DListItem>, ghost j: nat, ghost out: seq<DListItem>)
    returns (r: DListItem)
    requires Stands(list, ls, k) && Stands(newItem, ns, j) && Disjoint(ls, ns)
    requires Owned(ls, list.parent) && Owned(ns, null) && newItem.parent == null
    requires out == Spliced(ls, k + 1, ns)
    modifies ls`next, ns`next, ls`prev, ns`prev, ns`parent
    ensures r == ns[0] && Chain(out) && Owned(out, list.parent)
  {
    hide Chain, Owned, Spliced, Disjoint, Distinct;
    var last;
    r, last := Give(newItem, list.parent, ls, ns, j);
    SplicedOwned(ls, k + 1, ns, list.parent);
    LinkAfter(list, r, last, ls[..k + 1], ns, ls[k + 1..]);
  }

  /** The pointer updates of `DListItem_insert_before`. They follow the previous
    item's pointer without testing it. */
  method LinkBefore(item: DListItem, first: DListItem, last: DListItem,
                    ghost before: seq<DListItem>, ghost b: seq<DListItem>, ghost behind: seq<DListItem>)
    requires before != [] && Stands(item, before + behind, |before|) && Disjoint(before + behind, b)
    requires b != [] && Stands(first, b, 0) && Stands(last, b, |b| - 1)
    modifies last`next, item`prev, first`prev, before`next
    ensures Chain(before + (b + behind))
  {
    ChainIsSegment(b);
    ChainIsSegment(before + (b + behind));
    SplitChain(before, behind);
    DisjointParts(before, b, behind);
    hide Chain, Segment, Disjoint;
    var prev := item.prev;
    Tie(last, item, b, behind, null, null);
    Tie(prev, first, before, b + behind, null, null);
  }

  /** `DListItem_insert_before`, before any item but the first: there the source
    dereferences a null pointer. */
  method InsertBefore(list: DListItem?, newItem: DListItem?,
                      ghost ls: seq<DListItem>, ghost k: nat, ghost ns: seq<DListItem>, ghost j: nat)
    returns (r: DListItem?)
    requires Stands(list, ls, k) && Stands(newItem, ns, j) && Disjoint(ls, ns)
    requires list != null ==> Owned(ls, list.parent)
    requires newItem != null ==> Owned(ns, newItem.parent)
    requires list != null && newItem != null && newItem.parent == null ==> list.prev != null
    modifies ls`next, ns`next, ls`prev, ns`prev, ns`parent
    ensures list == null ==> r == ItemAt(ns, 0)
    ensures list != null && (newItem == null || old(newItem.parent) != null) ==> r == list
    ensures list == null || newItem == null || old(newItem.parent) != null ==>
      unchanged(ls) && unchanged(ns)
    ensures list != null && newItem != null && old(newItem.parent) == null ==>
      r == ns[0] && Chain(Spliced(ls, k, ns)) && Owned(Spliced(ls, k, ns), list.parent)
  {
    if list == null {
      r := GetFirstItem(newItem, ns, j);
      return;
    }
    if newItem == null || newItem.parent != null {
      return list;
    }
    r := SpliceBefore(list, newItem, ls, k, ns, j, Spliced(ls, k, ns));
  }

  method SpliceBefore(list: DListItem, newItem: DListItem, ghost ls: seq<DListItem>, ghost k: nat,
                     ghost ns: seq<DListItem>, ghost j: nat, ghost out: seq<DListItem>)
    returns (r: DListItem)
    requires Stands(list, ls, k) && Stands(newItem, ns, j) && Disjoint(ls, ns)
    requires Owned(ls, list.parent) && Owned(ns, null) && newItem.parent == null && k > 0
    requires out == Spliced(ls, k, ns)
    modifies ls`next, ns`next, ls`prev, ns`prev, ns`parent
    ensures r == ns[0] && Chain(out) && Owned(out, list.parent)
  {
    hide Chain, Owned, Spliced, Disjoint, Distinct;
    var last;
    r, last := Give(newItem, list.parent, ls, ns, j);
    SplicedOwned(ls, k, ns, list.parent);
    LinkBefore(list, r, last, ls[..k], ns, ls[k..]);
  }

  // ---------- Taking out ----------

  /** The chain closes over the items from `begin` to `end`, which keep their own
    pointers. */
  method Unlink(begin: DListItem, end: DListItem, ghost s: seq<DListItem>, ghost k: nat, ghost n: nat,
                ghost out: seq<DListItem>)
    requires 0 < n && k + n <= |s| && Stands(begin, s, k) && Stands(end, s, k + n - 1)
    requires out == Without(s, k, n)
    modifies out`next, out`prev
    ensures Chain(out)
  {
    assert k > 0 ==> out[k - 1] == s[k - 1];
    assert k + n < |s| ==> out[k] == s[k + n];
    if begin.prev != null {
      begin.prev.next := end.next;
    }
    if end.next != null {
      end.next.prev := begin.prev;
    }
  }

  /** `DListItem_pull_out`. The pointer to the item is moved to a neighbour. */
  method PullOut(item: DListItem?, ghost s: seq<DListItem>, ghost k: nat)
    returns (pulled: DListItem?, neighbour: DListItem?)
    requires Stands(item, s, k)
    requires item != null ==> Owned(s, item.parent)
    modifies s`next, s`prev, s`parent
    ensures pulled == item
    ensures item == null ==> neighbour == null
    ensures item != null ==>
      && neighbour == (if k > 0 then s[k - 1] else ItemAt(s, 1))
      && Chain([item]) && Owned([item], null)
      && Chain(Without(s, k, 1)) && Owned(Without(s, k, 1), old(item.parent))
  {
    if item == null {
      return null, null;
    }
    pulled := item;
    if item.prev != null {
      neighbour := item.prev;
    } else {
      neighbour := item.next;
    }
    Detach(item, s, k, Without(s, k, 1));
  }

  method Detach(item: DListItem, ghost s: seq<DListItem>, ghost k: nat, ghost rest: seq<DListItem>)
    requires Stands(item, s, k) && Owned(s, item.parent) && rest == Without(s, k, 1)
    modifies s`next, s`prev, s`parent
    ensures Chain([item]) && Owned([item], null)
    ensures Chain(rest) && Owned(rest, old(item.parent))
  {
    assert item !in rest && Owned(rest, item.parent);
    Unlink(item, item, s, k, 1, rest);
    item.next := null;
    item.prev := null;
    assert Chain([item]);
    hide Chain, Without;
    SetListParent(item, null, [item], 0);
  }

  /** Where the walk to the end of a range of `count` items from index `k` stops.
    The source passes `count - 1` as a `long`: when it is negative the walk goes
    backward. */
  function LastOfRange(n: nat, k: nat, count: SizeT): (r: nat)
    requires k < n && 0 < count
    ensures r < n
  {
    Clamp(k + ToLong(count - 1), n)
  }

  /** The links after a cut from `begin = s[k]` to `end = s[e]`, which may stand
    before `begin`. */
  function NextAfterCut(s: seq<DListItem>, k: nat, e: nat, i: nat): DListItem? {
    if i == e then null else if i + 1 == k then ItemAt(s, e + 1) else ItemAt(s, i + 1)
  }

  function PrevAfterCut(s: seq<DListItem>, k: nat, e: nat, i: nat): DListItem? {
    if i == k then null else if i == e + 1 then ItemAt(s, k - 1) else ItemAt(s, i - 1)
  }

  ghost predicate IsCut(s: seq<DListItem>, k: nat, e: nat)
    reads s`next, s`prev
  {
    && (forall i {:trigger s[i].next} :: 0 <= i < |s| ==> s[i].next == NextAfterCut(s, k, e, i))
    && (forall i {:trigger s[i].prev} :: 0 <= i < |s| ==> s[i].prev == PrevAfterCut(s, k, e, i))
  }

  /** The pointer updates of `DListItem_pull_out_count`. */
  method Cut(begin: DListItem, end: DListItem, ghost s: seq<DListItem>, ghost k: nat, ghost e: nat)
    requires Stands(begin, s, k) && Stands(end, s, e)
    modifies s`next, s`prev
    ensures IsCut(s, k, e)
  {
    if begin.prev != null {
      begin.prev.next := end.next;
    }
    if end.next != null {
      end.next.prev := begin.prev;
    }
    begin.prev := null;
    end.next := null;
  }

  /** What a cut takes out: the items up to `end`, or, if `end` stands before
    `begin`, all that follow `begin`. */
  function Pulled(s: seq<DListItem>, k: nat, e: nat): seq<DListItem>
    requires k < |s| && e < |s|
  {
    if k <= e then s[k..e + 1] else s[k..]
  }

  /** What stays behind: the others, or those up to `end`. */
  function Kept(s: seq<DListItem>, k: nat, e: nat): seq<DListItem>
    requires k < |s| && e < |s|
  {
    if k <= e then Without(s, k, e + 1 - k) else s[..e + 1]
  }

  /** The items between, when `end` stands before `begin`. */
  function Astray(s: seq<DListItem>, k: nat, e: nat): seq<DListItem>
    requires k < |s| && e < |s|
  {
    if k <= e then [] else s[e + 1..k]
  }

  /** Linked to each other, the last one to the first. */
  ghost predicate Circle(s: seq<DListItem>)
    reads s`next, s`prev
  {
    s != [] ==> Segment(s, s[|s| - 1], s[0])
  }

  /** What a cut leaves: two chains, and a circle that is in neither. */
  ghost predicate Parted(part: seq<DListItem>, rest: seq<DListItem>, lost: seq<DListItem>, p: object?)
    reads part`next, part`prev, part`parent, rest`next, rest`prev, rest`parent
    reads lost`next, lost`prev, lost`parent
  {
    && Chain(part) && Owned(part, null)
    && Chain(rest) && Owned(rest, p)
    && Circle(lost) && Owned(lost, p)
  }

  lemma KeptElements(s: seq<DListItem>, k: nat, e: nat)
    requires k < |s| && e < |s|
    ensures |Kept(s, k, e)| == if k <= e then |s| - (e + 1 - k) else e + 1
    ensures forall i {:trigger Kept(s, k, e)[i]} :: 0 <= i < |Kept(s, k, e)| ==>
      Kept(s, k, e)[i] == if i < k then s[i] else s[i + (e + 1 - k)]
  {
  }

  lemma PartElements(s: seq<DListItem>, k: nat, e: nat)
    requires k < |s| && e < |s|
    ensures var part, rest, lost := Pulled(s, k, e), Kept(s, k, e), Astray(s, k, e);
      && |part| == (if k <= e then e + 1 else |s|) - k
      && |rest| == (if k <= e then |s| - (e + 1 - k) else e + 1)
      && |lost| == (if k <= e then 0 else k - e - 1)
      && (forall i :: 0 <= i < |part| ==> part[i] == s[k + i])
      && (forall i {:trigger rest[i]} :: 0 <= i < |rest| ==> rest[i] == if i < k then s[i] else s[i + (e + 1 - k)])
      && (forall i :: 0 <= i < |lost| ==> lost[i] == s[e + 1 + i])
  {
    hide Kept;
    KeptElements(s, k, e);
  }

  lemma CutChains(s: seq<DListItem>, k: nat, e: nat)
    requires Distinct(s) && k < |s| && e < |s| && IsCut(s, k, e)
    ensures Chain(Pulled(s, k, e)) && Chain(Kept(s, k, e)) && Circle(Astray(s, k, e))
  {
    hide Pulled, Kept, Astray, Circle, Chain;
    PulledChain(s, k, e);
    KeptChain(s, k, e);
    AstrayCircle(s, k, e);
  }

  lemma PulledChain(s: seq<DListItem>, k: nat, e: nat)
    requires Distinct(s) && k < |s| && e < |s| && IsCut(s, k, e)
    ensures Chain(Pulled(s, k, e))
  {
    hide Pulled, Kept, Astray;
    PartElements(s, k, e);
  }

  lemma KeptChain(s: seq<DListItem>, k: nat, e: nat)
    requires Distinct(s) && k < |s| && e < |s| && IsCut(s, k, e)
    ensures Chain(Kept(s, k, e))
  {
    hide Pulled, Kept, Astray;
    PartElements(s, k, e);
  }

  lemma AstrayCircle(s: seq<DListItem>, k: nat, e: nat)
    requires Distinct(s) && k < |s| && e < |s| && IsCut(s, k, e)
    ensures Circle(Astray(s, k, e))
  {
    hide Pulled, Kept, Astray;
    PartElements(s, k, e);
  }

  /** The three parts share no item. */
  lemma PartsAreDisjoint(s: seq<DListItem>, k: nat, e: nat)
    requires Distinct(s) && k < |s| && e < |s|
    ensures var part, rest, lost := Pulled(s, k, e), Kept(s, k, e), Astray(s, k, e);
      && part != [] && part[0] == s[k] && |part| + |rest| + |lost| == |s|
      && Disjoint(part, rest) && Disjoint(part, lost)
      && (forall i :: 0 <= i < |part| ==> part[i] in s)
      && (forall i :: 0 <= i < |rest| ==> rest[i] in s)
      && (forall i :: 0 <= i < |lost| ==> lost[i] in s)
  {
    hide Pulled, Kept, Astray;
    PartElements(s, k, e);
  }

  lemma PartsOwned(s: seq<DListItem>, k: nat, e: nat, p: object?)
    requires k < |s| && e < |s| && Owned(s, p)
    ensures Owned(Pulled(s, k, e), p) && Owned(Kept(s, k, e), p) && Owned(Astray(s, k, e), p)
  {
  }

  /** `DListItem_pull_out_count`: see `TakesTheRange` for what it takes out. */
  method PullOutCount(item: DListItem?, count: SizeT, ghost s: seq<DListItem>, ghost k: nat)
    returns (pulled: DListItem?, neighbour: DListItem?)
    requires Stands(item, s, k)
    requires item != null ==> Owned(s, item.parent)
    modifies s`next, s`prev, s`parent
    ensures item == null || count == 0 ==> pulled == null && neighbour == item
    ensures item == null || count == 0 ==>
      forall i :: 0 <= i < |s| ==>
        s[i].next == old(s[i].next) && s[i].prev == old(s[i].prev) && s[i].parent == old(s[i].parent)
    ensures item != null && count > 0 ==>
      var e := LastOfRange(|s|, k, count);
      && pulled == item
      && neighbour == (if k > 0 then s[k - 1] else ItemAt(s, e + 1))
      && Parted(Pulled(s, k, e), Kept(s, k, e), Astray(s, k, e), old(item.parent))
  {
    if item == null || count == 0 {
      return null, item;
    }
    pulled, neighbour := PullOutSome(item, count, s, k, LastOfRange(|s|, k, count));
  }

  /** At least one item. */
  method PullOutSome(item: DListItem, count: SizeT, ghost s: seq<DListItem>, ghost k: nat, ghost e: nat)
    returns (pulled: DListItem, neighbour: DListItem?)
    requires Stands(item, s, k) && Owned(s, item.parent)
    requires 0 < count && e == LastOfRange(|s|, k, count)
    modifies s`next, s`prev, s`parent
    ensures pulled == item
    ensures neighbour == if k > 0 then s[k - 1] else ItemAt(s, e + 1)
    ensures Parted(Pulled(s, k, e), Kept(s, k, e), Astray(s, k, e), old(item.parent))
  {
    pulled := item;
    var end, _ := GetByRelativeIndex(item, ToLong(count - 1), s, k);
    if item.prev != null {
      neighbour := item.prev;
    } else {
      neighbour := end.next;
    }
    hide Owned, IsCut, Parted, Pulled, Kept, Astray;
    CutParts(pulled, end, s, k, e);
  }

  /** The cut, and the parent of what is taken out. */
  method CutParts(begin: DListItem, end: DListItem, ghost s: seq<DListItem>, ghost k: nat, ghost e: nat)
    requires Stands(begin, s, k) && Stands(end, s, e) && Owned(s, begin.parent)
    modifies s`next, s`prev, s`parent
    ensures Parted(Pulled(s, k, e), Kept(s, k, e), Astray(s, k, e), old(begin.parent))
  {
    hide Chain, Owned, IsCut, Pulled, Kept, Astray, Disjoint, Distinct, Segment;
    ChainIsDistinct(s);
    PartsAreDisjoint(s, k, e);
    PartsOwned(s, k, e, begin.parent);
    Cut(begin, end, s, k, e);
    CutChains(s, k, e);
    Disown(begin, Pulled(s, k, e), Kept(s, k, e), Astray(s, k, e), begin.parent);
  }

  lemma ChainIsDistinct(s: seq<DListItem>)
    requires Chain(s)
    ensures Distinct(s)
  {
  }

  /** The part has no parent any more; the others keep theirs. */
  method Disown(begin: DListItem, ghost part: seq<DListItem>, ghost rest: seq<DListItem>,
                ghost lost: seq<DListItem>, ghost p: object?)
    requires part != [] && part[0] == begin && Chain(part) && Owned(part, begin.parent)
    requires Disjoint(part, rest) && Disjoint(part, lost) && Owned(rest, p) && Owned(lost, p)
    requires Chain(rest) && Circle(lost)
    modifies part`parent
    ensures Parted(part, rest, lost, p)
  {
    hide Chain, Circle;
    SetListParent(begin, null, part, 0);
  }

  /** A list is taken to have no more items than a `long` can count, as nodes that
    exist at the same time do. Then the documented range, and nothing else, is taken
    out exactly when the count does not turn negative, the range starts at the second
    item, or there is one item only. Otherwise a range from the first item takes
    that item alone; one from further behind takes all that follow, and leaves items
    that are in neither chain. */
  lemma TakesTheRange(s: seq<DListItem>, k: nat, count: SizeT)
    requires k < |s| <= LONG_MAX && 0 < count
    ensures var e := LastOfRange(|s|, k, count);
      && (Pulled(s, k, e) == s[k..k + Min(count, |s| - k)] && Astray(s, k, e) == []
          <==> count <= LONG_MAX + 1 || k == 1 || |s| == 1)
      && (count <= LONG_MAX + 1 ==> k <= e && e + 1 - k == Min(count, |s| - k))
      && (count > LONG_MAX + 1 && k == 0 ==> Pulled(s, k, e) == s[..1])
      && (count > LONG_MAX + 1 && k > 0 ==> Pulled(s, k, e) == s[k..])
      && (count > LONG_MAX + 1 && k > 1 ==> Astray(s, k, e) != [] && Kept(s, k, e) == s[..e + 1])
      && (count > LONG_MAX + 1 ==> e == Max(0, k + count - 1 - WORD))
  {
    var e := LastOfRange(|s|, k, count);
    if count > LONG_MAX + 1 && k == 0 && |s| > 1 {
      assert |Pulled(s, k, e)| == 1 && |s[k..k + Min(count, |s| - k)]| > 1;
    }
  }

  /** `delDListItem`: the item leaves its chain and is freed; the pointer to it is
    moved to a neighbour. */
  method Delete(item: DListItem, ghost s: seq<DListItem>, ghost k: nat)
    returns (neighbour: DListItem?)
    requires Stands(item, s, k)
    modifies s`next, s`prev
    ensures neighbour == if k > 0 then s[k - 1] else ItemAt(s, 1)
    ensures Chain(Without(s, k, 1))
  {
    if item.prev != null {
      neighbour := item.prev;
    } else {
      neighbour := item.next;
    }
    Unlink(item, item, s, k, 1, Without(s, k, 1));
  }

  // ---------- Moving ----------

  /** "Remove the item at `from`, insert it again at `to`." */
  function Moved(s: seq<DListItem>, from: nat, to: nat): seq<DListItem>
    requires from < |s| && to < |s|
  {
    Spliced(Without(s, from, 1), to, [s[from]])
  }

  lemma MovedNowhere(s: seq<DListItem>, k: nat)
    requires k < |s|
    ensures Moved(s, k, k) == s
  {
  }

  /** A move keeps the order of all other items, and moving back undoes it. */
  lemma MovedBack(s: seq<DListItem>, from: nat, to: nat)
    requires from < |s| && to < |s|
    ensures |Moved(s, from, to)| == |s| && Moved(s, from, to)[to] == s[from]
    ensures Without(Moved(s, from, to), to, 1) == Without(s, from, 1)
    ensures Moved(Moved(s, from, to), to, from) == s
  {
    var rest := Without(s, from, 1);
    assert Without(Moved(s, from, to), to, 1) == rest;
    assert s == Spliced(rest, from, [s[from]]);
  }

  /** A move keeps the items. */
  lemma MovedKeepsTheItems(s: seq<DListItem>, from: nat, to: nat)
    requires from < |s| && to < |s|
    ensures multiset(Moved(s, from, to)) == multiset(s)
  {
    var rest := Without(s, from, 1);
    assert s == Spliced(rest, from, [s[from]]);
    SplicedItems(rest, from, [s[from]]);
    SplicedItems(rest, to, [s[from]]);
  }

  lemma SplicedItems(a: seq<DListItem>, k: nat, b: seq<DListItem>)
    requires k <= |a|
    ensures multiset(Spliced(a, k, b)) == multiset(a) + multiset(b)
  {
    assert a == a[..k] + a[k..];
  }

  /** The pointer updates of a move towards the end. */
  method PlaceAfter(item: DListItem, to: DListItem, ghost rest: seq<DListItem>, ghost t: nat,
                  ghost out: seq<DListItem>)
    requires t < |rest| && Stands(to, rest, t) && item !in rest && out == Spliced(rest, t + 1, [item])
    modifies item`next, item`prev, to`next, rest`prev
    ensures Chain(out)
  {
    assert out[t] == to && out[t + 1] == item;
    assert t + 1 < |rest| ==> out[t + 2] == rest[t + 1];
    item.prev := to;
    item.next := to.next;
    to.next := item;
    if item.next != null {
      item.next.prev := item;
    }
  }

  /** The pointer updates of a move towards the start. */
  method PlaceBefore(item: DListItem, to: DListItem, ghost rest: seq<DListItem>, ghost t: nat,
                  ghost out: seq<DListItem>)
    requires t < |rest| && Stands(to, rest, t) && item !in rest && out == Spliced(rest, t, [item])
    modifies item`next, item`prev, to`prev, rest`next
    ensures Chain(out)
  {
    assert out[t] == item && out[t + 1] == to;
    assert t > 0 ==> out[t - 1] == rest[t - 1];
    item.prev := to.prev;
    item.next := to;
    to.prev := item;
    if item.prev != null {
      item.prev.next := item;
    }
  }

  /** `DListItem_move`, adjacent items included. A target beyond the end means the
    end; the index returned is the one the item really has. */
  method Move(list: DListItem?, fromIndex: nat, toIndex: nat, ghost s: seq<DListItem>, ghost k: nat)
    returns (r: int)
    requires Stands(list, s, k)
    requires fromIndex <= LONG_MAX && toIndex <= LONG_MAX
    modifies s`next, s`prev
    ensures list == null ==> r == ALIB_BAD_ARG
    ensures list != null && fromIndex == toIndex ==> r == fromIndex && Chain(s)
    ensures list != null && fromIndex != toIndex ==>
      if fromIndex >= |s| then
        r == ALIB_BAD_INDEX && Chain(s)
      else
        r == Clamp(toIndex, |s|) && Chain(Moved(s, fromIndex, Clamp(toIndex, |s|)))
  {
    if list == null {
      return ALIB_BAD_ARG;
    }
    if fromIndex == toIndex {
      return fromIndex;
    }
    var from, to: DListItem, exceeded: int;
    ghost var t := Clamp(toIndex, |s|);
    r := toIndex;
    if fromIndex < toIndex {
      from, exceeded := Get(list, fromIndex, s, k);
      if exceeded != 0 {
        return ALIB_BAD_INDEX;
      }
      to, exceeded := GetByRelativeIndex(from, toIndex - fromIndex, s, fromIndex);
      if from != to {
        MoveLinks(from, to, true, s, fromIndex, t);
        r := r - exceeded;
      } else {
        MovedNowhere(s, fromIndex);
        r := fromIndex;
      }
    } else {
      to, exceeded := Get(list, toIndex, s, k);
      if exceeded != 0 {
        return ALIB_BAD_INDEX;
      }
      from, exceeded := GetByRelativeIndex(to, fromIndex - toIndex, s, toIndex);
      if exceeded != 0 {
        return ALIB_BAD_INDEX;
      }
      if from != to {
        MoveLinks(from, to, false, s, fromIndex, t);
      } else {
        r := fromIndex;
      }
    }
  }

  /** Take `from` out and put it after, or before, `to`. */
  method MoveLinks(from: DListItem, to: DListItem, after: bool,
                   ghost s: seq<DListItem>, ghost f: nat, ghost t: nat)
    requires f < |s| && t < |s| && Stands(from, s, f) && Stands(to, s, t)
    requires if after then f < t else t < f
    modifies s`next, s`prev
    ensures Chain(Moved(s, f, t))
  {
    ghost var rest := Without(s, f, 1);
    assert from !in rest;
    assert to == if after then rest[t - 1] else rest[t];
    assert forall x :: x in rest ==> x in s;
    assert Moved(s, f, t) == Spliced(rest, t, [from]);
    Unlink(from, from, s, f, 1, rest);
    assert |rest| == |s| - 1;
    hide Chain, Spliced, Without, Moved;
    if after {
      PlaceAfter(from, to, rest, t - 1, Moved(s, f, t));
    } else {
      PlaceBefore(from, to, rest, t, Moved(s, f, t));
    }
  }
}
