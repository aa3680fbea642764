/** The slot arrays of source/ArrayList.c on values: some slots hold an item, the
  others are null. */
module SlotSeq {
  import opened Memory

  /** The items, in the order of their slots. */
  function Items(s: seq<object?>): (r: seq<object>)
    ensures |r| <= |s|
  {
    if s == [] then []
    else (if s[0] == null then [] else [s[0]]) + Items(s[1..])
  }

  function Nulls(n: nat): (r: seq<object?>)
    ensures |r| == n && forall i :: 0 <= i < n ==> r[i] == null
  {
    seq(n, _ => null)
  }

  /** The first empty slot, or the length when there is none. */
  function FirstNull(s: seq<object?>): (r: nat)
    ensures r <= |s| && (r < |s| ==> s[r] == null)
    ensures forall i :: 0 <= i < r ==> s[i] != null
  {
    if s == [] || s[0] == null then 0 else 1 + FirstNull(s[1..])
  }

  /** The first slot that holds `item`, or the length when there is none. */
  function FirstOf(s: seq<object?>, item: object?): (r: nat)
    ensures r <= |s| && (r < |s| ==> s[r] == item)
    ensures forall i :: 0 <= i < r ==> s[i] != item
  {
    if s == [] || s[0] == item then 0 else 1 + FirstOf(s[1..], item)
  }

  // ---------- Laws of Items ----------

  lemma {:induction false} ItemsConcat(a: seq<object?>, b: seq<object?>)
    ensures Items(a + b) == Items(a) + Items(b)
    decreases |a|
  {
    if a == [] {
      assert a + b == b;
    } else {
      var head := if a[0] == null then [] else [a[0]];
      assert (a + b)[1..] == a[1..] + b && (a + b)[0] == a[0];
      ItemsConcat(a[1..], b);
      assert head + (Items(a[1..]) + Items(b)) == (head + Items(a[1..])) + Items(b);
    }
  }

  lemma {:induction false} ItemsOfNulls(n: nat)
    ensures Items(Nulls(n)) == []
    decreases n
  {
    if n > 0 {
      assert Nulls(n)[1..] == Nulls(n - 1);
      ItemsOfNulls(n - 1);
    }
  }

  /** Full slots are their own items. */
  lemma {:induction false} ItemsOfFull(s: seq<object?>)
    requires forall i :: 0 <= i < |s| ==> s[i] != null
    ensures Items(s) == s
    decreases |s|
  {
    if s != [] {
      ItemsOfFull(s[1..]);
    }
  }

  /** There is an item for every slot exactly when no slot is empty. */
  lemma {:induction false} FullIffAsManyItems(s: seq<object?>)
    ensures |Items(s)| == |s| <==> FirstNull(s) == |s|
    decreases |s|
  {
    if s != [] {
      FullIffAsManyItems(s[1..]);
    }
  }

  /** Passing one slot of a scan. */
  lemma ItemsStep(s: seq<object?>, i: nat)
    requires i < |s|
    ensures Items(s[i..]) == (if s[i] == null then [] else [s[i]]) + Items(s[i + 1..])
  {
    assert s[i..][1..] == s[i + 1..];
  }

  /** Changing one slot. */
  lemma ItemsUpdate(s: seq<object?>, i: nat, x: object?)
    requires i < |s|
    ensures Items(s[i := x])
         == Items(s[..i]) + (if x == null then [] else [x]) + Items(s[i + 1..])
  {
    var t := s[i := x];
    assert t == s[..i] + t[i..];
    ItemsConcat(s[..i], t[i..]);
    ItemsStep(t, i);
    assert t[i + 1..] == s[i + 1..];
  }

  /** The items as a multiset: that of the slots without the nulls. */
  lemma {:induction false} ItemsAsMultiset(s: seq<object?>)
    ensures forall x: object :: multiset(Items(s))[x] == multiset(s)[x]
    decreases |s|
  {
    if s != [] {
      ItemsAsMultiset(s[1..]);
      assert s == [s[0]] + s[1..];
    }
  }

  lemma SameSize(a: seq<object>, b: seq<object>)
    requires forall x: object :: multiset(a)[x] == multiset(b)[x]
    ensures multiset(a) == multiset(b) && |a| == |b|
  {
    assert multiset(a) == multiset(b);
    assert |a| == |multiset(a)| && |b| == |multiset(b)|;
  }

  /** The same slots in some order. */
  ghost predicate Permuted(s: seq<object?>, t: seq<object?>) {
    multiset(s) == multiset(t)
  }

  /** The same items in some order. */
  ghost predicate SameItems(s: seq<object?>, t: seq<object?>) {
    multiset(Items(s)) == multiset(Items(t))
  }

  /** Permuting the slots keeps the items. */
  lemma PermutedItems(s: seq<object?>, t: seq<object?>)
    requires Permuted(s, t)
    ensures SameItems(s, t) && |Items(s)| == |Items(t)|
  {
    ItemsAsMultiset(s);
    ItemsAsMultiset(t);
    hide Items;
    SameSize(Items(s), Items(t));
  }

  /** The first `k` slots are full: so many items are in front. */
  lemma ItemsInFront(s: seq<object?>, k: nat)
    requires k <= |s| && forall i :: 0 <= i < k ==> s[i] != null
    ensures |Items(s)| == k + |Items(s[k..])|
    ensures Items(s[k..]) == [] ==> s == Padded(Items(s), |s|)
  {
    assert s == s[..k] + s[k..];
    ItemsConcat(s[..k], s[k..]);
    ItemsOfFull(s[..k]);
    if Items(s[k..]) == [] {
      NoItems(s[k..]);
      assert s[..k] + [] == s[..k];
    }
  }

  lemma {:induction false} NoItems(s: seq<object?>)
    ensures Items(s) == [] <==> s == Nulls(|s|)
    decreases |s|
  {
    if s != [] {
      NoItems(s[1..]);
      assert Nulls(|s|)[1..] == Nulls(|s| - 1);
      assert s == [s[0]] + s[1..];
    }
  }

  // ---------- The operations ----------

  function Padded(s: seq<object?>, n: nat): seq<object?>
    requires |s| <= n
  {
    s + Nulls(n - |s|)
  }

  /** The capacity `ArrayList_expand` asks for. */
  function ExpandedCap(cap: SizeT, maxCap: SizeT): (r: SizeT)
    ensures cap <= r
  {
    if cap == 0 then 1
    else if cap >= maxCap then cap
    else if maxCap - cap < cap then maxCap
    else cap * 2
  }

  /** It is twice the capacity, or the maximum if that is less; an empty list asks for
    one slot, and a list at its maximum or beyond for no more. */
  lemma ExpansionDoubles(cap: SizeT, maxCap: SizeT)
    ensures 0 < cap < maxCap ==> ExpandedCap(cap, maxCap) == Min(2 * cap, maxCap)
    ensures cap == 0 ==> ExpandedCap(cap, maxCap) == 1
    ensures 0 < cap && maxCap <= cap ==> ExpandedCap(cap, maxCap) == cap
  {
  }

  /** `ArrayList_resize`: what the slots become. */
  function Resized(s: seq<object?>, newCap: nat, maxCap: nat): seq<object?> {
    if newCap == |s| then s
    else if s == [] then Nulls(Min(newCap, maxCap))
    else if newCap == 0 then []
    else if newCap < |s| then Padded(Take(Items(s), newCap), newCap)
    else Padded(s, newCap)
  }

  /** `ArrayList_resize`: the items that no longer fit, and are freed. */
  function CutOff(s: seq<object?>, newCap: nat): seq<object> {
    if 0 < newCap < |s| then Items(s)[Min(newCap, |Items(s)|)..] else []
  }

  /** `ArrayList_add`: the item goes into the first empty slot, or behind the
    others when there is none and the list may still grow. */
  function Added(s: seq<object?>, item: object, maxCap: SizeT): seq<object?> {
    if FirstNull(s) < |s| then
      s[FirstNull(s) := item]
    else if |s| < maxCap then
      Padded(s, ExpandedCap(|s|, maxCap))[|s| := item]
    else
      s
  }

  /** `ArrayList_remove`. */
  function Removed(s: seq<object?>, item: object): seq<object?> {
    if FirstOf(s, item) < |s| then s[FirstOf(s, item) := null] else s
  }

  /** A resize to a positive capacity keeps the first items, in order, and cuts
    off the others; a resize to zero keeps none and cuts off none. */
  lemma ResizedItems(s: seq<object?>, newCap: nat, maxCap: nat)
    ensures newCap > 0 ==>
      && Items(Resized(s, newCap, maxCap)) == Take(Items(s), newCap)
      && Items(Resized(s, newCap, maxCap)) + CutOff(s, newCap) == Items(s)
    ensures newCap == 0 ==> Items(Resized(s, newCap, maxCap)) == [] == CutOff(s, newCap)
  {
    if s == [] {
      ItemsOfNulls(Min(newCap, maxCap));
    } else if 0 < newCap < |s| {
      PaddedItems(Take(Items(s), newCap), newCap);
      ItemsOfFull(Take(Items(s), newCap));
      hide Items;
      assert Take(Items(s), newCap) + CutOff(s, newCap) == Items(s);
    } else if newCap >= |s| {
      PaddedItems(s, newCap);
      hide Items;
      assert newCap == |s| ==> Padded(s, newCap) == s;
      assert Take(Items(s), newCap) == Items(s) && CutOff(s, newCap) == [];
    }
  }

  /** Where the items are after a resize: in the first slots of a smaller list, and
    where they were in a larger one. */
  lemma ResizedSlots(s: seq<object?>, newCap: SizeT, maxCap: SizeT)
    ensures var r := Resized(s, newCap, maxCap);
      && |r| == (if s == [] && newCap > 0 then Min(newCap, maxCap) else newCap)
      && (newCap >= |s| ==> s <= r && forall i :: |s| <= i < |r| ==> r[i] == null)
      && (newCap < |s| ==>
        forall i :: 0 <= i < |r| ==> r[i] == if i < |Items(s)| then Items(s)[i] else null)
  {
    hide Items;
  }

  /** An addition changes one slot, the first empty one. */
  lemma AddedSlots(s: seq<object?>, item: object, maxCap: SizeT)
    ensures var r, k := Added(s, item, maxCap), FirstNull(s);
      && |r| == (if k == |s| < maxCap then if k == 0 then 1 else Min(2 * k, maxCap) else |s|)
      && (k < |r| ==> r[k] == item)
      && forall i :: 0 <= i < |r| && i != k ==> r[i] == if i < |s| then s[i] else null
  {
    if |s| < maxCap {
      ExpansionDoubles(|s|, maxCap);
    }
  }

  /** A removal empties one slot, the first that holds the item. */
  lemma RemovedSlots(s: seq<object?>, item: object)
    ensures var r, k := Removed(s, item), FirstOf(s, item);
      && |r| == |s| && (k < |s| ==> s[k] == item && r[k] == null)
      && (forall i :: 0 <= i < k ==> s[i] != item)
      && forall i :: 0 <= i < |s| && i != k ==> r[i] == s[i]
  {
  }

  /** More empty slots do not change the items. */
  lemma PaddedItems(s: seq<object?>, n: nat)
    requires |s| <= n
    ensures Items(Padded(s, n)) == Items(s)
  {
    var tail, all := Nulls(n - |s|), Padded(s, n);
    ItemsOfNulls(n - |s|);
    ItemsConcat(s, tail);
    hide *;
    assert Items(all) == Items(s) + [];
  }

  /** Before the first empty slot there is an item in every slot. */
  lemma ItemsAroundFirstNull(s: seq<object?>)
    ensures var i := FirstNull(s);
      && |Items(s[..i])| == i
      && Items(s) == Items(s[..i]) + Items(s[i..])
      && Items(s[i..]) == if i < |s| then Items(s[i + 1..]) else []
  {
    assert Items([]) == [];
    hide Items;
    var i := FirstNull(s);
    hide FirstNull;
    assert s == s[..i] + s[i..];
    ItemsConcat(s[..i], s[i..]);
    ItemsOfFull(s[..i]);
    if i < |s| {
      ItemsStep(s, i);
    } else {
      assert s[i..] == [];
    }
  }

  /** An addition adds the item, between the others or after them. */
  lemma AddedItems(s: seq<object?>, item: object, maxCap: SizeT)
    requires FirstNull(s) < |s| || |s| < maxCap
    ensures var i := FirstNull(s);
      && i <= |Items(s)|
      && Items(Added(s, item, maxCap)) == Items(s)[..i] + [item] + Items(s)[i..]
  {
    ItemsAroundFirstNull(s);
    var i := FirstNull(s);
    if i < |s| {
      hide Items;
      assert Items(s)[..i] == Items(s[..i]) && Items(s)[i..] == Items(s[i..]);
      ItemsUpdate(s, i, item);
    } else {
      assert s[..i] == s && Items(s[i..]) == [];
      hide Items;
      assert Items(s)[..i] == Items(s) && Items(s)[i..] == [];
      AddedBehind(s, item, ExpandedCap(|s|, maxCap));
    }
  }

  /** An item in the first slot behind full ones. */
  lemma AddedBehind(s: seq<object?>, item: object, n: nat)
    requires |s| < n
    ensures Items(Padded(s, n)[|s| := item]) == Items(s) + [item] + []
  {
    var t := Padded(s, n);
    ItemsUpdate(t, |s|, item);
    ItemsOfNulls(n - |s| - 1);
    hide Items;
    assert t[..|s|] == s;
    assert t[|s| + 1..] == Nulls(n - |s| - 1);
  }

  /** A removal removes the first occurrence of the item and nothing else. */
  lemma RemovedItems(s: seq<object?>, item: object)
    ensures item !in Items(s) ==> Removed(s, item) == s
    ensures item in Items(s) ==>
      var k := |Items(s[..FirstOf(s, item)])|;
      && k < |Items(s)| && Items(s)[k] == item && item !in Items(s)[..k]
      && Items(Removed(s, item)) == Items(s)[..k] + Items(s)[k + 1..]
  {
    hide Items;
    var i := FirstOf(s, item);
    ItemsMembers(s, item);
    if i < |s| {
      hide FirstOf;
      ItemsUpdate(s, i, null);
      ItemsUpdate(s, i, item);
      assert s[i := item] == s;
      ItemsMembers(s[..i], item);
      CutOne(Items(s[..i]), item, Items(s[i + 1..]));
    }
  }

  lemma CutOne(a: seq<object>, x: object, b: seq<object>)
    ensures var all := a + [x] + b;
      && all[|a|] == x && all[..|a|] == a && all[|a| + 1..] == b
      && a + [] + b == a + b
  {
  }

  lemma {:induction false} ItemsMembers(s: seq<object?>, item: object)
    ensures item in Items(s) <==> item in s
    decreases |s|
  {
    if s != [] {
      ItemsMembers(s[1..], item);
      assert s == [s[0]] + s[1..];
    }
  }
}
