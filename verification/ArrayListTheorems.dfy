/** Runs of operations on an array list. */
module ArrayListTheorems {
  import opened Memory
  import opened SlotSeq

  datatype Op =
    | Add(item: object)
    | Remove(item: object)
    | RemoveNoFree(item: object)
    | Resize(newCap: SizeT)
    | Expand
    | Clear

  /** The slots, and where every item that was ever accepted has gone: freed by the
    callback, taken back by the caller, or lost: dropped by a resize to zero or
    written behind the array, which is also remembered. */
  datatype State = State(
    slots: seq<object?>,
    accepted: seq<object>,
    freed: seq<object>,
    returned: seq<object>,
    lost: seq<object>,
    overrun: bool)

  /** A full list at its maximum refuses an addition. */
  predicate Refused(s: seq<object?>, maxCap: SizeT) {
    FirstNull(s) == |s| == maxCap
  }

  /** A full list above its maximum writes behind the array, and reports success. */
  predicate Overrun(s: seq<object?>, maxCap: SizeT) {
    FirstNull(s) == |s| > maxCap
  }

  function Step(st: State, op: Op, maxCap: SizeT): State {
    match op
    case Add(item) =>
      if Refused(st.slots, maxCap) then
        st
      else if Overrun(st.slots, maxCap) then
        st.(accepted := st.accepted + [item], lost := st.lost + [item], overrun := true)
      else
        st.(slots := Added(st.slots, item, maxCap), accepted := st.accepted + [item])
    case Remove(item) =>
      st.(slots := Removed(st.slots, item),
          freed := st.freed + if item in Items(st.slots) then [item] else [])
    case RemoveNoFree(item) =>
      st.(slots := Removed(st.slots, item),
          returned := st.returned + if item in Items(st.slots) then [item] else [])
    case Resize(newCap) =>
      st.(slots := Resized(st.slots, newCap, maxCap),
          freed := st.freed + CutOff(st.slots, newCap),
          lost := st.lost + if newCap == 0 then Items(st.slots) else [])
    case Expand =>
      if |st.slots| > SIZE_MAX then
        st
      else
        st.(slots := Padded(st.slots, ExpandedCap(|st.slots|, maxCap)))
    case Clear =>
      st.(slots := Nulls(|st.slots|), freed := st.freed + Items(st.slots))
  }

  /** Nothing is said about a run after a write behind the array. */
  function Run(st: State, ops: seq<Op>, maxCap: SizeT): State
    decreases |ops|
  {
    if ops == [] || st.overrun then st else Run(Step(st, ops[0], maxCap), ops[1..], maxCap)
  }

  /** Every accepted item is in exactly one place, as often as it was accepted. */
  ghost predicate Accounted(accepted: seq<object>, here: seq<object>,
                            freed: seq<object>, returned: seq<object>, lost: seq<object>)
  {
    multiset(accepted) == multiset(here) + multiset(freed) + multiset(returned) + multiset(lost)
  }

  ghost predicate Balanced(st: State) {
    Accounted(st.accepted, Items(st.slots), st.freed, st.returned, st.lost)
  }

  /** Moving some items from one place to another keeps the account. */
  lemma InsertedItem(here: seq<object>, i: nat, x: object)
    requires i <= |here|
    ensures multiset(here[..i] + [x] + here[i..]) == multiset(here) + multiset{x}
  {
    assert here == here[..i] + here[i..];
  }

  lemma TakenItem(accepted: seq<object>, here: seq<object>, freed: seq<object>,
                  returned: seq<object>, lost: seq<object>, k: nat)
    requires k < |here| && Accounted(accepted, here, freed, returned, lost)
    ensures var rest := here[..k] + here[k + 1..];
      && Accounted(accepted, rest, freed + [here[k]], returned, lost)
      && Accounted(accepted, rest, freed, returned + [here[k]], lost)
  {
    assert here == here[..k] + [here[k]] + here[k + 1..];
    assert multiset(here) == multiset(here[..k] + here[k + 1..]) + multiset{here[k]};
    assert multiset(freed + [here[k]]) == multiset(freed) + multiset{here[k]};
    assert multiset(returned + [here[k]]) == multiset(returned) + multiset{here[k]};
  }

  lemma AcceptedItem(accepted: seq<object>, here: seq<object>, freed: seq<object>,
                     returned: seq<object>, lost: seq<object>, i: nat, x: object)
    requires i <= |here| && Accounted(accepted, here, freed, returned, lost)
    ensures Accounted(accepted + [x], here[..i] + [x] + here[i..], freed, returned, lost)
    ensures Accounted(accepted + [x], here, freed, returned, lost + [x])
  {
    InsertedItem(here, i, x);
    assert multiset(accepted + [x]) == multiset(accepted) + multiset{x};
    assert multiset(lost + [x]) == multiset(lost) + multiset{x};
  }

  lemma AddBalances(st: State, item: object, maxCap: SizeT)
    requires Balanced(st)
    ensures Balanced(Step(st, Add(item), maxCap))
  {
    var items := Items(st.slots);
    if Overrun(st.slots, maxCap) {
      AcceptedItem(st.accepted, items, st.freed, st.returned, st.lost, 0, item);
    } else if !Refused(st.slots, maxCap) {
      AddedItems(st.slots, item, maxCap);
      AcceptedItem(st.accepted, items, st.freed, st.returned, st.lost, FirstNull(st.slots), item);
    }
  }

  lemma RemoveBalances(st: State, item: object, maxCap: SizeT)
    requires Balanced(st)
    ensures Balanced(Step(st, Remove(item), maxCap))
    ensures Balanced(Step(st, RemoveNoFree(item), maxCap))
  {
    RemovedItems(st.slots, item);
    hide Accounted, SlotSeq.Removed, Items, FirstOf;
    if item in Items(st.slots) {
      var k := |Items(st.slots[..FirstOf(st.slots, item)])|;
      TakenItem(st.accepted, Items(st.slots), st.freed, st.returned, st.lost, k);
    } else {
      assert st.freed + [] == st.freed && st.returned + [] == st.returned;
    }
  }

  lemma CutItems(accepted: seq<object>, here: seq<object>, freed: seq<object>,
                 returned: seq<object>, lost: seq<object>, kept: seq<object>, cut: seq<object>)
    requires Accounted(accepted, here, freed, returned, lost) && here == kept + cut
    ensures Accounted(accepted, kept, freed + cut, returned, lost)
    ensures Accounted(accepted, kept, freed, returned, lost + cut)
  {
  }

  lemma ResizeBalances(st: State, newCap: SizeT, maxCap: SizeT)
    requires Balanced(st)
    ensures Balanced(Step(st, Resize(newCap), maxCap))
  {
    var items, next := Items(st.slots), Step(st, Resize(newCap), maxCap);
    ResizedItems(st.slots, newCap, maxCap);
    hide Items, Resized, CutOff, Accounted;
    if newCap > 0 {
      CutItems(st.accepted, items, st.freed, st.returned, st.lost, Items(next.slots), CutOff(st.slots, newCap));
      assert st.lost + [] == st.lost;
    } else {
      assert [] + items == items && st.freed + [] == st.freed;
      CutItems(st.accepted, items, st.freed, st.returned, st.lost, [], items);
    }
  }

  /** Over any run every item is accounted for. */
  lemma {:induction false} RunBalances(st: State, ops: seq<Op>, maxCap: SizeT)
    requires Balanced(st)
    ensures Balanced(Run(st, ops, maxCap))
    decreases |ops|
  {
    if ops != [] && !st.overrun {
      var op := ops[0];
      hide Balanced;
      match op {
        case Add(item) => AddBalances(st, item, maxCap);
        case Remove(item) => RemoveBalances(st, item, maxCap);
        case RemoveNoFree(item) => RemoveBalances(st, item, maxCap);
        case Resize(newCap) => ResizeBalances(st, newCap, maxCap);
        case Expand => ExpandBalances(st, maxCap);
        case Clear => ClearBalances(st, maxCap);
      }
      RunBalances(Step(st, op, maxCap), ops[1..], maxCap);
    }
  }

  lemma ExpandBalances(st: State, maxCap: SizeT)
    requires Balanced(st)
    ensures Balanced(Step(st, Expand, maxCap))
  {
    if |st.slots| <= SIZE_MAX {
      PaddedItems(st.slots, ExpandedCap(|st.slots|, maxCap));
    }
  }

  lemma ClearBalances(st: State, maxCap: SizeT)
    requires Balanced(st)
    ensures Balanced(Step(st, Clear, maxCap))
  {
    ItemsOfNulls(|st.slots|);
    CutItems(st.accepted, Items(st.slots), st.freed, st.returned, st.lost, [], Items(st.slots));
    hide Accounted, Items;
    assert [] + Items(st.slots) == Items(st.slots);
  }

  /** A list as it is created. */
  function Start(cap: nat): State {
    State(Nulls(cap), [], [], [], [], false)
  }

  /** No resize to zero meets an item, and no addition meets a full list above the
    maximum. */
  predicate NeverLoses(st: State, ops: seq<Op>, maxCap: SizeT)
    decreases |ops|
  {
    ops == [] ||
    (&& (ops[0] == Resize(0) ==> Items(st.slots) == [])
     && (ops[0].Add? ==> !Overrun(st.slots, maxCap))
     && NeverLoses(Step(st, ops[0], maxCap), ops[1..], maxCap))
  }

  lemma {:induction false} RunLoses(st: State, ops: seq<Op>, maxCap: SizeT)
    ensures |Run(st, ops, maxCap).lost| >= |st.lost|
    ensures !st.overrun ==>
      (|Run(st, ops, maxCap).lost| == |st.lost| <==> NeverLoses(st, ops, maxCap))
    decreases |ops|
  {
    if ops != [] && !st.overrun {
      hide Items, Added, SlotSeq.Removed, Resized, CutOff, FirstNull;
      RunLoses(Step(st, ops[0], maxCap), ops[1..], maxCap);
    }
  }

  /** From its creation on, every item a list accepts is still in it, was freed once
    or was taken back once: in exactly those runs in which no resize to zero meets
    an item and no addition meets a full list above its maximum. */
  lemma Conservation(cap: nat, ops: seq<Op>, maxCap: SizeT)
    ensures var r := Run(Start(cap), ops, maxCap);
      Accounted(r.accepted, Items(r.slots), r.freed, r.returned, [])
      <==> NeverLoses(Start(cap), ops, maxCap)
  {
    ItemsOfNulls(cap);
    RunBalances(Start(cap), ops, maxCap);
    RunLoses(Start(cap), ops, maxCap);
    var r := Run(Start(cap), ops, maxCap);
    hide Run, NeverLoses, Items;
    SameAccount(r.accepted, Items(r.slots), r.freed, r.returned, r.lost);
  }

  lemma SameAccount(a: seq<object>, here: seq<object>, freed: seq<object>,
                    returned: seq<object>, lost: seq<object>)
    requires Accounted(a, here, freed, returned, lost)
    ensures Accounted(a, here, freed, returned, []) <==> lost == []
  {
    if lost != [] {
      var x := lost[0];
      assert multiset(lost)[x] > 0;
      assert multiset(a)[x] != (multiset(here) + multiset(freed) + multiset(returned))[x];
    }
  }

  lemma RunStep(st: State, op: Op, rest: seq<Op>, maxCap: SizeT)
    requires !st.overrun
    ensures Run(st, [op] + rest, maxCap) == Run(Step(st, op, maxCap), rest, maxCap)
  {
    assert ([op] + rest)[0] == op && ([op] + rest)[1..] == rest;
  }

  /** The steps of the example below. */
  lemma ResizeOne()
    ensures Step(Start(1), Resize(2), 1) == State([null, null], [], [], [], [], false)
  {
    ItemsOfNulls(1);
    assert Padded(Nulls(1), 2) == [null, null];
  }

  lemma FillTheFirstSlot(a: object)
    ensures Step(State([null, null], [], [], [], [], false), Add(a), 1)
         == State([a, null], [a], [], [], [], false)
  {
    var s: seq<object?> := [null, null];
    assert FirstNull(s) == 0 && s[0 := a] == [a, null];
  }

  lemma FillTheSecondSlot(a: object, b: object)
    ensures Step(State([a, null], [a], [], [], [], false), Add(b), 1)
         == State([a, b], [a, b], [], [], [], false)
  {
    var s: seq<object?> := [a, null];
    assert s[1..] == [null] && FirstNull(s[1..]) == 0 && FirstNull(s) == 1;
    assert s[1 := b] == [a, b] && [a] + [b] == [a, b];
  }

  lemma OverrunBothSlots(a: object, b: object, c: object)
    ensures Step(State([a, b], [a, b], [], [], [], false), Add(c), 1)
         == State([a, b], [a, b, c], [], [], [c], true)
    ensures Items([a, b]) == [a, b]
  {
    var s: seq<object?> := [a, b];
    ItemsOfFull(s);
    FullIffAsManyItems(s);
    assert [a, b] + [c] == [a, b, c] && [] + [c] == [c];
  }

  /** A maximum of 1 does not save a list from a resize to 2: the third item is
    accepted and lost. */
  lemma OverrunHappens(a: object, b: object, c: object)
    ensures var r := Run(Start(1), [Resize(2)] + ([Add(a)] + ([Add(b)] + ([Add(c)] + []))), 1);
      r.overrun && r.accepted == [a, b, c] && Items(r.slots) == [a, b] && r.lost == [c]
  {
    ResizeOne();
    FillTheFirstSlot(a);
    FillTheSecondSlot(a, b);
    OverrunBothSlots(a, b, c);
    var rest := [Add(c)] + [];
    hide Step, Items;
    RunStep(Start(1), Resize(2), [Add(a)] + ([Add(b)] + rest), 1);
    RunStep(Step(Start(1), Resize(2), 1), Add(a), [Add(b)] + rest, 1);
    RunStep(State([a, null], [a], [], [], [], false), Add(b), rest, 1);
    RunStep(State([a, b], [a, b], [], [], [], false), Add(c), [], 1);
  }

  /** The capacity stays within the maximum as long as no resize asks for more. */
  predicate Modest(ops: seq<Op>, maxCap: SizeT) {
    forall i :: 0 <= i < |ops| ==> ops[i].Resize? ==> ops[i].newCap <= maxCap
  }

  /** Then no addition overruns the array either. */
  lemma {:induction false} RunStaysWithinMaximum(st: State, ops: seq<Op>, maxCap: SizeT)
    requires 0 < maxCap && |st.slots| <= maxCap && Modest(ops, maxCap) && !st.overrun
    ensures |Run(st, ops, maxCap).slots| <= maxCap && !Run(st, ops, maxCap).overrun
    decreases |ops|
  {
    if ops != [] {
      var next := Step(st, ops[0], maxCap);
      assert |next.slots| <= maxCap && !next.overrun by {
        hide Items, FirstNull;
      }
      RunStaysWithinMaximum(next, ops[1..], maxCap);
    }
  }

  // ---------- The price of growing ----------

  /** The slots that an operation copies: all of them when the list grows. */
  function Copied(before: seq<object?>, after: seq<object?>): nat {
    if |before| < |after| then |before| else 0
  }

  function CopiedByRun(st: State, ops: seq<Op>, maxCap: SizeT): nat
    decreases |ops|
  {
    if ops == [] || st.overrun then 0
    else
      var next := Step(st, ops[0], maxCap);
      Copied(st.slots, next.slots) + CopiedByRun(next, ops[1..], maxCap)
  }

  predicate OnlyAdditions(ops: seq<Op>) {
    forall i :: 0 <= i < |ops| ==> ops[i].Add?
  }

  /** An addition grows a full list below its maximum, to twice its capacity, and no
    other. */
  lemma AdditionGrows(st: State, item: object, maxCap: SizeT)
    requires !st.overrun
    ensures var r := Step(st, Add(item), maxCap);
      && (r.overrun ==> |r.slots| == |st.slots|)
      && |Items(r.slots)| <= |Items(st.slots)| + 1
      && |r.slots| ==
        (if |Items(st.slots)| < |st.slots| || |st.slots| >= maxCap then |st.slots|
         else if st.slots == [] then 1
         else Min(2 * |st.slots|, maxCap))
  {
    hide Items, Added, FirstNull;
    FullIffAsManyItems(st.slots);
    if !Refused(st.slots, maxCap) && !Overrun(st.slots, maxCap) {
      AddedItems(st.slots, item, maxCap);
      AddedSlots(st.slots, item, maxCap);
    }
  }

  /** The items that a list would hold if it accepted all additions bound the slots it
    copies, and are at most those of the start and one more for each addition. */
  lemma {:induction false} AdditionsCopyLittle(st: State, ops: seq<Op>, maxCap: SizeT, n: nat)
    requires OnlyAdditions(ops) && |Items(st.slots)| + |ops| <= n
    ensures CopiedByRun(st, ops, maxCap) <= if |st.slots| < n && |st.slots| < maxCap then 2 * n - |st.slots| else 0
    decreases |ops|
  {
    if ops != [] && !st.overrun {
      hide Items, Step;
      var next := Step(st, ops[0], maxCap);
      AdditionGrows(st, ops[0].item, maxCap);
      AdditionsCopyLittle(next, ops[1..], maxCap, n);
    }
  }

  /** Additions are cheap in the long run: `n` of them copy at most two slots each, and
    two for each item that was there. */
  lemma AdditionsAreCheap(st: State, ops: seq<Op>, maxCap: SizeT)
    requires OnlyAdditions(ops)
    ensures CopiedByRun(st, ops, maxCap) <= 2 * (|Items(st.slots)| + |ops|)
  {
    hide Items, CopiedByRun;
    AdditionsCopyLittle(st, ops, maxCap, |Items(st.slots)| + |ops|);
  }
}
