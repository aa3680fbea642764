/** source/MemPool.c: a pool of blocks in an array list that has no empty slot.
  Blocks are handed out and taken back; the pool doubles when all are out. */
module MemPools {
  import opened AlibErrors
  import opened Memory
  import opened SlotSeq
  import opened ArrayLists

  // ---------- The pool as a sequence of flags: which blocks are reserved ----------

  /** The first block that is free, or the number of blocks. */
  function FirstFree(flags: seq<bool>): (r: nat)
    ensures r <= |flags| && (r < |flags| ==> !flags[r])
    ensures forall i :: 0 <= i < r ==> flags[i]
  {
    if flags == [] || !flags[0] then 0 else 1 + FirstFree(flags[1..])
  }

  function CountReserved(flags: seq<bool>): (r: nat)
    ensures r <= |flags|
  {
    if flags == [] then 0 else (if flags[0] then 1 else 0) + CountReserved(flags[1..])
  }

  /** The count tells whether the scan will find a free block. */
  lemma {:induction false} AllReserved(flags: seq<bool>)
    ensures CountReserved(flags) == |flags| <==> FirstFree(flags) == |flags|
    decreases |flags|
  {
    if flags != [] {
      AllReserved(flags[1..]);
    }
  }

  function AllFree(n: nat): (r: seq<bool>)
    ensures |r| == n && forall i :: 0 <= i < n ==> !r[i]
  {
    seq(n, _ => false)
  }

  /** Twice the capacity, as far as a `size_t` goes. */
  function Doubled(cap: SizeT): SizeT {
    if cap * 2 <= SIZE_MAX then cap * 2 else SIZE_MAX
  }

  /** The source doubles in wrapping arithmetic, and corrects a sum that wrapped. */
  lemma WrapDoubles(cap: SizeT)
    ensures var n := (cap * 2) % WORD; Doubled(cap) == if n < cap then SIZE_MAX else n
    ensures cap <= Doubled(cap) && Doubled(0) == 0
  {
  }

  /** The capacities at which the pool cannot grow. */
  predicate Stuck(cap: SizeT, maxCap: SizeT) {
    cap == maxCap || Doubled(cap) == cap
  }

  /** A pool is stuck at its maximum, with no block, and at the largest capacity. Beyond
    its maximum it is not. */
  lemma StuckInWords(cap: SizeT, maxCap: SizeT)
    ensures Stuck(cap, maxCap) <==> cap == maxCap || cap == 0 || cap == SIZE_MAX
    ensures Doubled(cap) == Min(2 * cap, SIZE_MAX)
  {
  }

  /** The blocks once `MemPool_reserve_block` has made room, if it can. Nothing
    holds the growth below the maximum. */
  function Widened(flags: seq<bool>, maxCap: SizeT): seq<bool>
    requires |flags| <= SIZE_MAX
  {
    if FirstFree(flags) < |flags| || Stuck(|flags|, maxCap) then
      flags
    else
      flags + AllFree(Doubled(|flags|) - |flags|)
  }

  lemma NoneMore(flags: seq<bool>)
    ensures flags + AllFree(0) == flags
  {
  }

  lemma WidenedBy(flags: seq<bool>, maxCap: SizeT)
    requires |flags| <= SIZE_MAX
    ensures FirstFree(flags) < |flags| ==> Widened(flags, maxCap) == flags
    ensures FirstFree(flags) == |flags| ==>
      var n := if Stuck(|flags|, maxCap) then 0 else Doubled(|flags|) - |flags|;
      Widened(flags, maxCap) == flags + AllFree(n)
  {
    NoneMore(flags);
  }

  /** `MemPool_reserve_block`. */
  function Reserved(flags: seq<bool>, maxCap: SizeT): seq<bool>
    requires |flags| <= SIZE_MAX
  {
    var wide, k := Widened(flags, maxCap), FirstFree(flags);
    if k < |wide| then wide[k := true] else wide
  }

  lemma {:induction false} SetFlag(flags: seq<bool>, i: nat, on: bool)
    requires i < |flags| && flags[i] != on
    ensures CountReserved(flags[i := on]) == CountReserved(flags) + if on then 1 else -1
    decreases i
  {
    if i > 0 {
      SetFlag(flags[1..], i - 1, on);
      assert flags[i := on][1..] == flags[1..][i - 1 := on];
    } else {
      assert flags[0 := on][1..] == flags[1..];
    }
  }

  lemma {:induction false} MoreFree(flags: seq<bool>, n: nat)
    ensures CountReserved(flags + AllFree(n)) == CountReserved(flags)
    ensures FirstFree(flags + AllFree(n)) == FirstFree(flags)
    decreases |flags| + n
  {
    if flags != [] {
      assert (flags + AllFree(n))[1..] == flags[1..] + AllFree(n);
      MoreFree(flags[1..], n);
    } else if n > 0 {
      assert (flags + AllFree(n))[1..] == [] + AllFree(n - 1);
      MoreFree([], n - 1);
    }
  }

  // ---------- The objects ----------

  class MemPoolBlock {
    var reservingPool: MemPool?

    constructor ()
      ensures reservingPool == null
    {
      reservingPool := null;
    }
  }

  predicate Distinct(blocks: seq<MemPoolBlock>) {
    forall i, j :: 0 <= i < j < |blocks| ==> blocks[i] != blocks[j]
  }

  /** Which of the blocks are reserved. */
  ghost function FlagsOf(blocks: seq<MemPoolBlock>): (r: seq<bool>)
    reads blocks`reservingPool
    ensures |r| == |blocks|
    ensures forall i :: 0 <= i < |blocks| ==> r[i] == (blocks[i].reservingPool != null)
  {
    if blocks == [] then [] else [blocks[0].reservingPool != null] + FlagsOf(blocks[1..])
  }

  lemma OneMoreSlot(blocks: seq<MemPoolBlock>, n: nat, b: MemPoolBlock)
    requires |blocks| < n
    ensures Padded(blocks, n)[|blocks| := b] == Padded(blocks + [b], n)
    ensures |Items(Padded(blocks, n))| == |blocks|
    ensures |Items(Padded(blocks + [b], n))| == |blocks| + 1
  {
    PaddedItems(blocks, n);
    ItemsOfFull(blocks);
    PaddedItems(blocks + [b], n);
    ItemsOfFull(blocks + [b]);
  }

  lemma EmptyPool(n: nat)
    ensures Padded([], n) == Nulls(n)
    ensures [] + AllFree(n) == AllFree(n) && CountReserved(AllFree(n)) == 0
  {
    MoreFree([], n);
    hide AllFree;
    assert [] + AllFree(n) == AllFree(n);
  }

  class MemPool {
    const slots: ArrayList
    var reservedCount: nat
    /** What the slots hold. */
    ghost var blocks: seq<MemPoolBlock>

    ghost function Flags(): (r: seq<bool>)
      reads `blocks, blocks`reservingPool
      ensures |r| == |blocks|
    {
      FlagsOf(blocks)
    }

    /** The slots hold the blocks, and the others are empty. */
    ghost predicate Holds(capacity: nat)
      reads `blocks, slots, slots.list
    {
      && slots.Valid() && slots.capacity == capacity
      && |blocks| <= capacity && slots.Slots() == Padded(blocks, capacity)
      && Distinct(blocks)
    }

    ghost predicate OwnBlocks()
      reads `blocks, blocks`reservingPool
    {
      forall i :: 0 <= i < |blocks| ==> blocks[i].reservingPool == null || blocks[i].reservingPool == this
    }

    /** Every slot holds a block of its own, the reserved ones are reserved by this
      pool, and they are `reservedCount`. */
    ghost predicate Valid()
      reads this, slots, slots.list, blocks`reservingPool
    {
      && Holds(|blocks|) && |blocks| <= SIZE_MAX
      && OwnBlocks()
      && reservedCount == CountReserved(Flags())
    }

    /** `newMemPool_ex` with a valid capacity. */
    constructor (startCap: SizeT, maxCap: SizeT)
      requires maxCap == 0 || startCap <= maxCap
      ensures Valid() && Flags() == AllFree(startCap)
      ensures slots.maxCap == if maxCap == 0 then SIZE_MAX else maxCap
    {
      hide Padded, Nulls, AllFree, CountReserved, Items;
      slots := new ArrayList(true, startCap, maxCap);
      reservedCount := 0;
      blocks := [];
      new;
      EmptyPool(startCap);
      Fill();
    }

    /** `fill_resized_memory`: blocks for the slots behind the last one. */
    method Fill()
      requires Holds(slots.capacity)
      modifies `blocks, slots`count, slots.list
      ensures Holds(|blocks|) && |blocks| == slots.capacity
      ensures old(blocks) <= blocks && (old(OwnBlocks()) ==> OwnBlocks())
      ensures forall i :: |old(blocks)| <= i < |blocks| ==> fresh(blocks[i])
      ensures Flags() == old(Flags()) + AllFree(|blocks| - |old(blocks)|)
    {
      FillSlots();
      hide Holds, FlagsOf, AllFree;
      assert Flags() == old(Flags()) + AllFree(|blocks| - |old(blocks)|);
    }

    method FillSlots()
      requires Holds(slots.capacity)
      modifies `blocks, slots`count, slots.list
      ensures Holds(|blocks|) && |blocks| == slots.capacity
      ensures old(blocks) <= blocks
      ensures forall i :: |old(blocks)| <= i < |blocks| ==>
        fresh(blocks[i]) && blocks[i].reservingPool == null
    {
      hide Items, Padded, Distinct;
      PaddedItems(blocks, slots.capacity);
      ItemsOfFull(blocks);
      var it := slots.count;
      while slots.count < slots.capacity
        invariant Holds(slots.capacity) && it == slots.count == |blocks|
        invariant old(blocks) <= blocks
        invariant forall i :: |old(blocks)| <= i < |blocks| ==>
          fresh(blocks[i]) && blocks[i].reservingPool == null
      {
        AddBlock(it);
        it := it + 1;
      }
    }

    /** A new block in the first empty slot. */
    method AddBlock(it: nat)
      requires Holds(slots.capacity) && it == slots.count == |blocks| < slots.capacity
      modifies `blocks, slots`count, slots.list
      ensures Holds(slots.capacity) && slots.count == |blocks| == |old(blocks)| + 1
      ensures old(blocks) <= blocks && fresh(blocks[it]) && blocks[it].reservingPool == null
    {
      var b := new MemPoolBlock();
      OneMoreSlot(blocks, slots.capacity, b);
      hide Items, Padded;
      slots.list[it] := b;
      slots.count := slots.count + 1;
      blocks := blocks + [b];
    }

    lemma AllHeld()
      requires Holds(|blocks|)
      ensures slots.Valid() && slots.capacity == slots.count == |blocks|
    {
      hide Items, Padded, Distinct;
      PaddedItems(blocks, |blocks|);
      ItemsOfFull(blocks);
    }

    /** `expand`. */
    method Expand() returns (err: int)
      requires Valid()
      modifies `blocks, slots, slots.list
      ensures Holds(|blocks|) && |blocks| <= SIZE_MAX
      ensures old(blocks) <= blocks && OwnBlocks()
      ensures forall i :: |old(blocks)| <= i < |blocks| ==> fresh(blocks[i])
      ensures Flags() == old(Flags()) + AllFree(|blocks| - |old(blocks)|)
      ensures err == ALIB_OK <==> |old(blocks)| != slots.maxCap && 0 < |old(blocks)| < SIZE_MAX
      ensures |blocks| == if err == ALIB_OK then Min(2 * |old(blocks)|, SIZE_MAX) else |old(blocks)|
    {
      hide FlagsOf, AllFree, CountReserved, Holds, OwnBlocks, Doubled;
      AllHeld();
      NoneMore(Flags());
      WrapDoubles(slots.capacity);
      StuckInWords(slots.capacity, slots.maxCap);
      if slots.capacity == slots.maxCap {
        return ALIB_INTERNAL_MAX_REACHED;
      }
      var newCap := (slots.capacity * 2) % WORD;
      if newCap < slots.capacity {
        newCap := SIZE_MAX;
      }
      var cap := Grow(newCap);
      if cap == slots.count {
        return ALIB_MEM_ERR;
      }
      Fill();
      err := ALIB_OK;
    }

    /** The resize in `expand`. */
    method Grow(newCap: SizeT) returns (cap: SizeT)
      requires Holds(|blocks|) && |blocks| <= newCap
      requires blocks == [] ==> newCap == 0
      modifies slots, slots.list
      ensures Holds(newCap) && cap == newCap == slots.capacity && slots.count == |blocks|
      ensures slots.list == old(slots.list) || slots.list == null || fresh(slots.list)
    {
      PaddedItems(blocks, |blocks|);
      PaddedItems(blocks, newCap);
      ItemsOfFull(blocks);
      hide Items;
      assert Padded(blocks, |blocks|) == blocks;
      cap := slots.Resize(newCap);
    }

    /** `MemPool_reserve_block`. */
    method Reserve() returns (r: MemPoolBlock?)
      requires Valid()
      modifies this, slots, slots.list, blocks`reservingPool
      ensures Valid() && Flags() == Reserved(old(Flags()), slots.maxCap)
      ensures old(blocks) <= blocks
      ensures forall i :: |old(blocks)| <= i < |blocks| ==> fresh(blocks[i])
      ensures var k := FirstFree(old(Flags()));
        r == if k < |blocks| then blocks[k] else null
    {
      hide Widened, Valid, FlagsOf, AllFree, CountReserved, Holds, OwnBlocks, Stuck;
      var err := MakeRoom();
      if err != ALIB_OK {
        return null;
      }
      r := Find();
    }

    method MakeRoom() returns (err: int)
      requires Valid()
      modifies `blocks, slots, slots.list
      ensures Valid() && Flags() == Widened(old(Flags()), slots.maxCap)
      ensures FirstFree(Flags()) == FirstFree(old(Flags()))
      ensures old(blocks) <= blocks
      ensures forall i :: |old(blocks)| <= i < |blocks| ==> fresh(blocks[i])
      ensures err != ALIB_OK ==> FirstFree(Flags()) == |blocks|
    {
      hide FlagsOf, AllFree, CountReserved, Holds, OwnBlocks, Widened, Stuck;
      ghost var flags := Flags();
      AllHeld();
      AllReserved(flags);
      WidenedBy(flags, slots.maxCap);
      StuckInWords(|flags|, slots.maxCap);
      err := ALIB_OK;
      if reservedCount == slots.capacity {
        err := Expand();
        MoreFree(flags, |blocks| - |flags|);
      }
    }

    /** The scan for the first block that is free. */
    method Find() returns (r: MemPoolBlock?)
      requires Valid()
      modifies `reservedCount, blocks`reservingPool
      ensures Valid()
      ensures var k := FirstFree(old(Flags()));
        && r == (if k < |blocks| then blocks[k] else null)
        && Flags() == if k < |blocks| then old(Flags())[k := true] else old(Flags())
    {
      ghost var flags := Flags();
      var i := 0;
      while i < slots.capacity
        invariant i <= FirstFree(flags) && Flags() == flags && Valid()
      {
        assert slots.list[i] == blocks[i];
        var block := slots.list[i] as MemPoolBlock;
        if block.reservingPool == null {
          Mark(block, i);
          return block;
        }
        i := i + 1;
      }
      r := null;
    }

    method Mark(block: MemPoolBlock, ghost i: nat)
      requires Valid() && i < |blocks| && block == blocks[i] && block.reservingPool == null
      modifies `reservedCount, block`reservingPool
      ensures Valid() && Flags() == old(Flags())[i := true]
    {
      ghost var flags := Flags();
      SetFlag(flags, i, true);
      block.reservingPool := this;
      reservedCount := reservedCount + 1;
      assert Flags() == flags[i := true];
    }

    /** `MemPool_unreserve_block`. The block leads to its pool; a block that is
      free has none, and the source follows the null pointer: then `ok` is false. */
    static method Unreserve(block: MemPoolBlock?, ghost k: nat) returns (r: MemPoolBlock?, ok: bool)
      requires block != null && block.reservingPool != null ==>
        && block.reservingPool.Valid()
        && k < |block.reservingPool.blocks| && block.reservingPool.blocks[k] == block
      modifies if block == null then {} else {block}, if block == null then null else block.reservingPool
      ensures ok <==> block == null || old(block.reservingPool) != null
      ensures ok ==> r == null
      ensures block != null && old(block.reservingPool) != null ==>
        && old(block.reservingPool).Valid()
        && old(block.reservingPool).Flags() == old(block.reservingPool.Flags())[k := false]
    {
      if block == null {
        return null, true;
      }
      if block.reservingPool == null {
        return block, false;
      }
      ghost var pool, flags := block.reservingPool, block.reservingPool.Flags();
      SetFlag(flags, k, false);
      block.reservingPool.reservedCount := block.reservingPool.reservedCount - 1;
      block.reservingPool := null;
      assert pool.Flags() == flags[k := false];
      r, ok := null, true;
    }
  }
}
