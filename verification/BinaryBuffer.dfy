/** source/BinaryBuffer.c: a growable byte buffer. */
module BinaryBuffers {
  import opened Memory

  datatype Outcome = Ok | BadArg | Stale

  /** `calculate_expansion`: add `maxExpand` or double, in 64-bit arithmetic,
    saturating when the result wrapped. */
  function NextSize(size: SizeT, maxExpand: SizeT): SizeT {
    if size == 0 then
      1
    else
      var next := if size > maxExpand then (size + maxExpand) % WORD else (size * 2) % WORD;
      if next < size then SIZE_MAX else next
  }

  /** What `calculate_expansion` is for: the wrap-around test catches every
    overflow, so the size is the unbounded one cut off at the largest word, and
    it really grows. */
  lemma NextSizeSaturates(size: SizeT, maxExpand: SizeT)
    requires maxExpand > 0
    ensures size > 0 ==>
      NextSize(size, maxExpand) == Min(SIZE_MAX, size + Min(size, maxExpand))
    ensures size == 0 ==> NextSize(size, maxExpand) == 1
    ensures size < SIZE_MAX ==> size < NextSize(size, maxExpand)
  {
    if size > maxExpand {
      assert (size + maxExpand) % WORD
          == if size + maxExpand < WORD then size + maxExpand else size + maxExpand - WORD;
    } else {
      assert (size * 2) % WORD == if size * 2 < WORD then size * 2 else size * 2 - WORD;
    }
  }

  /** The capacity the growth loop of `BinaryBuffer_expand_to_target` stops at. */
  function GrowTo(size: SizeT, target: SizeT, maxExpand: SizeT): SizeT
    requires maxExpand > 0
    decreases target - size
  {
    if size >= target then
      size
    else
      NextSizeSaturates(size, maxExpand);
      GrowTo(NextSize(size, maxExpand), target, maxExpand)
  }

  /** The loop overshoots its target by less than one step, where a step is at
    most the target itself and at most `maxExpand`, although each step is
    computed in wrapping arithmetic. It grows by one step at least. */
  lemma {:induction false} GrowToBounds(size: SizeT, target: SizeT, maxExpand: SizeT)
    requires maxExpand > 0
    requires size < target
    ensures target <= GrowTo(size, target, maxExpand) < target + Min(target, maxExpand)
    ensures GrowTo(size, target, maxExpand) >= Min(SIZE_MAX, size + Min(size, maxExpand))
    decreases target - size
  {
    NextSizeSaturates(size, maxExpand);
    var next := NextSize(size, maxExpand);
    if next < target {
      GrowToBounds(next, target, maxExpand);
    }
  }

  /** The capacity after `n` steps, in unbounded arithmetic cut off at the largest
    word. */
  function Stepped(size: SizeT, n: nat, maxExpand: SizeT): SizeT
    decreases n
  {
    if n == 0 then size
    else if size == 0 then Stepped(1, n - 1, maxExpand)
    else Stepped(Min(SIZE_MAX, size + Min(size, maxExpand)), n - 1, maxExpand)
  }

  /** The loop takes as few steps as reach the target. */
  lemma {:induction false} FewestSteps(size: SizeT, target: SizeT, maxExpand: SizeT) returns (n: nat)
    requires maxExpand > 0
    ensures GrowTo(size, target, maxExpand) == Stepped(size, n, maxExpand)
    ensures Stepped(size, n, maxExpand) >= target
    ensures n > 0 ==> Stepped(size, n - 1, maxExpand) < target
    decreases target - size
  {
    hide NextSize;
    if size >= target {
      n := 0;
    } else {
      NextSizeSaturates(size, maxExpand);
      var m := FewestSteps(NextSize(size, maxExpand), target, maxExpand);
      n := m + 1;
      assert Stepped(size, n, maxExpand) == Stepped(NextSize(size, maxExpand), m, maxExpand);
      if m > 0 {
        assert Stepped(size, m, maxExpand) == Stepped(NextSize(size, maxExpand), m - 1, maxExpand);
      }
    }
  }

  /** The capacity once a buffer has made room for `target` bytes. */
  function Roomy(capacity: SizeT, target: SizeT, minCap: SizeT, maxExpand: SizeT): (r: SizeT)
    requires maxExpand > 0
  {
    if target <= capacity then capacity else Max(GrowTo(capacity, target, maxExpand), minCap)
  }

  /** It stays if there is room. Otherwise it grows by a whole step at least, and less than
    one beyond the target, unless the minimum asks for more. */
  lemma RoomyBounds(capacity: SizeT, target: SizeT, minCap: SizeT, maxExpand: SizeT)
    requires maxExpand > 0
    ensures var r := Roomy(capacity, target, minCap, maxExpand);
      && (target <= capacity ==> r == capacity)
      && (capacity < target ==>
        && r >= Max(target, minCap)
        && r >= Min(SIZE_MAX, capacity + Min(capacity, maxExpand))
        && (r == minCap || r < target + Min(target, maxExpand)))
  {
    if capacity < target {
      GrowToBounds(capacity, target, maxExpand);
    }
  }

  /** The new capacity is the first one of the loop that is large enough. */
  lemma RoomySteps(capacity: SizeT, target: SizeT, minCap: SizeT, maxExpand: SizeT) returns (n: nat)
    requires maxExpand > 0 && capacity < target
    ensures Roomy(capacity, target, minCap, maxExpand) == Max(Stepped(capacity, n, maxExpand), minCap)
    ensures n > 0 && Stepped(capacity, n - 1, maxExpand) < target <= Stepped(capacity, n, maxExpand)
  {
    n := FewestSteps(capacity, target, maxExpand);
  }

  function Total(lengths: seq<nat>): nat {
    if lengths == [] then 0 else lengths[0] + Total(lengths[1..])
  }

  /** The bytes that appends of these lengths copy when the buffer moves: at most as many as
    its capacity holds. */
  function CopiedByAppends(len: nat, capacity: SizeT, minCap: SizeT, maxExpand: SizeT, lengths: seq<nat>): nat
    requires maxExpand > 0 && len + Total(lengths) <= SIZE_MAX
    decreases |lengths|
  {
    if lengths == [] then 0
    else
      var next := Roomy(capacity, len + lengths[0], minCap, maxExpand);
      (if next == capacity then 0 else capacity)
      + CopiedByAppends(len + lengths[0], next, minCap, maxExpand, lengths[1..])
  }

  lemma {:induction false} AppendsCopyLittle(len: nat, capacity: SizeT, minCap: SizeT, lengths: seq<nat>)
    requires len + Total(lengths) <= SIZE_MAX
    ensures CopiedByAppends(len, capacity, minCap, SIZE_MAX, lengths)
         <= if capacity < len + Total(lengths) then 2 * (len + Total(lengths)) - capacity else 0
    decreases |lengths|
  {
    if lengths != [] {
      var target := len + lengths[0];
      var next := Roomy(capacity, target, minCap, SIZE_MAX);
      RoomyBounds(capacity, target, minCap, SIZE_MAX);
      hide Roomy;
      AppendsCopyLittle(target, next, minCap, lengths[1..]);
    }
  }

  /** Appends are cheap in the long run: with no limit on the step a run of them copies at
    most two bytes for each byte of the final contents. */
  lemma AppendsAreCheap(len: nat, capacity: SizeT, minCap: SizeT, lengths: seq<nat>)
    requires len + Total(lengths) <= SIZE_MAX
    ensures CopiedByAppends(len, capacity, minCap, SIZE_MAX, lengths) <= 2 * (len + Total(lengths))
  {
    hide CopiedByAppends, Total;
    AppendsCopyLittle(len, capacity, minCap, lengths);
  }

  class BinaryBuffer {
    var buff: array?<Byte>
    var len: SizeT
    var capacity: SizeT
    var minCap: SizeT
    var maxExpand: SizeT

    ghost predicate Valid()
      reads this, buff
    {
      && 0 < maxExpand
      && (buff == null <==> capacity == 0)
      && (buff != null ==> buff.Length == capacity)
      && len <= capacity
    }

    /** The bytes stored. */
    ghost function Contents(): (r: seq<Byte>)
      requires Valid()
      reads this, buff
      ensures |r| == len
    {
      if buff == null then [] else buff[..len]
    }

    /** A block the buffer did not own before the call is a new one. */
    twostate predicate OwnsOrFresh()
      reads this
    {
      buff == null || buff == old(buff) || fresh(buff)
    }

    constructor (data: seq<Byte>, startCap: SizeT, minCap: SizeT, maxExpand: SizeT)
      requires |data| <= SIZE_MAX
      ensures Valid() && Contents() == data
      ensures buff == null || fresh(buff)
      ensures this.minCap == minCap
      ensures this.maxExpand == if maxExpand > 0 then maxExpand else SIZE_MAX
      ensures capacity == Max(minCap, Max(startCap, |data|))
    {
      var cap := startCap;
      if |data| > cap {
        cap := |data|;
      }
      if minCap > cap {
        cap := minCap;
      }
      this.capacity := cap;
      this.len := |data|;
      this.minCap := minCap;
      this.maxExpand := if maxExpand > 0 then maxExpand else SIZE_MAX;
      if cap > 0 {
        this.buff := new Byte[cap];
      } else {
        this.buff := null;
      }
      new;
      if buff != null {
        CopyIn(buff, 0, data);
        assert buff[..len] == data;
      }
    }

    /** `BinaryBuffer_hard_resize`: exactly `newSize` bytes of memory. */
    method HardResize(newSize: SizeT)
      requires Valid()
      modifies this
      ensures Valid() && OwnsOrFresh()
      ensures capacity == newSize && minCap == old(minCap) && maxExpand == old(maxExpand)
      ensures Contents() == Take(old(Contents()), newSize)
    {
      hide Patch, Take;
      TakeShort(Contents(), newSize);
      if capacity == newSize {
        return;
      }
      if newSize == 0 {
        buff, capacity, len := null, 0, 0;
      } else {
        var grown := new Byte[newSize];
        ghost var blank := grown[..];
        if buff != null {
          CopyIn(grown, 0, buff[..Min(capacity, newSize)]);
          KeptBytes(buff[..], blank, len, newSize);
        }
        buff, capacity := grown, newSize;
        if len > newSize {
          len := newSize;
        }
      }
    }

    /** `BinaryBuffer_resize`: never below the minimum capacity. */
    method Resize(newSize: SizeT)
      requires Valid()
      modifies this
      ensures Valid() && OwnsOrFresh()
      ensures capacity == Max(newSize, minCap) && minCap == old(minCap) && maxExpand == old(maxExpand)
      ensures Contents() == Take(old(Contents()), Max(newSize, minCap))
    {
      var size := newSize;
      if size < minCap {
        size := minCap;
      }
      HardResize(size);
    }

    /** `BinaryBuffer_expand_to_target`. */
    method ExpandToTarget(target: SizeT)
      requires Valid()
      modifies this
      ensures Valid() && OwnsOrFresh()
      ensures capacity == Max(GrowTo(old(capacity), target, maxExpand), minCap)
      ensures target <= capacity
      ensures minCap == old(minCap) && maxExpand == old(maxExpand)
      ensures Contents() == old(Contents())
    {
      var newCap: SizeT := capacity;
      while newCap < target
        invariant Valid() && unchanged(this)
        invariant capacity <= newCap
        invariant GrowTo(newCap, target, maxExpand) == GrowTo(capacity, target, maxExpand)
        decreases target - newCap
      {
        NextSizeSaturates(newCap, maxExpand);
        newCap := NextSize(newCap, maxExpand);
      }
      Resize(newCap);
    }

    /** The test before an expansion, as appending and replacing have it. */
    method MakeRoom(target: SizeT)
      requires Valid()
      modifies this
      ensures Valid() && OwnsOrFresh() && target <= capacity
      ensures capacity == Roomy(old(capacity), target, minCap, maxExpand)
      ensures old(capacity) >= target ==> buff == old(buff)
      ensures len == old(len) && minCap == old(minCap) && maxExpand == old(maxExpand)
      ensures Contents() == old(Contents())
    {
      if capacity < target {
        hide Contents;
        ExpandToTarget(target);
      }
    }

    /** `BinaryBuffer_append`. The source's overflow test compares a wrapped sum
      with ULONG_MAX and never fires; two blocks that exist at the same time
      always fit a 64-bit address space together. */
    method Append(data: seq<Byte>)
      requires Valid()
      requires len + |data| <= SIZE_MAX
      modifies this, buff
      ensures Valid() && OwnsOrFresh()
      ensures Contents() == old(Contents()) + data
      ensures minCap == old(minCap) && maxExpand == old(maxExpand)
      ensures capacity == Roomy(old(capacity), len, minCap, maxExpand)
    {
      hide Roomy;
      var newLen := len + |data|;
      MakeRoom(newLen);
      if buff != null {
        CopyIn(buff, len, data);
        assert buff[..newLen] == buff[..len] + data;
      }
      len := newLen;
    }

    /** `BinaryBuffer_clear`: memory beyond the minimum is given back. */
    method Clear()
      requires Valid()
      modifies this
      ensures Valid() && Contents() == []
      ensures buff == null || buff == old(buff)
      ensures capacity == if old(capacity) > minCap then 0 else old(capacity)
      ensures minCap == old(minCap) && maxExpand == old(maxExpand)
    {
      if capacity > minCap {
        HardResize(0);
      } else {
        len := 0;
      }
    }

    /** `BinaryBuffer_clear_no_resize`. */
    method ClearNoResize()
      requires Valid()
      modifies this`len
      ensures Valid() && Contents() == []
    {
      len := 0;
    }

    /** `BinaryBuffer_extract_buffer`: the caller gets the block, the object
      forgets it. */
    method ExtractBuffer() returns (block: array?<Byte>)
      requires Valid()
      modifies this`buff, this`capacity, this`len
      ensures Valid() && Contents() == [] && buff == null
      ensures block == old(buff)
      ensures block != null ==> old(len) <= block.Length && block[..old(len)] == old(Contents())
      ensures block == null ==> old(Contents()) == []
    {
      block := buff;
      buff, capacity, len := null, 0, 0;
    }

    /** `BinaryBuffer_remove`, bytes `begin` to `end` (in either order). A range that
      starts beyond the length enlarges the buffer. On an empty buffer the test wraps,
      and the source copies some 2^64 bytes unless an end of the range is SIZE_MAX or
      both are 0. */
    method Remove(begin: SizeT, end: SizeT)
      requires Valid()
      requires len > 0 || end == begin == 0 || Max(begin, end) == SIZE_MAX
      modifies this`len, buff
      ensures var lo, hi := Min(begin, end), Max(begin, end);
        && (lo <= old(len) ==> Valid() && Contents() == Removed(old(Contents()), lo, hi))
        && (lo > old(len) ==> len == lo && (buff != null ==> buff[..] == old(buff[..])))
        && (Valid() <==> lo <= capacity)
    {
      hide Removed, Contents;
      var lo, hi := begin, end;
      if lo > hi {
        lo, hi := hi, lo;
      }
      if lo <= len {
        RemovedBytes(Contents(), lo, hi);
      }
      if hi >= (len - 1) % WORD {
        Truncate(lo);
      } else {
        TakeOut(lo, hi);
      }
    }

    method Truncate(lo: SizeT)
      requires Valid()
      modifies this`len
      ensures len == lo && (Valid() <==> lo <= capacity)
      ensures lo <= old(len) ==> Contents() == old(Contents())[..lo]
    {
      assert buff != null && lo <= len ==> buff[..lo] == buff[..len][..lo];
      len := lo;
    }

    method TakeOut(lo: SizeT, hi: SizeT)
      requires Valid() && lo <= hi <= len
      modifies this`len, buff
      ensures Valid() && len <= old(len)
      ensures Contents() == old(Contents())[..lo] + old(Contents())[hi..]
    {
      if buff != null {
        MoveTailDown(lo, hi);
      }
      len := len - (hi - lo);
    }

    method MoveTailDown(lo: SizeT, hi: SizeT)
      requires Valid() && lo <= hi <= len && buff != null
      modifies buff
      ensures Valid()
      ensures buff[..len - (hi - lo)] == old(buff[..len])[..lo] + old(buff[..len])[hi..]
    {
      hide Patch;
      ghost var was := buff[..];
      CopyForward(buff, lo, hi, len - hi);
      TailMovedDown(was, len, lo, hi);
      assert old(buff[..len]) == was[..len];
    }

    /** A range that may be replaced: within the contents, or of the length of the new
      bytes and within the block. For any other the source copies some 2^64 bytes, or
      writes behind the block. */
    predicate IsReplaceable(index: SizeT, oldLen: SizeT, n: nat)
      reads this
    {
      index + oldLen <= len || (index <= len && oldLen == n && index + oldLen <= capacity)
    }

    /** The two copies of `BinaryBuffer_replace`; nothing is copied to or from a
      null block. */
    method MoveAndWrite(index: SizeT, oldLen: SizeT, newData: seq<Byte>)
      requires Valid() && buff != null
      requires IsReplaceable(index, oldLen, |newData|) && len + |newData| - oldLen <= capacity
      modifies buff
      ensures Valid()
      ensures buff[..len + |newData| - oldLen] == Replaced(old(Contents()), index, oldLen, newData)
    {
      hide Patch, Replaced;
      ghost var was := buff[..];
      var n := |newData|;
      if oldLen != n {
        var _ := CopySafe(buff, index + n, index + oldLen, len - index - oldLen);
      }
      ghost var moved := buff[..];
      CopyIn(buff, index, newData);
      if oldLen == n {
        Overwritten(was, buff[..], len, index, newData);
      } else {
        ReplacedBytes(was, moved, buff[..], len, index, oldLen, newData);
      }
    }

    /** `BinaryBuffer_replace`. The pointer it writes through is computed before the
      buffer grows: unless `realloc` extends the block in place, which is for the
      caller of this method to say, the bytes go to the block that was given up and
      the buffer keeps its old ones. */
    method Replace(index: SizeT, oldLen: SizeT, newData: seq<Byte>, inPlace: bool) returns (r: Outcome)
      requires Valid() && (inPlace ==> buff != null)
      requires index <= len ==>
        IsReplaceable(index, oldLen, |newData|) && len + |newData| - oldLen <= SIZE_MAX
      modifies this, buff
      ensures Valid()
      ensures r == if index > old(len) then BadArg
                   else if old(len) + |newData| - oldLen <= old(capacity) || inPlace then Ok
                   else Stale
      ensures minCap == old(minCap) && maxExpand == old(maxExpand)
      ensures capacity == if r == BadArg then old(capacity) else Roomy(old(capacity), len, minCap, maxExpand)
      ensures r == BadArg ==> Contents() == old(Contents())
      ensures r == Ok ==> Contents() == Replaced(old(Contents()), index, oldLen, newData)
      ensures r == Ok && index + oldLen <= old(len) ==>
        Contents() == old(Contents())[..index] + newData + old(Contents())[index + oldLen..]
      ensures r == Stale ==>
        && len == old(len) + |newData| - oldLen > old(len)
        && Contents()[..old(len)] == old(Contents())
    {
      hide Replaced, Contents, Roomy;
      if index > len {
        return BadArg;
      }
      if index + oldLen <= len {
        ReplacedRange(Contents(), index, oldLen, newData);
      }
      var newLen := len + |newData| - oldLen;
      r := if newLen <= capacity || inPlace then Ok else Stale;
      MakeRoom(newLen);
      if r == Ok {
        Write(index, oldLen, newData, newLen);
      } else {
        Lengthen(newLen);
      }
    }

    method Write(index: SizeT, oldLen: SizeT, newData: seq<Byte>, newLen: nat)
      requires Valid() && IsReplaceable(index, oldLen, |newData|)
      requires newLen == len + |newData| - oldLen <= capacity
      modifies this`len, buff
      ensures Valid() && len == newLen
      ensures Contents() == Replaced(old(Contents()), index, oldLen, newData)
      ensures capacity == old(capacity)
    {
      if buff != null {
        MoveAndWrite(index, oldLen, newData);
      }
      len := newLen;
    }

    method Lengthen(newLen: nat)
      requires Valid() && len <= newLen <= capacity
      modifies this`len
      ensures Valid() && len == newLen && Contents()[..old(len)] == old(Contents())
    {
      len := newLen;
    }
  }

  lemma TakeShort(s: seq<Byte>, n: nat)
    ensures |s| <= n ==> Take(s, n) == s
    ensures |Take(s, 0)| == 0
  {
  }

  /** The bytes that a smaller or larger block keeps of the first `len` of `a`. */
  lemma KeptBytes(a: seq<Byte>, b: seq<Byte>, len: nat, n: nat)
    requires len <= |a| && |b| == n
    ensures Patch(b, 0, a[..Min(|a|, n)])[..Min(len, n)] == Take(a[..len], n)
  {
  }

  /** What `BinaryBuffer_replace` leaves of `s`: prefix, new data, suffix. New data
    that reaches beyond the end is cut off there. */
  function Replaced(s: seq<Byte>, index: nat, oldLen: nat, newData: seq<Byte>): seq<Byte>
    requires index <= |s|
  {
    if index + oldLen <= |s| then s[..index] + newData + s[index + oldLen..]
    else s[..index] + Take(newData, |s| - index)
  }

  lemma ReplacedRange(s: seq<Byte>, index: nat, oldLen: nat, newData: seq<Byte>)
    requires index + oldLen <= |s|
    ensures Replaced(s, index, oldLen, newData) == s[..index] + newData + s[index + oldLen..]
  {
  }

  /** Moving the tail and then writing the new bytes replaces the old ones. */
  lemma ReplacedBytes(a: seq<Byte>, moved: seq<Byte>, done: seq<Byte>,
                      len: nat, index: nat, oldLen: nat, newData: seq<Byte>)
    requires index + oldLen <= len <= |a| && len + |newData| - oldLen <= |a|
    requires moved == Patch(a, index + |newData|, a[index + oldLen..len])
    requires done == Patch(moved, index, newData)
    ensures done[..len + |newData| - oldLen] == Replaced(a[..len], index, oldLen, newData)
  {
    var tail := a[index + oldLen..len];
    assert moved[..index] == a[..len][..index];
    assert moved[index + |newData|..len + |newData| - oldLen] == tail == a[..len][index + oldLen..];
    assert done[..len + |newData| - oldLen]
        == moved[..index] + newData + moved[index + |newData|..len + |newData| - oldLen];
  }

  /** Without a move the new bytes overwrite as many old ones. */
  lemma Overwritten(a: seq<Byte>, done: seq<Byte>, len: nat, index: nat, newData: seq<Byte>)
    requires index <= len <= |a| && index + |newData| <= |a| && done == Patch(a, index, newData)
    ensures done[..len] == Replaced(a[..len], index, |newData|, newData)
  {
  }

  lemma TailMovedDown(a: seq<Byte>, len: nat, lo: nat, hi: nat)
    requires lo <= hi <= len <= |a|
    ensures Patch(a, lo, a[hi..len])[..len - (hi - lo)] == a[..len][..lo] + a[..len][hi..]
  {
  }

  /** What `BinaryBuffer_remove` leaves of `s`. */
  function Removed(s: seq<Byte>, begin: nat, end: nat): seq<Byte>
    requires begin <= |s| && begin <= end
  {
    if end >= |s| - 1 then s[..begin] else s[..begin] + s[end..]
  }

  lemma RemovedBytes(s: seq<Byte>, begin: nat, end: nat)
    requires begin <= |s| && begin <= end
    ensures end >= |s| - 1 ==> Removed(s, begin, end) == s[..begin]
    ensures end < |s| - 1 ==> Removed(s, begin, end) == s[..begin] + s[end..]
  {
  }

  /** The documented meaning, "remove [begin, end)", holds for every range except
    one that stops just before the last byte, which is lost as well. */
  lemma RemovedIsTheRangeUnlessItStopsOneShort(s: seq<Byte>, begin: nat, end: nat)
    requires begin <= end <= |s|
    ensures Removed(s, begin, end) == s[..begin] + s[end..] <==> end != |s| - 1
  {
    assert |s[..begin] + s[end..]| == begin + |s| - end;
  }
}
