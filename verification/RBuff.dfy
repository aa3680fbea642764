/** source/RBuff.c: a ring buffer over a block of memory. The iterators are
  indices into the block; `itEnd` may rest on the end of the block. */
module RBuffs {
  import opened AlibErrors
  import opened Memory

  /** The block read once around, starting at `begin`. */
  function Ring(data: seq<Byte>, begin: nat): (r: seq<Byte>)
    requires begin <= |data|
    ensures |r| == |data|
  {
    data[begin..] + data[..begin]
  }

  /** The end iterator is `count` bytes after the begin iterator, around the
    block; position `size` and position 0 are the same place. */
  predicate Linked(size: nat, begin: nat, end: nat, count: nat) {
    && begin < size && end <= size && count <= size
    && (begin + count == end || begin + count == end + size || begin + count + size == end)
  }

  /** `_incrementIt`. */
  function Advance(it: nat, count: nat, size: nat): nat
    requires it < size
  {
    var step := if count > size then count % size else count;
    if it + step >= size then it + step - size else it + step
  }

  /** The bytes of a push that can fit at all: the last ones. */
  function Fitting(bytes: seq<Byte>, size: nat): seq<Byte> {
    Last(bytes, size)
  }

  /** The bytes a push stores. */
  function Stored(count: nat, bytes: seq<Byte>, size: nat, noOverwrite: bool): seq<Byte>
    requires count <= size
  {
    var fitting := Fitting(bytes, size);
    if noOverwrite then Take(fitting, size - count) else fitting
  }

  /** The old bytes a push drops. */
  function Dropped(count: nat, bytes: seq<Byte>, size: nat, noOverwrite: bool): nat
    requires count <= size
  {
    if noOverwrite then 0 else Max(0, |Fitting(bytes, size)| + count - size)
  }

  /** How `RBuff_pushback` updates `count`: the number of bytes stored goes
    through an `int32_t`, the sum is a 64-bit one and is cut off at the size. */
  function NewCount(count: nat, stored: nat, size: SizeT): SizeT {
    var sum := (count + AsSize(ToInt32(stored))) % WORD;
    if sum > size then size else sum
  }

  /** The count comes out right exactly when the number of bytes fits an
    `int32_t`, or when the error is hidden by the cut-off of a full buffer. */
  lemma NewCountIsExact(count: nat, stored: nat, size: SizeT)
    requires count + stored <= size <= PTRDIFF_MAX
    ensures NewCount(count, stored, size) == count + stored
            <==> stored <= INT32_MAX || (count + stored == size && count + ToInt32(stored) < 0)
  {
    var t := ToInt32(stored);
    if stored <= INT32_MAX {
      assert t == stored;
      assert (count + AsSize(t)) % WORD == count + stored;
    } else {
      assert t < stored;
      if count + t < 0 {
        assert (count + AsSize(t)) % WORD == count + t + WORD;
      } else if t < 0 {
        assert (count + AsSize(t)) % WORD == count + t;
      } else {
        assert (count + AsSize(t)) % WORD == count + t;
      }
    }
  }

  // ---------- Facts about the ring ----------

  lemma RingAt(data: seq<Byte>, begin: nat, k: nat)
    requires begin < |data| && k < |data|
    ensures Ring(data, begin)[k]
         == data[if begin + k < |data| then begin + k else begin + k - |data|]
  {
  }

  /** Moving the begin iterator rotates the ring. */
  lemma RingAdvances(data: seq<Byte>, begin: nat, n: nat)
    requires begin < |data| && n <= |data|
    ensures Ring(data, Advance(begin, n, |data|)) == Ring(data, begin)[n..] + Ring(data, begin)[..n]
  {
    var moved, ring := Ring(data, Advance(begin, n, |data|)), Ring(data, begin);
    forall k | 0 <= k < |data|
      ensures moved[k] == (ring[n..] + ring[..n])[k]
    {
      RingAt(data, Advance(begin, n, |data|), k);
      RingAt(data, begin, if n + k < |data| then n + k else n + k - |data|);
    }
  }

  /** `_beginItToBuffEnd` on values. */
  function Span(size: nat, begin: nat, end: nat): nat
    requires begin <= size
  {
    if begin < end then end - begin else size - begin
  }

  /** The oldest `n` bytes are in at most two pieces of the block. */
  lemma CopiedInTwoPieces(data: seq<Byte>, begin: nat, end: nat, count: nat, n: nat)
    requires Linked(|data|, begin, end, count) && n <= count
    ensures var first := Min(Span(|data|, begin, end), n);
      && begin + first <= |data|
      && data[begin..begin + first] + data[..n - first] == Ring(data, begin)[..count][..n]
  {
    hide Ring;
    var first := Min(Span(|data|, begin, end), n);
    var pieces := data[begin..begin + first] + data[..n - first];
    forall k | 0 <= k < n
      ensures pieces[k] == Ring(data, begin)[k]
    {
      RingAt(data, begin, k);
    }
    assert Ring(data, begin)[..count][..n] == Ring(data, begin)[..n];
  }

  /** Writing inside the block, seen around the ring. */
  lemma RingPatched(data: seq<Byte>, begin: nat, at: nat, bytes: seq<Byte>)
    requires begin < |data| && at + |bytes| <= |data|
    requires begin <= at || at + |bytes| <= begin
    ensures Ring(Patch(data, at, bytes), begin)
         == Patch(Ring(data, begin), if begin <= at then at - begin else at + |data| - begin, bytes)
  {
    var patched := Patch(data, at, bytes);
    var pos := if begin <= at then at - begin else at + |data| - begin;
    forall k | 0 <= k < |data|
      ensures Ring(patched, begin)[k] == Patch(Ring(data, begin), pos, bytes)[k]
    {
      RingAt(patched, begin, k);
      RingAt(data, begin, k);
    }
  }

  /** Two consecutive writes are one. */
  lemma PatchTwice(s: seq<Byte>, at: nat, a: seq<Byte>, b: seq<Byte>)
    requires at + |a| + |b| <= |s|
    ensures Patch(Patch(s, at, a), at + |a|, b) == Patch(s, at, a + b)
  {
  }

  /** `_endItToBuffEnd` on values. */
  function Room(size: nat, begin: nat, end: nat): nat
    requires end <= size
  {
    if end < begin then begin - end else size - end
  }

  /** Where the end iterator is after `n` bytes were written: on the end of the
    block, not at its start, when they fill it exactly. */
  function EndAfter(size: nat, begin: nat, end: nat, n: nat): nat
    requires end <= size
  {
    var room := Room(size, begin, end);
    if n > room then n - room else end + n
  }

  /** A stretch that fits before the end of the block, or before the oldest byte,
    lands right behind what is stored. */
  lemma WrittenInOnePiece(data: seq<Byte>, begin: nat, end: nat, count: nat, bytes: seq<Byte>)
    requires Linked(|data|, begin, end, count) && count + |bytes| <= |data|
    requires |bytes| <= Room(|data|, begin, end)
    ensures Ring(Patch(data, end, bytes), begin)[..count + |bytes|]
         == Ring(data, begin)[..count] + bytes
  {
    RingPatched(data, begin, end, bytes);
  }

  /** A longer one goes on at the start of the block. */
  lemma WrittenInTwoPieces(data: seq<Byte>, begin: nat, end: nat, count: nat, bytes: seq<Byte>)
    requires Linked(|data|, begin, end, count) && count + |bytes| <= |data|
    requires |bytes| > Room(|data|, begin, end)
    ensures var first := Room(|data|, begin, end);
      && |bytes| - first <= |data|
      && end + first == |data|
      && Ring(Patch(Patch(data, end, bytes[..first]), 0, bytes[first..]), begin)[..count + |bytes|]
      == Ring(data, begin)[..count] + bytes
  {
    var first := Room(|data|, begin, end);
    var a, b := bytes[..first], bytes[first..];
    assert a + b == bytes;
    RingPatched(data, begin, end, a);
    var once := Patch(data, end, a);
    if begin == 0 {
      assert a == [] && once == data;
      RingPatched(data, begin, 0, b);
    } else {
      RingPatched(once, begin, 0, b);
      PatchTwice(Ring(data, begin), count, a, b);
    }
  }

  /** Truncating the partial sum does not change the truncated sum. */
  lemma Int32Sum(a: int, b: int)
    ensures ToInt32(ToInt32(a) + b) == ToInt32(a + b)
    ensures ToInt32(0) == 0
  {
  }

  /** The copies of `RBuff_copy`: `n` bytes of the ring, of which the first
    `first` lie before the end of the block. */
  method CopyOut(dst: array<Byte>, block: array<Byte>, from: nat, first: nat, n: nat)
    requires dst != block && n <= dst.Length
    requires first <= n <= block.Length && from + first <= block.Length
    modifies dst
    ensures dst[..]
         == Patch(old(dst[..]), 0, old(block[..])[from..from + first] + old(block[..])[..n - first])
    ensures block[..] == old(block[..])
  {
    ghost var was := dst[..];
    CopyIn(dst, 0, block[from..from + first]);
    if first < n {
      CopyIn(dst, first, block[..n - first]);
      PatchTwice(was, 0, block[from..from + first], block[..n - first]);
    } else {
      assert block[from..from + first] + block[..n - first] == block[from..from + first];
    }
  }

  /** The copies of `RBuff_pushback`: up to `room` bytes at `at`, the others at
    the start of the block. */
  method CopyRound(block: array<Byte>, at: nat, bytes: seq<Byte>, room: nat)
    requires at + room <= block.Length && |bytes| <= block.Length
    modifies block
    ensures block[..] == if |bytes| <= room then Patch(old(block[..]), at, bytes)
                         else Patch(Patch(old(block[..]), at, bytes[..room]), 0, bytes[room..])
  {
    if |bytes| > room {
      CopyIn(block, at, bytes[..room]);
      CopyIn(block, 0, bytes[room..]);
    } else {
      CopyIn(block, at, bytes);
    }
  }

  /** A number of bytes that does not fit counts as the `int32_t` that differs from it by
    a multiple of 2^32; a sum below zero or above the size counts as a full buffer. */
  lemma NewCountWraps(count: nat, stored: nat, size: SizeT, t: int)
    requires count <= size <= PTRDIFF_MAX
    requires -0x8000_0000 <= t <= INT32_MAX && (stored - t) % 0x1_0000_0000 == 0
    ensures NewCount(count, stored, size) == if 0 <= count + t <= size then count + t else size
  {
    assert ToInt32(stored) == t;
    hide ToInt32;
    if count + t < 0 {
      assert (count + AsSize(t)) % WORD == count + t + WORD;
    } else if t < 0 {
      assert (count + AsSize(t)) % WORD == count + t;
    }
  }

  // ---------- The bounded FIFO ----------

  /** What a push of at most INT32_MAX stored bytes leaves and returns. */
  function Pushed(contents: seq<Byte>, bytes: seq<Byte>, size: nat, noOverwrite: bool): seq<Byte>
    requires |contents| <= size
  {
    contents[Dropped(|contents|, bytes, size, noOverwrite)..]
    + Stored(|contents|, bytes, size, noOverwrite)
  }

  /** In overwrite mode: the last `size` bytes of what was stored followed by
    what is pushed. */
  lemma OverwritingPush(contents: seq<Byte>, bytes: seq<Byte>, size: nat)
    requires |contents| <= size
    ensures Pushed(contents, bytes, size, false) == Last(contents + bytes, size)
  {
    if |bytes| >= size {
      assert Last(contents + bytes, size) == Last(bytes, size);
      assert contents[|contents|..] == [];
    } else {
      assert Fitting(bytes, size) == bytes;
    }
  }

  /** In the other mode no stored byte changes, and of the last `size` bytes of a push
    exactly those first ones are appended that there is room for. */
  lemma CautiousPush(contents: seq<Byte>, bytes: seq<Byte>, size: nat)
    requires |contents| <= size
    ensures contents <= Pushed(contents, bytes, size, true)
    ensures |bytes| > size ==>
              Pushed(contents, bytes, size, true)
              == contents + bytes[|bytes| - size..|bytes| - |contents|]
    ensures |bytes| <= size ==>
              Pushed(contents, bytes, size, true) == contents + Take(bytes, size - |contents|)
  {
    assert contents[0..] == contents;
    if |bytes| > size {
      assert Take(bytes[|bytes| - size..], size - |contents|)
          == bytes[|bytes| - size..|bytes| - |contents|];
    }
  }

  /** The number of bytes that a push stores. */
  lemma StoredLength(count: nat, bytes: seq<Byte>, size: nat)
    requires count <= size
    ensures |Stored(count, bytes, size, false)| == Min(|bytes|, size)
    ensures |Stored(count, bytes, size, true)| == Min(|bytes|, size - count)
  {
  }

  /** The push of a caller's own bytes keeps the buffer well-formed. */
  lemma PushIsExact(contents: seq<Byte>, bytes: seq<Byte>, size: nat, noOverwrite: bool)
    requires |contents| <= size <= PTRDIFF_MAX
    requires Min(|bytes|, size) <= INT32_MAX
    ensures var stored := Stored(|contents|, bytes, size, noOverwrite);
            var kept := |contents| - Dropped(|contents|, bytes, size, noOverwrite);
      && NewCount(kept, |stored|, size) == kept + |stored| == |Pushed(contents, bytes, size, noOverwrite)|
      && AsSize(ToInt32(|stored|)) == |stored|
  {
    hide NewCount, ToInt32, AsSize;
    var stored := Stored(|contents|, bytes, size, noOverwrite);
    SmallInt32(|stored|);
    NewCountIsExact(|contents| - Dropped(|contents|, bytes, size, noOverwrite), |stored|, size);
  }

  lemma SmallInt32(n: nat)
    ensures n <= INT32_MAX ==> ToInt32(n) == n == AsSize(ToInt32(n))
  {
  }

  /** Pushing nothing changes nothing. */
  lemma EmptyPush(contents: seq<Byte>, bytes: seq<Byte>, size: nat, noOverwrite: bool)
    requires |contents| <= size <= PTRDIFF_MAX && bytes == []
    ensures Pushed(contents, bytes, size, noOverwrite) == contents
    ensures |Stored(|contents|, bytes, size, noOverwrite)| == 0
  {
  }

  class RBuff {
    const data: array<Byte>
    var itBegin: nat
    var itEnd: nat
    var count: SizeT
    const noOverwrite: bool

    /** Well-formed if the count were `n`. */
    ghost predicate ValidFor(n: nat)
      reads this`itBegin, this`itEnd
    {
      data.Length <= PTRDIFF_MAX && Linked(data.Length, itBegin, itEnd, n)
    }

    ghost predicate Valid()
      reads this
    {
      ValidFor(count)
    }

    /** The bytes stored, oldest first, if the count were `n`. */
    ghost function ContentsFor(n: nat): (r: seq<Byte>)
      requires ValidFor(n)
      reads this`itBegin, this`itEnd, data
      ensures |r| == n
    {
      Ring(data[..], itBegin)[..n]
    }

    ghost function Contents(): seq<Byte>
      requires Valid()
      reads this, data
    {
      ContentsFor(count)
    }

    /** `RBuff_init`. */
    constructor (block: array<Byte>, noOverwrite: bool)
      requires 0 < block.Length <= PTRDIFF_MAX
      ensures Valid() && Contents() == [] && data == block && this.noOverwrite == noOverwrite
    {
      this.data := block;
      this.itBegin, this.itEnd, this.count := 0, 0, 0;
      this.noOverwrite := noOverwrite;
    }

    /** `_endItToBuffEnd`. */
    function EndItToBuffEnd(): nat
      requires Valid()
      reads this
    {
      Room(data.Length, itBegin, itEnd)
    }

    /** `_beginItToBuffEnd`. */
    function BeginItToBuffEnd(): nat
      requires Valid()
      reads this
    {
      Span(data.Length, itBegin, itEnd)
    }

    /** The copying half of `RBuff_copy`. */
    method CopyOldest(dst: array<Byte>, n: SizeT)
      requires Valid() && dst != data && n <= count && n <= dst.Length
      modifies dst
      ensures Valid()
      ensures dst[..] == Patch(old(dst[..]), 0, Contents()[..n])
    {
      CopiedInTwoPieces(data[..], itBegin, itEnd, count, n);
      hide Patch, Ring;
      var first := Min(BeginItToBuffEnd(), n);
      assert first <= n;
      assert n <= data.Length;
      assert itBegin + first <= data.Length;
      CopyOut(dst, data, itBegin, first, n);
    }

    /** `RBuff_copy`: the oldest bytes, without removing them. */
    method Copy(dst: array?<Byte>, n: SizeT) returns (r: SizeT)
      requires Valid()
      requires dst != null ==> dst != data && Min(n, count) <= dst.Length
      modifies dst
      ensures Valid()
      ensures r == Min(n, count)
      ensures dst != null ==> dst[..] == Patch(old(dst[..]), 0, Contents()[..r])
    {
      if n == 0 {
        return 0;
      }
      var left := n;
      if left > count {
        left := count;
      }
      if dst != null {
        CopyOldest(dst, left);
      }
      r := left;
    }

    /** `RBuff_popoff`: the same bytes, removed. */
    method Popoff(dst: array?<Byte>, n: SizeT) returns (r: SizeT)
      requires Valid()
      requires dst != null ==> dst != data && Min(n, count) <= dst.Length
      modifies this`itBegin, this`count, dst
      ensures Valid()
      ensures r == Min(n, old(count))
      ensures Contents() == old(Contents())[r..]
      ensures dst != null ==> dst[..] == Patch(old(dst[..]), 0, old(Contents())[..r])
    {
      r := Copy(dst, n);
      RemoveFront(r);
    }

    /** Both pops move the begin iterator and lower the count. */
    method RemoveFront(n: SizeT)
      requires Valid() && n <= count
      modifies this`itBegin, this`count
      ensures Valid()
      ensures Contents() == old(Contents())[n..]
    {
      RingAdvances(data[..], itBegin, n);
      itBegin := Advance(itBegin, n, data.Length);
      count := count - n;
    }

    /** `RBuff_popoff_byte`: the oldest byte, or an error code when empty. */
    method PopoffByte() returns (r: int)
      requires Valid()
      modifies this`itBegin, this`count
      ensures Valid()
      ensures old(count) == 0 ==> r == ALIB_BAD_ARG && Contents() == old(Contents())
      ensures old(count) > 0 ==>
        r == old(Contents())[0] as int && Contents() == old(Contents())[1..]
    {
      if count == 0 {
        return ALIB_BAD_ARG;
      }
      RingAt(data[..], itBegin, 0);
      r := data[itBegin] as int;
      RemoveFront(1);
    }

    /** The two copies of `RBuff_pushback`. Nothing stored is touched, the bytes
      follow what is stored; the number of bytes is summed in an `int32_t`. */
    method WriteBehind(bytes: seq<Byte>) returns (total: Int32)
      requires Valid() && count + |bytes| <= data.Length
      modifies this`itEnd, data
      ensures ValidFor(count + |bytes|)
      ensures ContentsFor(count + |bytes|) == old(Contents()) + bytes
      ensures total == ToInt32(|bytes|)
      ensures itEnd == EndAfter(data.Length, itBegin, old(itEnd), |bytes|)
    {
      hide Patch, Ring, ToInt32;
      var room := EndItToBuffEnd();
      if |bytes| <= room {
        WrittenInOnePiece(data[..], itBegin, itEnd, count, bytes);
      } else {
        WrittenInTwoPieces(data[..], itBegin, itEnd, count, bytes);
      }
      Int32Sum(room, |bytes| - room);
      CopyRound(data, itEnd, bytes, room);
      if |bytes| > room {
        total := ToInt32(ToInt32(room) + (|bytes| - room));
        itEnd := |bytes| - room;
      } else {
        total := ToInt32(|bytes|);
        itEnd := itEnd + |bytes|;
      }
    }

    /** What a push leaves of, and adds to, the given contents. */
    ghost function PushOf(bytes: seq<Byte>, contents: seq<Byte>): seq<Byte>
      requires |contents| <= data.Length
    {
      Pushed(contents, bytes, data.Length, noOverwrite)
    }

    /** The count it leaves, which may have been truncated on the way. */
    ghost function CountOf(bytes: seq<Byte>, contents: seq<Byte>): SizeT
      requires |contents| <= data.Length <= PTRDIFF_MAX
    {
      NewCount(|contents| - Dropped(|contents|, bytes, data.Length, noOverwrite),
               |Stored(|contents|, bytes, data.Length, noOverwrite)|, data.Length)
    }

    /** The first half of `RBuff_pushback`: choose the bytes to store and make
      room for them. */
    method MakeRoom(bytes: seq<Byte>) returns (chunk: seq<Byte>)
      requires Valid()
      modifies this`itBegin, this`count
      ensures Valid() && count + |chunk| <= data.Length
      ensures chunk == Stored(old(count), bytes, data.Length, noOverwrite)
      ensures Contents() == old(Contents())[Dropped(old(count), bytes, data.Length, noOverwrite)..]
    {
      hide Ring;
      chunk := Fitting(bytes, data.Length);
      if |chunk| + count > data.Length {
        if noOverwrite {
          chunk := chunk[..data.Length - count];
        } else {
          var _ := Popoff(null, |chunk| + count - data.Length);
        }
      }
    }

    /** `RBuff_pushback` of at least one byte. */
    method PushSome(bytes: seq<Byte>) returns (r: SizeT)
      requires Valid()
      modifies this`itBegin, this`itEnd, this`count, data
      ensures ValidFor(|PushOf(bytes, old(Contents()))|)
      ensures ContentsFor(|PushOf(bytes, old(Contents()))|) == PushOf(bytes, old(Contents()))
      ensures count == CountOf(bytes, old(Contents()))
      ensures r == AsSize(ToInt32(|Stored(old(count), bytes, data.Length, noOverwrite)|))
    {
      var chunk := MakeRoom(bytes);
      hide ContentsFor, ValidFor, NewCount, ToInt32, AsSize, Stored, Dropped, EndAfter;
      assert Contents() + chunk == PushOf(bytes, old(Contents()));
      assert NewCount(count, |chunk|, data.Length) == CountOf(bytes, old(Contents()));
      hide PushOf, CountOf;
      var total := WriteBehind(chunk);
      count := NewCount(count, |chunk|, data.Length);
      r := AsSize(total);
    }

    /** `RBuff_pushback`. */
    method Pushback(bytes: seq<Byte>) returns (r: SizeT)
      requires Valid()
      modifies this`itBegin, this`itEnd, this`count, data
      ensures ValidFor(|PushOf(bytes, old(Contents()))|)
      ensures ContentsFor(|PushOf(bytes, old(Contents()))|) == PushOf(bytes, old(Contents()))
      ensures count == CountOf(bytes, old(Contents()))
      ensures r == AsSize(ToInt32(|Stored(old(count), bytes, data.Length, noOverwrite)|))
      ensures Min(|bytes|, data.Length) <= INT32_MAX ==>
        && Valid()
        && Contents() == PushOf(bytes, old(Contents()))
        && r == |Stored(old(count), bytes, data.Length, noOverwrite)|
    {
      hide ContentsFor, NewCount, ToInt32, Stored, Dropped, Pushed, AsSize, PushOf, CountOf;
      PushFacts(bytes, Contents());
      if bytes == [] {
        return 0;
      }
      r := PushSome(bytes);
    }

    /** What a push leaves when it is empty, and when its bytes fit an `int32_t`. */
    lemma PushFacts(bytes: seq<Byte>, contents: seq<Byte>)
      requires |contents| <= data.Length <= PTRDIFF_MAX
      ensures bytes == [] ==>
        && PushOf(bytes, contents) == contents && CountOf(bytes, contents) == |contents|
        && AsSize(ToInt32(|Stored(|contents|, bytes, data.Length, noOverwrite)|)) == 0
        && |Stored(|contents|, bytes, data.Length, noOverwrite)| == 0
      ensures Min(|bytes|, data.Length) <= INT32_MAX ==>
        && CountOf(bytes, contents) == |PushOf(bytes, contents)|
        && AsSize(ToInt32(|Stored(|contents|, bytes, data.Length, noOverwrite)|))
           == |Stored(|contents|, bytes, data.Length, noOverwrite)|
    {
      hide NewCount, ToInt32, AsSize, Stored, Dropped, Pushed;
      if bytes == [] {
        EmptyPush(contents, bytes, data.Length, noOverwrite);
      }
      if Min(|bytes|, data.Length) <= INT32_MAX {
        PushIsExact(contents, bytes, data.Length, noOverwrite);
      }
    }
  }
}
