/** Runs of pushes and pops on a ring buffer in overwrite mode. */
module RingTheorems {
  import opened AlibErrors
  import opened Memory
  import opened RBuffs

  datatype Op = Push(bytes: seq<Byte>) | Pop(n: nat)

  /** What a run did: the bytes popped, the bytes that left in any way (popped or
    overwritten), what is stored at the end, and the buffer's own count of it. */
  datatype Trace = Trace(popped: seq<Byte>, gone: seq<Byte>, contents: seq<Byte>, count: nat)

  /** The buffer's count is right. */
  predicate Right(t: Trace) {
    t.count == |t.contents|
  }

  const EMPTY := Trace([], [], [], 0)

  /** Sizes a block can have. */
  type BlockSize = n: int | 0 <= n <= PTRDIFF_MAX

  function Step(t: Trace, op: Op, size: BlockSize): (r: Trace)
    requires |t.contents| <= size
    ensures |r.contents| <= size
  {
    match op
    case Push(bytes) =>
      var all := t.contents + bytes;
      OverwritingPush(t.contents, bytes, size);
      Trace(t.popped,
            t.gone + all[..|all| - Min(|all|, size)],
            Pushed(t.contents, bytes, size, false),
            CountAfter(|t.contents|, bytes, size))
    case Pop(n) =>
      var rest := t.contents[Min(n, |t.contents|)..];
      Trace(t.popped + Take(t.contents, n), t.gone + Take(t.contents, n), rest, |rest|)
  }

  /** The count after an overwriting push. */
  function CountAfter(count: nat, bytes: seq<Byte>, size: BlockSize): nat
    requires count <= size
  {
    NewCount(count - Dropped(count, bytes, size, false), |Stored(count, bytes, size, false)|, size)
  }

  /** Once a push has miscounted, the iterators no longer fit the count, and the
    run is not followed further. */
  function Run(t: Trace, ops: seq<Op>, size: BlockSize): (r: Trace)
    requires |t.contents| <= size
    ensures |r.contents| <= size
    decreases |ops|
  {
    if ops == [] || !Right(t) then t else Run(Step(t, ops[0], size), ops[1..], size)
  }

  /** The bytes an operation pushes. */
  function Bytes(op: Op): seq<Byte> {
    match op
    case Push(bytes) => bytes
    case Pop(_) => []
  }

  /** All bytes pushed by a run, in order. */
  function Stream(ops: seq<Op>): seq<Byte>
    decreases |ops|
  {
    if ops == [] then [] else Bytes(ops[0]) + Stream(ops[1..])
  }

  /** What is stored after an operation. */
  function After(contents: seq<Byte>, op: Op, size: BlockSize): (r: seq<Byte>)
    ensures |contents| <= size ==> |r| <= size
  {
    match op
    case Push(bytes) => Last(contents + bytes, size)
    case Pop(n) => contents[Min(n, |contents|)..]
  }

  /** Whether some push of the run overwrites a byte. */
  predicate Overflows(contents: seq<Byte>, ops: seq<Op>, size: BlockSize)
    decreases |ops|
  {
    ops != [] &&
    ((ops[0].Push? && |contents + ops[0].bytes| > size)
     || Overflows(After(contents, ops[0], size), ops[1..], size))
  }

  /** Whether a push stores more bytes than an `int32_t` holds, and the cut-off of a
    full buffer does not hide it. */
  predicate TooLong(count: nat, bytes: seq<Byte>, size: BlockSize) {
    var stored := Min(|bytes|, size);
    var kept := Min(count, size - stored);
    stored > INT32_MAX && !(kept + stored == size && kept + ToInt32(stored) < 0)
  }

  /** Whether some push of the run is too long. */
  predicate Miscounts(contents: seq<Byte>, ops: seq<Op>, size: BlockSize)
    decreases |ops|
  {
    ops != [] &&
    ((ops[0].Push? && TooLong(|contents|, ops[0].bytes, size))
     || Miscounts(After(contents, ops[0], size), ops[1..], size))
  }

  /** Such a push is exactly one that miscounts. */
  lemma CountIsRight(contents: seq<Byte>, bytes: seq<Byte>, size: BlockSize)
    requires |contents| <= size
    ensures CountAfter(|contents|, bytes, size) == |Pushed(contents, bytes, size, false)|
            <==> !TooLong(|contents|, bytes, size)
  {
    var stored, dropped := |Stored(|contents|, bytes, size, false)|, Dropped(|contents|, bytes, size, false);
    assert stored == Min(|bytes|, size) && |contents| - dropped == Min(|contents|, size - stored);
    NewCountIsExact(|contents| - dropped, stored, size);
    hide NewCount, ToInt32;
  }

  lemma CutBeforeTheEnd(gone: seq<Byte>, a: seq<Byte>, b: seq<Byte>, size: nat)
    ensures var all := a + b;
            (gone + all[..|all| - Min(|all|, size)]) + Last(all, size) == gone + a + b
  {
  }

  /** One step passes the stream on unchanged, and counts right unless it is a push
    that is too long. */
  lemma PushIsFifo(t: Trace, bytes: seq<Byte>, size: BlockSize)
    requires |t.contents| <= size
    ensures var r := Step(t, Push(bytes), size);
      && r.gone + r.contents == t.gone + t.contents + bytes
      && r.contents == After(t.contents, Push(bytes), size)
      && (Right(r) <==> !TooLong(|t.contents|, bytes, size))
  {
    var r, all := Step(t, Push(bytes), size), t.contents + bytes;
    OverwritingPush(t.contents, bytes, size);
    CountIsRight(t.contents, bytes, size);
    CutBeforeTheEnd(t.gone, t.contents, bytes, size);
    hide Pushed, TooLong, CountAfter;
    assert r.contents == Last(all, size);
  }

  lemma PopIsFifo(t: Trace, n: nat, size: BlockSize)
    requires |t.contents| <= size
    ensures var r := Step(t, Pop(n), size);
      && r.gone + r.contents == t.gone + t.contents
      && r.contents == After(t.contents, Pop(n), size) && Right(r)
  {
    assert Take(t.contents, n) + t.contents[Min(n, |t.contents|)..] == t.contents;
  }

  lemma StepIsFifo(t: Trace, op: Op, size: BlockSize)
    requires |t.contents| <= size
    ensures var r := Step(t, op, size);
      && r.gone + r.contents == t.gone + t.contents + Bytes(op)
      && r.contents == After(t.contents, op, size)
      && (Right(r) <==> op.Push? ==> !TooLong(|t.contents|, op.bytes, size))
  {
    hide Step, TooLong, After;
    match op
    case Push(bytes) => PushIsFifo(t, bytes, size);
    case Pop(n) =>
      PopIsFifo(t, n, size);
      assert t.gone + t.contents + [] == t.gone + t.contents;
  }

  lemma Associative(a: seq<Byte>, b: seq<Byte>, c: seq<Byte>)
    ensures (a + b) + c == a + (b + c)
  {
  }

  /** The count is right after a run exactly when no push of it was too long. */
  lemma {:induction false} RunCounts(t: Trace, ops: seq<Op>, size: BlockSize)
    requires |t.contents| <= size && Right(t)
    ensures Right(Run(t, ops, size)) <==> !Miscounts(t.contents, ops, size)
    decreases |ops|
  {
    if ops != [] {
      hide Step, TooLong, After;
      var next := Step(t, ops[0], size);
      StepIsFifo(t, ops[0], size);
      if Right(next) {
        RunCounts(next, ops[1..], size);
      } else {
        assert Run(next, ops[1..], size) == next;
      }
    }
  }

  /** First in, first out over any run in which no push miscounts: the bytes leave in
    exactly the order in which they were pushed, and what has not left is what is
    stored. */
  lemma {:induction false} RunIsFifo(t: Trace, ops: seq<Op>, size: BlockSize)
    requires |t.contents| <= size && Right(t) && !Miscounts(t.contents, ops, size)
    ensures var r := Run(t, ops, size);
      Right(r) && r.gone + r.contents == t.gone + t.contents + Stream(ops)
    decreases |ops|
  {
    RunCounts(t, ops, size);
    if ops == [] {
      assert t.gone + t.contents + [] == t.gone + t.contents;
    } else {
      var next := Step(t, ops[0], size);
      StepIsFifo(t, ops[0], size);
      Associative(t.gone + t.contents, Bytes(ops[0]), Stream(ops[1..]));
      assert Stream(ops) == Bytes(ops[0]) + Stream(ops[1..]);
      hide Step, TooLong, After, Stream, Bytes;
      RunIsFifo(next, ops[1..], size);
    }
  }

  /** A run from the empty buffer leaves the end of the pushed stream. */
  lemma RunLeavesTheEnd(ops: seq<Op>, size: BlockSize)
    requires !Miscounts([], ops, size)
    ensures var r := Run(EMPTY, ops, size);
      && r.count == |r.contents| <= |Stream(ops)|
      && r.contents == Last(Stream(ops), r.count)
  {
    RunIsFifo(EMPTY, ops, size);
    var r := Run(EMPTY, ops, size);
    hide Run, Stream, Miscounts;
    assert r.gone + r.contents == Stream(ops);
  }

  lemma {:induction false} PoppedCount(t: Trace, ops: seq<Op>, size: BlockSize)
    requires |t.contents| <= size && Right(t) && |t.popped| <= |t.gone|
    ensures var r := Run(t, ops, size);
      && |r.popped| <= |r.gone|
      && (Right(r) ==>
           (|r.popped| == |r.gone| <==> |t.popped| == |t.gone| && !Overflows(t.contents, ops, size)))
    decreases |ops|
  {
    if ops != [] {
      var next := Step(t, ops[0], size);
      if ops[0].Push? {
        OverwritingPush(t.contents, ops[0].bytes, size);
      }
      hide Pushed, CountAfter;
      if Right(next) {
        PoppedCount(next, ops[1..], size);
      }
    }
  }

  lemma {:induction false} PoppedIsGone(t: Trace, ops: seq<Op>, size: BlockSize)
    requires |t.contents| <= size && t.popped == t.gone && !Overflows(t.contents, ops, size)
    ensures Run(t, ops, size).popped == Run(t, ops, size).gone
    decreases |ops|
  {
    if ops != [] && Right(t) {
      if ops[0].Push? {
        OverwritingPush(t.contents, ops[0].bytes, size);
        assert t.gone + [] == t.gone;
      }
      hide Pushed, CountAfter;
      PoppedIsGone(Step(t, ops[0], size), ops[1..], size);
    }
  }

  /** The count is right and the bytes popped and the bytes stored are the whole
    pushed stream if and only if no push of the run overflowed and none was too
    long. */
  lemma NothingLostUnlessOverflow(ops: seq<Op>, size: BlockSize)
    ensures var r := Run(EMPTY, ops, size);
            Right(r) && r.popped + r.contents == Stream(ops)
            <==> !Overflows([], ops, size) && !Miscounts([], ops, size)
  {
    var r := Run(EMPTY, ops, size);
    RunCounts(EMPTY, ops, size);
    PoppedCount(EMPTY, ops, size);
    if Right(r) {
      RunIsFifo(EMPTY, ops, size);
      if Overflows([], ops, size) {
        hide *;
        assert |[] + [] + Stream(ops)| == |Stream(ops)|;
        assert |r.popped + r.contents| < |Stream(ops)|;
      } else {
        PoppedIsGone(EMPTY, ops, size);
        hide *;
        assert [] + [] + Stream(ops) == Stream(ops);
      }
    }
  }

  lemma LastOfLast(x: seq<Byte>, b: seq<Byte>, size: nat)
    ensures Last(Last(x, size) + b, size) == Last(x + b, size)
  {
  }

  /** How a push is cut into pieces does not matter; and none of the pieces is too
    long when the whole fits an `int32_t`. */
  lemma PushInPieces(contents: seq<Byte>, a: seq<Byte>, b: seq<Byte>, size: BlockSize)
    requires |contents| <= size
    ensures |Pushed(contents, a, size, false)| <= size
    ensures Pushed(Pushed(contents, a, size, false), b, size, false)
         == Pushed(contents, a + b, size, false)
    ensures Min(|a + b|, size) <= INT32_MAX ==>
      && !TooLong(|contents|, a + b, size) && !TooLong(|contents|, a, size)
      && !TooLong(|Pushed(contents, a, size, false)|, b, size)
  {
    hide Pushed;
    OverwritingPush(contents, a, size);
    OverwritingPush(contents, a + b, size);
    OverwritingPush(Last(contents + a, size), b, size);
    LastOfLast(contents + a, b, size);
    hide Last;
    assert contents + (a + b) == contents + a + b;
  }

  /** The results of `n` single-byte pops. */
  function PopBytes(contents: seq<Byte>, n: nat): (seq<int>, seq<Byte>)
    decreases n
  {
    if n == 0 then
      ([], contents)
    else if contents == [] then
      var (rs, rest) := PopBytes(contents, n - 1);
      ([ALIB_BAD_ARG] + rs, rest)
    else
      var (rs, rest) := PopBytes(contents[1..], n - 1);
      ([contents[0] as int] + rs, rest)
  }

  /** They are one pop of `n` bytes, then errors once nothing is left. */
  lemma {:induction false} SinglePopsAreOnePop(contents: seq<Byte>, n: nat)
    ensures var (rs, rest) := PopBytes(contents, n);
      && rest == contents[Min(n, |contents|)..]
      && |rs| == n
      && forall k :: 0 <= k < n ==>
           rs[k] == if k < |contents| then contents[k] as int else ALIB_BAD_ARG
    decreases n
  {
    if n > 0 {
      SinglePopsAreOnePop(if contents == [] then [] else contents[1..], n - 1);
    }
  }
}
