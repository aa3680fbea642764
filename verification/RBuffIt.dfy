/** source/RBuffIt.c: an iterator over a ring buffer. */
module RBuffIts {
  import opened Memory
  import opened RBuffs

  /** The iterator's pointer: null, or an index into the block. */
  datatype Position = Null | At(index: nat)

  /** The members of the ring buffer that the iterator looks at. */
  datatype Shape = Shape(size: nat, begin: nat, end: nat, count: nat) {
    predicate Valid() {
      Linked(size, begin, end, count)
    }

    /** The place of the `k`-th stored byte. */
    function Place(k: nat): nat
      requires Valid() && k < size
    {
      if begin + k < size then begin + k else begin + k - size
    }
  }

  /** `RBuffIt_next`: the new position and the value returned. */
  function NextPosition(p: Position, s: Shape): (Position, bool) {
    match p
    case Null =>
      if s.count == 0 then (Null, false) else (At(s.begin), true)
    case At(i) =>
      var j := if i + 1 >= s.size then 0 else i + 1;
      if j == s.end then (Null, false) else (At(j), true)
  }

  /** `RBuffIt_get_index`, returned as an `int`. */
  function IndexOf(p: Position, s: Shape): int
    requires s.begin <= s.size
  {
    match p
    case Null => -1
    case At(i) => ToInt32(if i < s.begin then s.size - s.begin + i else i - s.begin)
  }

  class RBuffIt {
    const rbuff: RBuff
    var it: Position

    constructor (rbuff: RBuff)
      ensures this.rbuff == rbuff && it == Null
    {
      this.rbuff := rbuff;
      this.it := Null;
    }

    function TheShape(): Shape
      reads rbuff
    {
      Shape(rbuff.data.Length, rbuff.itBegin, rbuff.itEnd, rbuff.count)
    }

    method Next() returns (r: bool)
      requires rbuff.Valid()
      modifies this`it
      ensures (it, r) == NextPosition(old(it), TheShape())
    {
      match it {
        case Null =>
          if rbuff.count == 0 {
            return false;
          }
          it := At(rbuff.itBegin);
        case At(i) =>
          var j := i + 1;
          if j >= rbuff.data.Length {
            j := 0;
          }
          it := At(j);
          if j == rbuff.itEnd {
            it := Null;
            return false;
          }
      }
      r := true;
    }

    method GetIndex() returns (r: int)
      requires rbuff.Valid()
      ensures r == IndexOf(it, TheShape())
    {
      match it {
        case Null =>
          r := -1;
        case At(i) =>
          var index := 0;
          if i < rbuff.itBegin {
            index := index + (rbuff.data.Length - rbuff.itBegin);
            index := index + i;
          } else {
            index := i - rbuff.itBegin;
          }
          r := ToInt32(index);
      }
    }

    method Reset()
      modifies this`it
      ensures it == Null
    {
      it := Null;
    }
  }

  // ---------- Traversals ----------

  /** Position and result after the `k`-th call of `RBuffIt_next` since a reset. */
  function After(k: nat, s: Shape): (Position, bool) {
    if k == 0 then (Null, true) else NextPosition(After(k - 1, s).0, s)
  }

  lemma NextAround(n: nat, size: nat)
    requires 0 < size
    ensures (n + 1) % size == if n % size + 1 == size then 0 else n % size + 1
  {
    var q, r := n / size, n % size;
    assert n == q * size + r;
    if r + 1 == size {
      assert n + 1 == (q + 1) * size;
      Remainder(n + 1, q + 1, 0, size);
    } else {
      Remainder(n + 1, q, r + 1, size);
    }
  }

  lemma Wrapped(n: nat, size: nat)
    requires n < 2 * size
    ensures n % size == if n < size then n else n - size
  {
    if n < size {
      Remainder(n, 0, n, size);
    } else {
      Remainder(n, 1, n - size, size);
    }
  }

  /** One step around the block, from anywhere in it, unless it meets the end
    iterator. */
  lemma StepsAround(s: Shape, i: nat)
    requires i < s.size
    ensures NextPosition(At(i), s) ==
      if (i + 1) % s.size == s.end then (Null, false) else (At((i + 1) % s.size), true)
  {
    Wrapped(i + 1, s.size);
  }

  /** The index of any place is its distance from the oldest byte around the block. */
  lemma IndexIsTheDistance(s: Shape, i: nat)
    requires s.begin < s.size <= INT32_MAX && i < s.size
    ensures 0 <= IndexOf(At(i), s) < s.size && (s.begin + IndexOf(At(i), s)) % s.size == i
  {
    var d := if i < s.begin then s.size - s.begin + i else i - s.begin;
    assert IndexOf(At(i), s) == d;
    hide IndexOf;
    Wrapped(s.begin + d, s.size);
  }

  /** The first `count` calls visit the stored bytes in order, wherever the end iterator
    rests. */
  lemma {:induction false} Visits(s: Shape, k: nat)
    requires s.Valid() && 1 <= k <= s.count
    ensures After(k, s) == (At(s.Place(k - 1)), true)
  {
    if k > 1 {
      Visits(s, k - 1);
    } else {
      assert After(0, s) == (Null, true);
    }
  }

  /** The `k`-th call stands on the `k`-th oldest byte, and its index is reported. */
  predicate Visited(s: Shape, data: seq<Byte>, k: nat)
    requires s.Valid() && s.size == |data| && 1 <= k <= s.count
  {
    && After(k, s) == (At(s.Place(k - 1)), true)
    && data[s.Place(k - 1)] == Ring(data, s.begin)[..s.count][k - 1]
    && IndexOf(After(k, s).0, s) == k - 1
  }

  lemma VisitsByte(s: Shape, data: seq<Byte>, k: nat)
    requires s.Valid() && s.size == |data| && s.count <= INT32_MAX
    requires 1 <= k <= s.count
    ensures Visited(s, data, k)
  {
    hide After, Ring;
    Visits(s, k);
    RingAt(data, s.begin, k - 1);
  }

  lemma TraversalStops(s: Shape)
    requires s.Valid() && s.end < s.size
    ensures After(s.count + 1, s) == (Null, false)
  {
    if s.count == 0 {
      assert After(0, s) == (Null, true);
    } else {
      Visits(s, s.count);
    }
    assert After(s.count + 1, s) == NextPosition(After(s.count, s).0, s);
  }

  /** A traversal, complete: the `k`-th call stands on the `k`-th oldest byte and
    `RBuffIt_get_index` reports its index. The call after the last one returns false
    and leaves the iterator reset, unless the end iterator rests on the end of the
    block. */
  lemma Traversal(s: Shape, data: seq<Byte>)
    requires s.Valid() && s.size == |data| && s.count <= INT32_MAX
    ensures forall k :: 1 <= k <= s.count ==> Visited(s, data, k)
    ensures s.end < s.size ==> After(s.count + 1, s) == (Null, false)
  {
    hide After, Visited;
    forall k | 1 <= k <= s.count
      ensures Visited(s, data, k)
    {
      VisitsByte(s, data, k);
    }
    if s.end < s.size {
      TraversalStops(s);
    }
  }

  /** When the end iterator rests on the end of the block it is never met: the iterator
    goes around the block for ever. */
  lemma {:induction false} ParkedEndIsNeverMet(s: Shape, k: nat)
    requires s.Valid() && s.end == s.size && 0 < s.count && 1 <= k
    ensures After(k, s) == (At((s.begin + k - 1) % s.size), true)
  {
    if k > 1 {
      ParkedEndIsNeverMet(s, k - 1);
      NextAround(s.begin + k - 2, s.size);
    } else {
      assert After(0, s) == (Null, true);
    }
  }

  /** Exactly when a traversal ends: the buffer is empty or its end iterator does
    not rest on the end of the block. */
  lemma TraversalEnds(s: Shape)
    requires s.Valid()
    ensures (exists k: nat :: k >= 1 && After(k, s) == (Null, false))
            <==> s.count == 0 || s.end < s.size
  {
    if s.count == 0 {
      assert After(0, s) == (Null, true);
      assert After(1, s) == (Null, false);
    } else if s.end < s.size {
      TraversalStops(s);
    } else {
      forall k: nat | k >= 1
        ensures After(k, s) != (Null, false)
      {
        ParkedEndIsNeverMet(s, k);
      }
    }
  }
}
