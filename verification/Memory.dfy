/** Bytes, machine words and the three block copies the library relies on
  (source/alib_string.c and the C library's `memcpy`, taken to copy in
  ascending order).

  A pointer into a block of memory is an index into the array that stands for
  the block; a null pointer is a null array. */
module Memory {

  newtype Byte = b: int | 0 <= b < 256

  /** Number of values of a 64-bit word, and the largest one (ULONG_MAX). */
  const WORD: nat := 0x1_0000_0000_0000_0000
  const SIZE_MAX: nat := 0xFFFF_FFFF_FFFF_FFFF

  /** The size of the largest object, so that its pointers can be subtracted. */
  const PTRDIFF_MAX: nat := 0x7FFF_FFFF_FFFF_FFFF

  type SizeT = n: int | 0 <= n <= SIZE_MAX

  /** The largest value of a `long`, which has 64 bits. */
  const LONG_MAX: nat := 0x7FFF_FFFF_FFFF_FFFF

  /** C's conversion of a `size_t` to `long`. */
  function ToLong(n: SizeT): int {
    if n <= LONG_MAX then n else n - WORD
  }

  const INT32_MAX: nat := 0x7FFF_FFFF

  type Int32 = n: int | -0x8000_0000 <= n <= INT32_MAX

  /** C's conversion to `int32_t`: keep the low 32 bits, read as two's complement. */
  function ToInt32(n: int): Int32 {
    var low := n % 0x1_0000_0000;
    if low > INT32_MAX then low - 0x1_0000_0000 else low
  }

  /** C's conversion of an `int32_t` to `size_t`: a negative value becomes huge. */
  function AsSize(n: Int32): SizeT {
    if n < 0 then n + WORD else n
  }

  /** A conversion changes a number by a multiple of the number of values; the types
    leave one result. */
  lemma ConversionsWrap(n: int, i: Int32, z: SizeT)
    ensures (n - ToInt32(n)) % 0x1_0000_0000 == 0
    ensures (AsSize(i) - i) % WORD == 0
    ensures (z - ToLong(z)) % WORD == 0 && -(LONG_MAX + 1) <= ToLong(z) <= LONG_MAX
  {
  }

  function Min(a: int, b: int): int {
    if a < b then a else b
  }

  function Max(a: int, b: int): int {
    if a < b then b else a
  }

  // ---------- Division ----------

  lemma Scaled(m: int, n: int, b: int)
    requires m <= n && b > 0
    ensures m * b <= n * b
  {
  }

  lemma Quotient(a: int, b: int, n: int)
    requires b > 0 && a < n * b <= a + b
    ensures a / b == n - 1
  {
    var q := a / b;
    if q < n - 1 {
      Scaled(q + 1, n - 1, b);
    } else {
      Scaled(n - 1, q, b);
      if q > n - 1 {
        Scaled(n, q, b);
      }
    }
  }

  lemma Remainder(d: int, q: int, r: int, p: int)
    requires p > 0 && d == q * p + r && 0 <= r < p
    ensures d % p == r
  {
    assert (q + 1) * p == q * p + p;
    Quotient(d, p, q + 1);
    assert d == d / p * p + d % p;
  }

  /** The first `n` elements, or all of them when there are fewer. */
  function Take<T>(s: seq<T>, n: nat): seq<T> {
    s[..Min(n, |s|)]
  }

  /** The last `n` elements, or all of them when there are fewer. */
  function Last<T>(s: seq<T>, n: nat): seq<T> {
    s[|s| - Min(n, |s|)..]
  }

  /** `s` with the stretch that starts at `at` replaced by `bytes`. */
  function Patch(s: seq<Byte>, at: nat, bytes: seq<Byte>): seq<Byte>
    requires at + |bytes| <= |s|
  {
    s[..at] + bytes + s[at + |bytes|..]
  }

  /** What a copying loop leaves. */
  lemma IsPatch(s: seq<Byte>, at: nat, bytes: seq<Byte>, r: seq<Byte>)
    requires at + |bytes| <= |s| == |r|
    requires forall k :: 0 <= k < |s| ==> r[k] == if at <= k < at + |bytes| then bytes[k - at] else s[k]
    ensures r == Patch(s, at, bytes)
  {
  }

  /** `memcpy` from a block that does not overlap the destination. */
  method CopyIn(a: array<Byte>, at: nat, bytes: seq<Byte>)
    requires at + |bytes| <= a.Length
    modifies a
    ensures a[..] == Patch(old(a[..]), at, bytes)
  {
    for i := 0 to |bytes|
      invariant forall k :: 0 <= k < a.Length ==>
        a[k] == if at <= k < at + i then bytes[k - at] else old(a[k])
    {
      a[at + i] := bytes[i];
    }
  }

  /** `memcpy` inside one block, ascending. Right unless the destination starts
    inside the source. */
  method CopyForward(a: array<Byte>, to: nat, from: nat, count: nat)
    requires from + count <= a.Length && to + count <= a.Length
    requires to <= from || from + count <= to
    modifies a
    ensures a[..] == Patch(old(a[..]), to, old(a[..])[from..from + count])
  {
    hide Patch;
    ghost var was, source := a[..], a[from..from + count];
    for i := 0 to count
      invariant forall k :: 0 <= k < a.Length ==>
        a[k] == if to <= k < to + i then source[k - to] else was[k]
    {
      assert a[from + i] == was[from + i] == source[i];
      a[to + i] := a[from + i];
    }
    IsPatch(was, to, source, a[..]);
  }

  /** `memcpy_back`: the mirror image. Both pointers are first moved to the last
    byte, and the moved destination pointer is what is returned. */
  method CopyBack(a: array?<Byte>, to: nat, from: nat, count: nat) returns (r: int)
    requires a != null ==> from + count <= a.Length && to + count <= a.Length
    requires from <= to || to + count <= from
    modifies a
    ensures a != null ==> a[..] == Patch(old(a[..]), to, old(a[..])[from..from + count])
    ensures r == if a == null then to else to - 1
  {
    hide Patch;
    if a == null {
      return to;
    }
    ghost var was, source := a[..], a[from..from + count];
    var n := count;
    var src, dst := from + count - 1, to + count - 1;
    while n > 0
      invariant 0 <= n <= count
      invariant src == from + n - 1 && dst == to + n - 1
      invariant forall k :: 0 <= k < a.Length ==>
        a[k] == if to + n <= k < to + count then source[k - to] else was[k]
    {
      assert a[src] == was[src] == source[n - 1];
      a[dst] := a[src];
      n, src, dst := n - 1, src - 1, dst - 1;
    }
    IsPatch(was, to, source, a[..]);
    r := dst;
  }

  /** `memcpy_safe`: whatever the overlap, the destination ends up holding what
    the source held before the call. */
  method CopySafe(a: array?<Byte>, to: nat, from: nat, count: nat) returns (r: nat)
    requires a != null ==> from + count <= a.Length && to + count <= a.Length
    modifies a
    ensures a != null ==> a[..] == Patch(old(a[..]), to, old(a[..])[from..from + count])
    ensures r == to
  {
    if a == null {
      return to;
    }
    if to > from {
      var _ := CopyBack(a, to, from, count);
    } else {
      CopyForward(a, to, from, count);
    }
    r := to;
  }
}
