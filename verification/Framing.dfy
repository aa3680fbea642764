/** The framing protocol of source/ComDataCheck.c on values: the state of the
  incremental decoder, its operations as functions, and the pure parser they must
  agree with.

  A frame is a four-byte length in network byte order, then that many bytes.
  The decoder's state is the expected length (0 also means "no header yet"),
  the main buffer (which doubles as storage for a partial header) and the
  buffer of bytes not looked at yet. */
module Framing {
  import opened Memory

  // ---------- The header ----------

  const HEADER: nat := 4

  /** `htonl` of a 32-bit integer, as the bytes in memory. */
  function Encode(n: Int32): (bytes: seq<Byte>)
    ensures |bytes| == HEADER
  {
    var u3 := n % 0x1_0000_0000;
    var u2 := u3 / 0x100;
    var u1 := u2 / 0x100;
    [(u1 / 0x100) as Byte, (u1 % 0x100) as Byte, (u2 % 0x100) as Byte, (u3 % 0x100) as Byte]
  }

  /** `ntohl` of four bytes in memory, assigned to an `int32_t`. */
  function Decode(b: seq<Byte>): Int32
    requires |b| == HEADER
  {
    ToInt32(((b[0] as int * 0x100 + b[1] as int) * 0x100 + b[2] as int) * 0x100 + b[3] as int)
  }

  /** A digit taken off and put back. */
  lemma Digit(u: nat)
    ensures u / 0x100 * 0x100 + u % 0x100 == u
  {
  }

  lemma WrapsBack(n: Int32)
    ensures ToInt32(n % 0x1_0000_0000) == n
  {
  }

  lemma HeaderRoundTrip(n: Int32)
    ensures Decode(Encode(n)) == n
  {
    hide ToInt32;
    var u3 := n % 0x1_0000_0000;
    Digit(u3);
    Digit(u3 / 0x100);
    Digit(u3 / 0x100 / 0x100);
    WrapsBack(n);
  }

  /** `x` comes first: it is less in the first byte in which the two differ. */
  ghost predicate Precedes(x: seq<Byte>, y: seq<Byte>) {
    exists k :: 0 <= k < |x| && k < |y| && x[..k] == y[..k] && x[k] < y[k]
  }

  lemma PrecedesAt(x: seq<Byte>, y: seq<Byte>, k: nat)
    requires k < |x| && k < |y| && (forall i :: 0 <= i < k ==> x[i] == y[i]) && x[k] < y[k]
    ensures Precedes(x, y) && !Precedes(y, x)
  {
    assert x[..k] == y[..k];
    if j :| 0 <= j < |y| && j < |x| && y[..j] == x[..j] && y[j] < x[j] {
      assert k < j ==> x[..j][k] == y[..j][k];
    }
  }

  /** Numbers compare as their digits do, from the first one on. */
  lemma DigitOrder(a: nat, b: nat)
    requires a < b
    ensures a / 0x100 < b / 0x100 || (a / 0x100 == b / 0x100 && a % 0x100 < b % 0x100)
  {
  }

  /** The 32 bits of a length, as an unsigned number. */
  function Unsigned(n: Int32): nat {
    n % 0x1_0000_0000
  }

  lemma EncodedDigits(n: Int32)
    ensures var e, u := Encode(n), Unsigned(n);
      && e[0] as int == u / 0x100 / 0x100 / 0x100 && e[1] as int == u / 0x100 / 0x100 % 0x100
      && e[2] as int == u / 0x100 % 0x100 && e[3] as int == u % 0x100
  {
  }

  lemma SmallerPrecedes(a: Int32, b: Int32)
    requires Unsigned(a) < Unsigned(b)
    ensures Precedes(Encode(a), Encode(b)) && !Precedes(Encode(b), Encode(a))
  {
    hide Precedes, Encode, Unsigned;
    var x, y, u, v := Encode(a), Encode(b), Unsigned(a), Unsigned(b);
    EncodedDigits(a);
    EncodedDigits(b);
    DigitOrder(u, v);
    if u / 0x100 == v / 0x100 {
      PrecedesAt(x, y, 3);
    } else {
      DigitOrder(u / 0x100, v / 0x100);
      if u / 0x100 / 0x100 == v / 0x100 / 0x100 {
        PrecedesAt(x, y, 2);
      } else {
        DigitOrder(u / 0x100 / 0x100, v / 0x100 / 0x100);
        PrecedesAt(x, y, if x[0] == y[0] then 1 else 0);
      }
    }
  }

  lemma UnsignedOrder(a: Int32, b: Int32)
    ensures Unsigned(a) == Unsigned(b) ==> a == b
    ensures 0 <= a && 0 <= b ==> (Unsigned(a) < Unsigned(b) <==> a < b)
  {
  }

  /** Network byte order: the order of headers, read from the first byte on, is the
    order of the lengths as unsigned numbers, which for real lengths is theirs. */
  lemma NetworkOrder(a: Int32, b: Int32)
    ensures Precedes(Encode(a), Encode(b)) <==> Unsigned(a) < Unsigned(b)
    ensures 0 <= a && 0 <= b ==> (Precedes(Encode(a), Encode(b)) <==> a < b)
  {
    hide Encode, Unsigned;
    UnsignedOrder(a, b);
    if Unsigned(a) < Unsigned(b) {
      SmallerPrecedes(a, b);
    } else if Unsigned(b) < Unsigned(a) {
      SmallerPrecedes(b, a);
    }
  }

  /** What `ComDataCheck_send` puts on the wire for a buffer. */
  function Frame(payload: seq<Byte>): seq<Byte> {
    Encode(ToInt32(|payload|)) + payload
  }

  function FrameAll(payloads: seq<seq<Byte>>): seq<Byte> {
    if payloads == [] then [] else Frame(payloads[0]) + FrameAll(payloads[1..])
  }

  // ---------- The reference: a pure parser ----------

  datatype Parsed = Parsed(payloads: seq<seq<Byte>>, rest: seq<Byte>)

  function Cons(p: seq<Byte>, r: Parsed): Parsed {
    Parsed([p] + r.payloads, r.rest)
  }

  /** The expected payload length of a stream whose header has been recognised.
    A header counts only once a byte beyond it has been seen. */
  function Expected(b: seq<Byte>): Int32
    requires |b| >= HEADER
  {
    Decode(b[..HEADER])
  }

  /** Whether `b` starts with a frame the decoder can hand over. */
  predicate HasFrame(b: seq<Byte>) {
    |b| > HEADER && AsSize(Expected(b)) <= |b| - HEADER
  }

  function FirstPayload(b: seq<Byte>): seq<Byte>
    requires HasFrame(b)
  {
    b[HEADER..HEADER + AsSize(Expected(b))]
  }

  function AfterFrame(b: seq<Byte>): seq<Byte>
    requires HasFrame(b)
  {
    b[HEADER + AsSize(Expected(b))..]
  }

  function Parse(b: seq<Byte>): Parsed
    decreases |b|
  {
    if HasFrame(b) then Cons(FirstPayload(b), Parse(AfterFrame(b))) else Parsed([], b)
  }

  function Concat(chunks: seq<seq<Byte>>): seq<Byte> {
    if chunks == [] then [] else chunks[0] + Concat(chunks[1..])
  }

  // ---------- The decoder ----------

  datatype Status = Complete | Waiting | DataRemaining

  datatype State = State(dataLen: Int32, buff: seq<Byte>, unread: seq<Byte>)

  /** No header has been read while the main buffer holds a part of one. */
  predicate Sound(s: State) {
    s.dataLen == 0 ==> |s.buff| <= HEADER
  }

  const INITIAL := State(0, [], [])

  /** `ComDataCheck_check` in input mode. */
  function Check(s: State): (State, Status) {
    var expected := AsSize(s.dataLen);
    if |s.buff| < expected then
      (s, Waiting)
    else if |s.buff| == expected then
      (s, Complete)
    else
      (State(s.dataLen, s.buff[..expected], s.unread + s.buff[expected..]), DataRemaining)
  }

  /** `ComDataCheck_append` below its first test: no bytes are set aside. */
  function AppendNow(s: State, data: seq<Byte>): (State, Status)
    requires Sound(s)
  {
    if data == [] then
      Check(s)
    else if s.dataLen != 0 then
      Check(s.(buff := s.buff + data))
    else if |s.buff + data| > HEADER then
      var all := s.buff + data;
      Check(s.(dataLen := Expected(all), buff := all[HEADER..]))
    else
      (s.(buff := s.buff + data), Waiting)
  }

  /** `ComDataCheck_process_buffered_data`. */
  function Process(s: State): (State, Status)
    requires Sound(s)
  {
    AppendNow(s.(unread := []), s.unread)
  }

  /** `ComDataCheck_append` in input mode. */
  function Append(s: State, data: seq<Byte>): (State, Status)
    requires Sound(s)
  {
    if s.unread == [] then
      AppendNow(s, data)
    else
      var (s1, status) := Process(s);
      if status != Waiting then
        (s1.(unread := s1.unread + data), if data != [] then DataRemaining else status)
      else
        AppendNow(s1, data)
  }

  /** `ComDataCheck_clear`. */
  function Clear(s: State): State {
    State(0, [], s.unread)
  }

  lemma OperationsKeepSound(s: State, data: seq<Byte>)
    requires Sound(s)
    ensures Sound(Check(s).0) && Sound(AppendNow(s, data).0) && Sound(Process(s).0)
    ensures Sound(Append(s, data).0) && Sound(Clear(s))
  {
    hide Decode;
  }

  /** Processing loses no more than a header, and while it waits nothing is set
    aside. */
  lemma ProcessKeeps(s: State)
    requires Sound(s)
    ensures Sound(Process(s).0)
    ensures |Process(s).0.buff| + |Process(s).0.unread| <= |s.buff| + |s.unread|
    ensures Process(s).1 == Waiting ==> Process(s).0.unread == []
  {
    hide Decode;
  }

  // ---------- How the decoder is used ----------

  /** While the status offers a payload: read the buffer, clear it and, when
    bytes are set aside, have them processed. */
  function Drain(s: State, status: Status): (r: (seq<seq<Byte>>, State))
    requires Sound(s)
    ensures Sound(r.1)
    decreases |s.unread|, status == DataRemaining
  {
    match status
    case Waiting => ([], s)
    case Complete => ([s.buff], Clear(s))
    case DataRemaining =>
      var (next, st) := Process(Clear(s));
      var (payloads, end) := Drain(next, st);
      ([s.buff] + payloads, end)
  }
}
