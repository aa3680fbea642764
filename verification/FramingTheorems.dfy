/** What the decoder of module Framing does over whole runs. */
module FramingTheorems {
  import opened Memory
  import opened Framing

  predicate NonEmpty(chunks: seq<seq<Byte>>) {
    forall i :: 0 <= i < |chunks| ==> chunks[i] != []
  }

  /** The state of a drained decoder that holds back the bytes `r`. */
  function Resting(r: seq<Byte>): State {
    if |r| <= HEADER then State(0, r, []) else State(Expected(r), r[HEADER..], [])
  }

  /** One received chunk: append it, then drain. */
  function Receive(s: State, chunk: seq<Byte>): (r: (seq<seq<Byte>>, State))
    requires Sound(s)
    ensures Sound(r.1)
  {
    OperationsKeepSound(s, chunk);
    var (s1, status) := Append(s, chunk);
    Drain(s1, status)
  }

  // ---------- One chunk ----------

  /** The draining loop parses: it hands over the frames `b` starts with and
    stops in the resting state of what follows them. */
  lemma {:induction false} DrainParses(b: seq<Byte>)
    requires |b| > HEADER
    ensures var (s, status) := Check(Resting(b));
            Drain(s, status) == (Parse(b).payloads, Resting(Parse(b).rest))
    decreases |b|
  {
    hide Decode;
    if HasFrame(b) {
      var (s, status) := Check(Resting(b));
      var u := AfterFrame(b);
      assert s.buff == FirstPayload(b) && s.unread == u;
      if status == DataRemaining {
        assert [] + u == u;
        assert Process(Clear(s)) == AppendNow(INITIAL, u);
        if |u| > HEADER {
          assert AppendNow(INITIAL, u) == Check(Resting(u));
          DrainParses(u);
        } else {
          assert AppendNow(INITIAL, u) == (Resting(u), Waiting);
        }
      } else {
        assert u == [] && Parse(u) == Parsed([], []);
        assert Clear(s) == Resting([]);
        assert [s.buff] + [] == [s.buff];
      }
      assert Parse(b) == Cons(s.buff, Parse(u));
    }
  }

  /** What a decoder that is only appended to holds after the bytes `b`, and the
    last status it returned. */
  function After(b: seq<Byte>): (State, Status) {
    if |b| <= HEADER then (Resting(b), Waiting) else Check(Resting(b))
  }

  /** More bytes after the header make the payload so far longer. */
  lemma RestingExtends(b: seq<Byte>, d: seq<Byte>)
    requires |b| > HEADER
    ensures Resting(b + d) == State(Expected(b), b[HEADER..] + d, [])
  {
    hide Decode;
    assert (b + d)[..HEADER] == b[..HEADER];
    assert (b + d)[HEADER..] == b[HEADER..] + d;
  }

  /** What a drained decoder held back and what it receives join up. */
  lemma AppendToResting(r: seq<Byte>, chunk: seq<Byte>)
    requires !HasFrame(r) && chunk != []
    ensures Sound(Resting(r))
    ensures Append(Resting(r), chunk) == After(r + chunk)
  {
    hide Decode;
    if |r| > HEADER {
      RestingExtends(r, chunk);
    }
  }

  /** A drained decoder that receives a non-empty chunk agrees with the parser
    on the bytes it held followed by the chunk, whatever the headers say. */
  lemma ReceiveParses(r: seq<Byte>, chunk: seq<Byte>)
    requires !HasFrame(r) && chunk != []
    ensures Sound(Resting(r))
    ensures var p := Parse(r + chunk);
            Receive(Resting(r), chunk) == (p.payloads, Resting(p.rest))
  {
    AppendToResting(r, chunk);
    hide Decode, Parse, Append;
    var b := r + chunk;
    if |b| > HEADER {
      DrainParses(b);
    } else {
      NoFrameNothingParsed(b);
    }
  }

  /** An empty chunk changes nothing, but while no header has been read the
    decoder reports a payload that nobody sent. */
  lemma ReceiveNothing(r: seq<Byte>)
    requires !HasFrame(r)
    ensures Sound(Resting(r))
    ensures Receive(Resting(r), []).0 == if |r| <= HEADER then [[]] else []
    ensures Receive(Resting(r), []).1 == Resting(r)
  {
    if r == [] {
      assert Append(Resting(r), []) == (INITIAL, Complete);
    } else if |r| <= HEADER {
      var (s, status) := Append(Resting(r), []);
      assert s == State(0, [], r) && status == DataRemaining;
      assert [] + r == r;
      assert Process(Clear(s)) == (Resting(r), Waiting);
      assert s.buff == [] && [s.buff] + [] == [[]];
      assert Drain(Resting(r), Waiting) == ([], Resting(r));
    }
  }

  // ---------- The parser over a growing stream ----------

  lemma NoFrameNothingParsed(b: seq<Byte>)
    requires !HasFrame(b)
    ensures Parse(b) == Parsed([], b)
  {
  }

  lemma FrameParsed(b: seq<Byte>)
    requires HasFrame(b)
    ensures Parse(b) == Cons(FirstPayload(b), Parse(AfterFrame(b)))
  {
  }

  lemma {:induction false} ParseStopsBeforeAFrame(b: seq<Byte>)
    ensures !HasFrame(Parse(b).rest)
    decreases |b|
  {
    if HasFrame(b) {
      ParseStopsBeforeAFrame(AfterFrame(b));
    }
  }

  /** One parse result after another. */
  function Then(p: Parsed, q: Parsed): Parsed {
    Parsed(p.payloads + q.payloads, q.rest)
  }

  lemma ConsThen(f: seq<Byte>, p: Parsed, q: Parsed)
    ensures Cons(f, Then(p, q)) == Then(Cons(f, p), q)
  {
    assert [f] + (p.payloads + q.payloads) == [f] + p.payloads + q.payloads;
  }

  /** Parsing can be interrupted anywhere and resumed from the remainder. */
  lemma {:induction false} ParseResumes(a: seq<Byte>, c: seq<Byte>)
    ensures Parse(a + c) == Then(Parse(a), Parse(Parse(a).rest + c))
    decreases |a|
  {
    var q := Parse(Parse(a).rest + c);
    if HasFrame(a) {
      FrameOfAnExtension(a, c);
      ParseResumes(AfterFrame(a), c);
      ConsThen(FirstPayload(a), Parse(AfterFrame(a)), q);
    } else {
      assert [] + q.payloads == q.payloads;
    }
  }

  /** More bytes do not change the first frame. */
  lemma FrameOfAnExtension(a: seq<Byte>, c: seq<Byte>)
    requires HasFrame(a)
    ensures HasFrame(a + c)
    ensures FirstPayload(a + c) == FirstPayload(a)
    ensures AfterFrame(a + c) == AfterFrame(a) + c
  {
    assert (a + c)[..HEADER] == a[..HEADER];
  }

  // ---------- Runs of the receiving loop ----------

  /** Receives the chunks one after the other and collects the payloads. */
  function ReceiveAll(s: State, chunks: seq<seq<Byte>>): (seq<seq<Byte>>, State)
    requires Sound(s)
    decreases |chunks|
  {
    if chunks == [] then
      ([], s)
    else
      var (first, s1) := Receive(s, chunks[0]);
      var (others, end) := ReceiveAll(s1, chunks[1..]);
      (first + others, end)
  }

  /** Empty chunks that arrive while no header has been read. */
  function Phantoms(r: seq<Byte>, chunks: seq<seq<Byte>>): nat
    decreases |chunks|
  {
    if chunks == [] then
      0
    else
      (if chunks[0] == [] && |r| <= HEADER then 1 else 0)
      + Phantoms(Parse(r + chunks[0]).rest, chunks[1..])
  }

  /** A chunk of any length, empty or not. */
  lemma ReceiveStep(r: seq<Byte>, chunk: seq<Byte>)
    requires !HasFrame(r)
    ensures Sound(Resting(r))
    ensures Receive(Resting(r), chunk).0
         == if chunk == [] && |r| <= HEADER then [[]] else Parse(r + chunk).payloads
    ensures Receive(Resting(r), chunk).1 == Resting(Parse(r + chunk).rest)
    ensures !HasFrame(Parse(r + chunk).rest)
  {
    if chunk == [] {
      ReceiveNothing(r);
      assert r + chunk == r;
    } else {
      ReceiveParses(r, chunk);
    }
    ParseStopsBeforeAFrame(r + chunk);
  }

  /** The parser takes the first chunk, then the others. */
  lemma ParseChunkByChunk(r: seq<Byte>, chunks: seq<seq<Byte>>)
    requires chunks != []
    ensures var p := Parse(r + chunks[0]);
            Parse(r + Concat(chunks)) == Then(p, Parse(p.rest + Concat(chunks[1..])))
  {
    hide Parse;
    ParseResumes(r + chunks[0], Concat(chunks[1..]));
    assert r + Concat(chunks) == (r + chunks[0]) + Concat(chunks[1..]);
  }

  /** The whole run, for every stream of bytes and every way to cut it: the
    decoder ends in the resting state of the parser's remainder, and it hands
    over as many payloads as the parser, and one more for every phantom. */
  lemma {:induction false} RunParses(r: seq<Byte>, chunks: seq<seq<Byte>>)
    requires !HasFrame(r)
    ensures Sound(Resting(r))
    ensures ReceiveAll(Resting(r), chunks).1 == Resting(Parse(r + Concat(chunks)).rest)
    ensures |ReceiveAll(Resting(r), chunks).0|
         == |Parse(r + Concat(chunks)).payloads| + Phantoms(r, chunks)
    decreases |chunks|
  {
    if chunks == [] {
      assert r + [] == r;
    } else {
      ReceiveStep(r, chunks[0]);
      RunParses(Parse(r + chunks[0]).rest, chunks[1..]);
      ParseChunkByChunk(r, chunks);
      assert r + [] == r;
    }
  }

  /** Without phantoms they are the very same payloads. */
  lemma {:induction false} RunParsesExactly(r: seq<Byte>, chunks: seq<seq<Byte>>)
    requires !HasFrame(r) && Phantoms(r, chunks) == 0
    ensures Sound(Resting(r))
    ensures ReceiveAll(Resting(r), chunks).0 == Parse(r + Concat(chunks)).payloads
    decreases |chunks|
  {
    if chunks == [] {
      assert r + [] == r;
    } else {
      ReceiveStep(r, chunks[0]);
      RunParsesExactly(Parse(r + chunks[0]).rest, chunks[1..]);
      ParseChunkByChunk(r, chunks);
    }
  }

  /** From a new decoder, the payloads received are those of the concatenated
    stream if and only if no empty chunk arrives while no header is known. */
  lemma DecoderAgreesWithParser(chunks: seq<seq<Byte>>)
    ensures ReceiveAll(INITIAL, chunks).1 == Resting(Parse(Concat(chunks)).rest)
    ensures ReceiveAll(INITIAL, chunks).0 == Parse(Concat(chunks)).payloads
            <==> Phantoms([], chunks) == 0
  {
    hide Parse, ReceiveAll, Phantoms, Concat;
    RunParses([], chunks);
    if Phantoms([], chunks) == 0 {
      RunParsesExactly([], chunks);
    }
    assert [] + Concat(chunks) == Concat(chunks);
  }

  lemma {:induction false} NoPhantoms(r: seq<Byte>, chunks: seq<seq<Byte>>)
    requires NonEmpty(chunks)
    ensures Phantoms(r, chunks) == 0
    decreases |chunks|
  {
    if chunks != [] {
      NoPhantoms(Parse(r + chunks[0]).rest, chunks[1..]);
    }
  }

  // ---------- Round trip ----------

  predicate Sendable(payloads: seq<seq<Byte>>) {
    forall i :: 0 <= i < |payloads| ==> |payloads[i]| <= INT32_MAX
  }

  lemma HeaderComesFirst(n: Int32, u: seq<Byte>)
    ensures Expected(Encode(n) + u) == n
  {
    HeaderRoundTrip(n);
    assert (Encode(n) + u)[..HEADER] == Encode(n);
  }

  /** A frame followed by anything is recognised, except a bare header. */
  lemma FrameIsRecognised(p: seq<Byte>, u: seq<Byte>)
    requires |p| <= INT32_MAX && (p != [] || u != [])
    ensures HasFrame(Frame(p) + u)
    ensures FirstPayload(Frame(p) + u) == p && AfterFrame(Frame(p) + u) == u
  {
    hide Encode, Decode;
    assert Frame(p) + u == Encode(|p|) + (p + u);
    HeaderComesFirst(|p|, p + u);
  }

  /** The parser undoes the framing, unless the stream ends in the bare header
    of an empty payload. */
  lemma {:induction false} ParseUndoesFraming(payloads: seq<seq<Byte>>, t: seq<Byte>)
    requires Sendable(payloads)
    requires payloads == [] || t != [] || payloads[|payloads| - 1] != []
    ensures Parse(FrameAll(payloads) + t) == Then(Parsed(payloads, []), Parse(t))
    decreases |payloads|
  {
    hide Parse, Frame, HasFrame, FirstPayload, AfterFrame;
    if payloads == [] {
      assert FrameAll(payloads) + t == t;
      assert [] + Parse(t).payloads == Parse(t).payloads;
    } else {
      var p, rest := payloads[0], payloads[1..];
      var u := FrameAll(rest) + t;
      if rest != [] {
        FramesAreLong(rest);
      }
      FrameIsRecognised(p, u);
      FrameParsed(Frame(p) + u);
      assert FrameAll(payloads) + t == Frame(p) + u;
      ParseUndoesFraming(rest, t);
      ConsThen(p, Parsed(rest, []), Parse(t));
      assert Cons(p, Parsed(rest, [])) == Parsed(payloads, []);
    }
  }

  lemma FramesAreLong(payloads: seq<seq<Byte>>)
    requires payloads != []
    ensures |FrameAll(payloads)| >= HEADER
  {
  }

  lemma {:induction false} FrameAllSplits(a: seq<seq<Byte>>, b: seq<seq<Byte>>)
    ensures FrameAll(a + b) == FrameAll(a) + FrameAll(b)
    decreases |a|
  {
    if a == [] {
      assert a + b == b;
    } else {
      assert (a + b)[1..] == a[1..] + b;
      FrameAllSplits(a[1..], b);
    }
  }

  /** When the last payload is empty it is not handed over: its header stays
    behind as a partial header. All the others arrive. */
  lemma TrailingEmptyPayloadStaysBehind(init: seq<seq<Byte>>)
    requires Sendable(init)
    ensures Parse(FrameAll(init + [[]])) == Parsed(init, Frame([]))
  {
    var header := Frame([]);
    assert FrameAll([[]]) == header by {
      var one: seq<seq<Byte>> := [[]];
      assert one[1..] == [];
      assert FrameAll(one) == header + [] == header;
    }
    FrameAllSplits(init, [[]]);
    hide Parse, FrameAll, Frame;
    ParseUndoesFraming(init, header);
    NoFrameNothingParsed(header);
    assert init + [] == init;
  }

  /** The round trip over every chunking: payloads framed as the sender frames
    them, concatenated and cut into any non-empty chunks come back exactly, in
    order and with nothing left over, when the last one is not empty. */
  lemma RoundTripHolds(payloads: seq<seq<Byte>>, chunks: seq<seq<Byte>>)
    requires Sendable(payloads)
    requires NonEmpty(chunks) && Concat(chunks) == FrameAll(payloads)
    requires payloads == [] || payloads[|payloads| - 1] != []
    ensures ReceiveAll(INITIAL, chunks) == (payloads, INITIAL)
  {
    assert Resting([]) == INITIAL;
    hide Parse, ReceiveAll, FrameAll, Phantoms, Concat, Frame, Resting;
    NoPhantoms([], chunks);
    DecoderAgreesWithParser(chunks);
    ParseUndoesFraming(payloads, []);
    NoFrameNothingParsed([]);
    assert FrameAll(payloads) + [] == FrameAll(payloads);
    assert payloads + [] == payloads;
  }

  /** Otherwise exactly the last payload is missing. */
  lemma RoundTripFails(payloads: seq<seq<Byte>>, chunks: seq<seq<Byte>>)
    requires Sendable(payloads)
    requires NonEmpty(chunks) && Concat(chunks) == FrameAll(payloads)
    requires payloads != [] && payloads[|payloads| - 1] == []
    ensures ReceiveAll(INITIAL, chunks).0 == payloads[..|payloads| - 1]
  {
    hide Parse, ReceiveAll, FrameAll, Phantoms, Concat, Frame;
    NoPhantoms([], chunks);
    DecoderAgreesWithParser(chunks);
    var init := payloads[..|payloads| - 1];
    assert payloads == init + [[]];
    TrailingEmptyPayloadStaysBehind(init);
  }

  /** A length that does not fit the header comes out smaller, or huge. */
  lemma TruncatedLength(n: nat)
    requires INT32_MAX < n <= PTRDIFF_MAX
    ensures AsSize(ToInt32(n)) < n || AsSize(ToInt32(n)) > PTRDIFF_MAX
  {
  }

  lemma HeaderOfFrame(p: seq<Byte>, t: seq<Byte>)
    ensures |Frame(p) + t| == HEADER + |p| + |t|
    ensures Expected(Frame(p) + t) == ToInt32(|p|)
  {
    HeaderComesFirst(ToInt32(|p|), p + t);
    assert Frame(p) + t == Encode(ToInt32(|p|)) + (p + t);
  }

  /** With another length in the header, `p` is not the first payload. */
  lemma WrongLength(b: seq<Byte>, p: seq<Byte>)
    requires |b| >= HEADER
    requires AsSize(Expected(b)) < |p| || AsSize(Expected(b)) > |b|
    ensures Parse(b).payloads == [] || Parse(b).payloads[0] != p
  {
    hide Expected;
    if HasFrame(b) {
      FrameParsed(b);
      assert |FirstPayload(b)| != |p|;
    }
  }

  /** A payload too long for the header is cut, or never completed. */
  lemma OversizeIsNotParsed(p: seq<Byte>, t: seq<Byte>)
    requires |p| > INT32_MAX && HEADER + |p| + |t| <= PTRDIFF_MAX
    ensures var q := Parse(Frame(p) + t);
      q.payloads == [] || q.payloads[0] != p
  {
    TruncatedLength(|p|);
    HeaderOfFrame(p, t);
    hide *;
    WrongLength(Frame(p) + t, p);
  }

  lemma {:induction false} OversizeBreaksTheStream(payloads: seq<seq<Byte>>)
    requires !Sendable(payloads) && |FrameAll(payloads)| <= PTRDIFF_MAX
    ensures Parse(FrameAll(payloads)).payloads != payloads
    decreases |payloads|
  {
    var p, rest := payloads[0], payloads[1..];
    assert |FrameAll(payloads)| == HEADER + |p| + |FrameAll(rest)|;
    if |p| > INT32_MAX {
      OversizeIsNotParsed(p, FrameAll(rest));
    } else {
      assert !Sendable(rest);
      FramesAreLong(rest);
      FrameIsRecognised(p, FrameAll(rest));
      FrameParsed(FrameAll(payloads));
      OversizeBreaksTheStream(rest);
      hide Parse, FrameAll, HasFrame, FirstPayload, AfterFrame;
      assert Cons(p, Parse(FrameAll(rest))).payloads[1..] == Parse(FrameAll(rest)).payloads;
    }
  }

  /** So the round trip holds if and only if every payload fits the header and the
    last one is not empty. A stream with a longer payload is taken to be at most
    as long as the largest object. */
  lemma RoundTrip(payloads: seq<seq<Byte>>, chunks: seq<seq<Byte>>)
    requires NonEmpty(chunks) && Concat(chunks) == FrameAll(payloads)
    requires Sendable(payloads) || |FrameAll(payloads)| <= PTRDIFF_MAX
    ensures ReceiveAll(INITIAL, chunks) == (payloads, INITIAL)
            <==> Sendable(payloads) && (payloads == [] || payloads[|payloads| - 1] != [])
  {
    hide ReceiveAll, FrameAll, Concat, Parse, Phantoms;
    if !Sendable(payloads) {
      NoPhantoms([], chunks);
      DecoderAgreesWithParser(chunks);
      OversizeBreaksTheStream(payloads);
    } else if payloads == [] || payloads[|payloads| - 1] != [] {
      RoundTripHolds(payloads, chunks);
    } else {
      RoundTripFails(payloads, chunks);
    }
  }

  /** A single payload below 2^63 bytes survives the wire on its own exactly when
    its length is positive and fits the 32-bit header. */
  lemma OnePayloadRoundTrip(p: seq<Byte>)
    requires |p| <= PTRDIFF_MAX
    ensures Parse(Frame(p)) == Parsed([p], []) <==> 0 < |p| <= INT32_MAX
  {
    hide Encode, Decode;
    var b := Frame(p);
    HeaderComesFirst(ToInt32(|p|), p);
    assert b[HEADER..] == p;
    if 0 < |p| <= INT32_MAX {
      assert FirstPayload(b) == p && AfterFrame(b) == [];
    } else if HasFrame(b) {
      hide Parse;
      FrameParsed(b);
      assert |FirstPayload(b)| < |p|;
      assert Parse(b).payloads[0] == FirstPayload(b);
    }
  }

  // ---------- Appending without draining ----------

  /** No byte is lost, duplicated or reordered, and the status says what it
    should: bytes are set aside exactly on DataRemaining, and the decoder waits
    exactly while the header or the payload is incomplete. */
  lemma AfterKeepsEveryByte(b: seq<Byte>)
    ensures var (s, status) := After(b);
      && Sound(s)
      && b == (if |b| > HEADER then b[..HEADER] else []) + s.buff + s.unread
      && (|b| > HEADER ==> s.dataLen == Expected(b))
      && (status == DataRemaining <==> s.unread != [])
      && (status == Waiting <==> |b| <= HEADER || |b| - HEADER < AsSize(Expected(b)))
  {
  }

  /** Processing what is set aside splits it off again. */
  lemma ProcessIsIdle(b: seq<Byte>)
    requires |b| > HEADER && Expected(b) != 0
    requires Check(Resting(b)).1 == DataRemaining
    ensures Process(Check(Resting(b)).0) == Check(Resting(b))
  {
    hide Decode;
    var s := Check(Resting(b)).0;
    assert s.buff + s.unread == b[HEADER..];
    assert s.(unread := [], buff := s.buff + s.unread) == Resting(b);
  }

  lemma AppendExtendsAside(b: seq<Byte>, d: seq<Byte>)
    requires d != []
    requires |b| > HEADER && Expected(b) != 0
    requires Check(Resting(b)).1 == DataRemaining
    ensures Append(Check(Resting(b)).0, d) == Check(Resting(b + d))
  {
    hide Expected;
    var s := Check(Resting(b)).0;
    ProcessIsIdle(b);
    RestingExtends(b, d);
    var payload, expected := b[HEADER..], AsSize(s.dataLen);
    assert (payload + d)[..expected] == s.buff;
    assert [] + (payload + d)[expected..] == s.unread + d;
  }

  lemma AppendExtends(b: seq<Byte>, d: seq<Byte>)
    requires d != []
    requires |b| <= HEADER || Expected(b) != 0
    ensures Sound(After(b).0)
    ensures Append(After(b).0, d) == After(b + d)
  {
    hide Decode;
    if |b| > HEADER {
      RestingExtends(b, d);
      if After(b).1 == DataRemaining {
        AppendExtendsAside(b, d);
      }
    }
  }

  /** Appends the chunks one after the other, without draining. */
  function AppendAll(s: State, status: Status, chunks: seq<seq<Byte>>): (State, Status)
    requires Sound(s)
    decreases |chunks|
  {
    if chunks == [] then
      (s, status)
    else
      OperationsKeepSound(s, chunks[0]);
      var (s1, status1) := Append(s, chunks[0]);
      AppendAll(s1, status1, chunks[1..])
  }

  predicate IsChunking(chunks: seq<seq<Byte>>, b: seq<Byte>) {
    NonEmpty(chunks) && Concat(chunks) == b
  }

  /** From `b` on, appending any chunks of `c` gives the state after `b + c`. */
  lemma {:induction false} AppendAllExtends(b: seq<Byte>, chunks: seq<seq<Byte>>)
    requires NonEmpty(chunks)
    requires var all := b + Concat(chunks);
             |all| <= HEADER + 1 || Expected(all) != 0
    ensures Sound(After(b).0)
    ensures AppendAll(After(b).0, After(b).1, chunks) == After(b + Concat(chunks))
    decreases |chunks|
  {
    if chunks == [] {
      assert b + [] == b;
    } else {
      var d, more := chunks[0], Concat(chunks[1..]);
      assert b + (d + more) == (b + d) + more;
      if |b| > HEADER {
        assert (b + (d + more))[..HEADER] == b[..HEADER];
      }
      AppendExtends(b, d);
      AppendAllExtends(b + d, chunks[1..]);
    }
  }

  ghost predicate ChunkingDoesNotMatter(b: seq<Byte>) {
    forall c1, c2 :: IsChunking(c1, b) && IsChunking(c2, b) ==>
      AppendAll(INITIAL, Waiting, c1) == AppendAll(INITIAL, Waiting, c2)
  }

  lemma ChunkingsThatDiffer(b: seq<Byte>, c1: seq<seq<Byte>>, c2: seq<seq<Byte>>)
    requires IsChunking(c1, b) && IsChunking(c2, b)
    requires AppendAll(INITIAL, Waiting, c1) != AppendAll(INITIAL, Waiting, c2)
    ensures !ChunkingDoesNotMatter(b)
  {
  }

  /** A frame of length 0 makes the decoder forget that it read a header, so the
    state then depends on where the stream was cut. */
  lemma ZeroLengthFrameShowsTheCut(b: seq<Byte>)
    requires |b| > HEADER + 1 && Expected(b) == 0
    ensures !ChunkingDoesNotMatter(b)
  {
    hide Decode, ChunkingDoesNotMatter;
    var whole: seq<seq<Byte>>, cut: seq<seq<Byte>> := [b], [b[..HEADER + 1], b[HEADER + 1..]];
    assert Concat([b[HEADER + 1..]]) == b[HEADER + 1..];
    assert Concat(cut) == b;
    assert Concat([]) == [];
    assert Concat(whole) == b;
    assert IsChunking(whole, b) && IsChunking(cut, b);
    assert [] + b == b && [] + b[HEADER..] == b[HEADER..];
    var one := Append(INITIAL, b).0;
    assert one == State(0, [], b[HEADER..]);
    assert |whole[1..]| == 0;
    assert AppendAll(INITIAL, Waiting, whole).0 == one;
    var five := b[..HEADER + 1];
    assert five[..HEADER] == b[..HEADER] && [] + five == five;
    assert [] + five[HEADER..] == [b[HEADER]];
    var (s1, st1) := Append(INITIAL, five);
    assert s1 == State(0, [], [b[HEADER]]);
    var (s2, st2) := Process(s1);
    assert s2 == State(0, [b[HEADER]], []) && st2 == Waiting;
    var (s3, st3) := Append(s1, b[HEADER + 1..]);
    assert |cut[1..][1..]| == 0;
    assert AppendAll(s1, st1, cut[1..]) == (s3, st3);
    assert AppendAll(INITIAL, Waiting, cut) == (s3, st3);
    assert s3 != one;
    ChunkingsThatDiffer(b, whole, cut);
  }

  /** Chunking independence, exactly: the state and the status after a run of
    non-empty appends are a function of the concatenated bytes alone if and only
    if the first frame has a non-zero length or at most one byte follows its
    header. */
  lemma ChunkingIndependence(b: seq<Byte>)
    ensures ChunkingDoesNotMatter(b) <==> (|b| <= HEADER + 1 || Expected(b) != 0)
    ensures (|b| <= HEADER + 1 || Expected(b) != 0) ==>
              forall c :: IsChunking(c, b) ==> AppendAll(INITIAL, Waiting, c) == After(b)
  {
    if |b| <= HEADER + 1 || Expected(b) != 0 {
      forall c | IsChunking(c, b)
        ensures AppendAll(INITIAL, Waiting, c) == After(b)
      {
        assert [] + Concat(c) == b;
        AppendAllExtends([], c);
      }
    } else {
      ZeroLengthFrameShowsTheCut(b);
    }
  }
}
