/** Every way in which a program may use the decoder of module Framing: appends,
  reads followed by a clear, and processing, in any order. */
module FramingSchedules {
  import opened Memory
  import opened Framing
  import opened FramingTheorems

  /** `Take` reads the payload that was offered, and clears. */
  datatype Call = Append(data: seq<Byte>) | Take | Process

  /** The decoder, whether it has offered a payload that was not taken yet, and the
    payloads taken. */
  datatype Session = Session(s: State, offered: bool, payloads: seq<seq<Byte>>)

  const NEW := Session(INITIAL, false, [])

  /** Some bytes are appended, a payload is there to take, or bytes to process. An
    empty append needs a header that was or will be read. */
  predicate Allowed(t: Session, call: Call) {
    match call
    case Append(data) => data != [] || (|Held(t)| > HEADER && !Skips(t, call))
    case Take => t.offered
    case Process => t.s.unread != []
  }

  function Step(t: Session, call: Call): (r: Session)
    requires Sound(t.s)
    ensures Sound(r.s)
  {
    OperationsKeepSound(t.s, if call.Append? then call.data else []);
    match call
    case Append(data) =>
      var (s, status) := Framing.Append(t.s, data);
      Session(s, status != Waiting, t.payloads)
    case Take =>
      Session(Clear(t.s), false, t.payloads + [t.s.buff])
    case Process =>
      var (s, status) := Framing.Process(t.s);
      Session(s, status != Waiting, t.payloads)
  }

  predicate Legal(t: Session, calls: seq<Call>)
    requires Sound(t.s)
    decreases |calls|
  {
    calls == [] || (Allowed(t, calls[0]) && Legal(Step(t, calls[0]), calls[1..]))
  }

  function Run(t: Session, calls: seq<Call>): (r: Session)
    requires Sound(t.s)
    ensures Sound(r.s)
    decreases |calls|
  {
    if calls == [] then t else Run(Step(t, calls[0]), calls[1..])
  }

  /** The bytes that the calls append. */
  function Stream(calls: seq<Call>): seq<Byte>
    decreases |calls|
  {
    if calls == [] then []
    else (if calls[0].Append? then calls[0].data else []) + Stream(calls[1..])
  }

  /** The call comes while an empty payload is offered, and is not its reader: the
    decoder cannot tell that payload from none. */
  predicate Skips(t: Session, call: Call) {
    t.offered && t.s.dataLen == 0 && !call.Take?
  }

  function Skipped(t: Session, calls: seq<Call>): nat
    requires Sound(t.s)
    decreases |calls|
  {
    if calls == [] then 0
    else (if Skips(t, calls[0]) then 1 else 0) + Skipped(Step(t, calls[0]), calls[1..])
  }

  /** The bytes of the stream that the decoder holds; a header that was read stands
    for its four bytes. */
  function Held(t: Session): seq<Byte> {
    (if t.offered || t.s.dataLen != 0 then Encode(t.s.dataLen) else []) + t.s.buff + t.s.unread
  }

  // ---------- Headers ----------

  lemma Recombined(a: nat, b: nat)
    requires b < 0x100
    ensures (a * 0x100 + b) / 0x100 == a && (a * 0x100 + b) % 0x100 == b
  {
  }

  lemma LowBits(u: nat)
    requires u < 0x1_0000_0000
    ensures ToInt32(u) % 0x1_0000_0000 == u
  {
  }

  /** A header read and written again. */
  lemma HeaderWrittenAgain(b: seq<Byte>)
    requires |b| == HEADER
    ensures Encode(Decode(b)) == b
  {
    hide ToInt32;
    var b0, b1, b2, b3 := b[0] as int, b[1] as int, b[2] as int, b[3] as int;
    Recombined((b0 * 0x100 + b1) * 0x100 + b2, b3);
    Recombined(b0 * 0x100 + b1, b2);
    Recombined(b0, b1);
    LowBits(((b0 * 0x100 + b1) * 0x100 + b2) * 0x100 + b3);
  }

  // ---------- What the decoder holds ----------

  /** The decoder holds the bytes `h`: as after appending them, or all set aside after
    a clear. */
  predicate Holds(t: Session, h: seq<Byte>) {
    (t.s == After(h).0 && (t.offered <==> After(h).1 != Waiting))
    || (t.s == State(0, [], h) && !t.offered)
  }

  lemma HeldBytes(t: Session, h: seq<Byte>)
    requires Holds(t, h)
    ensures Held(t) == h && Sound(t.s)
  {
    hide Encode, Decode;
    AfterKeepsEveryByte(h);
    if |h| > HEADER {
      HeaderWrittenAgain(h[..HEADER]);
    }
  }

  /** Processing after a clear starts over with what was set aside. */
  lemma ProcessAfterClear(u: seq<Byte>)
    requires u != []
    ensures Framing.Process(State(0, [], u)) == After(u)
  {
    hide Decode;
    assert [] + u == u;
  }

  /** An append after a clear: what was set aside comes first, and the new bytes behind
    it are not lost. */
  lemma AppendAfterClear(u: seq<Byte>, d: seq<Byte>)
    requires d != []
    ensures Framing.Append(State(0, [], u), d) == After(u + d)
  {
    hide Decode;
    if u == [] {
      assert u + d == d && [] + d == d;
    } else {
      ProcessAfterClear(u);
      if |u| > HEADER {
        RestingExtends(u, d);
        if After(u).1 != Waiting {
          AppendBehindFrame(u, d);
        }
      }
    }
  }

  lemma AppendBehindFrame(u: seq<Byte>, d: seq<Byte>)
    requires |u| > HEADER && After(u).1 != Waiting && d != []
    ensures var s := After(u).0; (s.(unread := s.unread + d), DataRemaining) == After(u + d)
  {
    hide Decode, Expected;
    RestingExtends(u, d);
    var s := After(u).0;
    var payload, expected := u[HEADER..], AsSize(s.dataLen);
    assert [] + payload[expected..] == payload[expected..];
    assert s.buff == payload[..expected] && s.unread == payload[expected..];
    assert (payload + d)[..expected] == s.buff;
    assert [] + (payload + d)[expected..] == s.unread + d;
  }

  /** An offered empty payload looks like none. */
  lemma EmptyOffer(h: seq<Byte>)
    requires |h| > HEADER && Expected(h) == 0
    ensures After(h) == (State(0, [], h[HEADER..]), DataRemaining)
    ensures HasFrame(h) && FirstPayload(h) == [] && AfterFrame(h) == h[HEADER..]
  {
    hide Decode;
    assert [] + h[HEADER..] == h[HEADER..];
  }

  /** What is offered is the first payload, and the rest of the bytes is set aside. */
  lemma OfferedFrame(h: seq<Byte>)
    requires After(h).1 != Waiting
    ensures HasFrame(h) && After(h).0.buff == FirstPayload(h) && After(h).0.unread == AfterFrame(h)
  {
    hide Decode;
  }

  // ---------- One call ----------

  /** The bytes held after a call. */
  function NextHeld(t: Session, h: seq<Byte>, call: Call): seq<Byte> {
    var kept := if Skips(t, call) && |h| >= HEADER then h[HEADER..] else h;
    match call
    case Append(data) => kept + data
    case Take => if HasFrame(h) then AfterFrame(h) else []
    case Process => kept
  }

  /** An empty append while a whole header is held. */
  lemma EmptyAppend(h: seq<Byte>)
    requires |h| > HEADER
    ensures Framing.Append(State(0, [], h), []) == After(h)
    ensures Expected(h) != 0 ==> Sound(After(h).0) && Framing.Append(After(h).0, []) == After(h)
  {
    hide Decode;
    ProcessAfterClear(h);
    CheckAgain(h);
    if Expected(h) != 0 && After(h).1 == DataRemaining {
      ProcessIsIdle(h);
    }
  }

  lemma CheckAgain(h: seq<Byte>)
    requires |h| > HEADER
    ensures var (s, status) := After(h);
      && (status != DataRemaining ==> s.unread == [] && Check(s) == (s, status))
      && (status == DataRemaining ==> s.unread != [])
      && s.unread + [] == s.unread
  {
    hide Decode, Expected;
  }

  lemma AppendHolds(t: Session, h: seq<Byte>, d: seq<Byte>)
    requires Holds(t, h) && Sound(t.s)
    requires d != [] || (|h| > HEADER && !Skips(t, Append(d)))
    ensures Holds(Step(t, Append(d)), NextHeld(t, h, Append(d)))
  {
    hide Decode, Expected, After;
    SkipsEmptyOffer(t, h, Append(d));
    if d == [] {
      EmptyAppend(h);
      assert h + d == h;
    } else if t.s == State(0, [], h) && !t.offered {
      AppendAfterClear(h, d);
    } else if Skips(t, Append(d)) {
      AppendAfterClear(h[HEADER..], d);
    } else {
      AppendExtends(h, d);
    }
  }

  /** Exactly then the header of an empty frame is lost. */
  lemma SkipsEmptyOffer(t: Session, h: seq<Byte>, call: Call)
    requires Holds(t, h) && !call.Take?
    ensures Skips(t, call) ==>
      |h| > HEADER && Expected(h) == 0 && t.s == State(0, [], h[HEADER..])
      && HasFrame(h) && FirstPayload(h) == [] && AfterFrame(h) == h[HEADER..]
    ensures !Skips(t, call) && t.s != State(0, [], h) ==> |h| <= HEADER || Expected(h) != 0
    ensures !Skips(t, call) && t.offered ==> |h| > HEADER && Expected(h) != 0
  {
    hide Decode;
    if t.offered {
      OfferedFrame(h);
      if Expected(h) == 0 {
        EmptyOffer(h);
      }
    }
  }

  lemma TakeHolds(t: Session, h: seq<Byte>)
    requires Holds(t, h) && t.offered && Sound(t.s)
    ensures HasFrame(h) && t.s.buff == FirstPayload(h)
    ensures Holds(Step(t, Take), AfterFrame(h))
  {
    hide Decode, Expected, After;
    OfferedFrame(h);
  }

  lemma ProcessHolds(t: Session, h: seq<Byte>)
    requires Holds(t, h) && t.s.unread != [] && Sound(t.s)
    ensures Holds(Step(t, Process), NextHeld(t, h, Process))
  {
    hide Decode, Expected, After;
    SkipsEmptyOffer(t, h, Process);
    if t.s == State(0, [], h) {
      ProcessAfterClear(h);
    } else if Skips(t, Process) {
      ProcessAfterClear(h[HEADER..]);
    } else {
      ProcessAgain(h);
    }
  }

  lemma ProcessAgain(h: seq<Byte>)
    requires |h| <= HEADER || Expected(h) != 0
    requires After(h).0.unread != []
    ensures Sound(After(h).0) && Framing.Process(After(h).0) == After(h)
  {
    hide Decode;
    AfterKeepsEveryByte(h);
    ProcessIsIdle(h);
  }

  /** A frame is its header, its payload and what follows. */
  lemma FrameOfBytes(h: seq<Byte>)
    requires HasFrame(h)
    ensures h == Frame(FirstPayload(h)) + AfterFrame(h)
  {
    hide Encode, Decode, ToInt32;
    var p := FirstPayload(h);
    LengthThroughSize(Expected(h));
    HeaderWrittenAgain(h[..HEADER]);
    assert h == h[..HEADER] + p + AfterFrame(h);
  }

  lemma LengthThroughSize(n: Int32)
    ensures ToInt32(AsSize(n)) == n
  {
  }

  // ---------- Every schedule ----------

  /** Taking the offered payload moves it from the bytes held to the payloads. */
  lemma TakeAccounts(t: Session, h: seq<Byte>, more: seq<Byte>)
    requires HasFrame(h) && t.s.buff == FirstPayload(h) && Sound(t.s)
    ensures var next := Step(t, Take);
      && FrameAll(next.payloads) + AfterFrame(h) == FrameAll(t.payloads) + h
      && Then(Parsed(next.payloads, []), Parse(AfterFrame(h) + more))
         == Then(Parsed(t.payloads, []), Parse(h + more))
  {
    hide Frame, HasFrame, FirstPayload, AfterFrame, Parse;
    var p, rest := t.s.buff, AfterFrame(h);
    FrameAllSplits(t.payloads, [p]);
    OneFrame(p);
    FrameOfBytes(h);
    assert FrameAll(t.payloads) + Frame(p) + rest == FrameAll(t.payloads) + (Frame(p) + rest);
    FrameOfAnExtension(h, more);
    FrameParsed(h + more);
    ThenCons(t.payloads, p, Parse(rest + more));
  }

  lemma OneFrame(p: seq<Byte>)
    ensures FrameAll([p]) == Frame(p)
  {
    var one := [p];
    assert one[1..] == [];
    assert FrameAll(one) == Frame(p) + [];
  }

  lemma ThenCons(ps: seq<seq<Byte>>, p: seq<Byte>, q: Parsed)
    ensures Then(Parsed(ps + [p], []), q) == Then(Parsed(ps, []), Cons(p, q))
  {
    assert ps + [p] + q.payloads == ps + ([p] + q.payloads);
  }

  function Data(call: Call): seq<Byte> {
    if call.Append? then call.data else []
  }

  /** An empty payload that is passed over leaves the stream without its header. */
  lemma SkipAccounts(h: seq<Byte>, more: seq<Byte>)
    requires |h| > HEADER && HasFrame(h) && FirstPayload(h) == [] && AfterFrame(h) == h[HEADER..]
    ensures Parse(h + more) == Cons([], Parse(h[HEADER..] + more))
  {
    hide Parse, HasFrame, FirstPayload, AfterFrame;
    FrameOfAnExtension(h, more);
    FrameParsed(h + more);
  }

  /** The bytes and the payloads before and after a call that appends `d`, with `more`
    to come. */
  ghost predicate Accounts(before: seq<seq<Byte>>, after: seq<seq<Byte>>, h: seq<Byte>, n: seq<Byte>,
                           d: seq<Byte>, more: seq<Byte>, skips: bool)
  {
    if skips then
      && after == before && |n| + HEADER == |h + d|
      && Parse(h + (d + more)) == Cons([], Parse(n + more))
    else
      && FrameAll(after) + n == FrameAll(before) + h + d
      && Then(Parsed(after, []), Parse(n + more)) == Then(Parsed(before, []), Parse(h + (d + more)))
  }

  lemma SameAccounts(ps: seq<seq<Byte>>, h: seq<Byte>, d: seq<Byte>, more: seq<Byte>)
    ensures Accounts(ps, ps, h, h + d, d, more, false)
  {
    hide Parse, FrameAll;
    assert h + (d + more) == (h + d) + more;
    assert FrameAll(ps) + (h + d) == FrameAll(ps) + h + d;
  }

  lemma SkippedAccounts(ps: seq<seq<Byte>>, h: seq<Byte>, d: seq<Byte>, more: seq<Byte>)
    requires |h| > HEADER && HasFrame(h) && FirstPayload(h) == [] && AfterFrame(h) == h[HEADER..]
    ensures Accounts(ps, ps, h, h[HEADER..] + d, d, more, true)
  {
    hide Parse, HasFrame, FirstPayload, AfterFrame;
    SkipAccounts(h, d + more);
    assert h[HEADER..] + (d + more) == (h[HEADER..] + d) + more;
  }

  lemma AppendDelivers(t: Session, h: seq<Byte>, d: seq<Byte>, more: seq<Byte>)
    requires Sound(t.s) && Holds(t, h) && Allowed(t, Append(d))
    ensures var n := NextHeld(t, h, Append(d));
      && Holds(Step(t, Append(d)), n)
      && Accounts(t.payloads, Step(t, Append(d)).payloads, h, n, d, more, Skips(t, Append(d)))
  {
    hide Parse, After, FrameAll, HasFrame, FirstPayload, AfterFrame, Expected, Accounts, Holds, Framing.Append;
    HeldBytes(t, h);
    AppendHolds(t, h, d);
    SkipsEmptyOffer(t, h, Append(d));
    if Skips(t, Append(d)) {
      SkippedAccounts(t.payloads, h, d, more);
    } else {
      SameAccounts(t.payloads, h, d, more);
    }
  }

  lemma ProcessDelivers(t: Session, h: seq<Byte>, more: seq<Byte>)
    requires Sound(t.s) && Holds(t, h) && t.s.unread != []
    ensures var n := NextHeld(t, h, Process);
      && Holds(Step(t, Process), n)
      && Accounts(t.payloads, Step(t, Process).payloads, h, n, [], more, Skips(t, Process))
  {
    hide Parse, After, FrameAll, HasFrame, FirstPayload, AfterFrame, Expected, Accounts, Holds, Framing.Process;
    ProcessHolds(t, h);
    SkipsEmptyOffer(t, h, Process);
    if Skips(t, Process) {
      SkippedAccounts(t.payloads, h, [], more);
      NothingMore(h[HEADER..]);
    } else {
      SameAccounts(t.payloads, h, [], more);
      NothingMore(h);
    }
  }

  lemma TakeDelivers(t: Session, h: seq<Byte>, more: seq<Byte>)
    requires Sound(t.s) && Holds(t, h) && t.offered
    ensures var n := NextHeld(t, h, Take);
      && Holds(Step(t, Take), n)
      && Accounts(t.payloads, Step(t, Take).payloads, h, n, [], more, false)
  {
    hide Parse, After, FrameAll, HasFrame, FirstPayload, AfterFrame, Expected, Frame, Holds;
    TakeHolds(t, h);
    TakeAccounts(t, h, more);
    assert [] + more == more;
    NothingMore(FrameAll(t.payloads) + h);
  }

  lemma StepDelivers(t: Session, h: seq<Byte>, call: Call, more: seq<Byte>)
    requires Sound(t.s) && Holds(t, h) && Allowed(t, call)
    ensures var next, n := Step(t, call), NextHeld(t, h, call);
      && Holds(next, n)
      && Accounts(t.payloads, next.payloads, h, n, Data(call), more, Skips(t, call))
  {
    hide Accounts, Holds, Step, NextHeld;
    match call {
      case Append(d) => AppendDelivers(t, h, d, more);
      case Take => TakeDelivers(t, h, more);
      case Process => ProcessDelivers(t, h, more);
    }
  }

  lemma NothingMore(h: seq<Byte>)
    ensures h + [] == h
  {
  }

  /** Over every schedule: the frames of the payloads taken and the bytes held are the
    bytes that came, and parsing the bytes held goes on where the payloads taken end,
    as long as no empty payload is passed over. Each one that is costs its header,
    one payload, and nothing else. */
  lemma {:induction false} RunDelivers(t: Session, h: seq<Byte>, calls: seq<Call>)
    requires Sound(t.s) && Holds(t, h) && Legal(t, calls)
    ensures var r, k, p := Run(t, calls), Skipped(t, calls), Parse(h + Stream(calls));
      && |FrameAll(r.payloads)| + |Held(r)| + HEADER * k == |FrameAll(t.payloads)| + |h| + |Stream(calls)|
      && |r.payloads| + |Parse(Held(r)).payloads| + k == |t.payloads| + |p.payloads|
      && Parse(Held(r)).rest == p.rest
      && (k == 0 ==>
        && FrameAll(r.payloads) + Held(r) == FrameAll(t.payloads) + h + Stream(calls)
        && Then(Parsed(r.payloads, []), Parse(Held(r))) == Then(Parsed(t.payloads, []), p))
    decreases |calls|
  {
    hide Parse, FrameAll, Holds, Held, Allowed, Skips, Accounts;
    if calls == [] {
      HeldBytes(t, h);
      NothingMore(h);
      NothingMore(FrameAll(t.payloads) + h);
    } else {
      var call, more := calls[0], Stream(calls[1..]);
      var next, n := Step(t, call), NextHeld(t, h, call);
      StepDelivers(t, h, call, more);
      RunDelivers(next, n, calls[1..]);
      hide Step, NextHeld, Run, Skipped;
      DeliversFurther(t.payloads, next.payloads, h, n, Data(call), more, Skips(t, call));
    }
  }

  /** The account of one call in front of that of the others. */
  lemma DeliversFurther(before: seq<seq<Byte>>, after: seq<seq<Byte>>, h: seq<Byte>, n: seq<Byte>,
                        d: seq<Byte>, more: seq<Byte>, skips: bool)
    requires Accounts(before, after, h, n, d, more, skips)
    ensures |FrameAll(after)| + |n| + (if skips then HEADER else 0) == |FrameAll(before)| + |h| + |d|
    ensures |after| + |Parse(n + more).payloads| + (if skips then 1 else 0)
         == |before| + |Parse(h + (d + more)).payloads|
    ensures Parse(n + more).rest == Parse(h + (d + more)).rest
    ensures !skips ==>
      && FrameAll(after) + n + more == FrameAll(before) + h + (d + more)
      && Then(Parsed(after, []), Parse(n + more)) == Then(Parsed(before, []), Parse(h + (d + more)))
  {
    hide Parse, FrameAll;
    if !skips {
      assert |FrameAll(after) + n| == |FrameAll(before) + h + d|;
      assert |Then(Parsed(after, []), Parse(n + more)).payloads| == |after| + |Parse(n + more).payloads|;
      assert FrameAll(before) + h + d + more == FrameAll(before) + h + (d + more);
    }
  }

  /** From a new decoder: the frames of the payloads taken, followed by what is held,
    are the stream, and the payloads are the parser's, if and only if every empty
    payload that is offered is taken before the next call. */
  lemma ScheduleDelivers(calls: seq<Call>)
    requires Legal(NEW, calls)
    ensures var r, b := Run(NEW, calls), Stream(calls);
      && (FrameAll(r.payloads) + Held(r) == b <==> Skipped(NEW, calls) == 0)
      && (Parse(b) == Then(Parsed(r.payloads, []), Parse(Held(r))) <==> Skipped(NEW, calls) == 0)
      && |Parse(b).payloads| == |r.payloads| + |Parse(Held(r)).payloads| + Skipped(NEW, calls)
      && Parse(b).rest == Parse(Held(r)).rest
  {
    hide Parse, FrameAll, Held, Holds, Run, Skipped, Stream, Legal;
    var b := Stream(calls);
    NewHoldsNothing(b);
    RunDelivers(NEW, [], calls);
    SameLength(Run(NEW, calls), b);
  }

  lemma NewHoldsNothing(b: seq<Byte>)
    ensures Holds(NEW, []) && [] + b == b
    ensures |FrameAll(NEW.payloads)| == 0 && FrameAll(NEW.payloads) + [] + b == b
    ensures Then(Parsed(NEW.payloads, []), Parse(b)) == Parse(b)
  {
    hide Parse;
    assert [] + Parse(b).payloads == Parse(b).payloads;
  }

  lemma SameLength(t: Session, b: seq<Byte>)
    ensures FrameAll(t.payloads) + Held(t) == b ==> |FrameAll(t.payloads)| + |Held(t)| == |b|
    ensures Parse(b) == Then(Parsed(t.payloads, []), Parse(Held(t))) ==>
      |Parse(b).payloads| == |t.payloads| + |Parse(Held(t)).payloads|
  {
    hide Parse, FrameAll, Held;
  }
}
