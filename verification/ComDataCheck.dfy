/** source/ComDataCheck.c: the incremental decoder as an object over two byte
  buffers. Every method is proved equal to its function in module Framing, so
  the theorems of module FramingTheorems are about this code. */
module ComDataChecks {
  import opened AlibErrors
  import opened Memory
  import opened BinaryBuffers
  import opened Framing

  const CDC_COMPLETE := 0
  const CDC_WAITING := 1
  const CDC_DATA_REMAINING := 2

  const DEFAULT_MIN_CAP: SizeT := 64
  const DEFAULT_MAX_EXPAND: SizeT := 1024 * 1024

  function Code(status: Status): int {
    match status
    case Complete => CDC_COMPLETE
    case Waiting => CDC_WAITING
    case DataRemaining => CDC_DATA_REMAINING
  }

  /** An output object gathers the payload and keeps `data_len` equal to its
    length, up to the largest length a header can carry. */
  ghost predicate Gathered(before: State, data: seq<Byte>, after: State, r: int) {
    && after.buff == before.buff + data
    && after.unread == before.unread
    && if data == [] then
         after.dataLen == before.dataLen && r == CDC_COMPLETE
       else if |after.buff| > INT32_MAX then
         after.dataLen == before.dataLen && r == ALIB_INTERNAL_MAX_REACHED
       else
         after.dataLen == |after.buff| && r == CDC_COMPLETE
  }

  /** Appends of some bytes each to an output object, its states and what it returned. */
  ghost predicate Gathering(states: seq<State>, chunks: seq<seq<Byte>>, rs: seq<int>) {
    && |states| == |chunks| + 1 && |rs| == |chunks|
    && forall i :: 0 <= i < |chunks| ==>
      chunks[i] != [] && Gathered(states[i], chunks[i], states[i + 1], rs[i])
  }

  /** They gather all bytes in order. While these fit the header every append succeeds and
    their number is the length; when they do not, the last one has reported it. */
  lemma {:induction false} GatheringKeepsAll(states: seq<State>, chunks: seq<seq<Byte>>, rs: seq<int>)
    requires chunks != [] && Gathering(states, chunks, rs)
    ensures var end := states[|chunks|];
      && end.buff == states[0].buff + Concat(chunks)
      && (|end.buff| <= INT32_MAX ==>
        end.dataLen == |end.buff| && forall i :: 0 <= i < |rs| ==> rs[i] == CDC_COMPLETE)
      && (|end.buff| > INT32_MAX ==> rs[|rs| - 1] == ALIB_INTERNAL_MAX_REACHED)
    decreases |chunks|
  {
    var d, more := chunks[0], Concat(chunks[1..]);
    assert Gathered(states[0], d, states[1], rs[0]);
    assert states[0].buff + d + more == states[0].buff + (d + more);
    if |chunks| == 1 {
      assert more == [] && states[0].buff + d + [] == states[0].buff + d;
    } else {
      GatheringKeepsAll(states[1..], chunks[1..], rs[1..]);
    }
  }

  class ComDataCheck {
    var dataLen: Int32
    const buff: BinaryBuffer
    const unreadBuff: BinaryBuffer
    const input: bool

    /** Two separate buffers; an output object sets nothing aside. */
    ghost predicate Wired()
      reads this, buff, unreadBuff, buff.buff, unreadBuff.buff
    {
      && buff != unreadBuff
      && buff.Valid() && unreadBuff.Valid()
      && (buff.buff != null ==> buff.buff != unreadBuff.buff)
      && (!input ==> unreadBuff.len == 0)
    }

    ghost predicate Valid()
      reads this, buff, unreadBuff, buff.buff, unreadBuff.buff
    {
      Wired() && (input ==> Sound(Value()))
    }

    /** The state of the decoder as a value. */
    ghost function Value(): State
      requires buff.Valid() && unreadBuff.Valid()
      reads this, buff, unreadBuff, buff.buff, unreadBuff.buff
    {
      State(dataLen, buff.Contents(), unreadBuff.Contents())
    }

    /** The objects the decoder is made of. */
    ghost function Repr(): set<object>
      reads this, buff, unreadBuff
    {
      {this, buff, unreadBuff}
      + (if buff.buff == null then {} else {buff.buff})
      + (if unreadBuff.buff == null then {} else {unreadBuff.buff})
    }

    constructor (input: bool)
      ensures Valid() && fresh(Repr())
      ensures this.input == input && Value() == INITIAL
    {
      this.input := input;
      this.dataLen := 0;
      this.buff := new BinaryBuffer([], 0, DEFAULT_MIN_CAP, DEFAULT_MAX_EXPAND);
      this.unreadBuff := new BinaryBuffer([], 0, DEFAULT_MIN_CAP, DEFAULT_MAX_EXPAND);
    }

    /** `ComDataCheck_check`. */
    method Check() returns (r: int)
      requires Wired() && buff.len + unreadBuff.len <= SIZE_MAX
      modifies Repr()
      ensures Valid() && fresh(Repr() - old(Repr()))
      ensures input ==> Value() == Framing.Check(old(Value())).0
      ensures input ==> r == Code(Framing.Check(old(Value())).1)
      ensures !input ==> Value() == old(Value()) && r == CDC_COMPLETE
    {
      if input {
        var buffLen := buff.len;
        if buffLen < AsSize(dataLen) {
          return CDC_WAITING;
        } else if buffLen == AsSize(dataLen) {
          return CDC_COMPLETE;
        } else {
          var expected := AsSize(dataLen);
          ghost var was := buff.Contents();
          assert buff.buff[expected..buffLen] == was[expected..];
          unreadBuff.Append(buff.buff[expected..buffLen]);
          assert buff.Contents() == was;
          buff.Remove(expected, buffLen);
          return CDC_DATA_REMAINING;
        }
      } else {
        return CDC_COMPLETE;
      }
    }

    /** `ComDataCheck_process_buffered_data`. */
    method ProcessBufferedData() returns (r: int)
      requires Valid() && buff.len + unreadBuff.len <= SIZE_MAX
      modifies Repr()
      ensures Valid() && fresh(Repr() - old(Repr()))
      ensures input ==> Value() == Process(old(Value())).0
      ensures input ==> r == Code(Process(old(Value())).1)
      ensures !input ==> Value() == old(Value()) && r == CDC_COMPLETE
      decreases 1
    {
      var buffLen := unreadBuff.len;
      var block := unreadBuff.ExtractBuffer();
      r := Append(if block == null then [] else block[..buffLen]);
    }

    /** `ComDataCheck_append`. The two methods call each other, but a call of
      `ComDataCheck_process_buffered_data` empties the buffer that caused it. */
    method Append(data: seq<Byte>) returns (r: int)
      requires Valid() && buff.len + unreadBuff.len + |data| <= SIZE_MAX
      modifies Repr()
      ensures Valid() && fresh(Repr() - old(Repr()))
      ensures input ==> Value() == Framing.Append(old(Value()), data).0
      ensures input ==> r == Code(Framing.Append(old(Value()), data).1)
      ensures !input ==> Gathered(old(Value()), data, Value(), r)
      decreases if unreadBuff.len > 0 then 2 else 0
    {
      hide Decode, AppendNow, Process;
      if unreadBuff.len != 0 {
        ProcessKeeps(Value());
        r := ProcessBufferedData();
        if r == CDC_COMPLETE || r == CDC_DATA_REMAINING {
          ghost var s := Value();
          unreadBuff.Append(data);
          assert Value() == s.(unread := s.unread + data);
          if data != [] {
            r := CDC_DATA_REMAINING;
          }
          return;
        }
      }
      r := AppendRest(data);
    }

    /** `ComDataCheck_append` below its first test: nothing is set aside. */
    method AppendRest(data: seq<Byte>) returns (r: int)
      requires Valid() && unreadBuff.len == 0 && buff.len + |data| <= SIZE_MAX
      modifies Repr()
      ensures Valid() && fresh(Repr() - old(Repr()))
      ensures input ==> Value() == AppendNow(old(Value()), data).0
      ensures input ==> r == Code(AppendNow(old(Value()), data).1)
      ensures !input ==> Gathered(old(Value()), data, Value(), r)
    {
      hide Decode;
      if data == [] {
        r := Check();
      } else if input {
        r := AppendInput(data);
      } else {
        r := AppendOutput(data);
      }
    }

    /** The input half of `ComDataCheck_append`. */
    method AppendInput(data: seq<Byte>) returns (r: int)
      requires Valid() && input && unreadBuff.len == 0
      requires data != [] && buff.len + |data| <= SIZE_MAX
      modifies Repr()
      ensures Valid() && fresh(Repr() - old(Repr()))
      ensures Value() == AppendNow(old(Value()), data).0
      ensures r == Code(AppendNow(old(Value()), data).1)
    {
      hide Decode, Framing.Check;
      ghost var s := Value();
      if dataLen == 0 {
        if HEADER < |data| + buff.len {
          ReadHeader(data);
        } else {
          buff.Append(data);
          assert Value() == s.(buff := s.buff + data);
          return CDC_WAITING;
        }
      } else {
        buff.Append(data);
        assert Value() == s.(buff := s.buff + data);
      }
      r := Check();
    }

    /** The header is complete: parse it and store what follows it. */
    method ReadHeader(data: seq<Byte>)
      requires Valid() && input && dataLen == 0
      requires HEADER < |data| + buff.len <= SIZE_MAX
      modifies this`dataLen, buff, buff.buff
      ensures Wired() && fresh(Repr() - old(Repr()))
      ensures var all := old(buff.Contents()) + data;
              Value() == State(Expected(all), all[HEADER..], old(unreadBuff.Contents()))
    {
      hide Decode;
      ghost var all := buff.Contents() + data;
      ghost var was := unreadBuff.Contents();
      var rest := data;
      if buff.len != 0 {
        var missing := HEADER - buff.len;
        buff.Append(data[..missing]);
        assert buff.buff[..HEADER] == all[..HEADER];
        dataLen := Decode(buff.buff[..HEADER]);
        rest := data[missing..];
        buff.ClearNoResize();
      } else {
        assert data[..HEADER] == all[..HEADER];
        dataLen := Decode(data[..HEADER]);
        rest := data[HEADER..];
      }
      assert rest == all[HEADER..];
      buff.Append(rest);
      assert buff.Contents() == [] + rest == rest;
      assert unreadBuff.Contents() == was;
    }

    /** The output half of `ComDataCheck_append`. */
    method AppendOutput(data: seq<Byte>) returns (r: int)
      requires Valid() && !input && buff.len + |data| <= SIZE_MAX
      modifies this`dataLen, buff, buff.buff
      ensures Valid() && fresh(Repr() - old(Repr()))
      ensures data != [] ==> Gathered(old(Value()), data, Value(), r)
    {
      buff.Append(data);
      if buff.len > INT32_MAX {
        return ALIB_INTERNAL_MAX_REACHED;
      } else {
        dataLen := buff.len;
      }
      return CDC_COMPLETE;
    }

    /** `ComDataCheck_clear`: what is set aside stays. */
    method Clear()
      requires Valid()
      modifies this`dataLen, buff
      ensures Valid() && Repr() <= old(Repr())
      ensures Value() == Framing.Clear(old(Value()))
    {
      dataLen := 0;
      buff.Clear();
    }

    /** The bytes `ComDataCheck_send` hands to the socket, in two calls. */
    method Send() returns (header: seq<Byte>, body: seq<Byte>)
      requires Valid()
      ensures header + body == Frame(buff.Contents())
    {
      var len := ToInt32(buff.len);
      header := Encode(len);
      body := if buff.buff == null then [] else buff.buff[..buff.len];
    }
  }
}
