/**
 * Packets encoded to a payload of the size computed beforehand, and the two responses decoded
 * by the same server (protocol/rtmp_packet.cpp:35-67, 304-425, 736-777, 878-960, 1080-1119, 1442-1545).
 */
module Packets {
  import opened Bytes
  import opened RtmpConsts
  import opened BufferManagers
  import opened Amf0
  import opened Amf0Readers
  import Amf0Writers
  import ChunkReader

  /** Numbers are 64-bit patterns; event fields are 16- and 32-bit patterns. */
  datatype Packet =
    | ConnectAppRes(command: bytes, transaction: nat, props: seq<Prop>, info: seq<Prop>)
    | CreateStreamRes(command: bytes, transaction: nat, commandObject: Value, streamId: nat)
    | FMLEStartRes(command: bytes, transaction: nat)
    | OnStatusCall(command: bytes, transaction: nat, args: Value, data: seq<Prop>)
    | OnStatusData(command: bytes, data: seq<Prop>)
    | UserControl(event: nat, eventData: nat, extraData: nat)

  /** "_result" and the number 1. */
  const COMMAND_RESULT: bytes := [0x5f, 0x72, 0x65, 0x73, 0x75, 0x6c, 0x74]
  const NUMBER_ONE := 0x3ff0_0000_0000_0000

  /** GetSize, class by class. */
  function GetSize(p: Packet): nat {
    match p
    case ConnectAppRes(command, _, props, info) =>
      TotalSize(Str(command)) + 9 + TotalSize(Obj(props)) + TotalSize(Obj(info))
    case CreateStreamRes(command, _, commandObject, _) => TotalSize(Str(command)) + 9 + TotalSize(commandObject) + 9
    case FMLEStartRes(command, _) => TotalSize(Str(command)) + 9 + 1 + 1
    case OnStatusCall(command, _, args, data) =>
      TotalSize(Str(command)) + 9 + TotalSize(args) + TotalSize(Obj(data))
    case OnStatusData(command, data) => TotalSize(Str(command)) + TotalSize(Obj(data))
    case UserControl(event, _, _) =>
      2 + (if event == EVENT_FMS_EVENT0 then 1 else 4) + (if event == EVENT_SET_BUFFER_LEN then 4 else 0)
  }

  /** The values EncodePacket writes: a null stands where the size counted an object. */
  function Fields(p: Packet): seq<Value> {
    match p
    case ConnectAppRes(command, t, props, info) => [Str(command), Num(t), Obj(props), Obj(info)]
    case CreateStreamRes(command, t, _, streamId) => [Str(command), Num(t), Null, Num(streamId)]
    case FMLEStartRes(command, t) => [Str(command), Num(t), Null, Undefined]
    case OnStatusCall(command, t, _, data) => [Str(command), Num(t), Null, Obj(data)]
    case OnStatusData(command, data) => [Str(command), Obj(data)]
    case UserControl(_, _, _) => []
  }

  function EncodeAll(values: seq<Value>): bytes {
    if values == [] then [] else Encode(values[0]) + EncodeAll(values[1..])
  }

  function EncodePacket(p: Packet): bytes {
    match p
    case UserControl(event, eventData, extraData) =>
      BigEndian(event, 2)
      + (if event == EVENT_FMS_EVENT0 then BigEndian(eventData, 1) else BigEndian(eventData, 4))
      + (if event == EVENT_SET_BUFFER_LEN then BigEndian(extraData, 4) else [])
    case _ => EncodeAll(Fields(p))
  }

  /** The object whose size is counted but for which a one-byte null is written. */
  function Placeholder(p: Packet): Value {
    match p
    case CreateStreamRes(_, _, commandObject, _) => commandObject
    case OnStatusCall(_, _, args, _) => args
    case _ => Null
  }

  lemma FourFields(p: Packet)
    requires |Fields(p)| == 4
    ensures var f := Fields(p);
            EncodePacket(p) == Encode(f[0]) + (Encode(f[1]) + (Encode(f[2]) + (Encode(f[3]) + [])))
  {
    var f := Fields(p);
    assert f[1..][1..] == f[2..] && f[2..][1..] == f[3..] && f[3..][1..] == [];
    hide Encode;
    assert EncodeAll(f[3..]) == Encode(f[3]) + [];
    assert EncodeAll(f[2..]) == Encode(f[2]) + EncodeAll(f[3..]);
    assert EncodeAll(f[1..]) == Encode(f[1]) + EncodeAll(f[2..]);
  }

  /** The allocation always suffices, and exceeds the packet by what the placeholder is too big. */
  lemma SizeAgainstBytes(p: Packet)
    ensures GetSize(p) == |EncodePacket(p)| + TotalSize(Placeholder(p)) - 1
    ensures |EncodePacket(p)| <= GetSize(p)
  {
    SizeIsExact(Placeholder(p));
    if !p.UserControl? {
      var f := Fields(p);
      SizeIsExact(f[0]);
      SizeIsExact(f[1]);
      hide Encode;
      if |f| == 4 {
        SizeIsExact(f[2]);
        SizeIsExact(f[3]);
        FourFields(p);
      } else {
        assert EncodeAll(f[1..]) == Encode(f[1]) + EncodeAll([]);
      }
    }
  }

  /** A packet fills its allocation exactly when its placeholder is a null or an undefined. */
  lemma FillsExactly(p: Packet)
    ensures GetSize(p) == |EncodePacket(p)| <==> Placeholder(p).Null? || Placeholder(p).Undefined?
  {
    SizeAgainstBytes(p);
  }

  method WriteFields(m: BufferManager, values: seq<Value>, ghost p: Amf0Writers.Progress) returns (ret: int)
    requires Amf0Writers.At(m, p)
    modifies m, m.buf
    ensures Amf0Writers.Wrote(m, ret, p, EncodeAll(values))
  {
    if values == [] {
      assert p.Plus([]) == p;
      return SUCCESS;
    }
    hide Encode, Amf0Writers.At;
    ret := Amf0Writers.WriteAny(m, values[0], p);
    if ret == SUCCESS {
      Amf0Writers.Then(p, Encode(values[0]), EncodeAll(values[1..]));
      ret := WriteFields(m, values[1..], p.Plus(Encode(values[0])));
    }
  }

  /** Packet::Encode: allocate GetSize bytes and write into them; it never fails for these. */
  method EncodeToPayload(p: Packet) returns (ret: int, payload: array<byte>)
    ensures fresh(payload) && payload.Length == GetSize(p)
    ensures ret == SUCCESS && |EncodePacket(p)| <= payload.Length
    ensures payload[..|EncodePacket(p)|] == EncodePacket(p)
  {
    payload := new byte[GetSize(p)](_ => 0);
    var m := new BufferManager(payload);
    ghost var c := Amf0Writers.Begin(m);
    SizeAgainstBytes(p);
    assert Amf0Writers.At(m, c) && c.start == [] && |c.room| == GetSize(p);
    hide GetSize, EncodeAll, BigEndian;
    match p {
      case UserControl(_, _, _) =>
        ret := Amf0Writers.Put(m, EncodePacket(p), c);
      case _ =>
        ret := WriteFields(m, Fields(p), c);
    }
    assert payload[..m.ptr] == EncodePacket(p);
  }

  // ---------- control messages at the receiving end ----------

  /** Every user control packet this server encodes passes its own receive hook. */
  lemma UserControlPasses(p: Packet, chunkSize: int)
    requires p.UserControl? && p.event < 0x1_0000
    ensures ChunkReader.OnRecvMessage(chunkSize, MSG_USER_CONTROL, EncodePacket(p)) == (SUCCESS, chunkSize)
  {
    BigEndianRoundTrip(p.event, 2);
    Widths();
    assert EncodePacket(p)[..2] == BigEndian(p.event, 2);
  }

  /** A window acknowledgement size is decoded as a user control message, and so is dropped
      unless its upper half happens to be that of event 0x1a. */
  lemma WindowAckSizeIsDropped(size: nat, chunkSize: int)
    requires size < 0x1_0000_0000
    ensures ChunkReader.OnRecvMessage(chunkSize, MSG_WINDOW_ACK_SIZE, BigEndian(size, 4)).0 == SUCCESS
        <==> size / 0x1_0000 == EVENT_FMS_EVENT0
  {
    hide BigEndian, FromBigEndian;
    var payload, top := BigEndian(size, 4), size / 0x1_0000;
    UpperHalf(size);
    BigEndianRoundTrip(top, 2);
    Widths();
  }

  lemma UpperHalf(size: nat)
    requires size < 0x1_0000_0000
    ensures BigEndian(size, 4)[..2] == BigEndian(size / 0x1_0000, 2) && size / 0x1_0000 < 0x1_0000
  {
    hide BigEndian;
    ExplicitBytes(size);
    ExplicitBytes(size / 0x1_0000);
    assert size / 0x1_0000 / 0x100 == size / 0x100_0000;
  }

  // ---------- decoding ----------

  function DecodeConnectAppRes(input: bytes, initial: seq<Prop>): Parsed<Packet> {
    var s := ReadAs(AMF0_STRING, input);
    if s.Error? then Error(s.code)
    else if s.value != Str(COMMAND_RESULT) then Error(ERROR_RTMP_AMF0_DECODE) else
    var n := ReadAs(AMF0_NUMBER, s.rest);
    if n.Error? then Error(n.code)
    else if n.value != Num(NUMBER_ONE) then Error(ERROR_RTMP_AMF0_DECODE) else
    var a := Amf0.ReadAny(n.rest);
    if a.Error? then Error(a.code) else
    var b := Amf0.ReadAny(a.rest);
    if b.Error? then Error(b.code)
    else if !b.value.Obj? then Error(ERROR_RTMP_AMF0_DECODE)
    else Parsed(ConnectAppRes(COMMAND_RESULT, NUMBER_ONE,
                              if a.value.Obj? then a.value.props else initial, b.value.props), b.rest)
  }

  /** Behind a command that is not a result, `initial` is left alone and success is reported. */
  function DecodeCreateStreamRes(input: bytes, initial: Packet): Parsed<Packet>
    requires initial.CreateStreamRes?
  {
    var s := ReadAs(AMF0_STRING, input);
    if s.Error? then Error(s.code)
    else if s.value != Str(COMMAND_RESULT) then
      Parsed(CreateStreamRes(s.value.text, initial.transaction, initial.commandObject, initial.streamId), s.rest)
    else
    var n := ReadAs(AMF0_NUMBER, s.rest);
    if n.Error? then Error(n.code) else
    var a := Amf0.ReadAny(n.rest);
    if a.Error? then Error(a.code) else
    var t := ReadAs(AMF0_NUMBER, a.rest);
    if t.Error? then Error(t.code)
    else Parsed(CreateStreamRes(COMMAND_RESULT, n.value.bits, a.value, t.value.bits), t.rest)
  }

  /** Readers that know their type do not look ahead, so that every number survives them. */
  lemma NumberReadsBack(bits: nat, rest: bytes)
    requires bits < 0x1_0000_0000_0000_0000
    ensures ReadAs(AMF0_NUMBER, Encode(Num(bits)) + rest) == Parsed(Num(bits), rest)
  {
    var input := Encode(Num(bits)) + rest;
    assert input[1..] == BigEndian(bits, 8) + rest;
    assert input[1..][..8] == BigEndian(bits, 8) && input[1..][8..] == rest;
    BigEndianRoundTrip(bits, 8);
    Widths();
  }

  lemma StringReadsBack(text: bytes, rest: bytes)
    requires |text| < 0x8000
    ensures ReadAs(AMF0_STRING, Encode(Str(text)) + rest) == Parsed(Str(text), rest)
  {
    var input := Encode(Str(text)) + rest;
    assert input[1..] == Utf8(text) + rest;
    Utf8RoundTrip(text, rest);
  }

  /** Four fields on the wire: a string, a number, and two values of any type. */
  function FourValues(command: bytes, transaction: nat, third: Value, fourth: Value): bytes {
    Encode(Str(command)) + (Encode(Num(transaction)) + (Encode(third) + Encode(fourth)))
  }

  /** Read back one after the other: `s` starts with these four fields and nothing is behind them. */
  predicate ReadsAs(s: bytes, command: bytes, transaction: nat, third: Value, fourth: Value) {
    var a := ReadAs(AMF0_STRING, s);
    a.Parsed? && a.value == Str(command) &&
    var b := ReadAs(AMF0_NUMBER, a.rest);
    b.Parsed? && b.value == Num(transaction) &&
    var c := Amf0.ReadAny(b.rest);
    c.Parsed? && c.value == third && Amf0.ReadAny(c.rest) == Parsed(fourth, [])
  }

  lemma FourValuesReadBack(command: bytes, transaction: nat, third: Value, fourth: Value)
    requires |command| < 0x8000 && transaction < 0x1_0000_0000_0000_0000
    requires Representable(third) && Representable(fourth)
    ensures ReadsAs(FourValues(command, transaction, third, fourth), command, transaction, third, fourth)
  {
    hide Encode, Amf0.ReadAny, ReadAs, Representable;
    var last := Encode(fourth) + [];
    assert last == Encode(fourth);
    StringReadsBack(command, Encode(Num(transaction)) + (Encode(third) + last));
    NumberReadsBack(transaction, Encode(third) + last);
    ReadInvertsEncode(third, last);
    ReadInvertsEncode(fourth, []);
  }

  /** What a player or publisher reads of the packets this server answers with. */
  lemma ResponsesReadBack(p: Packet)
    requires p.ConnectAppRes? || p.CreateStreamRes? || p.FMLEStartRes? || p.OnStatusCall?
    requires |p.command| < 0x8000 && p.transaction < 0x1_0000_0000_0000_0000
    requires p.ConnectAppRes? ==> Representable(Obj(p.props)) && Representable(Obj(p.info))
    requires p.CreateStreamRes? ==> Representable(Num(p.streamId))
    requires p.OnStatusCall? ==> Representable(Obj(p.data))
    ensures match p
            case ConnectAppRes(c, t, props, info) => ReadsAs(EncodePacket(p), c, t, Obj(props), Obj(info))
            case CreateStreamRes(c, t, _, streamId) => ReadsAs(EncodePacket(p), c, t, Null, Num(streamId))
            case FMLEStartRes(c, t) => ReadsAs(EncodePacket(p), c, t, Null, Undefined)
            case OnStatusCall(c, t, _, data) => ReadsAs(EncodePacket(p), c, t, Null, Obj(data))
            case _ => true
  {
    FourFields(p);
    var f := Fields(p);
    assert Encode(f[3]) + [] == Encode(f[3]);
    hide Encode, ReadsAs, Representable, EncodePacket;
    assert Representable(Null) && Representable(Undefined) by {
      NothingIsRepresentable();
    }
    FourValuesReadBack(p.command, p.transaction, f[2], f[3]);
  }

  lemma NothingIsRepresentable()
    ensures Representable(Null) && Representable(Undefined)
  {
  }

  /** Status data is its command and its object. */
  lemma OnStatusDataReadsBack(p: Packet)
    requires p.OnStatusData? && |p.command| < 0x8000 && Representable(Obj(p.data))
    ensures var s := ReadAs(AMF0_STRING, EncodePacket(p));
            s.Parsed? && s.value == Str(p.command) && Amf0.ReadAny(s.rest) == Parsed(Obj(p.data), [])
  {
    hide Encode, Amf0.ReadAny, ReadAs, Representable;
    var last := Encode(Obj(p.data)) + [];
    assert EncodePacket(p) == Encode(Str(p.command)) + last by {
      var f := Fields(p);
      assert f[1..] == [Obj(p.data)] && [Obj(p.data)][1..] == [];
      assert EncodeAll(f[1..]) == Encode(Obj(p.data)) + EncodeAll([]);
      assert EncodeAll(f) == Encode(f[0]) + EncodeAll(f[1..]);
    }
    StringReadsBack(p.command, last);
    ReadInvertsEncode(Obj(p.data), []);
  }

  /** A user control packet byte by byte: event, its data, and for event 3 four bytes more. */
  lemma UserControlOnTheWire(p: Packet)
    requires p.UserControl? && p.event < 0x1_0000
    ensures var s := EncodePacket(p);
            && |s| == (if p.event == 0x1a then 3 else if p.event == 3 then 10 else 6)
            && 0x100 * s[0] as int + s[1] as int == p.event
            && (if p.event == 0x1a then s[2] as int == p.eventData % 0x100
                else Number32(s[2], s[3], s[4], s[5]) == p.eventData % 0x1_0000_0000)
            && (p.event == 3 ==> Number32(s[6], s[7], s[8], s[9]) == p.extraData % 0x1_0000_0000)
  {
    hide BigEndian, Number32;
    TwoBytes(p.event);
    OneByte(p.eventData);
    StoredNumber(p.eventData);
    StoredNumber(p.extraData);
    var data := if p.event == 0x1a then BigEndian(p.eventData, 1) else BigEndian(p.eventData, 4);
    var extra := if p.event == 3 then BigEndian(p.extraData, 4) else [];
    assert EncodePacket(p) == BigEndian(p.event, 2) + data + extra;
    ControlParts(BigEndian(p.event, 2), data, extra);
    hide EncodePacket;
  }

  lemma ControlParts(event: bytes, data: bytes, extra: bytes)
    requires |event| == 2 && (|data| == 1 || |data| == 4) && (extra == [] || (|data| == 4 && |extra| == 4))
    ensures var s := event + data + extra;
            && |s| == 2 + |data| + |extra| && s[0] == event[0] && s[1] == event[1] && s[2] == data[0]
            && (|data| == 4 ==> s[3] == data[1] && s[4] == data[2] && s[5] == data[3])
            && (extra != [] ==> s[6] == extra[0] && s[7] == extra[1] && s[8] == extra[2] && s[9] == extra[3])
  {
  }

  lemma TwoBytes(v: nat)
    requires v < 0x1_0000
    ensures 0x100 * BigEndian(v, 2)[0] as int + BigEndian(v, 2)[1] as int == v
  {
    ExplicitBytes(v);
    hide BigEndian;
    assert v / 0x100 < 256;
  }

  lemma OneByte(v: nat)
    ensures BigEndian(v, 1) == [v % 256]
  {
    assert BigEndian(v / 256, 0) == [];
  }

  /**
   * What the connect response decoder makes of any four fields: it takes a result of the first
   * transaction whose last field is an object, keeps the properties it had if the third is none,
   * and refuses everything else.
   */
  lemma ConnectAppResDecodes(command: bytes, transaction: nat, third: Value, fourth: Value, initial: seq<Prop>)
    requires |command| < 0x8000 && transaction < 0x1_0000_0000_0000_0000
    requires Representable(third) && Representable(fourth)
    ensures DecodeConnectAppRes(FourValues(command, transaction, third, fourth), initial) ==
            if command == [0x5f, 0x72, 0x65, 0x73, 0x75, 0x6c, 0x74]
               && transaction == 0x3ff0_0000_0000_0000 && fourth.Obj?
            then Parsed(ConnectAppRes(command, transaction,
                                      if third.Obj? then third.props else initial, fourth.props), [])
            else Error(2003)
  {
    hide FourValues, Amf0.ReadAny, ReadAs, Representable;
    FourValuesReadBack(command, transaction, third, fourth);
  }

  /** A connect response is decoded to what was encoded. */
  lemma ConnectAppResRoundTrip(p: Packet, initial: seq<Prop>)
    requires p.ConnectAppRes? && p.command == COMMAND_RESULT && p.transaction == NUMBER_ONE
    requires Representable(Obj(p.props)) && Representable(Obj(p.info))
    ensures DecodeConnectAppRes(EncodePacket(p), initial) == Parsed(p, [])
  {
    hide Amf0.ReadAny, ReadAs, Representable, EncodePacket;
    ResponsesReadBack(p);
  }

  /** The same of the createStream response decoder; behind another command it reads nothing. */
  lemma CreateStreamResDecodes(command: bytes, transaction: nat, third: Value, streamId: nat, initial: Packet)
    requires |command| < 0x8000 && initial.CreateStreamRes? && Representable(third)
    requires transaction < 0x1_0000_0000_0000_0000 && streamId < 0x1_0000_0000_0000_0000
    ensures var s := FourValues(command, transaction, third, Num(streamId));
            var r := DecodeCreateStreamRes(s, initial);
            if command == [0x5f, 0x72, 0x65, 0x73, 0x75, 0x6c, 0x74]
            then r == Parsed(CreateStreamRes(command, transaction, third, streamId), [])
            else
              && r.Parsed? && Encode(Str(command)) + r.rest == s
              && r.value == CreateStreamRes(command, initial.transaction, initial.commandObject, initial.streamId)
  {
    hide Encode, Amf0.ReadAny, ReadAs, Representable;
    var id := Encode(Num(streamId)) + [];
    assert id == Encode(Num(streamId));
    var tail := Encode(third) + id;
    StringReadsBack(command, Encode(Num(transaction)) + tail);
    NumberReadsBack(transaction, tail);
    ReadInvertsEncode(third, id);
    NumberReadsBack(streamId, []);
  }

  /** A createStream response survives exactly when its object is a null. */
  lemma CreateStreamResRoundTrip(p: Packet, initial: Packet)
    requires p.CreateStreamRes? && initial.CreateStreamRes? && p.command == COMMAND_RESULT
    requires p.transaction < 0x1_0000_0000_0000_0000 && p.streamId < 0x1_0000_0000_0000_0000
    ensures DecodeCreateStreamRes(EncodePacket(p), initial) == Parsed(p.(commandObject := Null), [])
    ensures DecodeCreateStreamRes(EncodePacket(p), initial) == Parsed(p, []) <==> p.commandObject == Null
  {
    hide Encode, Representable, DecodeCreateStreamRes, EncodePacket;
    FourFields(p);
    assert Encode(Num(p.streamId)) + [] == Encode(Num(p.streamId));
    NothingIsRepresentable();
    CreateStreamResDecodes(p.command, p.transaction, Null, p.streamId, initial);
  }

  method ReadConnectAppRes(m: BufferManager, initial: seq<Prop>) returns (ret: int, p: Packet)
    requires m.Valid()
    modifies m
    ensures Returned(m, ret, p, DecodeConnectAppRes(old(m.Rest()), initial))
  {
    hide ReadAs, Amf0.ReadAny;
    var v, a, b;
    p := ConnectAppRes([], 0, initial, []);
    ret, v := ReadString(m);
    if ret != SUCCESS {
      return;
    }
    if v != Str(COMMAND_RESULT) {
      return ERROR_RTMP_AMF0_DECODE, p;
    }
    ret, v := ReadNumber(m);
    if ret != SUCCESS {
      return;
    }
    if v != Num(NUMBER_ONE) {
      return ERROR_RTMP_AMF0_DECODE, p;
    }
    ret, a := Amf0Readers.ReadAny(m);
    if ret != SUCCESS {
      return;
    }
    ret, b := Amf0Readers.ReadAny(m);
    if ret != SUCCESS {
      return;
    }
    if !b.Obj? {
      return ERROR_RTMP_AMF0_DECODE, p;
    }
    p := ConnectAppRes(COMMAND_RESULT, NUMBER_ONE, if a.Obj? then a.props else initial, b.props);
  }

  /** A command that is no result is kept, and success reported, without reading on. */
  method ReadCreateStreamRes(m: BufferManager, initial: Packet) returns (ret: int, p: Packet)
    requires m.Valid() && initial.CreateStreamRes?
    modifies m
    ensures Returned(m, ret, p, DecodeCreateStreamRes(old(m.Rest()), initial))
  {
    hide ReadAs, Amf0.ReadAny;
    p := initial;
    var s, n, a, t;
    ret, s := ReadString(m);
    if ret != SUCCESS {
      return;
    }
    p := CreateStreamRes(s.text, initial.transaction, initial.commandObject, initial.streamId);
    if s.text == [] || s.text != COMMAND_RESULT {
      return;
    }
    ret, n := ReadNumber(m);
    if ret != SUCCESS {
      return;
    }
    ret, a := Amf0Readers.ReadAny(m);
    if ret != SUCCESS {
      return;
    }
    ret, t := ReadNumber(m);
    if ret != SUCCESS {
      return;
    }
    p := CreateStreamRes(COMMAND_RESULT, n.bits, a, t.bits);
  }
}
