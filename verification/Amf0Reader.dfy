/** The AMF0 readers over a BufferManager (protocol/rtmp_amf0.cpp:10-93, 647-711, 1057-1111, 1227-1662). */
module Amf0Readers {
  import opened Bytes
  import opened RtmpConsts
  import opened BufferManagers
  import opened Amf0
  import opened PropertyTables

  /** A value of one type: the marker is checked again by the class that reads it. */
  function ReadAs(marker: byte, input: bytes): (r: Parsed<Value>)
    ensures r.Parsed? ==> |r.rest| < |input|
    ensures r.Error? ==> r.code != SUCCESS
    ensures r.Parsed? && marker == AMF0_STRING ==> r.value.Str?
    ensures r.Parsed? && marker == AMF0_NUMBER ==> r.value.Num?
  {
    if |input| < 1 || input[0] != marker then Error(ERROR_RTMP_AMF0_DECODE)
    else ReadMarked(marker, input[1..])
  }

  /** The method returned what the specification says, and left the cursor where it says. */
  ghost predicate Returned<T>(m: BufferManager, ret: int, v: T, r: Parsed<T>)
    reads m, m.buf
  {
    m.Valid() && if r.Error? then ret == r.code else ret == SUCCESS && v == r.value && m.Rest() == r.rest
  }

  lemma EndAsNumber(s: bytes)
    requires |s| == 3
    ensures FromBigEndian(s) == AMF0_OBJECT_END <==> AtObjectEnd(s)
  {
    FromBigEndianRoundTrip(s);
    ExplicitBytes(FromBigEndian(s));
    ExplicitBytes(AMF0_OBJECT_END);
    BigEndianRoundTrip(AMF0_OBJECT_END, 3);
    Widths();
  }

  method IsObjectEof(m: BufferManager) returns (eof: bool)
    requires m.Valid()
    modifies m
    ensures m.Valid() && m.ptr == old(m.ptr)
    ensures eof == AtObjectEnd(m.Rest())
  {
    eof := false;
    if m.Require(3) {
      ghost var input := m.Rest();
      EndAsNumber(input[..3]);
      var flag := m.ReadField(3);
      m.Skip(-3);
      eof := flag == AMF0_OBJECT_END;
    }
  }

  method ReadUtf8(m: BufferManager) returns (ret: int, value: bytes)
    requires m.Valid()
    modifies m
    ensures Returned(m, ret, value, Amf0.ReadUtf8(old(m.Rest())))
  {
    value := [];
    if !m.Require(2) {
      return ERROR_RTMP_AMF0_DECODE, [];
    }
    ghost var input := m.Rest();
    var len := m.Read2Bytes();
    if len <= 0 {
      return SUCCESS, [];
    }
    if !m.Require(len) {
      return ERROR_RTMP_AMF0_DECODE, [];
    }
    assert input[2..][..len] == input[2..2 + len] && input[2..][len..] == input[2 + len..];
    value := m.ReadString(len);
    ret := SUCCESS;
  }

  /** The check every Read starts with. */
  method ReadMarker(m: BufferManager, marker: byte) returns (ret: int)
    requires m.Valid()
    modifies m
    ensures m.Valid()
    ensures var input := old(m.Rest());
            if |input| < 1 || input[0] != marker then ret == ERROR_RTMP_AMF0_DECODE
            else ret == SUCCESS && m.Rest() == input[1..]
  {
    if !m.Require(1) {
      return ERROR_RTMP_AMF0_DECODE;
    }
    var b := m.Read1Bytes();
    if b != marker {
      return ERROR_RTMP_AMF0_DECODE;
    }
    ret := SUCCESS;
  }

  method ReadString(m: BufferManager) returns (ret: int, v: Value)
    requires m.Valid()
    modifies m
    ensures Returned(m, ret, v, ReadAs(AMF0_STRING, old(m.Rest())))
  {
    v := Null;
    ret := ReadMarker(m, AMF0_STRING);
    if ret != SUCCESS {
      return;
    }
    var text;
    ret, text := ReadUtf8(m);
    v := Str(text);
  }

  method ReadNumber(m: BufferManager) returns (ret: int, v: Value)
    requires m.Valid()
    modifies m
    ensures Returned(m, ret, v, ReadAs(AMF0_NUMBER, old(m.Rest())))
  {
    v := Null;
    ret := ReadMarker(m, AMF0_NUMBER);
    if ret != SUCCESS {
      return;
    }
    if !m.Require(8) {
      return ERROR_RTMP_AMF0_DECODE, v;
    }
    var bits := m.ReadField(8);
    v := Num(bits);
  }

  method ReadBoolean(m: BufferManager) returns (ret: int, v: Value)
    requires m.Valid()
    modifies m
    ensures Returned(m, ret, v, ReadAs(AMF0_BOOLEAN, old(m.Rest())))
  {
    v := Null;
    ret := ReadMarker(m, AMF0_BOOLEAN);
    if ret != SUCCESS {
      return;
    }
    if !m.Require(1) {
      return ERROR_RTMP_AMF0_DECODE, v;
    }
    var b := m.Read1Bytes();
    v := Bool(b != 0);
  }

  method ReadNull(m: BufferManager) returns (ret: int, v: Value)
    requires m.Valid()
    modifies m
    ensures Returned(m, ret, v, ReadAs(AMF0_NULL, old(m.Rest())))
  {
    ret := ReadMarker(m, AMF0_NULL);
    v := Null;
  }

  method ReadUndefined(m: BufferManager) returns (ret: int, v: Value)
    requires m.Valid()
    modifies m
    ensures Returned(m, ret, v, ReadAs(AMF0_UNDEFINED, old(m.Rest())))
  {
    ret := ReadMarker(m, AMF0_UNDEFINED);
    v := Undefined;
  }

  method ReadDate(m: BufferManager) returns (ret: int, v: Value)
    requires m.Valid()
    modifies m
    ensures Returned(m, ret, v, ReadAs(AMF0_DATE, old(m.Rest())))
  {
    v := Null;
    ret := ReadMarker(m, AMF0_DATE);
    if ret != SUCCESS {
      return;
    }
    if !m.Require(8) {
      return ERROR_RTMP_AMF0_DECODE, v;
    }
    ghost var body := m.Rest();
    var date := m.ReadField(8);
    if !m.Require(2) {
      return ERROR_RTMP_AMF0_DECODE, v;
    }
    assert body[8..][..2] == body[8..10];
    var zone := m.ReadField(2);
    v := Date(date, zone);
  }

  method ReadObjectEof(m: BufferManager) returns (ret: int)
    requires m.Valid()
    modifies m
    ensures m.Valid()
    ensures if AtObjectEnd(old(m.Rest())) then ret == SUCCESS && m.Rest() == old(m.Rest()[3..])
            else ret == ERROR_RTMP_AMF0_DECODE
  {
    if !m.Require(2) {
      return ERROR_RTMP_AMF0_DECODE;
    }
    ghost var input := m.Rest();
    FromBigEndianRoundTrip(input[..2]);
    ExplicitBytes(FromBigEndian(input[..2]));
    Widths();
    var temp := m.Read2Bytes();
    if temp != 0 {
      return ERROR_RTMP_AMF0_DECODE;
    }
    if !m.Require(1) {
      return ERROR_RTMP_AMF0_DECODE;
    }
    var marker := m.Read1Bytes();
    if marker != AMF0_OBJECT_END {
      return ERROR_RTMP_AMF0_DECODE;
    }
    ret := SUCCESS;
  }

  /** The loop AMF0Object::Read and AMF0EcmaArray::Read share. */
  method ReadProperties(m: BufferManager) returns (ret: int, props: seq<Prop>)
    requires m.Valid()
    modifies m
    ensures Returned(m, ret, props, ReadProps(old(m.Rest()), []))
    decreases |m.Rest()|, 0
  {
    hide Amf0.ReadUtf8, Amf0.ReadAny, AtObjectEnd, SetProp;
    ghost var all := ReadProps(m.Rest(), []);
    var table := new UnsortHashTable();
    while !m.Empty()
      invariant m.Valid()
      invariant |m.Rest()| <= old(|m.Rest()|)
      invariant ReadProps(m.Rest(), table.properties) == all
      decreases |m.Rest()|
    {
      var eof := IsObjectEof(m);
      if eof {
        ret := ReadObjectEof(m);
        return ret, table.properties;
      }
      var key, value;
      ret, key := ReadUtf8(m);
      if ret != SUCCESS {
        return ret, [];
      }
      ret, value := ReadAny(m);
      if ret != SUCCESS {
        return ret, [];
      }
      table.Set(key, Some(value));
    }
    return SUCCESS, table.properties;
  }

  method ReadObject(m: BufferManager) returns (ret: int, v: Value)
    requires m.Valid()
    modifies m
    ensures Returned(m, ret, v, ReadAs(AMF0_OBJECT, old(m.Rest())))
    decreases |m.Rest()|, 0
  {
    v := Null;
    ret := ReadMarker(m, AMF0_OBJECT);
    if ret != SUCCESS {
      return;
    }
    var props;
    ret, props := ReadProperties(m);
    v := Obj(props);
  }

  method ReadEcmaArray(m: BufferManager) returns (ret: int, v: Value)
    requires m.Valid()
    modifies m
    ensures Returned(m, ret, v, ReadAs(AMF0_ECMA_ARRAY, old(m.Rest())))
    decreases |m.Rest()|, 0
  {
    v := Null;
    ret := ReadMarker(m, AMF0_ECMA_ARRAY);
    if ret != SUCCESS {
      return;
    }
    if !m.Require(4) {
      return ERROR_RTMP_AMF0_DECODE, v;
    }
    var count := m.ReadField(4);
    var props;
    ret, props := ReadProperties(m);
    v := Ecma(count, props);
  }

  /** AMF0ReadAny: discover the type without moving the cursor, then read a value of it. */
  method ReadAny(m: BufferManager) returns (ret: int, v: Value)
    requires m.Valid()
    modifies m
    ensures Returned(m, ret, v, Amf0.ReadAny(old(m.Rest())))
    decreases |m.Rest()|, 1
  {
    v := Null;
    var eof := IsObjectEof(m);
    if eof {
      ret := ReadObjectEof(m);
      return ret, ObjectEnd;
    }
    if !m.Require(1) {
      return ERROR_RTMP_AMF0_DECODE, v;
    }
    var marker := m.Read1Bytes();
    m.Skip(-1);
    if marker == AMF0_STRING {
      ret, v := ReadString(m);
    } else if marker == AMF0_BOOLEAN {
      ret, v := ReadBoolean(m);
    } else if marker == AMF0_NUMBER {
      ret, v := ReadNumber(m);
    } else if marker == AMF0_NULL {
      ret, v := ReadNull(m);
    } else if marker == AMF0_UNDEFINED {
      ret, v := ReadUndefined(m);
    } else if marker == AMF0_OBJECT {
      ret, v := ReadObject(m);
    } else if marker == AMF0_ECMA_ARRAY {
      ret, v := ReadEcmaArray(m);
    } else if marker == AMF0_STRICT_ARRAY {
      ret := ERROR_RTMP_AMF0_DECODE;
    } else if marker == AMF0_DATE {
      ret, v := ReadDate(m);
    } else {
      ret := ERROR_PROTOCOL_AMF0_INVALID;
    }
  }
}
