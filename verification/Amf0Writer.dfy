/** The AMF0 writers over a BufferManager (protocol/rtmp_amf0.cpp:24-57, 713-764, 968-1020, 1153-1192, 1353-1667). */
module Amf0Writers {
  import opened Bytes
  import opened RtmpConsts
  import opened BufferManagers
  import opened Amf0

  /** A stretch of writing: what lay before it, the room it had, and what it has stored so far. */
  datatype Progress = Progress(start: bytes, room: bytes, done: bytes)
  {
    function Plus(s: bytes): Progress {
      this.(done := done + s)
    }

    predicate Fits(s: bytes) {
      |done| + |s| <= |room|
    }
  }

  ghost function Begin(m: BufferManager): Progress
    requires m.Valid()
    reads m, m.buf
  {
    Progress(m.buf[..m.ptr], m.Rest(), [])
  }

  /** The buffer holds what lay before, then what is done, then the untouched room behind. */
  ghost predicate At(m: BufferManager, p: Progress)
    reads m, m.buf
  {
    && m.Valid() && |p.done| <= |p.room|
    && m.buf[..m.ptr] == p.start + p.done && m.Rest() == p.room[|p.done|..]
  }

  /** A writer stores s if it fits and fails otherwise. */
  ghost predicate Wrote(m: BufferManager, ret: int, p: Progress, s: bytes)
    reads m, m.buf
  {
    && m.Valid()
    && if p.Fits(s) then ret == SUCCESS && At(m, p.Plus(s)) else ret == ERROR_PROTOCOL_AMF0_ENCODE
  }

  lemma Then(p: Progress, s: bytes, t: bytes)
    ensures p.Plus(s).Plus(t) == p.Plus(s + t)
  {
    assert p.done + s + t == p.done + (s + t);
  }

  lemma DropTwice(a: bytes, i: nat, j: nat)
    requires i + j <= |a|
    ensures a[i..][j..] == a[i + j..]
  {
  }

  /** Require, then store: the step every writer repeats. */
  method Put(m: BufferManager, s: bytes, ghost p: Progress) returns (ret: int)
    requires At(m, p)
    modifies m, m.buf
    ensures Wrote(m, ret, p, s)
  {
    if !m.Require(|s|) {
      return ERROR_PROTOCOL_AMF0_ENCODE;
    }
    DropTwice(p.room, |p.done|, |s|);
    m.WriteString(s);
    assert p.start + p.done + s == p.start + (p.done + s);
    ret := SUCCESS;
  }

  method WriteUtf8(m: BufferManager, text: bytes, ghost p: Progress) returns (ret: int)
    requires At(m, p)
    modifies m, m.buf
    ensures Wrote(m, ret, p, Utf8(text))
  {
    hide At;
    var len := BigEndian(|text|, 2);
    ret := Put(m, len, p);
    if ret != SUCCESS {
      return;
    }
    if |text| <= 0 {
      assert Utf8(text) == len;
      return;
    }
    Then(p, len, text);
    ret := Put(m, text, p.Plus(len));
  }

  method WriteObjectEnd(m: BufferManager, ghost p: Progress) returns (ret: int)
    requires At(m, p)
    modifies m, m.buf
    ensures Wrote(m, ret, p, END)
  {
    hide At;
    var zero, marker := [0, 0], [AMF0_OBJECT_END];
    ret := Put(m, zero, p);
    if ret == SUCCESS {
      assert zero + marker == END;
      Then(p, zero, marker);
      ret := Put(m, marker, p.Plus(zero));
    }
  }

  /** The marker, then up to two more fields. */
  method WriteFields(m: BufferManager, marker: bytes, first: bytes, second: bytes, ghost p: Progress)
    returns (ret: int)
    requires At(m, p)
    modifies m, m.buf
    ensures Wrote(m, ret, p, marker + first + second)
  {
    hide At;
    ret := Put(m, marker, p);
    if ret == SUCCESS {
      Then(p, marker, first);
      ret := Put(m, first, p.Plus(marker));
    }
    if ret == SUCCESS {
      Then(p, marker + first, second);
      ret := Put(m, second, p.Plus(marker + first));
    }
  }

  method WriteString(m: BufferManager, text: bytes, ghost p: Progress) returns (ret: int)
    requires At(m, p)
    modifies m, m.buf
    ensures Wrote(m, ret, p, Encode(Str(text)))
  {
    hide At, Utf8;
    ret := Put(m, [AMF0_STRING], p);
    if ret == SUCCESS {
      Then(p, [AMF0_STRING], Utf8(text));
      ret := WriteUtf8(m, text, p.Plus([AMF0_STRING]));
    }
  }

  /** The loop AMF0Object::Write and AMF0EcmaArray::Write share, and the end marker. */
  method WriteProperties(m: BufferManager, props: seq<Prop>, ghost p: Progress) returns (ret: int)
    requires At(m, p)
    modifies m, m.buf
    ensures Wrote(m, ret, p, EncodeProps(props) + END)
    decreases props, 0
  {
    hide At, Utf8, Encode;
    ghost var q := p;
    ret := SUCCESS;
    for i := 0 to |props|
      invariant ret == SUCCESS && At(m, q)
      invariant q.Plus(EncodeProps(props[i..]) + END) == p.Plus(EncodeProps(props) + END)
      invariant q.room == p.room
      invariant |q.done| + |EncodeProps(props[i..]) + END| == |p.done| + |EncodeProps(props) + END|
    {
      ghost var later := EncodeProps(props[i + 1..]) + END;
      ghost var key, value := Utf8(props[i].key), Encode(props[i].value);
      assert EncodeProps(props[i..]) + END == key + (value + later) by {
        assert props[i..][1..] == props[i + 1..];
        Three(key, value, EncodeProps(props[i + 1..]), END);
      }
      Then(q, key, value + later);
      Then(q.Plus(key), value, later);
      assert |q.done| + |key + (value + later)| == |p.done| + |EncodeProps(props) + END|;
      ret := WriteUtf8(m, props[i].key, q);
      if ret != SUCCESS {
        return;
      }
      ret := WriteAny(m, props[i].value, q.Plus(key));
      if ret != SUCCESS {
        return;
      }
      q := q.Plus(key).Plus(value);
    }
    assert EncodeProps(props[|props|..]) + END == END;
    ret := WriteObjectEnd(m, q);
  }

  lemma Three(a: bytes, b: bytes, c: bytes, d: bytes)
    ensures a + b + c + d == a + (b + (c + d))
  {
  }

  method WriteObject(m: BufferManager, v: Value, ghost p: Progress) returns (ret: int)
    requires At(m, p) && v.Obj?
    modifies m, m.buf
    ensures Wrote(m, ret, p, Encode(v))
    decreases v, 0
  {
    hide At, EncodeProps;
    ret := Put(m, [AMF0_OBJECT], p);
    if ret == SUCCESS {
      ghost var body := EncodeProps(v.props) + END;
      Then(p, [AMF0_OBJECT], body);
      assert Encode(v) == [AMF0_OBJECT] + body;
      ret := WriteProperties(m, v.props, p.Plus([AMF0_OBJECT]));
    }
  }

  method WriteEcmaArray(m: BufferManager, v: Value, ghost p: Progress) returns (ret: int)
    requires At(m, p) && v.Ecma?
    modifies m, m.buf
    ensures Wrote(m, ret, p, Encode(v))
    decreases v, 0
  {
    hide At, EncodeProps, BigEndian;
    ghost var head := [AMF0_ECMA_ARRAY] + BigEndian(v.count, 4);
    assert head + [] == head;
    ret := WriteFields(m, [AMF0_ECMA_ARRAY], BigEndian(v.count, 4), [], p);
    if ret == SUCCESS {
      ghost var body := EncodeProps(v.props) + END;
      Then(p, head, body);
      assert Encode(v) == head + body;
      ret := WriteProperties(m, v.props, p.Plus(head));
    }
  }

  /** AMF0WriteAny: every value is stored as Encode says exactly when there is room for it. */
  method WriteAny(m: BufferManager, v: Value, ghost p: Progress) returns (ret: int)
    requires At(m, p)
    modifies m, m.buf
    ensures Wrote(m, ret, p, Encode(v))
    decreases v, 1
  {
    hide At, EncodeProps, BigEndian;
    match v {
      case Str(text) =>
        ret := WriteString(m, text, p);
      case Num(bits) =>
        assert Encode(v) == [AMF0_NUMBER] + BigEndian(bits, 8) + [];
        ret := WriteFields(m, [AMF0_NUMBER], BigEndian(bits, 8), [], p);
      case Bool(flag) =>
        var b: bytes := if flag then [1] else [0];
        assert Encode(v) == [AMF0_BOOLEAN] + b + [];
        ret := WriteFields(m, [AMF0_BOOLEAN], b, [], p);
      case Null =>
        ret := Put(m, [AMF0_NULL], p);
      case Undefined =>
        ret := Put(m, [AMF0_UNDEFINED], p);
      case Date(date, zone) =>
        ret := WriteFields(m, [AMF0_DATE], BigEndian(date, 8), BigEndian(zone, 2), p);
      case Obj(_) =>
        ret := WriteObject(m, v, p);
      case Ecma(_, _) =>
        ret := WriteEcmaArray(m, v, p);
      case ObjectEnd =>
        ret := WriteObjectEnd(m, p);
    }
  }
}
