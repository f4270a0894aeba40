/**
 * AMF0 values, their bytes, and the reader (protocol/rtmp_amf0.cpp): section 2 of the AMF 0
 * Specification, as this server implements it. Numbers and dates are 64-bit patterns.
 */
module Amf0 {
  import opened Bytes
  import opened RtmpConsts

  datatype Value =
    | Str(text: bytes)
    | Num(bits: nat)
    | Bool(flag: bool)
    | Null
    | Undefined
    | Date(date: nat, zone: nat)
    | Obj(props: seq<Prop>)
    | Ecma(count: nat, props: seq<Prop>)
    | ObjectEnd

  datatype Prop = Prop(key: bytes, value: Value)

  const END: bytes := [0, 0, AMF0_OBJECT_END]

  // ---------- writing ----------

  /** The length is cut to 16 bits, the text is not. */
  function Utf8(text: bytes): bytes {
    BigEndian(|text|, 2) + text
  }

  function Encode(v: Value): bytes
    decreases v, 1
  {
    match v
    case Str(text) => [AMF0_STRING] + Utf8(text)
    case Num(bits) => [AMF0_NUMBER] + BigEndian(bits, 8)
    case Bool(flag) => [AMF0_BOOLEAN, if flag then 1 else 0]
    case Null => [AMF0_NULL]
    case Undefined => [AMF0_UNDEFINED]
    case Date(date, zone) => [AMF0_DATE] + BigEndian(date, 8) + BigEndian(zone, 2)
    case Obj(props) => [AMF0_OBJECT] + EncodeProps(props) + END
    case Ecma(count, props) => [AMF0_ECMA_ARRAY] + BigEndian(count, 4) + EncodeProps(props) + END
    case ObjectEnd => END
  }

  function EncodeProps(props: seq<Prop>): bytes
    decreases props, 0
  {
    if props == [] then [] else
    Utf8(props[0].key) + Encode(props[0].value) + EncodeProps(props[1..])
  }

  /** The size each class computes on its own, before anything is written. */
  function TotalSize(v: Value): nat
    decreases v, 1
  {
    match v
    case Str(text) => 1 + 2 + |text|
    case Num(_) => 1 + 8
    case Bool(_) => 1 + 1
    case Null => 1
    case Undefined => 1
    case Date(_, _) => 1 + 8 + 2
    case Obj(props) => 1 + PropsSize(props) + 3
    case Ecma(_, props) => 1 + 4 + PropsSize(props) + 3
    case ObjectEnd => 2 + 1
  }

  function PropsSize(props: seq<Prop>): nat
    decreases props, 0
  {
    if props == [] then 0 else
    2 + |props[0].key| + TotalSize(props[0].value) + PropsSize(props[1..])
  }

  /** Exact sizing: the size computed beforehand is the number of bytes written. */
  lemma {:induction false} SizeIsExact(v: Value)
    ensures TotalSize(v) == |Encode(v)| >= 1
    decreases v, 1
  {
    if v.Obj? || v.Ecma? {
      PropsSizeIsExact(v.props);
    }
  }

  lemma {:induction false} PropsSizeIsExact(props: seq<Prop>)
    ensures PropsSize(props) == |EncodeProps(props)|
    decreases props, 0
  {
    if props != [] {
      SizeIsExact(props[0].value);
      PropsSizeIsExact(props[1..]);
    }
  }

  // ---------- the property table ----------

  /** UnsortHashTable::Set's erase: the first entry with the key goes. */
  function Erase(props: seq<Prop>, key: bytes): seq<Prop> {
    if props == [] then []
    else if props[0].key == key then props[1..]
    else [props[0]] + Erase(props[1..], key)
  }

  /** A key that is set again moves to the end. */
  function SetProp(props: seq<Prop>, key: bytes, value: Value): seq<Prop> {
    Erase(props, key) + [Prop(key, value)]
  }

  predicate UniqueKeys(props: seq<Prop>) {
    forall i, j | 0 <= i < j < |props| :: props[i].key != props[j].key
  }

  predicate Absent(props: seq<Prop>, key: bytes) {
    forall i | 0 <= i < |props| :: props[i].key != key
  }

  lemma {:induction false} EraseAbsent(props: seq<Prop>, key: bytes)
    requires Absent(props, key)
    ensures Erase(props, key) == props
  {
    if props != [] {
      EraseAbsent(props[1..], key);
    }
  }

  lemma {:induction false} EraseAddsNoKey(props: seq<Prop>, key: bytes, other: bytes)
    requires Absent(props, other)
    ensures Absent(Erase(props, key), other)
  {
    if props != [] && props[0].key != key {
      EraseAddsNoKey(props[1..], key, other);
    }
  }

  lemma {:induction false} EraseKeepsUnique(props: seq<Prop>, key: bytes)
    requires UniqueKeys(props)
    ensures UniqueKeys(Erase(props, key)) && Absent(Erase(props, key), key)
  {
    if props != [] && props[0].key != key {
      EraseKeepsUnique(props[1..], key);
      EraseAddsNoKey(props[1..], key, props[0].key);
    }
  }

  lemma SetKeepsUnique(props: seq<Prop>, key: bytes, value: Value)
    requires UniqueKeys(props)
    ensures UniqueKeys(SetProp(props, key, value))
  {
    EraseKeepsUnique(props, key);
  }

  // ---------- reading ----------

  predicate AtObjectEnd(input: bytes) {
    |input| >= 3 && input[0] == END[0] && input[1] == END[1] && input[2] == END[2]
  }

  /** The length is a signed 16-bit field; zero and negative lengths read as empty. */
  function ReadUtf8(input: bytes): (r: Parsed<bytes>)
    ensures r.Parsed? ==> |r.rest| + 2 <= |input| && |r.value| < 0x8000
    ensures r.Error? ==> r.code != SUCCESS
  {
    if |input| < 2 then Error(ERROR_RTMP_AMF0_DECODE) else
    var len := ToSigned16(FromBigEndian(input[..2]));
    if len <= 0 then Parsed([], input[2..])
    else if |input| - 2 < len then Error(ERROR_RTMP_AMF0_DECODE)
    else
      FromBigEndianRoundTrip(input[..2]);
      Widths();
      Parsed(input[2..2 + len], input[2 + len..])
  }

  /** AMF0ReadAny: Discovery looks three bytes ahead for an end marker before the type marker. */
  function ReadAny(input: bytes): (r: Parsed<Value>)
    ensures r.Parsed? ==> |r.rest| < |input|
    ensures r.Error? ==> r.code != SUCCESS
    decreases |input|, 0
  {
    if AtObjectEnd(input) then Parsed(ObjectEnd, input[3..])
    else if |input| < 1 then Error(ERROR_RTMP_AMF0_DECODE)
    else ReadMarked(input[0], input[1..])
  }

  function ReadMarked(marker: byte, body: bytes): (r: Parsed<Value>)
    ensures r.Parsed? ==> |r.rest| <= |body|
    ensures r.Error? ==> r.code != SUCCESS
    decreases |body|, 1
  {
    if marker == AMF0_STRING then
      var s := ReadUtf8(body);
      if s.Error? then Error(s.code) else Parsed(Str(s.value), s.rest)
    else if marker == AMF0_BOOLEAN then
      if |body| < 1 then Error(ERROR_RTMP_AMF0_DECODE) else Parsed(Bool(body[0] != 0), body[1..])
    else if marker == AMF0_NUMBER then
      if |body| < 8 then Error(ERROR_RTMP_AMF0_DECODE)
      else Parsed(Num(FromBigEndian(body[..8])), body[8..])
    else if marker == AMF0_NULL then Parsed(Null, body)
    else if marker == AMF0_UNDEFINED then Parsed(Undefined, body)
    else if marker == AMF0_OBJECT then
      var p := ReadProps(body, []);
      if p.Error? then Error(p.code) else Parsed(Obj(p.value), p.rest)
    else if marker == AMF0_ECMA_ARRAY then
      if |body| < 4 then Error(ERROR_RTMP_AMF0_DECODE) else
      var p := ReadProps(body[4..], []);
      if p.Error? then Error(p.code) else Parsed(Ecma(FromBigEndian(body[..4]), p.value), p.rest)
    else if marker == AMF0_STRICT_ARRAY then Error(ERROR_RTMP_AMF0_DECODE)
    else if marker == AMF0_DATE then
      if |body| < 10 then Error(ERROR_RTMP_AMF0_DECODE)
      else Parsed(Date(FromBigEndian(body[..8]), FromBigEndian(body[8..10])), body[10..])
    else Error(ERROR_PROTOCOL_AMF0_INVALID)
  }

  /** Properties up to the end marker, or to the end of the input. */
  function ReadProps(input: bytes, props: seq<Prop>): (r: Parsed<seq<Prop>>)
    ensures r.Parsed? ==> |r.rest| <= |input|
    ensures r.Error? ==> r.code != SUCCESS
    decreases |input|, 0
  {
    if input == [] then Parsed(props, [])
    else if AtObjectEnd(input) then Parsed(props, input[3..])
    else
      var k := ReadUtf8(input);
      if k.Error? then Error(k.code) else
      var v := ReadAny(k.rest);
      if v.Error? then Error(v.code) else
      ReadProps(v.rest, SetProp(props, k.value, v.value))
  }

  // ---------- exactly which values survive ----------

  /** Short texts, no Number that looks like an end marker, and no key twice. */
  predicate Representable(v: Value)
    decreases v, 1
  {
    match v
    case Str(text) => |text| < 0x8000
    case Num(bits) => bits < 0x1_0000_0000_0000_0000 && bits / 0x1_0000_0000_0000 != AMF0_OBJECT_END
    case Bool(_) => true
    case Null => true
    case Undefined => true
    case Date(date, zone) => date < 0x1_0000_0000_0000_0000 && zone < 0x1_0000
    case Obj(props) => UniqueKeys(props) && AllRepresentable(props)
    case Ecma(count, props) => count < 0x1_0000_0000 && UniqueKeys(props) && AllRepresentable(props)
    case ObjectEnd => true
  }

  predicate AllRepresentable(props: seq<Prop>)
    decreases props, 0
  {
    props != [] ==>
      && |props[0].key| < 0x8000 && Representable(props[0].value) && AllRepresentable(props[1..])
  }

  lemma {:induction false} HighBytes(v: nat)
    ensures BigEndian(v, 8)[..2] == BigEndian(v / 0x1_0000_0000_0000, 2)
  {
    var v1 := v / 256;
    var v2 := v1 / 256;
    var v3 := v2 / 256;
    var v4 := v3 / 256;
    var v5 := v4 / 256;
    var v6 := v5 / 256;
    assert v6 == v / 0x1_0000_0000_0000;
    assert BigEndian(v, 8) == BigEndian(v1, 7) + [v % 256];
    assert BigEndian(v1, 7) == BigEndian(v2, 6) + [v1 % 256];
    assert BigEndian(v2, 6) == BigEndian(v3, 5) + [v2 % 256];
    assert BigEndian(v3, 5) == BigEndian(v4, 4) + [v3 % 256];
    assert BigEndian(v4, 4) == BigEndian(v5, 3) + [v4 % 256];
    assert BigEndian(v5, 3) == BigEndian(v6, 2) + [v5 % 256];
  }

  /** A Number is taken for an end marker exactly when its top sixteen bits are 9. */
  lemma NumberLooksLikeEnd(bits: nat, rest: bytes)
    requires bits < 0x1_0000_0000_0000_0000
    ensures AtObjectEnd([AMF0_NUMBER] + BigEndian(bits, 8) + rest)
        <==> bits / 0x1_0000_0000_0000 == AMF0_OBJECT_END
  {
    var top := bits / 0x1_0000_0000_0000;
    var input := [AMF0_NUMBER] + BigEndian(bits, 8) + rest;
    HighBytes(bits);
    ExplicitBytes(top);
    assert input[1] == BigEndian(bits, 8)[..2][0] == top / 256 % 256;
    assert input[2] == BigEndian(bits, 8)[..2][1] == top % 256;
    assert top / 256 < 256;
  }

  lemma Utf8RoundTrip(text: bytes, rest: bytes)
    requires |text| < 0x8000
    ensures ReadUtf8(Utf8(text) + rest) == Parsed(text, rest)
  {
    hide BigEndian, FromBigEndian;
    var input, len := Utf8(text) + rest, BigEndian(|text|, 2);
    BigEndianRoundTrip(|text|, 2);
    Widths();
    assert input == len + (text + rest);
    AppendSplits(len, text + rest);
    assert input[2..2 + |text|] == text && input[2 + |text|..] == rest;
  }

  /**
   * What any text reads back as: the length is written modulo 2^16 and read as a signed number, so
   * that only so much of the text is taken, and none of it if that number is negative.
   */
  lemma TextReads(text: bytes, rest: bytes)
    ensures var n := |text| % 0x1_0000;
            ReadUtf8(Utf8(text) + rest) ==
            if n >= 0x8000 then Parsed([], text + rest) else Parsed(text[..n], text[n..] + rest)
  {
    hide BigEndian, FromBigEndian;
    var input, len, n := Utf8(text) + rest, BigEndian(|text|, 2), |text| % 0x1_0000;
    BigEndianRoundTrip(|text|, 2);
    Widths();
    assert input == len + (text + rest);
    AppendSplits(len, text + rest);
    if n < 0x8000 {
      assert input[2..2 + n] == text[..n] && input[2 + n..] == text[n..] + rest;
      assert n == 0 ==> text[..n] == [] && text[n..] + rest == text + rest;
    }
  }

  /** A text survives exactly below 2^15 bytes. */
  lemma Utf8RoundTripExactly(text: bytes, rest: bytes)
    ensures ReadUtf8(Utf8(text) + rest) == Parsed(text, rest) <==> |text| < 0x8000
  {
    if |text| < 0x8000 {
      Utf8RoundTrip(text, rest);
    }
  }

  /** No encoded value but the end marker itself looks like one. */
  lemma StartOfValue(v: Value, rest: bytes)
    requires Representable(v)
    ensures AtObjectEnd(Encode(v) + rest) <==> v == ObjectEnd
    ensures Encode(v) != [] && Encode(v)[0] != AMF0_OBJECT_END
  {
    assert Encode(v) != [] && (Encode(v) + rest)[0] == Encode(v)[0];
    if v.Num? {
      assert Encode(v) + rest == [AMF0_NUMBER] + BigEndian(v.bits, 8) + rest;
      NumberLooksLikeEnd(v.bits, rest);
    }
  }

  /** A property name never looks like an end marker either. */
  lemma StartOfProp(p: Prop, rest: bytes)
    requires |p.key| < 0x8000 && Representable(p.value)
    ensures !AtObjectEnd(Utf8(p.key) + (Encode(p.value) + rest))
  {
    hide Encode, Representable;
    var input := Utf8(p.key) + (Encode(p.value) + rest);
    ExplicitBytes(|p.key|);
    StartOfValue(p.value, rest);
    assert input[0] == |p.key| / 256 % 256 && input[1] == |p.key| % 256;
    assert |p.key| == 0 ==> input[2] == Encode(p.value)[0];
  }

  /**
   * Inversion: what is written and followed by anything reads back as the same value, with the
   * order of its properties and its stored count, and leaves exactly what followed.
   */
  lemma {:induction false} ReadInvertsEncode(v: Value, rest: bytes)
    requires Representable(v)
    ensures ReadAny(Encode(v) + rest) == Parsed(v, rest)
    decreases v, 1
  {
    if v.Obj? || v.Ecma? {
      ReadPropsInvertsEncode(v.props, [], rest);
      assert [] + v.props == v.props;
      ReadComposite(v, rest);
    } else if v != ObjectEnd {
      ReadScalar(v, rest);
    }
    ReadDiscovered(v, rest);
  }

  /** Discovery finds the marker of every value, and the end marker only where it was written. */
  lemma ReadDiscovered(v: Value, rest: bytes)
    requires Representable(v)
    requires v != ObjectEnd ==>
               Encode(v) != [] && ReadMarked(Encode(v)[0], Encode(v)[1..] + rest) == Parsed(v, rest)
    ensures ReadAny(Encode(v) + rest) == Parsed(v, rest)
  {
    hide Representable, ReadMarked, Encode, ReadAny, AtObjectEnd;
    StartOfValue(v, rest);
    if v == ObjectEnd {
      EndReads(rest);
    } else {
      var input := Encode(v) + rest;
      assert input[1..] == Encode(v)[1..] + rest && input[0] == Encode(v)[0];
      OtherReads(input);
    }
  }

  lemma OtherReads(input: bytes)
    requires input != [] && !AtObjectEnd(input)
    ensures ReadAny(input) == ReadMarked(input[0], input[1..])
  {
    hide ReadMarked, AtObjectEnd;
  }

  lemma EndReads(rest: bytes)
    ensures ReadAny(Encode(ObjectEnd) + rest) == Parsed(ObjectEnd, rest)
  {
    var input := END + rest;
    assert input[3..] == rest;
    hide ReadMarked;
  }

  lemma ReadComposite(v: Value, rest: bytes)
    requires Representable(v) && (v.Obj? || v.Ecma?)
    requires ReadProps(EncodeProps(v.props) + (END + rest), []) == Parsed(v.props, rest)
    ensures ReadMarked(Encode(v)[0], Encode(v)[1..] + rest) == Parsed(v, rest)
  {
    if v.Obj? {
      hide Representable, EncodeProps, ReadProps;
      assert Encode(v)[1..] + rest == EncodeProps(v.props) + (END + rest);
    } else {
      hide Representable, EncodeProps, ReadProps, BigEndian, FromBigEndian;
      EcmaBody(v, rest);
    }
  }

  lemma EcmaBody(v: Value, rest: bytes)
    requires v.Ecma? && Representable(v)
    ensures var body := Encode(v)[1..] + rest;
            && Encode(v)[0] == AMF0_ECMA_ARRAY && |body| >= 4 && FromBigEndian(body[..4]) == v.count
            && body[4..] == EncodeProps(v.props) + (END + rest)
  {
    hide BigEndian, FromBigEndian, EncodeProps;
    var count, later := BigEndian(v.count, 4), EncodeProps(v.props) + (END + rest);
    assert Encode(v)[1..] + rest == count + later;
    AppendSplits(count, later);
    BigEndianRoundTrip(v.count, 4);
    Widths();
  }

  lemma DateReadsBack(date: nat, zone: nat, rest: bytes)
    requires Representable(Date(date, zone))
    ensures var v := Date(date, zone);
            ReadMarked(Encode(v)[0], Encode(v)[1..] + rest) == Parsed(v, rest)
  {
    hide BigEndian, FromBigEndian;
    var body := Encode(Date(date, zone))[1..] + rest;
    assert body[..8] == BigEndian(date, 8) && body[8..10] == BigEndian(zone, 2) && body[10..] == rest;
    BigEndianRoundTrip(date, 8);
    BigEndianRoundTrip(zone, 2);
    Widths();
  }

  lemma ReadScalar(v: Value, rest: bytes)
    requires Representable(v) && !v.Obj? && !v.Ecma? && v != ObjectEnd
    ensures ReadMarked(Encode(v)[0], Encode(v)[1..] + rest) == Parsed(v, rest)
  {
    hide BigEndian, FromBigEndian, ReadUtf8;
    var body := Encode(v)[1..] + rest;
    match v
    case Str(text) =>
      assert body == Utf8(text) + rest;
      Utf8RoundTrip(text, rest);
    case Num(bits) =>
      assert body[..8] == BigEndian(bits, 8) && body[8..] == rest;
      BigEndianRoundTrip(bits, 8);
      Widths();
    case Date(date, zone) =>
      DateReadsBack(date, zone, rest);
    case Bool(_) =>
      assert body[1..] == rest;
    case Null =>
      assert body == rest;
    case Undefined =>
      assert body == rest;
  }

  lemma {:induction false} ReadPropsInvertsEncode(props: seq<Prop>, done: seq<Prop>, rest: bytes)
    requires UniqueKeys(done + props) && AllRepresentable(props)
    ensures ReadProps(EncodeProps(props) + (END + rest), done) == Parsed(done + props, rest)
    decreases props, 0
  {
    hide Encode, EncodeProps, Utf8, Representable, AllRepresentable, UniqueKeys, ReadProps, SetProp;
    if props == [] {
      NoMoreProps(done, rest);
    } else {
      FirstProp(props);
      var p, others, end := props[0], EncodeProps(props[1..]), END + rest;
      ReadInvertsEncode(p.value, others + end);
      OneProp(p, done, others + end);
      Associate(Utf8(p.key) + Encode(p.value), others, end);
      NewKeyAppends(done, props);
      assert done + props == done + [p] + props[1..];
      ReadPropsInvertsEncode(props[1..], done + [p], rest);
    }
  }

  lemma FirstProp(props: seq<Prop>)
    requires props != [] && AllRepresentable(props)
    ensures EncodeProps(props) == Utf8(props[0].key) + Encode(props[0].value) + EncodeProps(props[1..])
    ensures |props[0].key| < 0x8000 && Representable(props[0].value) && AllRepresentable(props[1..])
  {
  }

  lemma NoMoreProps(done: seq<Prop>, rest: bytes)
    ensures ReadProps(EncodeProps([]) + (END + rest), done) == Parsed(done + [], rest)
  {
    var input := END + rest;
    assert EncodeProps([]) + input == input && input[3..] == rest && done + [] == done;
  }

  /** One property is read and set. */
  lemma OneProp(p: Prop, done: seq<Prop>, later: bytes)
    requires |p.key| < 0x8000 && Representable(p.value)
    requires ReadAny(Encode(p.value) + later) == Parsed(p.value, later)
    ensures ReadProps(Utf8(p.key) + Encode(p.value) + later, done)
         == ReadProps(later, SetProp(done, p.key, p.value))
  {
    hide Encode, Utf8, Representable, ReadAny, SetProp, ReadUtf8, AtObjectEnd;
    Associate(Utf8(p.key), Encode(p.value), later);
    StartOfProp(p, later);
    Utf8RoundTrip(p.key, Encode(p.value) + later);
  }

  lemma NewKeyAppends(done: seq<Prop>, props: seq<Prop>)
    requires props != [] && UniqueKeys(done + props)
    ensures SetProp(done, props[0].key, props[0].value) == done + [props[0]]
  {
    forall i | 0 <= i < |done| ensures done[i].key != props[0].key {
      assert (done + props)[i] == done[i] && (done + props)[|done|] == props[0];
    }
    EraseAbsent(done, props[0].key);
  }

  lemma {:induction false} AppendKeepsRepresentable(props: seq<Prop>, p: Prop)
    requires AllRepresentable(props) && |p.key| < 0x8000 && Representable(p.value)
    ensures AllRepresentable(props + [p])
  {
    if props == [] {
      assert props + [p] == [p];
    } else {
      assert (props + [p])[1..] == props[1..] + [p];
      AppendKeepsRepresentable(props[1..], p);
    }
  }

  lemma {:induction false} EraseKeepsRepresentable(props: seq<Prop>, key: bytes)
    requires AllRepresentable(props)
    ensures AllRepresentable(Erase(props, key))
  {
    if props != [] && props[0].key != key {
      EraseKeepsRepresentable(props[1..], key);
      var e := Erase(props[1..], key);
      assert Erase(props, key)[1..] == e;
    }
  }

  /** Whatever the bytes, a value that is read at all is one that can be written and read back. */
  lemma {:induction false} ReadersRange(input: bytes)
    requires ReadAny(input).Parsed?
    ensures Representable(ReadAny(input).value)
    decreases |input|, 0
  {
    if !AtObjectEnd(input) {
      MarkedRange(input[0], input[1..]);
    }
  }

  lemma {:induction false} MarkedRange(marker: byte, body: bytes)
    requires ReadMarked(marker, body).Parsed? && !AtObjectEnd([marker] + body)
    ensures Representable(ReadMarked(marker, body).value)
    decreases |body|, 1
  {
    if marker == AMF0_OBJECT {
      PropsRange(body, []);
    } else if marker == AMF0_ECMA_ARRAY {
      FromBigEndianRoundTrip(body[..4]);
      Widths();
      PropsRange(body[4..], []);
    } else if marker == AMF0_NUMBER {
      var bits := FromBigEndian(body[..8]);
      FromBigEndianRoundTrip(body[..8]);
      Widths();
      NumberLooksLikeEnd(bits, body[8..]);
      assert [marker] + body == [AMF0_NUMBER] + BigEndian(bits, 8) + body[8..];
    } else if marker == AMF0_DATE {
      FromBigEndianRoundTrip(body[..8]);
      FromBigEndianRoundTrip(body[8..10]);
      Widths();
    }
  }

  lemma {:induction false} PropsRange(input: bytes, props: seq<Prop>)
    requires ReadProps(input, props).Parsed? && UniqueKeys(props) && AllRepresentable(props)
    ensures UniqueKeys(ReadProps(input, props).value) && AllRepresentable(ReadProps(input, props).value)
    decreases |input|, 0
  {
    if input != [] && !AtObjectEnd(input) {
      var k := ReadUtf8(input);
      var v := ReadAny(k.rest);
      ReadersRange(k.rest);
      SetKeepsUnique(props, k.value, v.value);
      EraseKeepsRepresentable(props, k.value);
      AppendKeepsRepresentable(Erase(props, k.value), Prop(k.value, v.value));
      PropsRange(v.rest, SetProp(props, k.value, v.value));
    }
  }

  /** The round trip succeeds for the representable values and for no others. */
  lemma RoundTripExactly(v: Value, rest: bytes)
    ensures ReadAny(Encode(v) + rest) == Parsed(v, rest) <==> Representable(v)
  {
    if Representable(v) {
      ReadInvertsEncode(v, rest);
    } else if ReadAny(Encode(v) + rest).Parsed? {
      ReadersRange(Encode(v) + rest);
    }
  }

  /** Reading is canonical: writing what was read and reading it again changes nothing. */
  lemma ReadIsIdempotent(input: bytes, rest: bytes)
    requires ReadAny(input).Parsed?
    ensures var v := ReadAny(input).value;
            ReadAny(Encode(v) + rest) == Parsed(v, rest)
  {
    ReadersRange(input);
    ReadInvertsEncode(ReadAny(input).value, rest);
  }

  // ---------- the bytes themselves, and what else is read ----------

  /** The markers of section 2.1 of the AMF 0 Specification, and what is behind each. */
  lemma ValuesOnTheWire(text: bytes, bits: nat, flag: bool, count: nat, date: nat, zone: nat, props: seq<Prop>)
    ensures Encode(Str(text)) == [2] + (BigEndian(|text|, 2) + text)
    ensures Encode(Num(bits)) == [0] + BigEndian(bits, 8)
    ensures Encode(Bool(flag)) == [1, if flag then 1 else 0]
    ensures Encode(Null) == [5] && Encode(Undefined) == [6] && Encode(ObjectEnd) == [0, 0, 9]
    ensures Encode(Date(date, zone)) == [0x0b] + BigEndian(date, 8) + BigEndian(zone, 2)
    ensures Encode(Obj(props)) == [3] + EncodeProps(props) + [0, 0, 9]
    ensures Encode(Ecma(count, props)) == [8] + BigEndian(count, 4) + EncodeProps(props) + [0, 0, 9]
    ensures EncodeProps([]) == []
    ensures props != [] ==>
              EncodeProps(props)
              == BigEndian(|props[0].key|, 2) + props[0].key + Encode(props[0].value) + EncodeProps(props[1..])
  {
  }

  /** A marker of no type, and that of a strict array, are refused with different codes. */
  lemma UnknownMarkers(marker: byte, body: bytes)
    requires marker !in {0, 1, 2, 3, 5, 6, 8, 0x0b}
    ensures ReadAny([marker] + body) == Error(if marker == 0x0a then 2003 else 2004)
  {
    var input := [marker] + body;
    assert input[1..] == body;
  }

  /** Any byte but 0 is true. */
  lemma AnyByteIsBoolean(b: byte, rest: bytes)
    ensures ReadAny([1, b] + rest) == Parsed(Bool(b != 0), rest)
  {
    var input := [1, b] + rest;
    assert input[1..][1..] == rest && input[1..][0] == b;
  }

  predicate IsScalar(v: Value) {
    v.Str? || v.Num? || v.Bool? || v.Null? || v.Undefined? || v.Date?
  }

  /** A scalar value cut short anywhere is refused. */
  lemma ScalarCutShort(v: Value, n: nat)
    requires Representable(v) && IsScalar(v) && n < |Encode(v)|
    ensures ReadAny(Encode(v)[..n]) == Error(2003)
  {
    if n > 0 {
      var input, body := Encode(v)[..n], Encode(v)[1..][..n - 1];
      assert input[1..] == body && input[0] == Encode(v)[0];
      StartOfValue(v, []);
      assert Encode(v) + [] == Encode(v);
      assert n >= 3 ==> input[0] == Encode(v)[0] && input[1] == Encode(v)[1] && input[2] == Encode(v)[2];
      assert !AtObjectEnd(input);
      BodyCutShort(v, n - 1);
      OtherReads(input);
    }
  }

  lemma BodyCutShort(v: Value, n: nat)
    requires Representable(v) && IsScalar(v) && n + 1 < |Encode(v)|
    ensures ReadMarked(Encode(v)[0], Encode(v)[1..][..n]) == Error(2003)
  {
    hide BigEndian, FromBigEndian;
    var body := Encode(v)[1..][..n];
    if v.Str? && n >= 2 {
      BigEndianRoundTrip(|v.text|, 2);
      Widths();
      assert body[..2] == BigEndian(|v.text|, 2);
    }
  }

  /**
   * An object or array whose end marker is missing because the input ends behind a property reads
   * as if it were complete.
   */
  lemma MissingEndIsTolerated(props: seq<Prop>, count: nat)
    requires UniqueKeys(props) && AllRepresentable(props) && count < 0x1_0000_0000
    ensures ReadAny([3] + EncodeProps(props)) == Parsed(Obj(props), [])
    ensures ReadAny([8] + BigEndian(count, 4) + EncodeProps(props)) == Parsed(Ecma(count, props), [])
  {
    hide BigEndian, EncodeProps, ReadAny, ReadMarked, ReadProps, AtObjectEnd, UniqueKeys, AllRepresentable;
    assert [] + props == props;
    OpenPropsRead(props, []);
    var body, head := EncodeProps(props), BigEndian(count, 4);
    OpenBodies(count, body, props);
    Discovered(3, body);
    Discovered(8, head + body);
    Associate([8], head, body);
  }

  lemma Discovered(marker: byte, body: bytes)
    requires marker != 0
    ensures ReadAny([marker] + body) == ReadMarked(marker, body)
  {
    hide ReadMarked;
    var input := [marker] + body;
    assert input[1..] == body;
  }

  lemma OpenBodies(count: nat, body: bytes, props: seq<Prop>)
    requires count < 0x1_0000_0000 && ReadProps(body, []) == Parsed(props, [])
    ensures ReadMarked(3, body) == Parsed(Obj(props), [])
    ensures ReadMarked(8, BigEndian(count, 4) + body) == Parsed(Ecma(count, props), [])
  {
    hide BigEndian, FromBigEndian, ReadProps;
    AppendSplits(BigEndian(count, 4), body);
    BigEndianRoundTrip(count, 4);
    Widths();
  }

  lemma {:induction false} OpenPropsRead(props: seq<Prop>, done: seq<Prop>)
    requires UniqueKeys(done + props) && AllRepresentable(props)
    ensures ReadProps(EncodeProps(props), done) == Parsed(done + props, [])
    decreases props
  {
    hide Encode, EncodeProps, Utf8, Representable, AllRepresentable, UniqueKeys, ReadProps, SetProp;
    if props == [] {
      OpenEnd(done);
    } else {
      FirstProp(props);
      var p, others := props[0], EncodeProps(props[1..]);
      ReadInvertsEncode(p.value, others);
      OneProp(p, done, others);
      NewKeyAppends(done, props);
      assert done + props == done + [p] + props[1..];
      OpenPropsRead(props[1..], done + [p]);
    }
  }

  lemma OpenEnd(done: seq<Prop>)
    ensures ReadProps(EncodeProps([]), done) == Parsed(done + [], [])
  {
    assert done + [] == done;
  }

  /** A key that is set again leaves its place and goes to the end; the others keep their order. */
  lemma {:induction false} SetAgainGoesLast(a: seq<Prop>, key: bytes, was: Value, b: seq<Prop>, now: Value)
    requires Absent(a, key)
    ensures SetProp(a + [Prop(key, was)] + b, key, now) == a + b + [Prop(key, now)]
  {
    var all := a + [Prop(key, was)] + b;
    if a == [] {
      assert all[1..] == b && a + b == b;
    } else {
      assert all[1..] == a[1..] + [Prop(key, was)] + b && all[0] == a[0];
      SetAgainGoesLast(a[1..], key, was, b, now);
      AppendSplits(Erase(all[1..], key), [Prop(key, now)]);
      AppendSplits(a[1..] + b, [Prop(key, now)]);
      assert Erase(all[1..], key) == a[1..] + b;
      assert [a[0]] + (a[1..] + b) == a + b;
    }
  }
}
