/** UnsortHashTable: an insertion-ordered table of properties (protocol/rtmp_amf0.cpp:105-243). */
module PropertyTables {
  import opened Bytes
  import opened Amf0

  /** The value under a key: the first entry's. */
  function Lookup(props: seq<Prop>, key: bytes): Option<Value> {
    if props == [] then None
    else if props[0].key == key then Some(props[0].value)
    else Lookup(props[1..], key)
  }

  /** Every entry with the key gone. */
  function Without(props: seq<Prop>, key: bytes): seq<Prop> {
    if props == [] then []
    else if props[0].key == key then Without(props[1..], key)
    else [props[0]] + Without(props[1..], key)
  }

  function SetAll(props: seq<Prop>, src: seq<Prop>): seq<Prop>
    decreases src
  {
    if src == [] then props else SetAll(SetProp(props, src[0].key, src[0].value), src[1..])
  }

  lemma EraseNothing(props: seq<Prop>, key: bytes)
    ensures props[..|props|] + Erase(props[|props|..], key) == props
  {
  }

  /** One turn of Set's search. */
  lemma EraseStep(props: seq<Prop>, i: nat, key: bytes)
    requires i < |props|
    ensures props[..i] + Erase(props[i..], key) ==
            if props[i].key == key then props[..i] + props[i + 1..]
            else props[..i + 1] + Erase(props[i + 1..], key)
  {
    assert props[i..][1..] == props[i + 1..] && props[i..][0] == props[i];
    hide Erase;
    Associate(props[..i], [props[i]], Erase(props[i + 1..], key));
    assert props[..i] + [props[i]] == props[..i + 1];
  }

  class UnsortHashTable {
    var properties: seq<Prop>

    constructor ()
      ensures properties == []
    {
      properties := [];
    }

    /** A null value only erases. */
    method Set(key: bytes, value: Option<Value>)
      modifies this
      ensures properties == if value.Some? then SetProp(old(properties), key, value.value)
                            else Erase(old(properties), key)
    {
      hide Erase;
      EraseNothing(properties, key);
      var i := 0;
      while i < |properties|
        invariant i <= |properties| && properties == old(properties)
        invariant Erase(properties, key) == properties[..i] + Erase(properties[i..], key)
      {
        EraseStep(properties, i, key);
        if properties[i].key == key {
          properties := properties[..i] + properties[i + 1..];
          break;
        }
        i := i + 1;
      }
      if value.Some? {
        properties := properties + [Prop(key, value.value)];
      }
    }

    method GetValue(key: bytes) returns (value: Option<Value>)
      ensures value == Lookup(properties, key)
    {
      var i := 0;
      while i < |properties|
        invariant i <= |properties|
        invariant Lookup(properties, key) == Lookup(properties[i..], key)
      {
        if properties[i].key == key {
          return Some(properties[i].value);
        }
        i := i + 1;
      }
      return None;
    }

    method Remove(key: bytes)
      modifies this
      ensures properties == Without(old(properties), key)
    {
      var i := 0;
      while i < |properties|
        invariant i <= |properties|
        invariant Without(old(properties), key) == properties[..i] + Without(properties[i..], key)
        decreases |properties| - i
      {
        if properties[i].key == key {
          properties := properties[..i] + properties[i + 1..];
        } else {
          i := i + 1;
        }
      }
    }

    method Clear()
      modifies this
      ensures properties == []
    {
      properties := [];
    }

    method Copy(src: UnsortHashTable)
      requires src != this
      modifies this
      ensures properties == SetAll(old(properties), src.properties)
    {
      var i := 0;
      while i < |src.properties|
        invariant i <= |src.properties| && src.properties == old(src.properties)
        invariant SetAll(old(properties), src.properties) == SetAll(properties, src.properties[i..])
      {
        var p := src.properties[i];
        assert src.properties[i..][1..] == src.properties[i + 1..];
        Set(p.key, Some(p.value));
        i := i + 1;
      }
    }
  }

  /** What callers do to a table. */
  datatype Op = Put(key: bytes, value: Option<Value>) | Drop(key: bytes) | Reset | CopyFrom(src: seq<Prop>)

  function PutAll(m: map<bytes, Value>, src: seq<Prop>): map<bytes, Value>
    decreases src
  {
    if src == [] then m else PutAll(m[src[0].key := src[0].value], src[1..])
  }

  function Apply(props: seq<Prop>, op: Op): seq<Prop> {
    match op
    case Put(key, value) => if value.Some? then SetProp(props, key, value.value) else Erase(props, key)
    case Drop(key) => Without(props, key)
    case Reset => []
    case CopyFrom(src) => SetAll(props, src)
  }

  function ApplyToMap(m: map<bytes, Value>, op: Op): map<bytes, Value> {
    match op
    case Put(key, value) => if value.Some? then m[key := value.value] else m - {key}
    case Drop(key) => m - {key}
    case Reset => map[]
    case CopyFrom(src) => PutAll(m, src)
  }

  /** The table and the map it stands for, after the same operations. */
  function Table(ops: seq<Op>): seq<Prop> {
    if ops == [] then [] else Apply(Table(ops[..|ops| - 1]), ops[|ops| - 1])
  }

  function AsMap(ops: seq<Op>): map<bytes, Value> {
    if ops == [] then map[] else
    ApplyToMap(AsMap(ops[..|ops| - 1]), ops[|ops| - 1])
  }

  ghost predicate StandsFor(props: seq<Prop>, m: map<bytes, Value>) {
    && UniqueKeys(props)
    && forall key :: Lookup(props, key) == if key in m then Some(m[key]) else None
  }

  lemma {:induction false} LookupAbsent(props: seq<Prop>, key: bytes)
    ensures Lookup(props, key) == None <==> Absent(props, key)
  {
    if props != [] {
      LookupAbsent(props[1..], key);
      if props[0].key != key && Absent(props[1..], key) {
        assert forall i | 0 < i < |props| :: props[i] == props[1..][i - 1];
      }
      if Absent(props, key) {
        assert forall i | 0 <= i < |props[1..]| :: props[1..][i] == props[i + 1];
      }
    }
  }

  lemma {:induction false} LookupErase(props: seq<Prop>, key: bytes, other: bytes)
    requires UniqueKeys(props)
    ensures Lookup(Erase(props, key), other) == if other == key then None else Lookup(props, other)
  {
    if props != [] {
      LookupErase(props[1..], key, other);
      if props[0].key == key {
        LookupAbsent(props[1..], key);
      }
    }
  }

  lemma {:induction false} LookupAppend(props: seq<Prop>, p: Prop, other: bytes)
    ensures Lookup(props + [p], other) ==
            if Lookup(props, other).Some? then Lookup(props, other)
            else if p.key == other then Some(p.value) else None
  {
    if props == [] {
      assert props + [p] == [p];
    } else {
      assert (props + [p])[1..] == props[1..] + [p];
      LookupAppend(props[1..], p, other);
    }
  }

  /** Remove, whatever the table: the key is gone, and every other key finds what it found. */
  lemma {:induction false} RemoveLeavesNone(props: seq<Prop>, key: bytes, other: bytes)
    ensures Absent(Without(props, key), key)
    ensures other != key ==> Lookup(Without(props, key), other) == Lookup(props, other)
    ensures Absent(props, key) ==> Without(props, key) == props
  {
    if props != [] {
      RemoveLeavesNone(props[1..], key, other);
      assert Absent(props, key) ==> Absent(props[1..], key);
    }
  }

  lemma {:induction false} WithoutIsErase(props: seq<Prop>, key: bytes)
    requires UniqueKeys(props)
    ensures Without(props, key) == Erase(props, key)
  {
    if props != [] {
      WithoutIsErase(props[1..], key);
      if props[0].key == key {
        EraseAbsent(props[1..], key);
      }
    }
  }

  lemma SingleStandsFor(props: seq<Prop>, m: map<bytes, Value>, op: Op)
    requires StandsFor(props, m) && !op.CopyFrom?
    ensures StandsFor(Apply(props, op), ApplyToMap(m, op))
  {
    if op != Reset {
      var key := op.key;
      WithoutIsErase(props, key);
      EraseKeepsUnique(props, key);
      if op.Put? && op.value.Some? {
        SetKeepsUnique(props, key, op.value.value);
      }
      var m' := ApplyToMap(m, op);
      forall other ensures Lookup(Apply(props, op), other) == if other in m' then Some(m'[other]) else None {
        LookupErase(props, key, other);
        if op.Put? && op.value.Some? {
          LookupAppend(Erase(props, key), Prop(key, op.value.value), other);
        }
      }
    }
  }

  lemma {:induction false} SetAllStandsFor(props: seq<Prop>, m: map<bytes, Value>, src: seq<Prop>)
    requires StandsFor(props, m)
    ensures StandsFor(SetAll(props, src), PutAll(m, src))
    decreases src
  {
    if src != [] {
      hide StandsFor;
      SingleStandsFor(props, m, Put(src[0].key, Some(src[0].value)));
      SetAllStandsFor(SetProp(props, src[0].key, src[0].value), m[src[0].key := src[0].value], src[1..]);
    }
  }

  lemma ApplyStandsFor(props: seq<Prop>, m: map<bytes, Value>, op: Op)
    requires StandsFor(props, m)
    ensures StandsFor(Apply(props, op), ApplyToMap(m, op))
  {
    if op.CopyFrom? {
      SetAllStandsFor(props, m, op.src);
    } else {
      SingleStandsFor(props, m, op);
    }
  }

  /** Over any operations the table is the map: keys unique, the last value set is found. */
  lemma {:induction false} TableRefinesMap(ops: seq<Op>)
    ensures StandsFor(Table(ops), AsMap(ops))
  {
    if ops != [] {
      TableRefinesMap(ops[..|ops| - 1]);
      ApplyStandsFor(Table(ops[..|ops| - 1]), AsMap(ops[..|ops| - 1]), ops[|ops| - 1]);
    }
  }

  /** Copying appends, so that a copy into an empty table preserves order and contents. */
  lemma {:induction false} CopyPreservesOrder(done: seq<Prop>, src: seq<Prop>)
    requires UniqueKeys(done + src)
    ensures SetAll(done, src) == done + src
    decreases src
  {
    if src == [] {
      assert done + src == done;
    } else {
      NewKeyAppends(done, src);
      assert done + [src[0]] + src[1..] == done + src;
      CopyPreservesOrder(done + [src[0]], src[1..]);
    }
  }
}
