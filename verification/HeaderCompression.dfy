/**
 * What compressed headers mean (protocol/rtmp_stack.cpp:403-508): sections 5.3.1.2.2 to 5.3.1.2.4
 * and 5.3.1.3 of the RTMP Specification 1.0, and exactly where this server departs from them.
 */
module HeaderCompression {
  import opened Bytes
  import opened RtmpConsts
  import opened ChunkWriter
  import opened ChunkReader
  import opened ChunkPeer
  import opened ChunkRuns

  // ---------- one header ----------

  lemma ShiftModulo(a: nat, b: nat, d: nat)
    requires a < d
    ensures (a + b) % d == b % d <==> a == 0
  {
    var q, r := b / d, b % d;
    if a + r < d {
      ModuloUnique(a + b, d, q, a + r);
    } else {
      assert a + b == d * (q + 1) + (a + r - d);
      ModuloUnique(a + b, d, q + 1, a + r - d);
    }
  }

  /**
   * A header of type 1, 2 or 3 that starts a message means the time before it plus its delta. The
   * reader says so exactly when there is no extended field, or the time before was 0: otherwise
   * the extended delta is taken for a time.
   */
  lemma DeltaAddsExactly(threshold: nat, chunkSize: int, r: ChunkStreamState, s: PeerStream,
                         m: OutMessage, fmt: nat, delta: nat, rest: bytes)
    requires StreamOk(m.cid, r) && PeerStreamOk(m.cid, s) && Mirrors(m.cid, r, s)
    requires StartOk(threshold, chunkSize, s, m, fmt, delta) && fmt != 0
    ensures var ext := StartExt(threshold, s, m, fmt, delta);
            var h := ReadMessageHeader(threshold, m.cid, r, fmt,
                                       FixedHeader(threshold, m, fmt, delta) + ExtBytes(ext) + rest);
            && h.Parsed?
            && (ext.Some? ==> h.value.header.timestamp == delta % 0x8000_0000)
            && (h.value.header.timestamp == (r.header.timestamp + delta) % 0x8000_0000
                <==> ext.None? || r.header.timestamp == 0)
  {
    hide FixedHeader, ExtBytes, ReadMessageHeader, ByteSwap32;
    StartHeaderDecodes(threshold, chunkSize, r, s, m, fmt, delta, rest);
    ShiftModulo(r.header.timestamp, delta, 0x8000_0000);
  }

  // ---------- against full headers ----------

  /** The same event with a full type-0 header, and no extended field left out. */
  function Expand(e: Event): Event {
    match e
    case Start(m, _, _, form) => Start(m, 0, 0, form)
    case Continue(cid, form, _) => Continue(cid, form, false)
  }

  function ExpandAll(events: seq<Event>): seq<Event> {
    if events == [] then [] else [Expand(events[0])] + ExpandAll(events[1..])
  }

  /** A full header with the time the peer means would be read in step. */
  predicate Writable(threshold: nat, e: Event) {
    e.Start? && e.fmt != 0 ==> InStep(threshold, Unsigned32(e.m.timestamp))
  }

  ghost predicate AllWritable(threshold: nat, events: seq<Event>) {
    forall i | 0 <= i < |events| :: Writable(threshold, events[i])
  }

  /** The message's time as the reader sees it is what a full header would have shown. */
  predicate ShownInFull(threshold: nat, s: PeerStream) {
    s.seen == SeenTimestamp(threshold, Unsigned32(s.last.timestamp))
  }

  /** Every message delivered by the run is. */
  ghost predicate DeliveredInFull(threshold: nat, p: PeerState, events: seq<Event>)
    decreases |events|
  {
    events != [] && Step(threshold, p, events[0]).Some? ==>
      var s := Step(threshold, p, events[0]).value;
      && (s.delivered != [] ==> ShownInFull(threshold, HeaderSent(threshold, p, events[0])))
      && DeliveredInFull(threshold, s.peer, events[1..])
  }

  /**
   * For a peer that adds its delta, and a time a full header can carry: a compressed header shows
   * what the full one would exactly when it has no extended field or the time before was 0.
   */
  lemma ShownInFullExactly(threshold: nat, p: PeerState, e: Event)
    requires PeerOk(p) && EventOk(threshold, p, e) && e.Start? && e.fmt != 0
    requires e.m.timestamp == (PeerAt(p, e.m.cid).seen + e.delta) % 0x8000_0000
    requires threshold <= MAX_FIELD24 || e.m.timestamp < 0x100_0000
    ensures ShownInFull(threshold, HeaderSent(threshold, p, e))
        <==> StartExt(threshold, PeerAt(p, e.m.cid), e.m, e.fmt, e.delta).None? || PeerAt(p, e.m.cid).seen == 0
  {
    var s, t := PeerAt(p, e.m.cid), e.m.timestamp;
    assert PeerStreamOk(e.m.cid, s);
    FullHeaderShows(threshold, t);
    ShiftModulo(s.seen, e.delta, 0x8000_0000);
    assert HeaderSent(threshold, p, e).seen ==
           if StartExt(threshold, s, e.m, e.fmt, e.delta).Some? then e.delta % 0x8000_0000 else t;
    assert HeaderSent(threshold, p, e).last == e.m;
    hide StartExt, HeaderSent, EventOk, Unsigned32, SeenTimestamp;
  }

  lemma FullHeaderShows(threshold: nat, t: int)
    requires 0 <= t < 0x8000_0000 && (threshold <= MAX_FIELD24 || t < 0x100_0000)
    ensures Unsigned32(t) == t && SeenTimestamp(threshold, t) == t
  {
  }

  /** The same message, as far as it has been sent; on the second stream with its full time. */
  predicate SameMessage(threshold: nat, s: PeerStream, t: PeerStream) {
    s.last == t.last && s.sent == t.sent && (t.sent.Some? ==> ShownInFull(threshold, t))
  }

  ghost predicate Alike(threshold: nat, p: PeerState, q: PeerState) {
    p.chunkSize == q.chunkSize && forall cid: nat :: SameMessage(threshold, PeerAt(p, cid), PeerAt(q, cid))
  }

  lemma StartAlike(threshold: nat, p: PeerState, q: PeerState, e: Event)
    requires Alike(threshold, p, q) && EventOk(threshold, p, e) && Writable(threshold, e)
    ensures EventOk(threshold, q, Expand(e))
    ensures SameMessage(threshold, HeaderSent(threshold, p, e), HeaderSent(threshold, q, Expand(e)))
    ensures HeaderSent(threshold, p, e).sent.Some?
  {
    hide Unlike, Piece, Unsigned32, SeenTimestamp;
    assert SameMessage(threshold, PeerAt(p, e.Cid()), PeerAt(q, e.Cid()));
  }

  lemma StepAlike(threshold: nat, p: PeerState, q: PeerState, e: Event)
    requires Ready(q) && Alike(threshold, p, q) && Step(threshold, p, e).Some? && Writable(threshold, e)
    ensures Step(threshold, q, Expand(e)).Some?
    ensures var s, t := Step(threshold, p, e).value, Step(threshold, q, Expand(e)).value;
            && Alike(threshold, s.peer, t.peer) && SameButTimes(s.delivered, t.delivered)
            && (s.delivered == t.delivered
                <==> (s.delivered != [] ==> ShownInFull(threshold, HeaderSent(threshold, p, e))))
  {
    StartAlike(threshold, p, q, e);
    hide EventOk, HeaderSent, EventBytes, OnRecvMessage, Writable, ShownInFull, PeerOk;
    StepDeliversAlike(threshold, p, q, e);
    var s, t := Step(threshold, p, e).value, Step(threshold, q, Expand(e)).value;
    forall cid: nat ensures SameMessage(threshold, PeerAt(s.peer, cid), PeerAt(t.peer, cid)) {
      assert SameMessage(threshold, PeerAt(p, cid), PeerAt(q, cid));
      StreamOfStep(threshold, p, e, cid);
      StreamOfStep(threshold, q, Expand(e), cid);
      FullTimeKept(threshold, q, Expand(e));
      hide PeerAt, Step;
    }
  }

  lemma FullTimeKept(threshold: nat, q: PeerState, e: Event)
    requires Ready(q) && EventOk(threshold, q, e)
    ensures ShownInFull(threshold, HeaderSent(threshold, q, e)) ==> ShownInFull(threshold, StreamAfter(threshold, q, e))
  {
    hide EventOk, HeaderSent, PeerOk, SeenTimestamp;
  }

  /** The same messages in the same order, except that their times may differ. */
  predicate SameButTimes(a: seq<OutMessage>, b: seq<OutMessage>) {
    |a| == |b| && forall i | 0 <= i < |a| :: a[i].(timestamp := b[i].timestamp) == b[i]
  }

  /** Two chunks of the same message complete it together, and deliver it alike but for its time. */
  lemma StepDeliversAlike(threshold: nat, p: PeerState, q: PeerState, e: Event)
    requires Step(threshold, p, e).Some? && Step(threshold, q, Expand(e)).Some? && p.chunkSize == q.chunkSize
    requires SameMessage(threshold, HeaderSent(threshold, p, e), HeaderSent(threshold, q, Expand(e)))
    requires HeaderSent(threshold, p, e).sent.Some?
    ensures var s, t := Step(threshold, p, e).value, Step(threshold, q, Expand(e)).value;
            && s.peer.chunkSize == t.peer.chunkSize && SameButTimes(s.delivered, t.delivered)
            && (s.delivered == t.delivered
                <==> (s.delivered != [] ==> ShownInFull(threshold, HeaderSent(threshold, p, e))))
  {
    hide EventOk, HeaderSent, EventBytes, OnRecvMessage, PeerOk, SeenTimestamp;
  }

  lemma SplitEqually(a: seq<OutMessage>, b: seq<OutMessage>, c: seq<OutMessage>, d: seq<OutMessage>)
    requires SameButTimes(a, c) && SameButTimes(b, d)
    ensures SameButTimes(a + b, c + d)
    ensures a + b == c + d <==> a == c && b == d
  {
    AppendSplits(a, b);
    AppendSplits(c, d);
  }

  lemma {:induction false} RunAlike(threshold: nat, p: PeerState, q: PeerState, events: seq<Event>)
    requires Ready(q) && Alike(threshold, p, q) && AllWritable(threshold, events)
    requires Run(threshold, p, events).Some?
    ensures Run(threshold, q, ExpandAll(events)).Some?
    ensures var o, full := Run(threshold, p, events).value, Run(threshold, q, ExpandAll(events)).value;
            && o.peer.chunkSize == full.peer.chunkSize && SameButTimes(o.delivered, full.delivered)
            && (o.delivered == full.delivered <==> DeliveredInFull(threshold, p, events))
    decreases |events|
  {
    if events != [] {
      hide Step, Alike, Ready, Writable, HeaderSent, ShownInFull, SameButTimes;
      assert Writable(threshold, events[0]);
      StepAlike(threshold, p, q, events[0]);
      var s := Step(threshold, p, events[0]).value;
      var t := Step(threshold, q, Expand(events[0])).value;
      assert ExpandAll(events)[1..] == ExpandAll(events[1..]);
      RunAlike(threshold, s.peer, t.peer, events[1..]);
      var o, full := Run(threshold, s.peer, events[1..]).value, Run(threshold, t.peer, ExpandAll(events[1..])).value;
      SplitEqually(s.delivered, o.delivered, t.delivered, full.delivered);
    } else {
      assert Alike(threshold, p, q);
    }
  }

  /**
   * A connection whose peer uses any mixture of header types delivers what it would deliver if
   * every message carried a full type-0 header with the time its peer means, but for the times:
   * those agree as well exactly when each message delivered is shown in full.
   */
  lemma CompressedMeansExpanded(threshold: nat, events: seq<Event>)
    requires Run(threshold, InitialPeer(), events).Some? && AllWritable(threshold, events)
    ensures Run(threshold, InitialPeer(), ExpandAll(events)).Some?
    ensures var o := Run(threshold, InitialPeer(), events).value;
            var full := Run(threshold, InitialPeer(), ExpandAll(events)).value;
            && Delivers(threshold, o.wire, o.delivered, o.peer.chunkSize)
            && Delivers(threshold, full.wire, full.delivered, o.peer.chunkSize)
            && SameButTimes(o.delivered, full.delivered)
            && (o.delivered == full.delivered <==> DeliveredInFull(threshold, InitialPeer(), events))
  {
    InitialMatch();
    assert Alike(threshold, InitialPeer(), InitialPeer());
    RunAlike(threshold, InitialPeer(), InitialPeer(), events);
    ConnectionRoundTrip(threshold, events);
    ConnectionRoundTrip(threshold, ExpandAll(events));
  }

  // ---------- the clock of a stream ----------

  /** The time a stream has come to, without wrapping, and whether its last header was extended. */
  datatype Clock = Clock(time: nat, extended: bool)

  const START := Clock(0, false)

  predicate IsDelta(e: Event, cid: nat) {
    e.Start? && e.m.cid == cid && e.fmt != 0
  }

  predicate ExtendedDelta(threshold: nat, c: Clock, e: Event, cid: nat) {
    IsDelta(e, cid) && if e.fmt == 3 then c.extended else e.delta >= threshold
  }

  /** The code's clock: set by a full header or an extended delta, advanced by any other delta. */
  function Tick(threshold: nat, c: Clock, e: Event, cid: nat): Clock {
    if ExtendedDelta(threshold, c, e, cid) then Clock(e.delta, true)
    else if IsDelta(e, cid) then Clock(c.time + e.delta, false)
    else if e.Start? && e.m.cid == cid then
      Clock(SeenTimestamp(threshold, Unsigned32(e.m.timestamp)), Unsigned32(e.m.timestamp) >= threshold)
    else c
  }

  function Ticks(threshold: nat, c: Clock, events: seq<Event>, cid: nat): Clock
    decreases |events|
  {
    if events == [] then c else Ticks(threshold, Tick(threshold, c, events[0], cid), events[1..], cid)
  }

  predicate Shows(s: PeerStream, c: Clock) {
    s.seen == c.time % 0x8000_0000 && s.ext.Some? == c.extended
  }

  lemma AddModulo(a: nat, b: nat, d: nat)
    requires d > 0
    ensures (a % d + b) % d == (a + b) % d
  {
    var q, r := a / d, (a % d + b) % d;
    var k := (a % d + b) / d;
    assert a + b == d * q + (d * k + r);
    assert a + b == d * (q + k) + r;
    ModuloUnique(a + b, d, q + k, r);
  }

  lemma DeltaHeader(threshold: nat, p: PeerState, e: Event, c: Clock)
    requires EventOk(threshold, p, e) && PeerAt(p, e.Cid()).ext.Some? == c.extended && IsDelta(e, e.Cid())
    ensures var s, extended := PeerAt(p, e.Cid()), ExtendedDelta(threshold, c, e, e.Cid());
            && HeaderSent(threshold, p, e).ext.Some? == extended
            && HeaderSent(threshold, p, e).seen == (if extended then e.delta else s.seen + e.delta) % 0x8000_0000
  {
    hide EventOk;
  }

  lemma OtherHeader(threshold: nat, p: PeerState, e: Event)
    requires !IsDelta(e, e.Cid())
    ensures var s, h := PeerAt(p, e.Cid()), HeaderSent(threshold, p, e);
            if e.Start? then h.seen == SeenTimestamp(threshold, Unsigned32(e.m.timestamp))
                             && h.ext.Some? == (Unsigned32(e.m.timestamp) >= threshold)
            else h.seen == s.seen && h.ext == s.ext
  {
    hide SeenTimestamp, Unsigned32;
  }

  lemma SeenIsShort(threshold: nat, timestamp: nat)
    ensures SeenTimestamp(threshold, timestamp) < 0x8000_0000
  {
  }

  lemma HeaderTicks(threshold: nat, p: PeerState, e: Event, c: Clock)
    requires EventOk(threshold, p, e) && Shows(PeerAt(p, e.Cid()), c)
    ensures Shows(HeaderSent(threshold, p, e), Tick(threshold, c, e, e.Cid()))
  {
    hide EventOk, HeaderSent, SeenTimestamp, Unsigned32;
    if IsDelta(e, e.Cid()) {
      DeltaHeader(threshold, p, e, c);
      AddModulo(c.time, e.delta, 0x8000_0000);
    } else {
      OtherHeader(threshold, p, e);
      if e.Start? {
        SeenIsShort(threshold, Unsigned32(e.m.timestamp));
      }
    }
  }

  function TimesOn(ms: seq<OutMessage>, cid: nat): seq<int> {
    if ms == [] then [] else TimeOf(ms[0], cid) + TimesOn(ms[1..], cid)
  }

  function TimeOf(m: OutMessage, cid: nat): seq<int> {
    if m.cid == cid then [m.timestamp] else []
  }

  lemma TimesOnHead(ms: seq<OutMessage>, cid: nat)
    ensures TimesOn(ms, cid) == if ms == [] then [] else TimeOf(ms[0], cid) + TimesOn(ms[1..], cid)
  {
  }

  lemma {:induction false} TimesOnConcat(a: seq<OutMessage>, b: seq<OutMessage>, cid: nat)
    ensures TimesOn(a + b, cid) == TimesOn(a, cid) + TimesOn(b, cid)
  {
    hide TimesOn;
    TimesOnHead(a, cid);
    TimesOnHead(a + b, cid);
    if a == [] {
      assert a + b == b;
    } else {
      assert (a + b)[1..] == a[1..] + b && (a + b)[0] == a[0];
      TimesOnConcat(a[1..], b, cid);
      Associate(TimeOf(a[0], cid), TimesOn(a[1..], cid), TimesOn(b, cid));
    }
  }

  /** The clock at each completion: one reading for every chunk of the stream that delivers. */
  ghost function Readings(threshold: nat, p: PeerState, c: Clock, events: seq<Event>, cid: nat): seq<int>
    decreases |events|
  {
    if events == [] || Step(threshold, p, events[0]).None? then [] else
    var s, c1 := Step(threshold, p, events[0]).value, Tick(threshold, c, events[0], cid);
    (if s.delivered != [] && events[0].Cid() == cid then [c1.time % 0x8000_0000] else [])
    + Readings(threshold, s.peer, c1, events[1..], cid)
  }

  /** One chunk; a message it completes is delivered with the time its stream has then. */
  lemma StepTicks(threshold: nat, p: PeerState, e: Event, cid: nat, c: Clock)
    requires Step(threshold, p, e).Some? && Shows(PeerAt(p, cid), c)
    ensures var s, c1 := Step(threshold, p, e).value, Tick(threshold, c, e, cid);
            && Shows(PeerAt(s.peer, cid), c1)
            && TimesOn(s.delivered, cid) ==
               if s.delivered != [] && e.Cid() == cid then [c1.time % 0x8000_0000] else []
  {
    StreamOfStep(threshold, p, e, cid);
    if e.Cid() == cid {
      HeaderTicks(threshold, p, e, c);
    }
    DeliveredByStep(threshold, p, e);
    hide Step, HeaderSent, StreamAfter;
    var s := Step(threshold, p, e).value;
    if s.delivered != [] {
      assert s.delivered[1..] == [];
    }
  }

  lemma {:induction false} RunTicks(threshold: nat, p: PeerState, events: seq<Event>, cid: nat, c: Clock)
    requires Run(threshold, p, events).Some? && Shows(PeerAt(p, cid), c)
    ensures var o := Run(threshold, p, events).value;
            && Shows(PeerAt(o.peer, cid), Ticks(threshold, c, events, cid))
            && TimesOn(o.delivered, cid) == Readings(threshold, p, c, events, cid)
    decreases |events|
  {
    if events != [] {
      hide Step, Tick, Shows, TimesOn;
      StepTicks(threshold, p, events[0], cid, c);
      var s := Step(threshold, p, events[0]).value;
      RunTicks(threshold, s.peer, events[1..], cid, Tick(threshold, c, events[0], cid));
      TimesOnConcat(s.delivered, Run(threshold, s.peer, events[1..]).value.delivered, cid);
    } else {
      assert TimesOn([], cid) == [];
    }
  }

  /**
   * The receiver's time. After any run from connection start the timestamp the receiver keeps for
   * a stream is the stream's clock modulo 2^31, and the messages RecvMessage returns on it carry
   * the clock as it stood when each was completed.
   */
  lemma TimestampsAreSums(threshold: nat, events: seq<Event>, cid: nat)
    requires Run(threshold, InitialPeer(), events).Some?
    ensures StateOk(InitialState())
    ensures var wire := Run(threshold, InitialPeer(), events).value.wire;
            var f := Feed(threshold, InitialState(), wire);
            && f.Parsed?
            && StreamAt(f.value.0, cid).header.timestamp == Ticks(threshold, START, events, cid).time % 0x8000_0000
            && TimesOn(Contents(RecvRun(threshold, InitialState(), wire)), cid)
               == Readings(threshold, InitialPeer(), START, events, cid)
  {
    var o := Run(threshold, InitialPeer(), events).value;
    InitialMatch();
    RunDecodes(threshold, InitialState(), InitialPeer(), events);
    RunTicks(threshold, InitialPeer(), events, cid, START);
    FeedIsRecvRun(threshold, InitialState(), o.wire);
    var rs := Feed(threshold, InitialState(), o.wire).value.0;
    assert Mirrors(cid, StreamAt(rs, cid), PeerAt(o.peer, cid));
  }

  // ---------- against the specification's clock ----------

  /** Sections 5.3.1.2 and 5.3.1.3: every delta is added, whichever field carries it. */
  function SpecTick(threshold: nat, time: nat, e: Event, cid: nat): nat {
    if IsDelta(e, cid) then time + e.delta
    else if e.Start? && e.m.cid == cid then SeenTimestamp(threshold, Unsigned32(e.m.timestamp))
    else time
  }

  /** The two clocks show the same time, modulo 2^31, now and after every event. */
  predicate AgreeThroughout(threshold: nat, c: Clock, time: nat, events: seq<Event>, cid: nat)
    decreases |events|
  {
    && c.time % 0x8000_0000 == time % 0x8000_0000
    && (events != [] ==>
          AgreeThroughout(threshold, Tick(threshold, c, events[0], cid),
                          SpecTick(threshold, time, events[0], cid), events[1..], cid))
  }

  /** Extended deltas come only while the stream's time is 0. */
  predicate ExtendedAtZero(threshold: nat, c: Clock, events: seq<Event>, cid: nat)
    decreases |events|
  {
    events != [] ==>
      && (ExtendedDelta(threshold, c, events[0], cid) ==> c.time % 0x8000_0000 == 0)
      && ExtendedAtZero(threshold, Tick(threshold, c, events[0], cid), events[1..], cid)
  }

  lemma TicksAgree(threshold: nat, c: Clock, time: nat, e: Event, cid: nat)
    requires c.time % 0x8000_0000 == time % 0x8000_0000
    ensures Tick(threshold, c, e, cid).time % 0x8000_0000 == SpecTick(threshold, time, e, cid) % 0x8000_0000
        <==> (ExtendedDelta(threshold, c, e, cid) ==> c.time % 0x8000_0000 == 0)
  {
    hide SeenTimestamp, Unsigned32;
    if IsDelta(e, cid) {
      AddModulo(c.time, e.delta, 0x8000_0000);
      AddModulo(time, e.delta, 0x8000_0000);
      ShiftModulo(time % 0x8000_0000, e.delta, 0x8000_0000);
    }
  }

  /**
   * For every sequence of headers the receiver keeps the specification's time throughout exactly
   * when no extended delta comes while the stream's time is other than 0.
   */
  lemma {:induction false} ClockMeetsSpecification(threshold: nat, c: Clock, time: nat, events: seq<Event>, cid: nat)
    requires c.time % 0x8000_0000 == time % 0x8000_0000
    ensures AgreeThroughout(threshold, c, time, events, cid) <==> ExtendedAtZero(threshold, c, events, cid)
    decreases |events|
  {
    if events != [] {
      hide Tick, SpecTick, ExtendedDelta;
      TicksAgree(threshold, c, time, events[0], cid);
      var c1, time1 := Tick(threshold, c, events[0], cid), SpecTick(threshold, time, events[0], cid);
      if c1.time % 0x8000_0000 == time1 % 0x8000_0000 {
        ClockMeetsSpecification(threshold, c1, time1, events[1..], cid);
      }
    }
  }
}
