/** Interleaved messages: each chunk stream keeps its own order. */
module Interleaving {
  import opened Bytes
  import opened RtmpConsts
  import opened ChunkWriter
  import opened ChunkReader
  import opened ChunkPeer
  import opened ChunkRuns
  import opened ServerRuns

  /** What identifies a message apart from its header: type and payload. */
  type Body = (byte, bytes)

  function BodyOf(m: OutMessage): Body {
    (m.messageType, m.payload)
  }

  /** The messages of one chunk stream. */
  function On(ms: seq<OutMessage>, cid: nat): seq<Body> {
    if ms == [] then [] else
    HeadOn(ms[0], cid) + On(ms[1..], cid)
  }

  /** Those a reader delivers: neither empty nor rejected. */
  function Survivors(bodies: seq<Body>): seq<Body> {
    if bodies == [] then [] else
    (if Accepted(bodies[0].0, bodies[0].1) then [bodies[0]] else []) + Survivors(bodies[1..])
  }

  function StartedBy(e: Event): seq<OutMessage> {
    if e.Start? then [e.m] else []
  }

  function Started(events: seq<Event>): seq<OutMessage> {
    if events == [] then [] else StartedBy(events[0]) + Started(events[1..])
  }

  function InFlightOn(p: PeerState, cid: nat): seq<Body> {
    if PeerAt(p, cid).sent.None? then [] else [BodyOf(PeerAt(p, cid).last)]
  }

  lemma {:induction false} OnConcat(a: seq<OutMessage>, b: seq<OutMessage>, cid: nat)
    ensures On(a + b, cid) == On(a, cid) + On(b, cid)
  {
    hide On;
    OnHead(a, cid);
    OnHead(a + b, cid);
    if a == [] {
      assert a + b == b;
    } else {
      assert (a + b)[1..] == a[1..] + b && (a + b)[0] == a[0];
      OnConcat(a[1..], b, cid);
      Associate(HeadOn(a[0], cid), On(a[1..], cid), On(b, cid));
    }
  }

  function HeadOn(m: OutMessage, cid: nat): seq<Body> {
    if m.cid == cid then [BodyOf(m)] else []
  }

  lemma OnHead(ms: seq<OutMessage>, cid: nat)
    ensures On(ms, cid) == if ms == [] then [] else HeadOn(ms[0], cid) + On(ms[1..], cid)
  {
  }

  lemma {:induction false} SurvivorsConcat(a: seq<Body>, b: seq<Body>)
    ensures Survivors(a + b) == Survivors(a) + Survivors(b)
  {
    if a == [] {
      assert a + b == b;
    } else {
      hide Accepted;
      SurvivorsConcat(a[1..], b);
      assert (a + b)[1..] == a[1..] + b && (a + b)[0] == a[0];
      var head := if Accepted(a[0].0, a[0].1) then [a[0]] else [];
      Associate(head, Survivors(a[1..]), Survivors(b));
      assert Survivors(a) == head + Survivors(a[1..]);
    }
  }

  /** The message a chunk belongs to was in flight or is started by it. */
  lemma BelongsTo(threshold: nat, p: PeerState, e: Event)
    requires EventOk(threshold, p, e) && PeerOk(p)
    ensures InFlightOn(p, e.Cid()) + On(StartedBy(e), e.Cid()) == [BodyOf(HeaderSent(threshold, p, e).last)]
    ensures HeaderSent(threshold, p, e).last.cid == e.Cid()
  {
    OnHead(StartedBy(e), e.Cid());
    assert PeerStreamOk(e.Cid(), PeerAt(p, e.Cid()));
    hide StartOk, Piece, Unlike, PeerOk;
    var none: seq<OutMessage> := [];
    assert e.Start? ==> StartedBy(e)[1..] == none;
    assert On(none, e.Cid()) == [];
  }

  lemma SurvivorsOne(body: Body)
    ensures Survivors([body]) == if Accepted(body.0, body.1) then [body] else []
  {
    assert [body][1..] == [];
  }

  /** The message is delivered if it is complete and accepted, and in flight if it is not complete. */
  lemma GoesTo(threshold: nat, p: PeerState, e: Event)
    requires Step(threshold, p, e).Some?
    ensures var o, m := Step(threshold, p, e).value, HeaderSent(threshold, p, e).last;
            var s := StreamAfter(threshold, p, e);
            && (s.sent.Some? ==> o.delivered == [] && s.last == m)
            && (s.sent.None? && Accepted(m.messageType, m.payload) ==>
                  |o.delivered| == 1 && o.delivered[0].cid == m.cid && BodyOf(o.delivered[0]) == BodyOf(m))
            && (s.sent.None? && !Accepted(m.messageType, m.payload) ==> o.delivered == [])
  {
    var m := HeaderSent(threshold, p, e).last;
    if m.payload != [] {
      HookAccepts(p.chunkSize, m.messageType, m.payload);
    }
    hide EventOk, EventBytes, HeaderSent, OnRecvMessage, PeerOk, AnnouncesChunkSize, EventLength;
  }

  /** One chunk: what was in flight or is started is delivered now or in flight afterwards. */
  lemma StepConserves(threshold: nat, p: PeerState, e: Event, cid: nat)
    requires Step(threshold, p, e).Some?
    ensures var o := Step(threshold, p, e).value;
            Survivors(InFlightOn(p, cid) + On(StartedBy(e), cid))
            == On(o.delivered, cid) + Survivors(InFlightOn(o.peer, cid))
  {
    StreamOfStep(threshold, p, e, cid);
    BelongsTo(threshold, p, e);
    GoesTo(threshold, p, e);
    DeliveredByStep(threshold, p, e);
    var o, m := Step(threshold, p, e).value, HeaderSent(threshold, p, e).last;
    OnHead(o.delivered, cid);
    OnHead(StartedBy(e), cid);
    hide Step, HeaderSent, StreamAfter, Accepted, On, BodyOf;
    var none: seq<OutMessage> := [];
    OnHead(none, cid);
    assert o.delivered != [] ==> o.delivered[1..] == none;
    assert e.Start? ==> StartedBy(e)[1..] == none;
    if cid == e.Cid() {
      SurvivorsOne(BodyOf(m));
      assert Survivors([]) == [];
    } else {
      assert InFlightOn(p, cid) + On(StartedBy(e), cid) == InFlightOn(p, cid);
    }
  }

  /** A run of chunks at the peer. */
  lemma {:induction false} PeerKeepsOrder(threshold: nat, p: PeerState, events: seq<Event>, cid: nat)
    requires Run(threshold, p, events).Some?
    ensures var o := Run(threshold, p, events).value;
            Survivors(InFlightOn(p, cid) + On(Started(events), cid))
            == On(o.delivered, cid) + Survivors(InFlightOn(o.peer, cid))
    decreases |events|
  {
    hide Step, Accepted, InFlightOn;
    var a := InFlightOn(p, cid);
    if events == [] {
      assert a + On(Started(events), cid) == a;
      assert [] + Survivors(a) == Survivors(a);
    } else {
      var e := events[0];
      var s := Step(threshold, p, e).value;
      var o := Run(threshold, s.peer, events[1..]).value;
      var started, later := On(StartedBy(e), cid), On(Started(events[1..]), cid);
      PeerKeepsOrder(threshold, s.peer, events[1..], cid);
      StepConserves(threshold, p, e, cid);
      assert Started(events) == StartedBy(e) + Started(events[1..]);
      OnConcat(StartedBy(e), Started(events[1..]), cid);
      OnConcat(s.delivered, o.delivered, cid);
      var between, after := InFlightOn(s.peer, cid), InFlightOn(o.peer, cid);
      hide On, Survivors, Started, StartedBy;
      Associate(a, started, later);
      SurvivorsConcat(a + started, later);
      SurvivorsConcat(between, later);
      Chain(On(s.delivered, cid), Survivors(between), Survivors(later), On(o.delivered, cid), Survivors(after));
    }
  }

  lemma Chain(d: seq<Body>, y: seq<Body>, l: seq<Body>, d': seq<Body>, z: seq<Body>)
    requires y + l == d' + z
    ensures d + y + l == d + d' + z
  {
    assert d + y + l == d + (y + l);
    assert d + (d' + z) == d + d' + z;
  }

  /**
   * For every interleaving, every chunk stream and every state of a receiver that mirrors the
   * peer: the messages in flight at the start and those started since, in that order, are those
   * received followed by the one still in flight (but for the ones a reader drops).
   */
  lemma EachStreamInOrder(threshold: nat, rs: RecvState, p: PeerState, events: seq<Event>, cid: nat)
    requires StateOk(rs) && Matches(rs, p) && Run(threshold, p, events).Some?
    ensures var o := Run(threshold, p, events).value;
            var f := Feed(threshold, rs, o.wire);
            && f.Parsed?
            && Survivors(InFlightOn(p, cid) + On(Started(events), cid))
               == On(Contents(f.value.1), cid) + Survivors(InFlightOn(o.peer, cid))
  {
    RunDecodes(threshold, rs, p, events);
    PeerKeepsOrder(threshold, p, events, cid);
  }

  /**
   * What any interleaving delivers: each stream's messages in the order they were started, with
   * exact types and payloads, but for one that is still in flight.
   */
  lemma InterleavedDelivery(threshold: nat, events: seq<Event>, cid: nat)
    requires Run(threshold, InitialPeer(), events).Some?
    ensures StateOk(InitialState())
    ensures var o := Run(threshold, InitialPeer(), events).value;
            On(Contents(RecvRun(threshold, InitialState(), o.wire)), cid) + Survivors(InFlightOn(o.peer, cid))
            == Survivors(On(Started(events), cid))
  {
    var o := Run(threshold, InitialPeer(), events).value;
    InitialMatch();
    EachStreamInOrder(threshold, InitialState(), InitialPeer(), events, cid);
    FeedIsRecvRun(threshold, InitialState(), o.wire);
    assert InFlightOn(InitialPeer(), cid) + On(Started(events), cid) == On(Started(events), cid);
  }
}
