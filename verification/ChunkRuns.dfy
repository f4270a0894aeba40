/**
 * Whole runs: whatever a peer sends by the rules of ChunkPeer is delivered, in the order in
 * which its messages are completed, with both ends agreeing on every stream and on the chunk
 * size after every chunk.
 */
module ChunkRuns {
  import opened Bytes
  import opened RtmpConsts
  import opened ChunkWriter
  import opened ChunkReader
  import opened ChunkPeer

  /** Where a run leaves the peer, the bytes it sent, and the messages it expects delivered. */
  datatype Outcome = Outcome(peer: PeerState, wire: bytes, delivered: seq<OutMessage>)

  function InitialPeer(): PeerState {
    PeerState(DEFAULT_CHUNK_SIZE, map[])
  }

  ghost predicate Ready(p: PeerState) {
    p.chunkSize >= MIN_CHUNK_SIZE && PeerOk(p)
  }

  /** One event by the rules, or nothing. */
  ghost function Step(threshold: nat, p: PeerState, e: Event): (o: Option<Outcome>)
    ensures o.Some? ==> Ready(o.value.peer)
  {
    if Ready(p) && EventOk(threshold, p, e) then
      var (p1, out) := PeerStep(threshold, p, e);
      Some(Outcome(p1, EventBytes(threshold, p, e), ToSeq(out)))
    else None
  }

  /** A step changes the stream it is on and no other. */
  lemma StreamOfStep(threshold: nat, p: PeerState, e: Event, cid: nat)
    requires Step(threshold, p, e).Some?
    ensures var s := Step(threshold, p, e).value.peer;
            PeerAt(s, cid) == if cid == e.Cid() then StreamAfter(threshold, p, e) else PeerAt(p, cid)
  {
    hide EventOk, EventBytes, HeaderSent, OnRecvMessage, PeerOk;
  }

  /** At most one message is delivered, on the stream of the chunk and with the stream's time. */
  lemma DeliveredByStep(threshold: nat, p: PeerState, e: Event)
    requires Step(threshold, p, e).Some?
    ensures var s, h := Step(threshold, p, e).value, HeaderSent(threshold, p, e);
            && PeerAt(s.peer, e.Cid()).seen == h.seen && PeerAt(s.peer, e.Cid()).ext == h.ext
            && |s.delivered| <= 1
            && (s.delivered != [] ==> s.delivered[0].cid == e.Cid() && s.delivered[0].timestamp == h.seen)
  {
    StreamOfStep(threshold, p, e, e.Cid());
    assert HeaderSent(threshold, p, e).last.cid == e.Cid() by {
      assert PeerStreamOk(e.Cid(), PeerAt(p, e.Cid()));
    }
    hide EventOk, EventBytes, HeaderSent, OnRecvMessage, PeerOk;
  }

  /** A run of events, each allowed where it stands. */
  ghost function Run(threshold: nat, p: PeerState, events: seq<Event>): Option<Outcome>
    decreases |events|
  {
    if events == [] then Some(Outcome(p, [], [])) else
    var s := Step(threshold, p, events[0]);
    if s.None? then None else
    Before(s.value, Run(threshold, s.value.peer, events[1..]))
  }

  function Before(s: Outcome, o: Option<Outcome>): Option<Outcome> {
    if o.None? then None
    else Some(Outcome(o.value.peer, s.wire + o.value.wire, s.delivered + o.value.delivered))
  }

  /** What feeding a stream must lead to. */
  ghost predicate Decodes(f: Parsed<(RecvState, seq<Message>)>, o: Outcome) {
    f.Parsed? && Matches(f.value.0, o.peer) && Contents(f.value.1) == o.delivered
  }

  lemma {:induction false} RunDecodes(threshold: nat, rs: RecvState, p: PeerState, events: seq<Event>)
    requires StateOk(rs) && Matches(rs, p) && Run(threshold, p, events).Some?
    ensures var o := Run(threshold, p, events).value;
            Decodes(Feed(threshold, rs, o.wire), o)
    decreases |events|
  {
    if events != [] {
      hide Step, Matches, RecvInterlacedMessage, Handle;
      var s := Step(threshold, p, events[0]).value;
      StepFeeds(threshold, rs, p, events[0]);
      var f := Feed(threshold, rs, s.wire).value;
      RunDecodes(threshold, f.0, s.peer, events[1..]);
      var o := Run(threshold, s.peer, events[1..]).value;
      FeedConcat(threshold, rs, s.wire, o.wire);
      ContentsConcat(f.1, Feed(threshold, f.0, o.wire).value.1);
    }
  }

  lemma StepFeeds(threshold: nat, rs: RecvState, p: PeerState, e: Event)
    requires StateOk(rs) && Matches(rs, p) && Step(threshold, p, e).Some?
    ensures var s := Step(threshold, p, e).value;
            Decodes(Feed(threshold, rs, s.wire), s)
  {
    hide EventOk, EventBytes, PeerStep, Matches, RecvInterlacedMessage, Handle;
    StepDecodes(threshold, rs, p, e);
    var c := RecvInterlacedMessage(threshold, rs, EventBytes(threshold, p, e));
    var (rs1, msg) := Handle(c.value.0, c.value.1);
    assert Feed(threshold, rs1, []) == Parsed((rs1, []), []);
    assert ToSeq(msg) + [] == ToSeq(msg);
    ContentsOne(msg);
  }

  lemma ContentsOne(msg: Option<Message>)
    ensures Contents(ToSeq(msg)) == if msg.None? then [] else [Content(msg.value)]
  {
  }

  lemma {:induction false} ContentsConcat(a: seq<Message>, b: seq<Message>)
    ensures Contents(a + b) == Contents(a) + Contents(b)
  {
    if a == [] {
      assert a + b == b;
    } else {
      assert (a + b)[1..] == a[1..] + b;
      ContentsConcat(a[1..], b);
    }
  }

  /** Runs compose. */
  lemma {:induction false} RunConcat(threshold: nat, p: PeerState, a: seq<Event>, b: seq<Event>)
    requires Run(threshold, p, a).Some?
    ensures var oa := Run(threshold, p, a).value;
            Run(threshold, p, a + b) == Before(oa, Run(threshold, oa.peer, b))
    decreases |a|
  {
    if a == [] {
      assert a + b == b;
      var ob := Run(threshold, p, b);
      if ob.Some? {
        assert [] + ob.value.wire == ob.value.wire && [] + ob.value.delivered == ob.value.delivered;
      }
    } else {
      hide Step;
      assert (a + b)[1..] == a[1..] + b && (a + b)[0] == a[0];
      var s := Step(threshold, p, a[0]).value;
      RunConcat(threshold, s.peer, a[1..], b);
      var oa := Run(threshold, s.peer, a[1..]).value;
      var ob := Run(threshold, oa.peer, b);
      if ob.Some? {
        Associate(s.wire, oa.wire, ob.value.wire);
        Associate(s.delivered, oa.delivered, ob.value.delivered);
      }
    }
  }

  lemma {:induction false} RunReady(threshold: nat, p: PeerState, events: seq<Event>)
    requires Ready(p) && Run(threshold, p, events).Some?
    ensures Ready(Run(threshold, p, events).value.peer)
    decreases |events|
  {
    if events != [] {
      hide Step, Ready;
      RunReady(threshold, Step(threshold, p, events[0]).value.peer, events[1..]);
    }
  }

  lemma InitialMatch()
    ensures StateOk(InitialState()) && Ready(InitialPeer()) && Matches(InitialState(), InitialPeer())
  {
    assert ByteSwap32(0) == 0 by {
      ByteSwapFixedPoints(0);
    }
    forall cid: nat ensures Mirrors(cid, StreamAt(InitialState(), cid), PeerAt(InitialPeer(), cid)) {
      assert FreshStream(cid) == StreamAt(InitialState(), cid);
    }
  }

  /**
   * From connection start, calling RecvMessage until the stream ends returns exactly `delivered`,
   * the stream ends with a chunk, and the chunk size is `chunkSize` then.
   */
  ghost predicate Delivers(threshold: nat, wire: bytes, delivered: seq<OutMessage>, chunkSize: int) {
    StateOk(InitialState()) &&
    var f := Feed(threshold, InitialState(), wire);
    && Contents(RecvRun(threshold, InitialState(), wire)) == delivered
    && f.Parsed? && f.value.0.chunkSize == chunkSize
  }

  /** What is received is what the peer completed, and the two ends agree on the chunk size. */
  lemma {:induction false} ConnectionRoundTrip(threshold: nat, events: seq<Event>)
    requires Run(threshold, InitialPeer(), events).Some?
    ensures var o := Run(threshold, InitialPeer(), events).value;
            Delivers(threshold, o.wire, o.delivered, o.peer.chunkSize)
  {
    InitialMatch();
    RunDecodes(threshold, InitialState(), InitialPeer(), events);
    FeedIsRecvRun(threshold, InitialState(), Run(threshold, InitialPeer(), events).value.wire);
  }
}
