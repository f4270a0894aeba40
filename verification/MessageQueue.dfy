/**
 * FastVector (common/queue.hpp:13-134) and the bounded queue of a consumer, MessageQueue
 * (protocol/rtmp_message.cpp:413-537).
 */
module MessageQueues {
  import opened Bytes
  import opened Media

  const FAST_VEC_DEFAULT_SIZE := 1024

  class FastVector<T> {
    var msgs: array<T>
    var nbMsgs: nat
    var count: nat

    ghost predicate Valid()
      reads this
    {
      msgs.Length == nbMsgs > 0 && count <= nbMsgs
    }

    ghost function Contents(): seq<T>
      requires Valid()
      reads this, msgs
    {
      msgs[..count]
    }

    constructor (filler: T)
      ensures Valid() && Contents() == [] && fresh(msgs)
    {
      count, nbMsgs := 0, FAST_VEC_DEFAULT_SIZE;
      msgs := new T[FAST_VEC_DEFAULT_SIZE](_ => filler);
    }

    method Clear()
      requires Valid()
      modifies this`count
      ensures Valid() && Contents() == []
    {
      count := 0;
    }

    /** Shifts the tail down over the erased range. */
    method Erase(begin: nat, end: nat)
      requires Valid() && begin <= end <= count
      modifies this`count, msgs
      ensures Valid() && Contents() == old(Contents()[..begin] + Contents()[end..])
    {
      ghost var was := Contents();
      for i := 0 to count - end
        invariant Valid() && count == |was| && msgs == old(msgs)
        invariant forall k | 0 <= k < begin :: msgs[k] == was[k]
        invariant forall k | begin <= k < begin + i :: msgs[k] == was[k - begin + end]
        invariant forall k | end + i <= k < count :: msgs[k] == was[k]
      {
        msgs[begin + i] := msgs[end + i];
      }
      count := count - (end - begin);
      assert |was[..begin] + was[end..]| == count;
    }

    /** Doubles when full; the live prefix is copied. */
    method PushBack(msg: T)
      requires Valid()
      modifies this, msgs
      ensures Valid() && (msgs == old(msgs) || fresh(msgs))
      ensures Contents() == old(Contents()) + [msg]
    {
      if count >= nbMsgs {
        var buf := new T[nbMsgs * 2](_ => msg);
        for i := 0 to count
          invariant Valid() && msgs == old(msgs) && msgs[..] == old(msgs[..])
          invariant count == old(count) && nbMsgs == old(nbMsgs)
          invariant forall k | 0 <= k < i :: buf[k] == msgs[k]
        {
          buf[i] := msgs[i];
        }
        msgs := buf;
        nbMsgs := nbMsgs * 2;
      }
      msgs[count] := msg;
      count := count + 1;
    }
  }

  datatype QueueState = QueueState(start: int, end: int, sizeMs: int, msgs: seq<MediaMessage>)

  /** The newest audio sequence header. */
  function LastAudioHeader(msgs: seq<MediaMessage>): Option<MediaMessage> {
    if msgs == [] then None else
    var m := msgs[|msgs| - 1];
    if m.kind.Audio? && IsAudioSequenceHeader(m.payload) then Some(m)
    else LastAudioHeader(msgs[..|msgs| - 1])
  }

  /** The newest video sequence header among the audio messages: the source tests for audio. */
  function LastVideoHeader(msgs: seq<MediaMessage>): Option<MediaMessage> {
    if msgs == [] then None else
    var m := msgs[|msgs| - 1];
    if m.kind.Audio? && !IsAudioSequenceHeader(m.payload) && IsVideoSequenceHeader(m.payload) then Some(m)
    else LastVideoHeader(msgs[..|msgs| - 1])
  }

  function Restamped(m: Option<MediaMessage>, time: int): seq<MediaMessage> {
    if m.None? then [] else [m.value.(timestamp := time)]
  }

  function Shrunk(s: QueueState): QueueState {
    s.(start := s.end,
       msgs := Restamped(LastAudioHeader(s.msgs), s.end) + Restamped(LastVideoHeader(s.msgs), s.end))
  }

  function Added(s: QueueState, m: MediaMessage): QueueState {
    s.(end := if m.IsAV() then m.timestamp else s.end, msgs := s.msgs + [m])
  }

  predicate Overflows(s: QueueState) {
    s.end - s.start > s.sizeMs
  }

  function Enqueued(s: QueueState, m: MediaMessage): QueueState {
    var a := Added(s, m);
    if Overflows(a) then Shrunk(a) else a
  }

  /** What a consumer takes away, and the queue it leaves. */
  function Dumped(s: QueueState, max: nat): (QueueState, seq<MediaMessage>)
    requires max > 0
  {
    if s.msgs == [] then (s, []) else
    var count := Min(|s.msgs|, max);
    (s.(start := s.msgs[count - 1].timestamp, msgs := s.msgs[count..]), s.msgs[..count])
  }

  class MessageQueue {
    var avStartTime: int
    var avEndTime: int
    var queueSizeMs: int
    const msgs: FastVector<MediaMessage>

    ghost predicate Valid()
      reads this, msgs
    {
      msgs.Valid()
    }

    ghost function State(): QueueState
      requires Valid()
      reads this, msgs, msgs.msgs
    {
      QueueState(avStartTime, avEndTime, queueSizeMs, msgs.Contents())
    }

    constructor ()
      ensures Valid() && State() == QueueState(-1, -1, 0, [])
      ensures fresh(msgs) && fresh(msgs.msgs)
    {
      avStartTime, avEndTime, queueSizeMs := -1, -1, 0;
      msgs := new FastVector<MediaMessage>(MediaMessage(Data, 0, [], 0));
    }

    method Shrink()
      requires Valid()
      modifies this, msgs, msgs.msgs
      ensures Valid() && (msgs.msgs == old(msgs.msgs) || fresh(msgs.msgs))
      ensures State() == Shrunk(old(State()))
    {
      ghost var all := msgs.Contents();
      var audioSh: Option<MediaMessage>, videoSh: Option<MediaMessage> := None, None;
      for i := 0 to msgs.count
        invariant audioSh == LastAudioHeader(all[..i]) && videoSh == LastVideoHeader(all[..i])
        invariant msgs.Valid() && msgs.Contents() == all && msgs.msgs == old(msgs.msgs)
      {
        var m := msgs.msgs[i];
        assert all[..i + 1][..i] == all[..i] && all[..i + 1][i] == m;
        if m.kind.Audio? && IsAudioSequenceHeader(m.payload) {
          audioSh := Some(m);
        } else if m.kind.Audio? && IsVideoSequenceHeader(m.payload) {
          videoSh := Some(m);
        }
      }
      assert all[..|all|] == all;
      msgs.Clear();
      avStartTime := avEndTime;
      if audioSh.Some? {
        msgs.PushBack(audioSh.value.(timestamp := avEndTime));
      }
      if videoSh.Some? {
        msgs.PushBack(videoSh.value.(timestamp := avEndTime));
      }
    }

    /** The overflow loop runs at most once: a shrunk queue spans no time. */
    method Enqueue(m: MediaMessage) returns (isOverflow: bool)
      requires Valid() && queueSizeMs >= 0
      modifies this, msgs, msgs.msgs
      ensures Valid() && (msgs.msgs == old(msgs.msgs) || fresh(msgs.msgs))
      ensures State() == Enqueued(old(State()), m)
      ensures isOverflow == Overflows(Added(old(State()), m))
      ensures avEndTime - avStartTime <= queueSizeMs
    {
      isOverflow := false;
      if m.IsAV() {
        avEndTime := m.timestamp;
      }
      msgs.PushBack(m);
      ghost var added := State();
      while avEndTime - avStartTime > queueSizeMs
        invariant Valid() && queueSizeMs == old(queueSizeMs)
        invariant msgs.msgs == old(msgs.msgs) || fresh(msgs.msgs)
        invariant State() == if isOverflow then Shrunk(added) else added
        invariant isOverflow ==> Overflows(added)
        decreases avEndTime - avStartTime
      {
        isOverflow := true;
        Shrink();
      }
    }

    method DumpPackets(max: nat) returns (pmsgs: seq<MediaMessage>)
      requires Valid() && max > 0
      modifies this, msgs, msgs.msgs
      ensures Valid() && msgs.msgs == old(msgs.msgs)
      ensures (State(), pmsgs) == Dumped(old(State()), max)
    {
      var nbMsgs := msgs.count;
      if nbMsgs <= 0 {
        return [];
      }
      var count := Min(nbMsgs, max);
      pmsgs := msgs.msgs[..count];
      avStartTime := msgs.msgs[count - 1].timestamp;
      ghost var was := msgs.Contents();
      assert pmsgs == was[..count];
      msgs.Erase(0, count);
      assert was[..0] + was[count..] == was[count..];
    }
  }

  /** A run of a consumer's queue. */
  datatype Op = Enqueue(m: MediaMessage) | Dump(max: nat)

  datatype Outcome = Outcome(state: QueueState, taken: seq<MediaMessage>, overflowed: bool)

  function Run(start: QueueState, ops: seq<Op>): Outcome {
    if ops == [] then Outcome(start, [], false) else
    var o := Run(start, ops[..|ops| - 1]);
    match ops[|ops| - 1]
    case Enqueue(m) =>
      Outcome(Enqueued(o.state, m), o.taken, o.overflowed || Overflows(Added(o.state, m)))
    case Dump(max) =>
      if max == 0 then o else
      var (state, out) := Dumped(o.state, max);
      Outcome(state, o.taken + out, o.overflowed)
  }

  function EnqueuedBy(ops: seq<Op>): seq<MediaMessage> {
    if ops == [] then [] else
    EnqueuedBy(ops[..|ops| - 1])
    + match ops[|ops| - 1] case Enqueue(m) => [m] case Dump(_) => []
  }

  lemma DumpSplits(s: QueueState, max: nat)
    requires max > 0
    ensures Dumped(s, max).1 + Dumped(s, max).0.msgs == s.msgs
  {
  }

  /** Without overflow, what has been taken and what remains is what was enqueued, in order. */
  lemma {:induction false} RunIsFifo(start: QueueState, ops: seq<Op>)
    requires start.msgs == [] && !Run(start, ops).overflowed
    ensures Run(start, ops).taken + Run(start, ops).state.msgs == EnqueuedBy(ops)
  {
    if ops != [] {
      var o := Run(start, ops[..|ops| - 1]);
      RunIsFifo(start, ops[..|ops| - 1]);
      match ops[|ops| - 1]
      case Enqueue(m) =>
        hide Shrunk;
        Associate(o.taken, o.state.msgs, [m]);
      case Dump(max) =>
        if max > 0 {
          DumpSplits(o.state, max);
          hide Dumped;
          var (state, out) := Dumped(o.state, max);
          Associate(o.taken, out, state.msgs);
        }
    }
  }

  /** No enqueue leaves the queue spanning more than its size; an overflow leaves it spanning nothing. */
  lemma EnqueueBoundsSpan(s: QueueState, m: MediaMessage)
    requires s.sizeMs >= 0
    ensures var e := Enqueued(s, m);
            && e.end - e.start <= s.sizeMs
            && (Overflows(Added(s, m)) ==> e.start == e.end && |e.msgs| <= 2)
            && (forall i | 0 <= i < |e.msgs| && Overflows(Added(s, m)) ::
                  e.msgs[i].kind.Audio? && e.msgs[i].timestamp == e.end)
  {
    HeadersAreAudio(s.msgs + [m]);
  }

  /** The messages held are in order of time, within the span and the span within the queue size. */
  ghost predicate InSpan(s: QueueState) {
    && s.end - s.start <= s.sizeMs
    && (forall i | 0 <= i < |s.msgs| :: s.start <= s.msgs[i].timestamp <= s.end)
    && (forall i, j | 0 <= i < j < |s.msgs| :: s.msgs[i].timestamp <= s.msgs[j].timestamp)
  }

  lemma EnqueueInSpan(s: QueueState, m: MediaMessage)
    requires InSpan(s) && s.sizeMs >= 0 && s.start <= s.end <= m.timestamp && m.IsAV()
    ensures var e := Enqueued(s, m);
            InSpan(e) && e.start <= e.end == m.timestamp && e.sizeMs == s.sizeMs
  {
    EnqueueBoundsSpan(s, m);
    hide Shrunk;
  }

  lemma DumpInSpan(s: QueueState, max: nat)
    requires InSpan(s) && s.start <= s.end && max > 0
    ensures var d := Dumped(s, max).0;
            InSpan(d) && d.start <= d.end == s.end && d.sizeMs == s.sizeMs
  {
  }

  ghost predicate ArriveInOrder(s: seq<MediaMessage>) {
    && (forall i | 0 <= i < |s| :: s[i].IsAV() && s[i].timestamp >= -1)
    && (forall i, j | 0 <= i < j < |s| :: s[i].timestamp <= s[j].timestamp)
  }

  function LastTime(s: seq<MediaMessage>): int {
    if s == [] then -1 else s[|s| - 1].timestamp
  }

  lemma PrefixInOrder(s: seq<MediaMessage>, m: MediaMessage)
    requires ArriveInOrder(s + [m])
    ensures ArriveInOrder(s) && LastTime(s) <= m.timestamp == LastTime(s + [m]) && m.IsAV()
  {
    var all := s + [m];
    assert all[..|s|] == s && all[|s|] == m;
  }

  lemma {:induction false} RunInSpan(sizeMs: int, ops: seq<Op>)
    requires sizeMs >= 0 && ArriveInOrder(EnqueuedBy(ops))
    ensures var s := Run(QueueState(-1, -1, sizeMs, []), ops).state;
            InSpan(s) && s.start <= s.end == LastTime(EnqueuedBy(ops)) && s.sizeMs == sizeMs
  {
    if ops != [] {
      hide Enqueued, Dumped, Overflows, InSpan, ArriveInOrder, LastTime;
      var first := ops[..|ops| - 1];
      match ops[|ops| - 1]
      case Enqueue(m) =>
        PrefixInOrder(EnqueuedBy(first), m);
        RunInSpan(sizeMs, first);
        EnqueueInSpan(Run(QueueState(-1, -1, sizeMs, []), first).state, m);
      case Dump(max) =>
        assert EnqueuedBy(ops) == EnqueuedBy(first);
        RunInSpan(sizeMs, first);
        if max > 0 {
          DumpInSpan(Run(QueueState(-1, -1, sizeMs, []), first).state, max);
        }
    }
  }

  /**
   * Over any run whose audio and video arrives in order of time, with overflows and dumps: the
   * times of the messages held never lie further apart than the queue size.
   */
  lemma HeldWithinSize(sizeMs: int, ops: seq<Op>, i: nat, j: nat)
    requires sizeMs >= 0 && ArriveInOrder(EnqueuedBy(ops))
    requires var held := Run(QueueState(-1, -1, sizeMs, []), ops).state.msgs;
             i < |held| && j < |held|
    ensures var held := Run(QueueState(-1, -1, sizeMs, []), ops).state.msgs;
            held[j].timestamp - held[i].timestamp <= sizeMs
  {
    hide Run;
    RunInSpan(sizeMs, ops);
  }

  lemma {:induction false} HeadersAreAudio(msgs: seq<MediaMessage>)
    ensures LastAudioHeader(msgs).Some? ==> LastAudioHeader(msgs).value.kind.Audio?
    ensures LastVideoHeader(msgs).Some? ==> LastVideoHeader(msgs).value.kind.Audio?
  {
    if msgs != [] {
      HeadersAreAudio(msgs[..|msgs| - 1]);
    }
  }

  /** What Shrink keeps of the audio headers: the last one, whatever came after it. */
  lemma {:induction false} LastAudioHeaderIsLast(msgs: seq<MediaMessage>, i: nat)
    requires i < |msgs| && msgs[i].kind.Audio? && IsAudioSequenceHeader(msgs[i].payload)
    requires forall j | i < j < |msgs| :: !(msgs[j].kind.Audio? && IsAudioSequenceHeader(msgs[j].payload))
    ensures LastAudioHeader(msgs) == Some(msgs[i])
  {
    if i < |msgs| - 1 {
      LastAudioHeaderIsLast(msgs[..|msgs| - 1], i);
    }
  }

  /** A video message, sequence header or not, never survives an overflow. */
  lemma VideoHeadersAreLost(s: QueueState, m: MediaMessage, v: MediaMessage)
    requires Overflows(Added(s, m)) && v.kind.Video?
    ensures v !in Enqueued(s, m).msgs
  {
    HeadersAreAudio(s.msgs + [m]);
  }

  /** The start of the span is never set by an arrival: a first message overflows exactly when its
      time is not below the queue size. */
  lemma FirstMessage(sizeMs: int, m: MediaMessage)
    requires sizeMs >= 0 && m.IsAV()
    ensures var s := QueueState(-1, -1, sizeMs, []);
            Overflows(Added(s, m)) <==> m.timestamp >= sizeMs
  {
  }

  // ---------- exactly when a queue overflows, and what is left ----------

  /** How many messages have been taken, as long as nothing is thrown away. */
  function TakenCount(ops: seq<Op>): (n: nat)
    ensures n <= |EnqueuedBy(ops)|
  {
    if ops == [] then 0 else
    var before := ops[..|ops| - 1];
    match ops[|ops| - 1]
    case Enqueue(_) => TakenCount(before)
    case Dump(max) => TakenCount(before) + Min(|EnqueuedBy(before)| - TakenCount(before), max)
  }

  /** The time of the last message taken, or -1. */
  function LastTakenTime(ops: seq<Op>): int {
    if TakenCount(ops) == 0 then -1 else EnqueuedBy(ops)[TakenCount(ops) - 1].timestamp
  }

  /** The time of the last audio or video message, or -1. */
  function LastAVTime(s: seq<MediaMessage>): int {
    if s == [] then -1
    else if s[|s| - 1].IsAV() then s[|s| - 1].timestamp
    else LastAVTime(s[..|s| - 1])
  }

  /** At every arrival the newest audio or video is at most the queue size past what was taken last. */
  predicate KeepsUp(sizeMs: int, ops: seq<Op>) {
    ops != [] ==>
      var before := ops[..|ops| - 1];
      && KeepsUp(sizeMs, before)
      && (ops[|ops| - 1].Enqueue? ==> LastAVTime(EnqueuedBy(ops)) - LastTakenTime(before) <= sizeMs)
  }

  /** A queue that has not overflowed. */
  ghost predicate NothingLost(ops: seq<Op>, o: Outcome) {
    && o.state.start == LastTakenTime(ops) && o.state.end == LastAVTime(EnqueuedBy(ops))
    && o.taken == EnqueuedBy(ops)[..TakenCount(ops)] && o.state.msgs == EnqueuedBy(ops)[TakenCount(ops)..]
  }

  lemma {:induction false} EnqueueKeepsAll(sizeMs: int, ops: seq<Op>, o: Outcome, m: MediaMessage)
    requires ops != [] && ops[|ops| - 1] == Enqueue(m)
    requires NothingLost(ops[..|ops| - 1], o) && o.state.sizeMs == sizeMs
    ensures Overflows(Added(o.state, m))
        <==> LastAVTime(EnqueuedBy(ops)) - LastTakenTime(ops[..|ops| - 1]) > sizeMs
    ensures NothingLost(ops, o.(state := Added(o.state, m)))
  {
    var before := EnqueuedBy(ops[..|ops| - 1]);
    var all, n := EnqueuedBy(ops), TakenCount(ops);
    assert all == before + [m] && all[..|all| - 1] == before;
    assert all[..n] == before[..n] && all[n..] == before[n..] + [m];
  }

  lemma {:induction false} DumpKeepsAll(ops: seq<Op>, o: Outcome, max: nat)
    requires ops != [] && ops[|ops| - 1] == Dump(max) && max > 0
    requires NothingLost(ops[..|ops| - 1], o)
    ensures var (state, out) := Dumped(o.state, max);
            NothingLost(ops, o.(state := state, taken := o.taken + out)) && state.sizeMs == o.state.sizeMs
  {
    hide EnqueuedBy, TakenCount, LastAVTime;
    DumpCounts(ops, max);
    var first := ops[..|ops| - 1];
    DumpSlices(EnqueuedBy(first), TakenCount(first), TakenCount(ops));
  }

  lemma DumpCounts(ops: seq<Op>, max: nat)
    requires ops != [] && ops[|ops| - 1] == Dump(max)
    ensures var before := ops[..|ops| - 1];
            && EnqueuedBy(ops) == EnqueuedBy(before)
            && TakenCount(ops) == TakenCount(before) + Min(|EnqueuedBy(before)| - TakenCount(before), max)
  {
  }

  lemma DumpSlices<T>(all: seq<T>, t: nat, n: nat)
    requires t <= n <= |all|
    ensures all[..t] + all[t..][..n - t] == all[..n] && all[t..][n - t..] == all[n..]
    ensures t < n ==> all[t..][n - t - 1] == all[n - 1]
  {
  }

  lemma {:induction false} RunKeepsAll(sizeMs: int, ops: seq<Op>)
    ensures var o := Run(QueueState(-1, -1, sizeMs, []), ops);
            && o.state.sizeMs == sizeMs
            && (!o.overflowed <==> KeepsUp(sizeMs, ops))
            && (!o.overflowed ==> NothingLost(ops, o))
  {
    if ops != [] {
      hide NothingLost, Overflows, Shrunk, Dumped, LastAVTime, LastTakenTime;
      var first := ops[..|ops| - 1];
      RunKeepsAll(sizeMs, first);
      var o := Run(QueueState(-1, -1, sizeMs, []), first);
      match ops[|ops| - 1]
      case Enqueue(m) =>
        if !o.overflowed {
          EnqueueKeepsAll(sizeMs, ops, o, m);
        }
        assert Shrunk(Added(o.state, m)).sizeMs == sizeMs by {
          ShrunkKeepsSize(Added(o.state, m));
        }
      case Dump(max) =>
        if max == 0 {
          NoDump(ops, o);
        } else {
          DumpKeepsSize(o.state, max);
          if !o.overflowed {
            DumpKeepsAll(ops, o, max);
          }
        }
    }
  }

  lemma ShrunkKeepsSize(s: QueueState)
    ensures Shrunk(s).sizeMs == s.sizeMs
  {
  }

  lemma DumpKeepsSize(s: QueueState, max: nat)
    requires max > 0
    ensures Dumped(s, max).0.sizeMs == s.sizeMs
  {
  }

  lemma {:induction false} NoDump(ops: seq<Op>, o: Outcome)
    requires ops != [] && ops[|ops| - 1] == Dump(0)
    ensures NothingLost(ops[..|ops| - 1], o) ==> NothingLost(ops, o)
  {
    assert EnqueuedBy(ops) == EnqueuedBy(ops[..|ops| - 1]);
  }

  /**
   * A new queue never overflows in a run exactly when its consumer keeps up: whenever a message
   * arrives, the newest audio or video is at most the queue size past the message taken last, or
   * past -1 before the first is taken. As long as it does, each dump takes the oldest messages.
   */
  lemma OverflowsExactly(sizeMs: int, ops: seq<Op>)
    ensures var o := Run(QueueState(-1, -1, sizeMs, []), ops);
            && (!o.overflowed <==> KeepsUp(sizeMs, ops))
            && (!o.overflowed ==>
                  && o.taken == EnqueuedBy(ops)[..TakenCount(ops)]
                  && o.state.msgs == EnqueuedBy(ops)[TakenCount(ops)..])
  {
    hide Run;
    RunKeepsAll(sizeMs, ops);
  }

  /** AAC, packet type 0. */
  predicate IsAudioHeader(m: MediaMessage) {
    m.kind.Audio? && |m.payload| >= 2 && 0xa0 <= m.payload[0] <= 0xaf && m.payload[1] == 0
  }

  /** An audio message that looks like an AVC key frame of packet type 0. */
  predicate LooksLikeVideoHeader(m: MediaMessage) {
    m.kind.Audio? && |m.payload| >= 2 && m.payload[0] == 0x17 && m.payload[1] == 0
  }

  predicate IsLast(msgs: seq<MediaMessage>, i: nat, P: MediaMessage -> bool) {
    i < |msgs| && P(msgs[i]) && forall j | i < j < |msgs| :: !P(msgs[j])
  }

  lemma {:induction false} AudioHeaderFound(msgs: seq<MediaMessage>)
    ensures match LastAudioHeader(msgs)
            case None => forall j | 0 <= j < |msgs| :: !IsAudioHeader(msgs[j])
            case Some(h) => exists i: nat :: IsLast(msgs, i, IsAudioHeader) && msgs[i] == h
  {
    if msgs != [] {
      var n := |msgs| - 1;
      AudioHeaderFound(msgs[..n]);
      if IsAudioHeader(msgs[n]) {
        assert IsLast(msgs, n, IsAudioHeader);
      } else if LastAudioHeader(msgs[..n]).Some? {
        var i: nat :| IsLast(msgs[..n], i, IsAudioHeader) && msgs[..n][i] == LastAudioHeader(msgs[..n]).value;
        assert IsLast(msgs, i, IsAudioHeader);
      }
    }
  }

  lemma {:induction false} VideoHeaderFound(msgs: seq<MediaMessage>)
    ensures match LastVideoHeader(msgs)
            case None => forall j | 0 <= j < |msgs| :: !LooksLikeVideoHeader(msgs[j])
            case Some(h) => exists i: nat :: IsLast(msgs, i, LooksLikeVideoHeader) && msgs[i] == h
  {
    if msgs != [] {
      var n := |msgs| - 1;
      VideoHeaderFound(msgs[..n]);
      if LooksLikeVideoHeader(msgs[n]) {
        assert IsLast(msgs, n, LooksLikeVideoHeader);
      } else if LastVideoHeader(msgs[..n]).Some? {
        var i: nat :| IsLast(msgs[..n], i, LooksLikeVideoHeader) && msgs[..n][i] == LastVideoHeader(msgs[..n]).value;
        assert IsLast(msgs, i, LooksLikeVideoHeader);
      }
    }
  }

  /**
   * What an overflow leaves of everything held: the last audio sequence header, if there is one,
   * then the last audio message that looks like a video header, each with the newest time.
   */
  lemma OverflowLeaves(s: QueueState, m: MediaMessage, i: nat, j: nat)
    requires m.IsAV() && m.timestamp - s.start > s.sizeMs
    ensures var all, e := s.msgs + [m], Enqueued(s, m);
            var audio, video := IsLast(all, i, IsAudioHeader), IsLast(all, j, LooksLikeVideoHeader);
            && (audio && video ==>
                  e.msgs == [all[i].(timestamp := m.timestamp), all[j].(timestamp := m.timestamp)])
            && (audio && (forall k | 0 <= k < |all| :: !LooksLikeVideoHeader(all[k])) ==>
                  e.msgs == [all[i].(timestamp := m.timestamp)])
            && (video && (forall k | 0 <= k < |all| :: !IsAudioHeader(all[k])) ==>
                  e.msgs == [all[j].(timestamp := m.timestamp)])
            && e.start == e.end == m.timestamp
  {
    var all := s.msgs + [m];
    AudioHeaderFound(all);
    VideoHeaderFound(all);
    hide IsAudioHeader, LooksLikeVideoHeader, LastAudioHeader, LastVideoHeader;
  }
}
