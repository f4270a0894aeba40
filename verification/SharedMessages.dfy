/**
 * Reference-counted messages (protocol/rtmp_message.cpp:240-300, 367-378), timestamp correction
 * (protocol/rtmp_jitter.cpp) and the copy-then-correct step of Consumer::Enqueue
 * (protocol/rtmp_consumer.cpp:48-65).
 */
module SharedMessages {
  import opened Bytes
  import opened Media
  import MessageQueues

  /** The shared part. `handles` are the messages that own it; `freed` is set by its destructor. */
  class SharedPtrPayload {
    const kind: Kind
    const payload: bytes
    var sharedCount: int
    ghost var handles: set<SharedPtrMessage>
    ghost var freed: bool

    ghost predicate Valid()
      reads this, handles
    {
      && (freed <==> handles == {})
      && (!freed ==> sharedCount + 1 == |handles|)
      && forall h | h in handles :: h.ptr == this
    }

    constructor (kind: Kind, payload: bytes, ghost owner: SharedPtrMessage)
      ensures this.kind == kind && this.payload == payload
      ensures sharedCount == 0 && handles == {owner} && !freed
    {
      this.kind, this.payload := kind, payload;
      sharedCount, handles, freed := 0, {owner}, false;
    }
  }

  class SharedPtrMessage {
    var timestamp: int
    var streamId: nat
    var ptr: SharedPtrPayload?

    /** A live handle: its payload counts it. */
    ghost predicate Owns()
      reads this, ptr, if ptr == null then {} else ptr.handles
    {
      ptr != null && this in ptr.handles && ptr.Valid()
    }

    constructor ()
      ensures ptr == null
    {
      timestamp, streamId, ptr := 0, 0, null;
    }

    method Create(kind: Kind, payload: bytes, timestamp: int, streamId: nat)
      requires ptr == null
      modifies this
      ensures Owns() && fresh(ptr) && ptr.handles == {this}
      ensures ptr.kind == kind && ptr.payload == payload
      ensures this.timestamp == timestamp && this.streamId == streamId
    {
      ptr := new SharedPtrPayload(kind, payload, this);
      this.timestamp, this.streamId := timestamp, streamId;
    }

    /** One more handle on the same payload. */
    method Copy() returns (copy: SharedPtrMessage)
      requires Owns()
      modifies ptr
      ensures fresh(copy) && copy.ptr == ptr && copy.Owns() && Owns()
      ensures ptr.handles == old(ptr.handles) + {copy}
      ensures ptr.sharedCount == old(ptr.sharedCount) + 1
      ensures copy.timestamp == timestamp && copy.streamId == streamId
    {
      copy := new SharedPtrMessage();
      copy.ptr := ptr;
      ptr.sharedCount := ptr.sharedCount + 1;
      ptr.handles := ptr.handles + {copy};
      copy.timestamp, copy.streamId := timestamp, streamId;
    }

    /** The destructor: the payload goes with the last handle, and only then. */
    method Destroy()
      requires ptr != null ==> Owns()
      modifies this, ptr
      ensures ptr == null
      ensures var p := old(ptr);
              p != null ==>
                && p.Valid() && p.handles == old(ptr.handles) - {this}
                && (p.freed <==> old(ptr.handles) == {this})
    {
      if ptr == null {
        return;
      }
      var p := ptr;
      ptr := null;
      if p.sharedCount == 0 {
        OnlyOne(p.handles, this);
        p.handles, p.freed := {}, true;
      } else {
        p.handles := p.handles - {this};
        p.sharedCount := p.sharedCount - 1;
      }
    }

    predicate IsAV()
      requires ptr != null
      reads this
    {
      ptr.kind.Audio? || ptr.kind.Video?
    }
  }

  datatype HandleOp = CopyOf(i: nat) | DestroyAt(i: nat)

  predicate Distinct<T(==)>(s: seq<T>) {
    forall i, j | 0 <= i < j < |s| :: s[i] != s[j]
  }

  /** Exactly these handles are live, and each owns the payload. */
  ghost predicate Live(p: SharedPtrPayload, live: seq<SharedPtrMessage>)
    reads p, p.handles
  {
    && p.Valid() && Distinct(live)
    && (forall h | h in p.handles :: h in live)
    && (forall h | h in live :: h in p.handles)
  }

  /** A copy of any live handle. */
  method CopyLive(p: SharedPtrPayload, live: seq<SharedPtrMessage>, i: nat) returns (now: seq<SharedPtrMessage>)
    requires Live(p, live) && i < |live|
    modifies p
    ensures Live(p, now) && |now| == |live| + 1
    ensures now[..|live|] == live && fresh(now[|live|])
  {
    assert live[i] in p.handles && live[i].ptr == p;
    var copy := live[i].Copy();
    now := live + [copy];
    Added(live, copy);
    hide SharedPtrPayload.Valid, Distinct;
  }

  /** The destruction of any live handle. */
  method DestroyLive(p: SharedPtrPayload, live: seq<SharedPtrMessage>, i: nat) returns (now: seq<SharedPtrMessage>)
    requires Live(p, live) && i < |live|
    modifies p, live[i]
    ensures Live(p, now) && now == live[..i] + live[i + 1..]
  {
    assert live[i] in p.handles && live[i].ptr == p;
    live[i].Destroy();
    now := live[..i] + live[i + 1..];
    Removed(live, i);
    hide SharedPtrPayload.Valid, Distinct;
  }

  lemma Added<T>(s: seq<T>, x: T)
    requires Distinct(s) && x !in s
    ensures Distinct(s + [x])
  {
  }

  lemma Removed<T>(s: seq<T>, i: nat)
    requires Distinct(s) && i < |s|
    ensures var t := s[..i] + s[i + 1..];
            Distinct(t) && forall x :: x in t <==> x in s && x != s[i]
  {
    var t := s[..i] + s[i + 1..];
    assert forall k | 0 <= k < |t| :: t[k] == s[if k < i then k else k + 1];
    forall x | x in s && x != s[i] ensures x in t {
      var k :| 0 <= k < |s| && s[k] == x;
      assert t[if k < i then k else k - 1] == x;
    }
  }

  /**
   * A payload's life: any copies and destructions of its live handles. The count is theirs, and
   * the payload is freed when the last of them goes, after which there is nothing left to call.
   */
  method Lifetime(kind: Kind, payload: bytes, timestamp: int, streamId: nat, ops: seq<HandleOp>)
    returns (p: SharedPtrPayload, live: seq<SharedPtrMessage>)
    ensures fresh(p) && p.kind == kind && p.payload == payload
    ensures Live(p, live) && (p.freed <==> live == [])
    ensures live != [] ==> p.sharedCount + 1 == |live|
  {
    var m := new SharedPtrMessage();
    m.Create(kind, payload, timestamp, streamId);
    p, live := m.ptr, [m];
    for k := 0 to |ops|
      invariant fresh(p) && p.kind == kind && p.payload == payload
      invariant Live(p, live) && forall h | h in live :: fresh(h)
    {
      if ops[k].i < |live| {
        assert live[ops[k].i] in live;
        match ops[k] {
          case CopyOf(i) => live := CopyLive(p, live, i);
          case DestroyAt(i) => live := DestroyLive(p, live, i);
        }
      }
    }
    HandlesCounted(live, p.handles);
  }

  lemma {:induction false} HandlesCounted<T>(live: seq<T>, handles: set<T>)
    requires Distinct(live)
    requires (forall h | h in handles :: h in live) && (forall h | h in live :: h in handles)
    ensures |handles| == |live|
  {
    if live == [] {
      assert handles == {};
    } else {
      var last := live[|live| - 1];
      HandlesCounted(live[..|live| - 1], handles - {last});
    }
  }

  lemma OnlyOne<T>(s: set<T>, x: T)
    requires |s| == 1 && x in s
    ensures s == {x}
  {
    assert |s - {x}| == 0;
  }

  // ---------- timestamp correction ----------

  const MAX_JITTER_MS := 250
  const DEFAULT_FRAME_TIME_MS := 10

  datatype JitterAlgorithm = FULL | ZERO | OFF

  datatype JitterState = JitterState(lastPktTime: int, lastPktCorrectTime: int)

  function Max(a: int, b: int): int {
    if a < b then b else a
  }

  function FullStep(s: JitterState, time: int): JitterState {
    var delta := time - s.lastPktTime;
    var step := if delta < -MAX_JITTER_MS || delta > MAX_JITTER_MS then DEFAULT_FRAME_TIME_MS else delta;
    JitterState(time, Max(0, s.lastPktCorrectTime + step))
  }

  /** What each algorithm makes of a message's time, and the state it leaves. */
  function Corrected(s: JitterState, isAV: bool, time: int, ag: JitterAlgorithm): (JitterState, int) {
    match ag
    case OFF => (s, time)
    case ZERO =>
      var base := if s.lastPktCorrectTime == -1 then time else s.lastPktCorrectTime;
      (s.(lastPktCorrectTime := base), time - base)
    case FULL =>
      if !isAV then (s, 0) else
      var t := FullStep(s, time);
      (t, t.lastPktCorrectTime)
  }

  class Jitter {
    var lastPktTime: int
    var lastPktCorrectTime: int

    ghost function State(): JitterState
      reads this
    {
      JitterState(lastPktTime, lastPktCorrectTime)
    }

    constructor ()
      ensures State() == JitterState(0, -1)
    {
      lastPktTime, lastPktCorrectTime := 0, -1;
    }

    method Correct(msg: SharedPtrMessage, ag: JitterAlgorithm)
      requires msg.ptr != null
      modifies this, msg`timestamp
      ensures (State(), msg.timestamp) == Corrected(old(State()), msg.IsAV(), old(msg.timestamp), ag)
    {
      if ag == OFF {
        return;
      }
      if ag == ZERO {
        if lastPktCorrectTime == -1 {
          lastPktCorrectTime := msg.timestamp;
        }
        msg.timestamp := msg.timestamp - lastPktCorrectTime;
        return;
      }
      if !msg.IsAV() {
        msg.timestamp := 0;
        return;
      }
      var time := msg.timestamp;
      var delta := time - lastPktTime;
      if delta < -MAX_JITTER_MS || delta > MAX_JITTER_MS {
        delta := DEFAULT_FRAME_TIME_MS;
      }
      lastPktCorrectTime := Max(0, lastPktCorrectTime + delta);
      msg.timestamp := lastPktCorrectTime;
      lastPktTime := time;
    }
  }

  // ---------- corrected times over a run ----------

  /** A message on its way through the correction: whether it is audio or video, and its time. */
  datatype Sample = Sample(isAV: bool, time: int)

  /** The state after the first n messages of a run. */
  function After(ag: JitterAlgorithm, run: seq<Sample>, n: nat): JitterState
    requires n <= |run|
  {
    if n == 0 then JitterState(0, -1)
    else Corrected(After(ag, run, n - 1), run[n - 1].isAV, run[n - 1].time, ag).0
  }

  /** The time the i-th message of a run leaves with. */
  function Output(ag: JitterAlgorithm, run: seq<Sample>, i: nat): int
    requires i < |run|
  {
    Corrected(After(ag, run, i), run[i].isAV, run[i].time, ag).1
  }

  /** The last audio or video message before the n-th. */
  function LastAV(run: seq<Sample>, n: nat): (k: Option<nat>)
    requires n <= |run|
    ensures k.Some? ==> k.value < n && run[k.value].isAV && forall i | k.value < i < n :: !run[i].isAV
    ensures k.None? ==> forall i | 0 <= i < n :: !run[i].isAV
  {
    if n == 0 then None else if run[n - 1].isAV then Some(n - 1) else LastAV(run, n - 1)
  }

  /** Other messages leave with 0 and change no later output: FULL remembers audio and video only. */
  lemma {:induction false} OnlyAVCounts(run: seq<Sample>, n: nat)
    requires n <= |run|
    ensures After(FULL, run, n) ==
            match LastAV(run, n)
            case None => JitterState(0, -1)
            case Some(k) => JitterState(run[k].time, Output(FULL, run, k))
    ensures n < |run| && !run[n].isAV ==> Output(FULL, run, n) == 0
  {
    if n > 0 {
      OnlyAVCounts(run, n - 1);
    }
  }

  /** Outputs are never negative and grow at most 250 a message from the start. */
  lemma {:induction false} OutputBounds(run: seq<Sample>, i: nat)
    requires i < |run|
    ensures 0 <= Output(FULL, run, i) <= MAX_JITTER_MS * (i + 1)
  {
    OnlyAVCounts(run, i);
    match LastAV(run, i) {
      case None =>
      case Some(k) => OutputBounds(run, k);
    }
  }

  /** Neighbours: audio or video with nothing of the kind between them. */
  predicate Neighbours(run: seq<Sample>, i: nat, j: nat) {
    i < j < |run| && run[j].isAV && LastAV(run, j) == Some(i)
  }

  /** Outputs of neighbours are at most 250 apart, and one falls below the one before exactly when
      time went back by at most 250 and there was something to take back. */
  lemma OutputSteps(run: seq<Sample>, i: nat, j: nat)
    requires Neighbours(run, i, j)
    ensures var before, now := Output(FULL, run, i), Output(FULL, run, j);
            && -250 <= now - before <= 250
            && (now < before <==> -250 <= run[j].time - run[i].time < 0 && before > 0)
            && (-250 <= run[j].time - run[i].time <= 250 ==>
                  now == Max(0, before + (run[j].time - run[i].time)))
            && (!(-250 <= run[j].time - run[i].time <= 250) ==> now == before + 10)
  {
    OnlyAVCounts(run, j);
    OutputBounds(run, i);
    hide After, LastAV;
  }

  /** The first audio or video message. */
  lemma FirstOutput(run: seq<Sample>, i: nat)
    requires i < |run| && run[i].isAV && LastAV(run, i).None?
    ensures Output(FULL, run, i) == if -250 <= run[i].time <= 250 then Max(0, run[i].time - 1) else 9
  {
    OnlyAVCounts(run, i);
  }

  ghost predicate NeverBack(run: seq<Sample>) {
    forall k, l | 0 <= k < l < |run| && run[k].isAV && run[l].isAV :: run[k].time <= run[l].time
  }

  /** Input that never goes back gives output that never goes back. */
  lemma {:induction false} OutputMonotonic(run: seq<Sample>, i: nat, j: nat)
    requires i <= j < |run| && run[i].isAV && run[j].isAV && NeverBack(run)
    ensures Output(FULL, run, i) <= Output(FULL, run, j)
  {
    if i < j {
      var k := LastAV(run, j).value;
      OutputMonotonic(run, i, k);
      OutputSteps(run, k, j);
      OutputBounds(run, k);
    }
  }

  /** Without jumps the output moves with the input as long as that keeps it from falling below 0. */
  lemma {:induction false} OutputFollowsInput(run: seq<Sample>, i: nat, j: nat)
    requires i <= j < |run| && run[i].isAV && run[j].isAV
    requires forall k, l | i <= k < l <= j && Neighbours(run, k, l) :: -250 <= run[l].time - run[k].time <= 250
    requires forall k | i <= k <= j && run[k].isAV :: Output(FULL, run, i) + (run[k].time - run[i].time) >= 0
    ensures Output(FULL, run, j) - Output(FULL, run, i) == run[j].time - run[i].time
  {
    if i < j {
      var k := LastAV(run, j).value;
      assert Neighbours(run, k, j);
      OutputFollowsInput(run, i, k);
      OutputSteps(run, k, j);
    }
  }

  /** The first time that is not -1, if any of the first n is. */
  function Base(run: seq<Sample>, n: nat): int
    requires n <= |run|
  {
    if n == 0 then -1 else
    var b := Base(run, n - 1);
    if b == -1 then run[n - 1].time else b
  }

  /** ZERO takes that time from every message, of whatever kind: the first leaves with 0. */
  lemma {:induction false} ZeroShifts(run: seq<Sample>, i: nat)
    requires i < |run|
    ensures Output(ZERO, run, i) == run[i].time - Base(run, i + 1)
    ensures After(ZERO, run, i + 1) == JitterState(0, Base(run, i + 1))
  {
    if i > 0 {
      ZeroShifts(run, i - 1);
    }
  }

  lemma {:induction false} FirstTimeIsBase(run: seq<Sample>, n: nat)
    requires 0 < n <= |run| && run[0].time != -1
    ensures Base(run, n) == run[0].time
  {
    if n > 1 {
      FirstTimeIsBase(run, n - 1);
    }
  }

  /** OFF leaves every time as it is. */
  lemma {:induction false} OffKeeps(run: seq<Sample>, i: nat)
    requires i < |run|
    ensures Output(OFF, run, i) == run[i].time && After(OFF, run, i) == JitterState(0, -1)
  {
    if i > 0 {
      OffKeeps(run, i - 1);
    }
  }

  // ---------- the consumer's copy ----------

  /**
   * A copy is corrected and queued, and the queue shrinks if that makes it overflow; the message
   * it was made from keeps its time. The queue holds the copy's contents under the number `id`.
   */
  method EnqueueCopy(shared: SharedPtrMessage, jitter: Jitter, atc: bool, ag: JitterAlgorithm,
                     queue: MessageQueues.MessageQueue, id: nat) returns (copy: SharedPtrMessage)
    requires shared.Owns() && queue.Valid() && queue.queueSizeMs >= 0
    modifies shared.ptr, jitter, queue, queue.msgs, queue.msgs.msgs
    ensures shared.Owns() && shared.timestamp == old(shared.timestamp)
    ensures fresh(copy) && copy.Owns() && copy.ptr == shared.ptr
    ensures shared.ptr.handles == old(shared.ptr.handles) + {copy}
    ensures (jitter.State(), copy.timestamp) ==
            if atc then (old(jitter.State()), shared.timestamp)
            else Corrected(old(jitter.State()), shared.IsAV(), shared.timestamp, ag)
    ensures queue.Valid() && queue.State() ==
            MessageQueues.Enqueued(old(queue.State()),
                                   MediaMessage(shared.ptr.kind, copy.timestamp, shared.ptr.payload, id))
  {
    copy := shared.Copy();
    if !atc {
      jitter.Correct(copy, ag);
    }
    var _ := queue.Enqueue(MediaMessage(copy.ptr.kind, copy.timestamp, copy.ptr.payload, id));
  }
}
