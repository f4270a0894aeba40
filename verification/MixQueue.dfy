/**
 * MixQueue (common/queue.hpp:136-232) and the push-then-pop step of Source::OnAudio and
 * Source::OnVideo (protocol/rtmp_source.cpp:308-325, 436-452).
 */
module MixQueues {
  import opened Bytes
  import opened Media

  const PURE_AV := 10
  const UINT32 := 0x1_0000_0000

  /** Where std::multimap::insert puts a key: behind the entries that are not later. */
  function UpperBound(s: seq<MediaMessage>, timestamp: int): (k: nat)
    ensures k <= |s|
    ensures forall i | k <= i < |s| :: s[i].timestamp > timestamp
    ensures k > 0 ==> s[k - 1].timestamp <= timestamp
  {
    if s == [] || s[|s| - 1].timestamp <= timestamp then |s| else UpperBound(s[..|s| - 1], timestamp)
  }

  function Insert(s: seq<MediaMessage>, m: MediaMessage): seq<MediaMessage> {
    var k := UpperBound(s, m.timestamp);
    s[..k] + [m] + s[k..]
  }

  /** When a message may leave; the last case asks twice for audio. */
  predicate MayPop(nbVideos: nat, nbAudios: nat) {
    || (nbVideos >= PURE_AV && nbAudios == 0)
    || (nbAudios >= PURE_AV && nbVideos == 0)
    || (nbAudios > 0 && nbAudios > 0)
  }

  class MixQueue {
    var nbVideos: nat
    var nbAudios: nat
    var msgs: seq<MediaMessage>

    constructor ()
      ensures nbVideos == 0 && nbAudios == 0 && msgs == []
    {
      nbVideos, nbAudios, msgs := 0, 0, [];
    }

    /** The abstract state; the specification functions below work on it. */
    ghost function State(): MixState
      reads this
    {
      MixState(msgs, nbVideos, nbAudios)
    }

    method Clear()
      modifies this
      ensures State() == MixState([], 0, 0)
    {
      nbVideos, nbAudios, msgs := 0, 0, [];
    }

    method Push(m: MediaMessage)
      modifies this
      ensures State() == Pushed(old(State()), m)
    {
      if m.kind.Video? {
        nbVideos := (nbVideos + 1) % UINT32;
      } else {
        nbAudios := (nbAudios + 1) % UINT32;
      }
      msgs := Insert(msgs, m);
    }

    /** The counters are trusted: the source takes the first entry without looking. */
    method Pop() returns (m: Option<MediaMessage>)
      requires MayPop(nbVideos, nbAudios) ==> msgs != []
      modifies this
      ensures (State(), m) == Popped(old(State()))
    {
      var mixOk := false;
      if nbVideos >= PURE_AV && nbAudios == 0 {
        mixOk := true;
      }
      if nbAudios >= PURE_AV && nbVideos == 0 {
        mixOk := true;
      }
      if nbAudios > 0 && nbAudios > 0 {
        mixOk := true;
      }
      if !mixOk {
        return None;
      }
      var first := msgs[0];
      msgs := msgs[1..];
      if first.kind.Audio? {
        nbAudios := (nbAudios - 1) % UINT32;
      } else {
        nbVideos := (nbVideos - 1) % UINT32;
      }
      m := Some(first);
    }
  }

  /** What Source does with every audio or video message. */
  method PushThenPop(q: MixQueue, m: MediaMessage) returns (out: Option<MediaMessage>)
    modifies q
    ensures (q.State(), out) == Popped(Pushed(old(q.State()), m))
  {
    q.Push(m);
    out := q.Pop();
  }

  datatype MixState = MixState(msgs: seq<MediaMessage>, nbVideos: nat, nbAudios: nat)

  function Pushed(s: MixState, m: MediaMessage): MixState {
    if m.kind.Video?
    then MixState(Insert(s.msgs, m), (s.nbVideos + 1) % UINT32, s.nbAudios)
    else MixState(Insert(s.msgs, m), s.nbVideos, (s.nbAudios + 1) % UINT32)
  }

  function Popped(s: MixState): (MixState, Option<MediaMessage>)
    requires MayPop(s.nbVideos, s.nbAudios) ==> s.msgs != []
  {
    if !MayPop(s.nbVideos, s.nbAudios) then (s, None) else
    var m := s.msgs[0];
    (if m.kind.Audio?
     then MixState(s.msgs[1..], s.nbVideos, (s.nbAudios - 1) % UINT32)
     else MixState(s.msgs[1..], (s.nbVideos - 1) % UINT32, s.nbAudios),
     Some(m))
  }

  function CountVideos(s: seq<MediaMessage>): nat {
    if s == [] then 0 else (if s[0].kind.Video? then 1 else 0) + CountVideos(s[1..])
  }

  /** By time, and by arrival among equal times. */
  predicate Before(a: MediaMessage, b: MediaMessage) {
    a.timestamp < b.timestamp || (a.timestamp == b.timestamp && a.id < b.id)
  }

  ghost predicate Ordered(s: seq<MediaMessage>) {
    forall i, j | 0 <= i < j < |s| :: Before(s[i], s[j])
  }

  ghost predicate AllAV(s: seq<MediaMessage>) {
    forall i | 0 <= i < |s| :: s[i].IsAV()
  }

  /** Every entry arrived before m. */
  ghost predicate AllOlder(s: seq<MediaMessage>, m: MediaMessage) {
    forall i | 0 <= i < |s| :: s[i].id < m.id
  }

  /** Honest counters and order. */
  ghost predicate Consistent(s: MixState) {
    && s.nbVideos == CountVideos(s.msgs) && s.nbAudios == |s.msgs| - CountVideos(s.msgs)
    && Ordered(s.msgs) && AllAV(s.msgs)
  }

  /** What holds between steps: in addition, at most nine messages wait. */
  ghost predicate Inv(s: MixState) {
    Consistent(s) && |s.msgs| < PURE_AV
  }

  lemma {:induction false} CountSplit(a: seq<MediaMessage>, b: seq<MediaMessage>)
    ensures CountVideos(a + b) == CountVideos(a) + CountVideos(b) <= |a + b|
  {
    if a == [] {
      assert a + b == b;
      if b != [] {
        CountSplit([], b[1..]);
        assert [] + b[1..] == b[1..];
      }
    } else {
      assert (a + b)[1..] == a[1..] + b;
      CountSplit(a[1..], b);
    }
  }

  lemma InsertCounts(s: seq<MediaMessage>, m: MediaMessage)
    ensures var r := Insert(s, m);
            && |r| == |s| + 1
            && CountVideos(r) == CountVideos(s) + CountVideos([m])
            && CountVideos([m]) == (if m.kind.Video? then 1 else 0)
            && CountVideos(s) <= |s|
  {
    hide CountVideos, UpperBound;
    var k := UpperBound(s, m.timestamp);
    InsertCountsParts(s[..k], m, s[k..]);
    assert s == s[..k] + s[k..];
  }

  lemma InsertKeepsAll(s: seq<MediaMessage>, m: MediaMessage)
    ensures multiset(Insert(s, m)) == multiset(s) + multiset{m}
  {
    hide UpperBound;
    var k := UpperBound(s, m.timestamp);
    InsertHolds(s[..k], m, s[k..]);
    assert s == s[..k] + s[k..];
  }

  lemma InsertHolds(a: seq<MediaMessage>, m: MediaMessage, b: seq<MediaMessage>)
    ensures multiset(a + [m] + b) == multiset(a + b) + multiset{m}
  {
  }

  lemma InsertCountsParts(a: seq<MediaMessage>, m: MediaMessage, b: seq<MediaMessage>)
    ensures CountVideos(a + [m] + b) == CountVideos(a + b) + CountVideos([m])
    ensures CountVideos(a + b) <= |a + b| && CountVideos([m]) == (if m.kind.Video? then 1 else 0)
  {
    CountSplit(a + [m], b);
    CountSplit(a, [m]);
    CountSplit(a, b);
    assert [m][1..] == [];
  }

  lemma InsertKeepsOrder(s: seq<MediaMessage>, m: MediaMessage)
    requires Ordered(s) && AllAV(s) && m.IsAV() && AllOlder(s, m)
    ensures Ordered(Insert(s, m)) && AllAV(Insert(s, m))
  {
    var k, r := UpperBound(s, m.timestamp), Insert(s, m);
    forall i | 0 <= i < |r| ensures r[i] == if i < k then s[i] else if i == k then m else s[i - 1] {
    }
    forall i | 0 <= i < k ensures Before(s[i], m) {
      assert i == k - 1 || Before(s[i], s[k - 1]);
    }
    forall i, j | 0 <= i < j < |r| ensures Before(r[i], r[j]) {
      assert i < k || i == k || i > k;
    }
  }

  /** A later arrival keeps the queue ordered and the counters honest. */
  lemma PushKeepsConsistent(s: MixState, m: MediaMessage)
    requires Consistent(s) && |s.msgs| < PURE_AV && m.IsAV() && AllOlder(s.msgs, m)
    ensures Consistent(Pushed(s, m))
    ensures |Pushed(s, m).msgs| == |s.msgs| + 1
    ensures multiset(Pushed(s, m).msgs) == multiset(s.msgs) + multiset{m}
  {
    hide Insert, Ordered, AllAV, AllOlder, CountVideos;
    InsertKeepsAll(s.msgs, m);
    InsertCounts(s.msgs, m);
    InsertKeepsOrder(s.msgs, m);
  }

  /** Popping takes the first entry and keeps the rest; afterwards at most nine remain. */
  lemma PopKeepsInv(s: MixState)
    requires Consistent(s) && |s.msgs| <= PURE_AV
    ensures MayPop(s.nbVideos, s.nbAudios) ==> s.msgs != []
    ensures Inv(Popped(s).0)
    ensures s.msgs == Leaving(s) + Popped(s).0.msgs
  {
    CountSplit(s.msgs, []);
    assert s.msgs + [] == s.msgs;
    if MayPop(s.nbVideos, s.nbAudios) {
      var m, rest := s.msgs[0], s.msgs[1..];
      assert s.msgs == [m] + rest;
      CountSplit([m], rest);
      CountSplit(rest, []);
      assert rest + [] == rest;
      assert CountVideos([m]) == if m.kind.Video? then 1 else 0;
      assert m.IsAV();
    }
  }

  function Leaving(s: MixState): seq<MediaMessage>
    requires MayPop(s.nbVideos, s.nbAudios) ==> s.msgs != []
  {
    match Popped(s).1
    case Some(m) => [m]
    case None => []
  }

  /** A run of arrivals: what is held afterwards and what has left, in order. */
  datatype Mix = Mix(state: MixState, left: seq<MediaMessage>)

  /** Arrivals numbered in order; Source pushes audio and video only. */
  ghost predicate Arrivals(s: seq<MediaMessage>) {
    && AllAV(s)
    && (forall i, j | 0 <= i < j < |s| :: s[i].id < s[j].id)
  }

  ghost predicate AllIn(held: seq<MediaMessage>, arrivals: seq<MediaMessage>) {
    forall i | 0 <= i < |held| :: held[i] in arrivals
  }

  /** The invariant, conservation, and nothing held that did not arrive. */
  ghost predicate Correct(arrivals: seq<MediaMessage>, r: Mix) {
    && Inv(r.state)
    && multiset(arrivals) == multiset(r.left) + multiset(r.state.msgs)
    && AllIn(r.state.msgs, arrivals)
  }

  /** Push, then Pop, for each arrival in turn. */
  ghost function Run(arrivals: seq<MediaMessage>): (r: Mix)
    requires Arrivals(arrivals)
    ensures Correct(arrivals, r)
  {
    if arrivals == [] then Mix(MixState([], 0, 0), []) else
    var n := |arrivals| - 1;
    var r := Run(arrivals[..n]);
    StepIsCorrect(arrivals, r);
    var p := Pushed(r.state, arrivals[n]);
    Mix(Popped(p).0, r.left + Leaving(p))
  }

  lemma Conserved<T>(left: multiset<T>, held: multiset<T>, m: multiset<T>, leaving: multiset<T>, after: multiset<T>)
    requires held + m == leaving + after
    ensures left + held + m == left + leaving + after
  {
    assert left + held + m == left + (held + m);
    assert left + leaving + after == left + (leaving + after);
  }

  lemma StepIsCorrect(arrivals: seq<MediaMessage>, r: Mix)
    requires arrivals != [] && Arrivals(arrivals) && Correct(arrivals[..|arrivals| - 1], r)
    ensures var p := Pushed(r.state, arrivals[|arrivals| - 1]);
            && (MayPop(p.nbVideos, p.nbAudios) ==> p.msgs != [])
            && Consistent(p) && p.msgs == Leaving(p) + Popped(p).0.msgs
            && Correct(arrivals, Mix(Popped(p).0, r.left + Leaving(p)))
  {
    var n := |arrivals| - 1;
    var m := arrivals[n];
    var p := Pushed(r.state, m);
    assert arrivals == arrivals[..n] + [m];
    assert AllOlder(r.state.msgs, m);
    PushKeepsConsistent(r.state, m);
    PopKeepsInv(p);
    hide AllOlder, Arrivals, Pushed, Popped, Leaving, Consistent, Inv, MayPop, Before;
    StillHeld(arrivals, r.left, r.state.msgs, Leaving(p), Popped(p).0.msgs);
  }

  /** Of the last arrival and what was held, what does not leave is held. */
  lemma StillHeld(arrivals: seq<MediaMessage>, left: seq<MediaMessage>, held: seq<MediaMessage>,
                  leaving: seq<MediaMessage>, after: seq<MediaMessage>)
    requires arrivals != []
    requires var n := |arrivals| - 1;
             && multiset(arrivals[..n]) == multiset(left) + multiset(held)
             && multiset(leaving + after) == multiset(held) + multiset{arrivals[n]}
    ensures multiset(arrivals) == multiset(left + leaving) + multiset(after) && AllIn(after, arrivals)
  {
    var n := |arrivals| - 1;
    assert arrivals == arrivals[..n] + [arrivals[n]];
    Conserved(multiset(left), multiset(held), multiset{arrivals[n]}, multiset(leaving), multiset(after));
    forall i | 0 <= i < |after| ensures after[i] in arrivals {
      assert after[i] in multiset(after) && after[i] in multiset(arrivals);
    }
  }

  /**
   * Every message that leaves comes before everything still held: least timestamp first, ties in
   * the order of arrival.
   */
  lemma LeastLeavesFirst(arrivals: seq<MediaMessage>)
    requires Arrivals(arrivals) && arrivals != []
    ensures var r0, r := Run(arrivals[..|arrivals| - 1]), Run(arrivals);
            && r0.left <= r.left && |r.left| <= |r0.left| + 1
            && (|r.left| > |r0.left| ==>
                  forall i | 0 <= i < |r.state.msgs| :: Before(r.left[|r0.left|], r.state.msgs[i]))
  {
    var n := |arrivals| - 1;
    var r0 := Run(arrivals[..n]);
    StepIsCorrect(arrivals, r0);
    var p := Pushed(r0.state, arrivals[n]);
    forall i | 0 <= i < |Popped(p).0.msgs| && Popped(p).1.Some?
      ensures Before(Popped(p).1.value, Popped(p).0.msgs[i])
    {
      assert p.msgs[0] == Popped(p).1.value && p.msgs[i + 1] == Popped(p).0.msgs[i];
    }
  }

  ghost predicate Ascending(s: seq<MediaMessage>) {
    forall i, j | 0 <= i < j < |s| :: s[i].timestamp <= s[j].timestamp
  }

  /** Arrivals in order of time leave in the order of arrival. */
  lemma {:induction false} OrderedArrivalsAreFifo(arrivals: seq<MediaMessage>)
    requires Arrivals(arrivals) && Ascending(arrivals)
    ensures Run(arrivals).left + Run(arrivals).state.msgs == arrivals
  {
    hide *;
    if arrivals == [] {
      EmptyRun();
    } else {
      var n := |arrivals| - 1;
      PrefixArrivals(arrivals);
      OrderedArrivalsAreFifo(arrivals[..n]);
      var r := Run(arrivals[..n]);
      HeldArrived(arrivals);
      LastInsertAppends(arrivals, r.state);
      RunUnfolds(arrivals);
      var p := Pushed(r.state, arrivals[n]);
      QueueStep(r.left, r.state.msgs, arrivals[n], Leaving(p), Popped(p).0.msgs);
      LastApart(arrivals);
    }
  }

  lemma EmptyRun()
    ensures Arrivals([]) && Run([]) == Mix(MixState([], 0, 0), [])
    ensures Run([]).left + Run([]).state.msgs == [] && Ascending([]) && OnTime([])
  {
  }

  lemma LastApart(s: seq<MediaMessage>)
    requires s != []
    ensures s[..|s| - 1] + [s[|s| - 1]] == s
  {
  }

  lemma QueueStep(left: seq<MediaMessage>, held: seq<MediaMessage>, m: MediaMessage,
                  leaving: seq<MediaMessage>, after: seq<MediaMessage>)
    requires held + [m] == leaving + after
    ensures left + leaving + after == left + held + [m]
  {
    assert left + leaving + after == left + (leaving + after);
    assert left + held + [m] == left + (held + [m]);
  }

  lemma RunUnfolds(arrivals: seq<MediaMessage>)
    requires arrivals != [] && Arrivals(arrivals)
    ensures var r := Run(arrivals[..|arrivals| - 1]);
            var p := Pushed(r.state, arrivals[|arrivals| - 1]);
            && (MayPop(p.nbVideos, p.nbAudios) ==> p.msgs != [])
            && p.msgs == Leaving(p) + Popped(p).0.msgs
            && Run(arrivals) == Mix(Popped(p).0, r.left + Leaving(p))
  {
    StepIsCorrect(arrivals, Run(arrivals[..|arrivals| - 1]));
  }

  lemma PrefixArrivals(arrivals: seq<MediaMessage>)
    requires arrivals != [] && Arrivals(arrivals) && Ascending(arrivals)
    ensures Arrivals(arrivals[..|arrivals| - 1]) && Ascending(arrivals[..|arrivals| - 1])
  {
  }

  lemma HeldArrived(arrivals: seq<MediaMessage>)
    requires arrivals != [] && Arrivals(arrivals[..|arrivals| - 1])
    ensures AllIn(Run(arrivals[..|arrivals| - 1]).state.msgs, arrivals[..|arrivals| - 1])
  {
  }

  lemma LastInsertAppends(arrivals: seq<MediaMessage>, s: MixState)
    requires arrivals != [] && Ascending(arrivals) && AllIn(s.msgs, arrivals[..|arrivals| - 1])
    ensures Pushed(s, arrivals[|arrivals| - 1]).msgs == s.msgs + [arrivals[|arrivals| - 1]]
  {
    if s.msgs != [] {
      assert s.msgs[|s.msgs| - 1] in arrivals[..|arrivals| - 1];
    }
  }

  // ---------- exactly when the output is in order ----------

  /** A message leaves exactly when any audio is held, or ten of anything. */
  lemma WhenOneLeaves(arrivals: seq<MediaMessage>)
    requires Arrivals(arrivals) && arrivals != []
    ensures var n := |arrivals| - 1;
            var r0 := Run(arrivals[..n]);
            |Run(arrivals).left| > |r0.left|
            <==> HoldsAudio(r0.state.msgs + [arrivals[n]]) || |r0.state.msgs| + 1 >= PURE_AV
  {
    var n := |arrivals| - 1;
    var s, m := Run(arrivals[..n]).state, arrivals[n];
    RunUnfolds(arrivals);
    PushMayPop(s, m);
    hide Run, Pushed, MayPop, HoldsAudio, Inv, Arrivals;
  }

  predicate HoldsAudio(s: seq<MediaMessage>) {
    exists i :: 0 <= i < |s| && s[i].kind.Audio?
  }

  lemma PushMayPop(s: MixState, m: MediaMessage)
    requires Inv(s) && m.IsAV()
    ensures var p := Pushed(s, m);
            MayPop(p.nbVideos, p.nbAudios) <==> HoldsAudio(s.msgs + [m]) || |s.msgs| + 1 >= PURE_AV
  {
    AnyAudio(s.msgs + [m]);
    CountSplit(s.msgs, [m]);
    assert CountVideos([m]) == if m.kind.Video? then 1 else 0;
    hide Insert, CountVideos, Ordered, HoldsAudio;
  }

  lemma {:induction false} AnyAudio(s: seq<MediaMessage>)
    requires AllAV(s)
    ensures CountVideos(s) <= |s| && (CountVideos(s) < |s| <==> HoldsAudio(s))
  {
    if s != [] {
      AnyAudio(s[1..]);
      assert s[0].IsAV() && s == [s[0]] + s[1..];
      if HoldsAudio(s[1..]) {
        var i :| 0 <= i < |s[1..]| && s[1..][i].kind.Audio?;
        assert s[i + 1].kind.Audio?;
      }
      if HoldsAudio(s) {
        var i :| 0 <= i < |s| && s[i].kind.Audio?;
        assert i == 0 || s[1..][i - 1].kind.Audio?;
      }
    }
  }

  predicate NotBefore(left: seq<MediaMessage>, m: MediaMessage) {
    left != [] ==> left[|left| - 1].timestamp <= m.timestamp
  }

  /** No arrival is earlier than the last message that had left before it. */
  ghost predicate OnTime(arrivals: seq<MediaMessage>)
    requires Arrivals(arrivals)
  {
    arrivals != [] ==>
      var n := |arrivals| - 1;
      OnTime(arrivals[..n]) && NotBefore(Run(arrivals[..n]).left, arrivals[n])
  }

  predicate Joins(a: seq<MediaMessage>, b: seq<MediaMessage>) {
    a != [] && b != [] ==> a[|a| - 1].timestamp <= b[0].timestamp
  }

  lemma ConcatAscends(a: seq<MediaMessage>, b: seq<MediaMessage>)
    ensures Ascending(a + b) <==> Ascending(a) && Ascending(b) && Joins(a, b)
  {
    if Ascending(a + b) {
      PartsAscend(a, b);
    }
    if Ascending(a) && Ascending(b) && Joins(a, b) {
      WholeAscends(a, b);
    }
  }

  lemma PartsAscend(a: seq<MediaMessage>, b: seq<MediaMessage>)
    requires Ascending(a + b)
    ensures Ascending(a) && Ascending(b) && Joins(a, b)
  {
    var c, n := a + b, |a|;
    assert c[..n] == a && c[n..] == b;
    forall i, j | 0 <= i < j < |b| ensures b[i].timestamp <= b[j].timestamp {
      assert c[n + i].timestamp <= c[n + j].timestamp;
    }
  }

  lemma WholeAscends(a: seq<MediaMessage>, b: seq<MediaMessage>)
    requires Ascending(a) && Ascending(b) && Joins(a, b)
    ensures Ascending(a + b)
  {
    var c, n := a + b, |a|;
    forall i, j | 0 <= i < j < |c| ensures c[i].timestamp <= c[j].timestamp {
      if i < n <= j {
        assert i == n - 1 || a[i].timestamp <= a[n - 1].timestamp;
        assert j == n || b[0].timestamp <= b[j - n].timestamp;
      }
    }
  }

  /** A message put between two parts of an ascending sequence. */
  lemma BetweenAscends(a: seq<MediaMessage>, m: MediaMessage, b: seq<MediaMessage>)
    ensures Ascending(a + [m] + b)
        <==> Ascending(a + b) && NotBefore(a, m) && (b != [] ==> m.timestamp <= b[0].timestamp)
  {
    ConcatAscends(a + [m], b);
    ConcatAscends(a, [m]);
    ConcatAscends(a, b);
    assert Ascending([m]);
    hide Ascending;
  }

  lemma InOrder(s: seq<MediaMessage>, i: nat, j: nat)
    requires Ascending(s) && i <= j < |s|
    ensures s[i].timestamp <= s[j].timestamp
  {
  }

  lemma Parted(left: seq<MediaMessage>, held: seq<MediaMessage>, m: MediaMessage, k: nat)
    requires k == UpperBound(held, m.timestamp)
    ensures left + Insert(held, m) == left + held[..k] + [m] + held[k..]
    ensures left + held == left + held[..k] + held[k..]
  {
    hide UpperBound;
    assert held == held[..k] + held[k..];
    Associate(left, held[..k] + [m], held[k..]);
    Associate(left, held[..k], [m]);
    Associate(left, held[..k], held[k..]);
  }

  lemma InsertAscends(left: seq<MediaMessage>, held: seq<MediaMessage>, m: MediaMessage)
    ensures Ascending(left + Insert(held, m)) <==> Ascending(left + held) && NotBefore(left, m)
  {
    hide Ascending;
    var k := UpperBound(held, m.timestamp);
    var a, b := left + held[..k], held[k..];
    assert left + Insert(held, m) == a + [m] + b && left + held == a + b by {
      Parted(left, held, m, k);
    }
    hide Insert;
    BetweenAscends(a, m, b);
    if k > 0 {
      assert a[|a| - 1] == held[k - 1];
      if left != [] && Ascending(a + b) {
        InOrder(a + b, |left| - 1, |a| - 1);
      }
    } else {
      assert a == left;
    }
  }

  /**
   * The output, with what is still held behind it, is in order of time exactly when no arrival
   * was earlier than the last message that had left before it: the queue repairs every lateness
   * but this one.
   */
  lemma {:induction false} OrderedExactly(arrivals: seq<MediaMessage>)
    requires Arrivals(arrivals)
    ensures Ascending(Run(arrivals).left + Run(arrivals).state.msgs) <==> OnTime(arrivals)
  {
    hide *;
    if arrivals == [] {
      EmptyRun();
    } else {
      var n := |arrivals| - 1;
      OnTimeUnfolds(arrivals);
      OrderedExactly(arrivals[..n]);
      var r := Run(arrivals[..n]);
      RunUnfolds(arrivals);
      var p := Pushed(r.state, arrivals[n]);
      PushInserts(r.state, arrivals[n]);
      InsertAscends(r.left, r.state.msgs, arrivals[n]);
      Associate(r.left, Leaving(p), Popped(p).0.msgs);
    }
  }

  lemma OnTimeUnfolds(arrivals: seq<MediaMessage>)
    requires arrivals != [] && Arrivals(arrivals)
    ensures var n := |arrivals| - 1;
            && Arrivals(arrivals[..n])
            && (OnTime(arrivals) <==> OnTime(arrivals[..n]) && NotBefore(Run(arrivals[..n]).left, arrivals[n]))
  {
    hide Run;
  }

  lemma PushInserts(s: MixState, m: MediaMessage)
    ensures Pushed(s, m).msgs == Insert(s.msgs, m)
  {
  }

  /**
   * Two streams, each in order, whose output is not: audio at 10, video at 5, audio at 20. One
   * audio message is enough to let another message go.
   */
  lemma OneAudioIsEnough(a: MediaMessage, v: MediaMessage, b: MediaMessage)
    requires a.kind.Audio? && v.kind.Video? && b.kind.Audio? && a.id < v.id < b.id
    requires a.timestamp == 10 && v.timestamp == 5 && b.timestamp == 20
    ensures Arrivals([a, v, b]) && Run([a, v, b]).left == [a, v] && !OnTime([a, v, b])
  {
    hide *;
    FewArrivals(a, v, b);
    var empty := MixState([], 0, 0);
    EmptyRun();
    Turns(a, v, b);
    assert [] + [a] == [a] && [a] + [v] == [a, v] && [a, v] + [b] == [a, v, b];
    RunOneMore([], a, empty, []);
    RunOneMore([a], v, empty, [a]);
    RunOneMore([a, v], b, MixState([v], 1, 0), [a]);
    OrderedExactly([a, v, b]);
    OutOfOrder([a, v] + Run([a, v, b]).state.msgs);
  }

  lemma FewArrivals(a: MediaMessage, v: MediaMessage, b: MediaMessage)
    requires a.IsAV() && v.IsAV() && b.IsAV() && a.id < v.id < b.id
    ensures Arrivals([a]) && Arrivals([a, v]) && Arrivals([a, v, b])
  {
  }

  lemma RunOneMore(arrivals: seq<MediaMessage>, m: MediaMessage, s: MixState, left: seq<MediaMessage>)
    requires Arrivals(arrivals) && Arrivals(arrivals + [m]) && Run(arrivals) == Mix(s, left)
    ensures var p := Pushed(s, m);
            && (MayPop(p.nbVideos, p.nbAudios) ==> p.msgs != [])
            && Run(arrivals + [m]) == Mix(Popped(p).0, left + Leaving(p))
  {
    hide Run, Pushed, Popped, Leaving, Arrivals;
    var all := arrivals + [m];
    assert all[..|all| - 1] == arrivals;
    RunUnfolds(all);
  }

  lemma OutOfOrder(s: seq<MediaMessage>)
    requires |s| >= 2 && s[0].timestamp > s[1].timestamp
    ensures !Ascending(s)
  {
  }

  lemma Turns(a: MediaMessage, v: MediaMessage, b: MediaMessage)
    requires a.kind.Audio? && v.kind.Video? && b.kind.Audio? && v.timestamp < b.timestamp
    ensures var empty, s := MixState([], 0, 0), MixState([v], 1, 0);
            && Pushed(empty, a) == MixState([a], 0, 1)
            && Popped(MixState([a], 0, 1)) == (empty, Some(a)) && Leaving(MixState([a], 0, 1)) == [a]
            && Pushed(empty, v) == s && Popped(s) == (s, None) && Leaving(s) == []
            && Pushed(s, b) == MixState([v, b], 1, 1) && Leaving(MixState([v, b], 1, 1)) == [v]
  {
    assert UpperBound([v], b.timestamp) == 1;
    assert [v][..1] + [b] + [v][1..] == [v, b];
  }
}
