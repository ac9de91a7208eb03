/**
 The live tail of internal/applog/ring.go as a step system at the granularity
 of its locks.

 One call of Push is several atomic steps: the ring write under `mu`, then,
 under `subsMu`, one non-blocking send per subscriber in any order. Consumers
 take no lock to receive, so a receive may fall between two sends of the same
 broadcast. Subscribe and the unsubscribe closure are single critical sections
 of `subsMu`. Each call of Push is named by its own id, which stands for the
 record it carries.

 `received`, `dropped`, `offered` and `start` of a channel, and `written` and
 `broadcasts` of a state, are history: no step reads them.
 */
module LiveTail {
  import opened LogRing
  import opened Text

  type PushId = nat
  type ChanId = nat

  const CHANNEL_CAPACITY: nat := 64

  datatype Phase = Written | Broadcasting | Done

  datatype Chan = Chan(
    queue: seq<PushId>, closed: bool,
    received: seq<PushId>, dropped: seq<PushId>, offered: seq<PushId>, start: nat)

  datatype State = State(
    ring: Ring<PushId>,
    phase: map<PushId, Phase>,
    holder: Option<PushId>,       // the push that holds subsMu for its broadcast
    pending: set<ChanId>,         // subscribers that broadcast has not visited yet
    subs: set<ChanId>,
    chans: map<ChanId, Chan>,     // every channel ever made
    panicked: bool,               // a send on, or a close of, a closed channel
    written: seq<PushId>,         // ring writes, in order
    broadcasts: seq<PushId>)      // broadcasts begun, in order

  datatype Step =
    | WriteRing(p: PushId)
    | BeginBroadcast(p: PushId)
    | Offer(c: ChanId)
    | EndBroadcast
    | Subscribe(c: ChanId)
    | Unsubscribe(c: ChanId)
    | Receive(c: ChanId)

  function Init(items: seq<PushId>): State {
    State(Ring(items, 0, false), map[], None, {}, {}, map[], false, [], [])
  }

  predicate Enabled(s: State, step: Step) {
    match step
    case WriteRing(p) => p !in s.phase
    case BeginBroadcast(p) => p in s.phase && s.phase[p] == Written && s.holder.None?
    case Offer(c) => s.holder.Some? && c in s.pending && c in s.chans
    case EndBroadcast => s.holder.Some? && s.pending == {}
    case Subscribe(c) => s.holder.None? && c !in s.chans
    case Unsubscribe(c) => s.holder.None? && c in s.chans
    case Receive(c) => c in s.chans && s.chans[c].queue != []
  }

  /** A select with a default branch: send, drop when the buffer is full, panic when closed. */
  function Send(s: State, c: ChanId, p: PushId): State
    requires c in s.chans
  {
    var ch := s.chans[c];
    if ch.closed then s.(panicked := true)
    else if |ch.queue| < CHANNEL_CAPACITY then
      s.(chans := s.chans[c := ch.(queue := ch.queue + [p], offered := ch.offered + [p])])
    else
      s.(chans := s.chans[c := ch.(dropped := ch.dropped + [p], offered := ch.offered + [p])])
  }

  function Close(s: State, c: ChanId): State
    requires c in s.chans
  {
    if s.chans[c].closed then s.(panicked := true)
    else s.(chans := s.chans[c := s.chans[c].(closed := true)])
  }

  function Next(s: State, step: Step): State
    requires s.ring.WellFormed() && Enabled(s, step)
  {
    match step
    case WriteRing(p) =>
      s.(ring := Write(s.ring, p), phase := s.phase[p := Written], written := s.written + [p])
    case BeginBroadcast(p) =>
      s.(phase := s.phase[p := Broadcasting], holder := Some(p), pending := s.subs,
         broadcasts := s.broadcasts + [p])
    case Offer(c) =>
      Send(s, c, s.holder.value).(pending := s.pending - {c})
    case EndBroadcast =>
      s.(phase := s.phase[s.holder.value := Done], holder := None)
    case Subscribe(c) =>
      s.(subs := s.subs + {c}, chans := s.chans[c := Chan([], false, [], [], [], |s.broadcasts|)])
    case Unsubscribe(c) =>
      if c in s.subs then Close(s, c).(subs := s.subs - {c}) else s
    case Receive(c) =>
      var ch := s.chans[c];
      s.(chans := s.chans[c := ch.(queue := ch.queue[1..], received := ch.received + [ch.queue[0]])])
  }

  // ---- runs -------------------------------------------------------------

  ghost predicate Legal(s: State, steps: seq<Step>)
    decreases |steps|
  {
    steps == [] || (s.ring.WellFormed() && Enabled(s, steps[0]) && Legal(Next(s, steps[0]), steps[1..]))
  }

  ghost function Exec(s: State, steps: seq<Step>): State
    requires Legal(s, steps)
    decreases |steps|
  {
    if steps == [] then s else Exec(Next(s, steps[0]), steps[1..])
  }

  // ---- the invariant ------------------------------------------------------

  ghost predicate NoDup<T>(xs: seq<T>) {
    forall i, j | 0 <= i < j < |xs| :: xs[i] != xs[j]
  }

  /** `whole` is an order-preserving interleaving of `a` and `b`: nothing lost, nothing added. */
  ghost predicate Interleaves<T>(a: seq<T>, b: seq<T>, whole: seq<T>)
    decreases |whole|
  {
    if whole == [] then a == [] && b == []
    else
      var n := |whole| - 1;
      || (a != [] && a[|a| - 1] == whole[n] && Interleaves(a[..|a| - 1], b, whole[..n]))
      || (b != [] && b[|b| - 1] == whole[n] && Interleaves(a, b[..|b| - 1], whole[..n]))
  }

  /** What the subscriber got or will get: records received, then records still queued. */
  function Accepted(ch: Chan): seq<PushId> {
    ch.received + ch.queue
  }

  /**
   One channel against the broadcast log: `open` while subscribed, `due` while the current
   broadcast has yet to visit it.
   */
  ghost predicate ChanOk(ch: Chan, broadcasts: seq<PushId>, open: bool, due: bool) {
    var stop := ch.start + |ch.offered|;
    && |ch.queue| <= CHANNEL_CAPACITY
    && stop <= |broadcasts|
    && ch.offered == broadcasts[ch.start..stop]
    && Interleaves(Accepted(ch), ch.dropped, ch.offered)
    && (open <==> !ch.closed)
    && (open ==> stop == |broadcasts| - if due then 1 else 0)
  }

  ghost predicate ChanInv(s: State, c: ChanId)
    requires c in s.chans
  {
    ChanOk(s.chans[c], s.broadcasts, c in s.subs, c in s.pending)
  }

  /** The ring refines the write order; broadcasts are the pushes past their ring write; nothing is logged twice. */
  ghost predicate LogOk(ring: Ring<PushId>, phase: map<PushId, Phase>, written: seq<PushId>, broadcasts: seq<PushId>) {
    && Refines(ring, written)
    && NoDup(written)
    && NoDup(broadcasts)
    && (forall p :: p in written <==> p in phase)
    && (forall p :: p in broadcasts <==> p in phase && phase[p] != Written)
  }

  ghost predicate LogInv(s: State) {
    LogOk(s.ring, s.phase, s.written, s.broadcasts)
  }

  ghost predicate LockInv(s: State) {
    && (s.holder.None? ==> s.pending == {})
    && (s.holder.Some? ==>
          && s.broadcasts != [] && s.broadcasts[|s.broadcasts| - 1] == s.holder.value
          && s.holder.value in s.phase && s.phase[s.holder.value] == Broadcasting)
    && (forall p | p in s.phase :: s.phase[p] == Broadcasting ==> s.holder == Some(p))
    && s.pending <= s.subs <= s.chans.Keys
  }

  ghost predicate Inv(s: State) {
    && !s.panicked
    && LogInv(s)
    && LockInv(s)
    && forall c | c in s.chans :: ChanInv(s, c)
  }

  lemma InitInv(items: seq<PushId>)
    requires items != []
    ensures Inv(Init(items))
  {
    EmptyRefines(items);
  }

  lemma InterleavesSnoc<T>(a: seq<T>, b: seq<T>, whole: seq<T>, x: T)
    requires Interleaves(a, b, whole)
    ensures Interleaves(a + [x], b, whole + [x])
    ensures Interleaves(a, b + [x], whole + [x])
  {
    assert (whole + [x])[..|whole|] == whole;
    assert (a + [x])[..|a|] == a;
    assert (b + [x])[..|b|] == b;
  }

  lemma NoDupSnoc<T>(xs: seq<T>, x: T)
    requires NoDup(xs) && x !in xs
    ensures NoDup(xs + [x])
    ensures forall y :: y in xs + [x] <==> y in xs || y == x
  {
  }

  lemma WriteRingLog(
      ring: Ring<PushId>, phase: map<PushId, Phase>, written: seq<PushId>, broadcasts: seq<PushId>, p: PushId)
    requires LogOk(ring, phase, written, broadcasts) && p !in phase
    ensures LogOk(Write(ring, p), phase[p := Written], written + [p], broadcasts)
  {
    WriteRefines(ring, written, p);
    NoDupSnoc(written, p);
  }

  lemma BroadcastLog(
      ring: Ring<PushId>, phase: map<PushId, Phase>, written: seq<PushId>, broadcasts: seq<PushId>, p: PushId)
    requires LogOk(ring, phase, written, broadcasts) && p in phase && phase[p] == Written
    ensures LogOk(ring, phase[p := Broadcasting], written, broadcasts + [p])
  {
    NoDupSnoc(broadcasts, p);
  }

  lemma FinishLog(
      ring: Ring<PushId>, phase: map<PushId, Phase>, written: seq<PushId>, broadcasts: seq<PushId>, p: PushId)
    requires LogOk(ring, phase, written, broadcasts) && p in phase && phase[p] == Broadcasting
    ensures LogOk(ring, phase[p := Done], written, broadcasts)
  {
  }

  lemma LogStep(s: State, step: Step)
    requires LogInv(s) && LockInv(s) && Enabled(s, step)
    ensures LogInv(Next(s, step))
  {
    match step
    case WriteRing(p) => WriteRingLog(s.ring, s.phase, s.written, s.broadcasts, p);
    case BeginBroadcast(p) => BroadcastLog(s.ring, s.phase, s.written, s.broadcasts, p);
    case EndBroadcast => FinishLog(s.ring, s.phase, s.written, s.broadcasts, s.holder.value);
    case _ =>
  }

  lemma QueuedIsAccepted(ch: Chan, p: PushId)
    requires Interleaves(Accepted(ch), ch.dropped, ch.offered)
    ensures Interleaves(Accepted(ch.(queue := ch.queue + [p], offered := ch.offered + [p])),
            ch.dropped, ch.offered + [p])
  {
    InterleavesSnoc(Accepted(ch), ch.dropped, ch.offered, p);
    assert Accepted(ch.(queue := ch.queue + [p], offered := ch.offered + [p])) == Accepted(ch) + [p];
  }

  /** Sending p, the record under broadcast, to an open channel that is still due: room in the buffer. */
  lemma QueuedKeepsChan(ch: Chan, broadcasts: seq<PushId>, p: PushId)
    requires broadcasts != [] && broadcasts[|broadcasts| - 1] == p
    requires ChanOk(ch, broadcasts, true, true) && |ch.queue| < CHANNEL_CAPACITY
    ensures ChanOk(ch.(queue := ch.queue + [p], offered := ch.offered + [p]), broadcasts, true, false)
  {
    assert broadcasts[ch.start..|broadcasts|] == ch.offered + [p];
    QueuedIsAccepted(ch, p);
  }

  /** The same with a full buffer. */
  lemma DroppedKeepsChan(ch: Chan, broadcasts: seq<PushId>, p: PushId)
    requires broadcasts != [] && broadcasts[|broadcasts| - 1] == p
    requires ChanOk(ch, broadcasts, true, true)
    ensures ChanOk(ch.(dropped := ch.dropped + [p], offered := ch.offered + [p]), broadcasts, true, false)
  {
    assert broadcasts[ch.start..|broadcasts|] == ch.offered + [p];
    InterleavesSnoc(Accepted(ch), ch.dropped, ch.offered, p);
  }

  lemma ReceiveKeepsChan(ch: Chan, broadcasts: seq<PushId>, open: bool, due: bool)
    requires ChanOk(ch, broadcasts, open, due) && ch.queue != []
    ensures ChanOk(ch.(queue := ch.queue[1..], received := ch.received + [ch.queue[0]]), broadcasts, open, due)
  {
    assert Accepted(ch.(queue := ch.queue[1..], received := ch.received + [ch.queue[0]])) == Accepted(ch);
  }

  /** A new broadcast makes every open channel due and leaves a closed one alone. */
  lemma BroadcastKeepsChan(ch: Chan, broadcasts: seq<PushId>, open: bool, p: PushId)
    requires ChanOk(ch, broadcasts, open, false)
    ensures ChanOk(ch, broadcasts + [p], open, open)
  {
    var stop := ch.start + |ch.offered|;
    assert (broadcasts + [p])[ch.start..stop] == broadcasts[ch.start..stop];
  }

  lemma OfferStep(s: State, c: ChanId)
    requires s.ring.WellFormed() && Enabled(s, Offer(c)) && c in s.subs
    requires s.broadcasts != [] && s.broadcasts[|s.broadcasts| - 1] == s.holder.value
    requires ChanInv(s, c)
    ensures c in Next(s, Offer(c)).chans && ChanInv(Next(s, Offer(c)), c)
  {
    var ch := s.chans[c];
    if |ch.queue| < CHANNEL_CAPACITY {
      QueuedKeepsChan(ch, s.broadcasts, s.holder.value);
    } else {
      DroppedKeepsChan(ch, s.broadcasts, s.holder.value);
    }
  }

  lemma CloseKeepsChan(ch: Chan, broadcasts: seq<PushId>, due: bool)
    requires ChanOk(ch, broadcasts, true, due)
    ensures ChanOk(ch.(closed := true), broadcasts, false, due)
  {
    assert Accepted(ch.(closed := true)) == Accepted(ch);
  }

  /** Steps that neither broadcast nor use this channel can at most end its subscription. */
  lemma QuietStep(s: State, step: Step, c: ChanId)
    requires s.ring.WellFormed() && Enabled(s, step) && c in s.chans
    requires step != Offer(c) && step != Receive(c) && !step.BeginBroadcast?
    ensures var t := Next(s, step);
            && c in t.chans && t.broadcasts == s.broadcasts && (c in t.pending <==> c in s.pending)
            && (if step == Unsubscribe(c) && c in s.subs && !s.chans[c].closed
                then t.chans[c] == s.chans[c].(closed := true) && c !in t.subs
                else t.chans[c] == s.chans[c] && (step != Unsubscribe(c) ==> (c in t.subs <==> c in s.subs))
                     && (c !in s.subs ==> c !in t.subs))
  {
  }

  lemma ChanStep(s: State, step: Step, c: ChanId)
    requires s.ring.WellFormed() && Enabled(s, step)
    requires s.holder.None? ==> s.pending == {}
    requires s.holder.Some? ==> s.broadcasts != [] && s.broadcasts[|s.broadcasts| - 1] == s.holder.value
    requires s.pending <= s.subs
    requires c in s.chans && ChanInv(s, c)
    ensures c in Next(s, step).chans && ChanInv(Next(s, step), c)
  {
    if step == Offer(c) {
      OfferStep(s, c);
    } else if step == Receive(c) {
      ReceiveKeepsChan(s.chans[c], s.broadcasts, c in s.subs, c in s.pending);
    } else if step.BeginBroadcast? {
      BroadcastKeepsChan(s.chans[c], s.broadcasts, c in s.subs, step.p);
    } else {
      QuietStep(s, step, c);
      if step == Unsubscribe(c) && c in s.subs {
        CloseKeepsChan(s.chans[c], s.broadcasts, c in s.pending);
      }
    }
  }

  lemma LockStep(s: State, step: Step)
    requires s.ring.WellFormed() && LockInv(s) && Enabled(s, step)
    ensures LockInv(Next(s, step))
  {
  }

  /** An open channel is one that is subscribed, so neither a send nor a close can hit a closed one. */
  lemma NoPanic(s: State, step: Step)
    requires s.ring.WellFormed() && s.pending <= s.subs && !s.panicked && Enabled(s, step)
    requires step.Offer? || step.Unsubscribe? ==> (step.c in s.subs <==> !s.chans[step.c].closed)
    ensures !Next(s, step).panicked
  {
  }

  lemma ChansStep(s: State, step: Step)
    requires s.ring.WellFormed() && LockInv(s) && Enabled(s, step)
    requires forall c | c in s.chans :: ChanInv(s, c)
    ensures forall c | c in Next(s, step).chans :: ChanInv(Next(s, step), c)
  {
    forall c | c in Next(s, step).chans ensures ChanInv(Next(s, step), c) {
      if c in s.chans {
        assert ChanInv(s, c);
        ChanStep(s, step, c);
      }
    }
  }

  /** Every lock-level step keeps the invariant, and none of them panics. */
  lemma StepInv(s: State, step: Step)
    requires Inv(s) && Enabled(s, step)
    ensures Inv(Next(s, step))
  {
    LogStep(s, step);
    LockStep(s, step);
    ChansStep(s, step);
    if step.Offer? || step.Unsubscribe? {
      assert ChanInv(s, step.c);
    }
    NoPanic(s, step);
  }

  lemma {:induction false} RunInv(s: State, steps: seq<Step>)
    requires Inv(s) && Legal(s, steps)
    ensures Inv(Exec(s, steps))
    decreases |steps|
  {
    if steps == [] {
    } else {
      StepInv(s, steps[0]);
      RunInv(Next(s, steps[0]), steps[1..]);
    }
  }

  // ---- main results ---------------------------------------------------------

  ghost predicate Reachable(s: State) {
    exists items: seq<PushId>, steps: seq<Step> ::
      items != [] && Legal(Init(items), steps) && s == Exec(Init(items), steps)
  }

  lemma ReachableInv(s: State)
    requires Reachable(s)
    ensures Inv(s)
  {
    var items: seq<PushId>, steps: seq<Step> :|
      items != [] && Legal(Init(items), steps) && s == Exec(Init(items), steps);
    InitInv(items);
    RunInv(Init(items), steps);
  }

  /** No interleaving sends on a closed channel or closes one twice. */
  lemma ChannelLifecycle(s: State, step: Step)
    requires Reachable(s) && Enabled(s, step)
    ensures !s.panicked && s.ring.WellFormed() && !Next(s, step).panicked
    ensures step.Offer? ==> !s.chans[step.c].closed
    ensures step.Unsubscribe? ==> Next(s, step).chans[step.c].closed
  {
    ReachableInv(s);
    StepInv(s, step);
    if step.Offer? || step.Unsubscribe? {
      assert ChanInv(s, step.c);
    }
  }

  lemma {:induction false} InterleavesLength<T>(a: seq<T>, b: seq<T>, whole: seq<T>)
    requires Interleaves(a, b, whole)
    ensures |a| + |b| == |whole|
    decreases |whole|
  {
    if whole == [] {
    } else {
      var n := |whole| - 1;
      if a != [] && a[|a| - 1] == whole[n] && Interleaves(a[..|a| - 1], b, whole[..n]) {
        InterleavesLength(a[..|a| - 1], b, whole[..n]);
      } else {
        InterleavesLength(a, b[..|b| - 1], whole[..n]);
      }
    }
  }

  /** The left part of an interleaving sits in the whole at increasing positions. */
  lemma {:induction false} InterleavesOrder<T>(a: seq<T>, b: seq<T>, whole: seq<T>)
      returns (at: seq<nat>)
    requires Interleaves(a, b, whole)
    ensures |at| == |a|
    ensures forall i | 0 <= i < |a| :: at[i] < |whole| && whole[at[i]] == a[i]
    ensures forall i, j | 0 <= i < j < |a| :: at[i] < at[j]
    decreases |whole|
  {
    if whole == [] {
      at := [];
    } else {
      var n := |whole| - 1;
      if a != [] && a[|a| - 1] == whole[n] && Interleaves(a[..|a| - 1], b, whole[..n]) {
        at := InterleavesOrder(a[..|a| - 1], b, whole[..n]);
        at := at + [n];
      } else {
        at := InterleavesOrder(a, b[..|b| - 1], whole[..n]);
      }
    }
  }

  lemma {:induction false} InterleavesCovers<T>(a: seq<T>, b: seq<T>, whole: seq<T>, x: T)
    requires Interleaves(a, b, whole)
    ensures x in whole <==> x in a || x in b
    decreases |whole|
  {
    if whole == [] {
    } else {
      var n := |whole| - 1;
      assert whole == whole[..n] + [whole[n]];
      if a != [] && a[|a| - 1] == whole[n] && Interleaves(a[..|a| - 1], b, whole[..n]) {
        assert a == a[..|a| - 1] + [whole[n]];
        InterleavesCovers(a[..|a| - 1], b, whole[..n], x);
      } else {
        assert b == b[..|b| - 1] + [whole[n]];
        InterleavesCovers(a, b[..|b| - 1], whole[..n], x);
      }
    }
  }

  /**
   Order and conservation: in every reachable state, what a subscriber received
   and still has queued, and what was dropped for it, interleave to exactly the
   broadcasts since it subscribed (up to its unsubscribe, and up to the one now
   under way if that has not visited it yet).
   */
  lemma TailConservation(s: State, c: ChanId)
    requires Reachable(s) && c in s.chans
    ensures |s.chans[c].received| + |s.chans[c].queue| + |s.chans[c].dropped| == |s.chans[c].offered|
    ensures Interleaves(Accepted(s.chans[c]), s.chans[c].dropped, s.chans[c].offered)
    ensures s.chans[c].start + |s.chans[c].offered| <= |s.broadcasts|
    ensures s.chans[c].offered == s.broadcasts[s.chans[c].start..][..|s.chans[c].offered|]
    ensures c in s.subs && c !in s.pending ==> s.chans[c].offered == s.broadcasts[s.chans[c].start..]
  {
    ReachableInv(s);
    assert ChanInv(s, c);
    InterleavesLength(Accepted(s.chans[c]), s.chans[c].dropped, s.chans[c].offered);
  }

  /** A send is lost exactly when 64 records are already waiting. */
  lemma DropsOnlyWhenFull(s: State, c: ChanId)
    requires Reachable(s) && Enabled(s, Offer(c))
    ensures s.ring.WellFormed()
    ensures Next(s, Offer(c)).chans[c].dropped != s.chans[c].dropped <==> |s.chans[c].queue| == 64
    ensures Next(s, Offer(c)).chans[c].offered == s.chans[c].offered + [s.holder.value]
  {
    ReachableInv(s);
    assert ChanInv(s, c);
  }

  /** In no state of the run does the channel hold a full buffer. */
  ghost predicate NeverFull(s: State, steps: seq<Step>, c: ChanId)
    requires Legal(s, steps)
    decreases |steps|
  {
    && (c in s.chans ==> |s.chans[c].queue| < 64)
    && (steps != [] ==> NeverFull(Next(s, steps[0]), steps[1..], c))
  }

  /** Over whole runs: a subscriber whose buffer is never full loses nothing. */
  lemma {:induction false} PromptReaderLosesNothing(s: State, steps: seq<Step>, c: ChanId)
    requires Legal(s, steps) && c in s.chans && NeverFull(s, steps, c)
    ensures c in Exec(s, steps).chans && Exec(s, steps).chans[c].dropped == s.chans[c].dropped
    decreases |steps|
  {
    if steps == [] {
    } else {
      PromptReaderLosesNothing(Next(s, steps[0]), steps[1..], c);
    }
  }

  /** No two subscribers see the same two records in opposite orders. */
  lemma SubscribersAgreeOnOrder(s: State, c1: ChanId, c2: ChanId, i: nat, j: nat, k: nat, l: nat)
    requires Reachable(s) && c1 in s.chans && c2 in s.chans
    requires i < j < |Accepted(s.chans[c1])| && k < |Accepted(s.chans[c2])| && l < |Accepted(s.chans[c2])|
    requires Accepted(s.chans[c1])[i] == Accepted(s.chans[c2])[k]
    requires Accepted(s.chans[c1])[j] == Accepted(s.chans[c2])[l]
    ensures k < l
  {
    ReachableInv(s);
    var at1 := AcceptedPositions(s, c1);
    var at2 := AcceptedPositions(s, c2);
    assert s.broadcasts[at1[i]] == s.broadcasts[at2[k]];
    assert s.broadcasts[at1[j]] == s.broadcasts[at2[l]];
    assert at1[i] == at2[k] && at1[j] == at2[l];
  }

  lemma AcceptedPositions(s: State, c: ChanId) returns (at: seq<nat>)
    requires Inv(s) && c in s.chans
    ensures |at| == |Accepted(s.chans[c])|
    ensures forall i | 0 <= i < |at| :: at[i] < |s.broadcasts| && s.broadcasts[at[i]] == Accepted(s.chans[c])[i]
    ensures forall i, j | 0 <= i < j < |at| :: at[i] < at[j]
  {
    var ch := s.chans[c];
    assert ChanInv(s, c);
    var inner := InterleavesOrder(Accepted(ch), ch.dropped, ch.offered);
    at := seq(|inner|, i requires 0 <= i < |inner| => ch.start + inner[i]);
  }

  // ---- the subscribe-then-snapshot handoff ------------------------------------

  /** What later steps never take back. */
  ghost predicate Extends(s: State, t: State) {
    && s.written <= t.written
    && s.broadcasts <= t.broadcasts
    && s.chans.Keys <= t.chans.Keys
    && |s.ring.items| == |t.ring.items|
    && forall c | c in s.chans :: t.chans[c].start == s.chans[c].start
  }

  lemma StepExtends(s: State, step: Step)
    requires s.ring.WellFormed() && Enabled(s, step)
    ensures Extends(s, Next(s, step))
  {
  }

  lemma ExtendsTransitive(s: State, t: State, u: State)
    requires Extends(s, t) && Extends(t, u)
    ensures Extends(s, u)
  {
  }

  lemma {:induction false} RunExtends(s: State, steps: seq<Step>)
    requires Inv(s) && Legal(s, steps)
    ensures Extends(s, Exec(s, steps))
    decreases |steps|
  {
    if steps == [] {
    } else {
      var t := Next(s, steps[0]);
      StepInv(s, steps[0]);
      StepExtends(s, steps[0]);
      RunExtends(t, steps[1..]);
      ExtendsTransitive(s, t, Exec(s, steps));
    }
  }

  /** The records a snapshot taken in state s returns. */
  function SnapshotAll(s: State): seq<PushId>
    requires s.ring.WellFormed()
  {
    Chronological(s.ring)
  }

  /**
   Gap-free handoff. A consumer is subscribed in state s and takes its snapshot
   there; `later` is any continuation in which it stays subscribed. Then every
   record p whose push has completed is accounted for: it is in the snapshot, it
   had already been overwritten by |capacity| newer records when the snapshot was
   taken, or it was offered to the channel after the subscribe and so is received,
   queued or dropped because the buffer was full.
   */
  lemma GapFreeHandoff(s: State, later: seq<Step>, c: ChanId, p: PushId)
    requires Reachable(s) && Legal(s, later)
    requires c in s.subs && c in Exec(s, later).subs
    requires p in Exec(s, later).phase && Exec(s, later).phase[p] == Done
    ensures s.ring.WellFormed() && c in Exec(s, later).chans
    ensures var ch := Exec(s, later).chans[c];
            || p in SnapshotAll(s)
            || (|s.written| > |s.ring.items| && p in s.written[..|s.written| - |s.ring.items|])
            || p in Accepted(ch)
            || p in ch.dropped
  {
    ReachableInv(s);
    RunInv(s, later);
    RunExtends(s, later);
    if p in s.written {
      WrittenOrOverwritten(s, p);
    } else {
      assert ChanInv(s, c) && ChanInv(Exec(s, later), c);
      LateRecordIsOffered(s, Exec(s, later), c, p);
    }
  }

  lemma WrittenOrOverwritten(s: State, p: PushId)
    requires Refines(s.ring, s.written) && p in s.written
    ensures || p in SnapshotAll(s)
            || (|s.written| > |s.ring.items| && p in s.written[..|s.written| - |s.ring.items|])
  {
    if |s.written| > |s.ring.items| {
      var cut := |s.written| - |s.ring.items|;
      assert s.written == s.written[..cut] + s.written[cut..];
    }
  }

  lemma LateRecordIsOffered(s: State, t: State, c: ChanId, p: PushId)
    requires LogInv(s) && LogInv(t) && LockInv(t) && Extends(s, t)
    requires c in s.subs && c in s.chans && ChanInv(s, c)
    requires c in t.subs && c in t.chans && ChanInv(t, c)
    requires p !in s.written && p in t.phase && t.phase[p] == Done
    ensures p in Accepted(t.chans[c]) || p in t.chans[c].dropped
  {
    assert p !in s.broadcasts && p in t.broadcasts;
    var k :| 0 <= k < |t.broadcasts| && t.broadcasts[k] == p;
    OfferedAt(s.chans[c], s.broadcasts, t.chans[c], t.broadcasts, c in s.pending, c in t.pending, k);
  }

  lemma OfferedAt(
      before: Chan, broadcasts0: seq<PushId>, ch: Chan, broadcasts: seq<PushId>, due0: bool, due: bool, k: nat)
    requires ChanOk(before, broadcasts0, true, due0) && ChanOk(ch, broadcasts, true, due)
    requires before.start == ch.start && broadcasts0 <= broadcasts
    requires k < |broadcasts| && broadcasts[k] !in broadcasts0 && (due ==> k < |broadcasts| - 1)
    ensures broadcasts[k] in Accepted(ch) || broadcasts[k] in ch.dropped
  {
    assert ch.offered[k - ch.start] == broadcasts[k];
    InterleavesCovers(Accepted(ch), ch.dropped, ch.offered, broadcasts[k]);
  }

  /** The order on the channel is the broadcast order, which two overlapping pushes may swap. */
  lemma RingAndTailOrderMayDiffer(items: seq<PushId>)
    requires items != []
    ensures exists s :: Reachable(s) && s.written == [0, 1] && s.broadcasts == [1, 0]
  {
    var s0 := Init(items);
    var steps := [WriteRing(0), WriteRing(1), BeginBroadcast(1), EndBroadcast, BeginBroadcast(0)];
    var s1 := Next(s0, steps[0]);
    var s2 := Next(s1, steps[1]);
    var s3 := Next(s2, steps[2]);
    var s4 := Next(s3, steps[3]);
    var s5 := Next(s4, steps[4]);
    assert Legal(s5, []);
    assert steps[4..] == [BeginBroadcast(0)] && steps[5..] == [];
    assert steps[4..][1..] == [] && Legal(s4, steps[4..]) && Exec(s4, steps[4..]) == s5;
    assert steps[3..][1..] == steps[4..] && Legal(s3, steps[3..]) && Exec(s3, steps[3..]) == s5;
    assert steps[2..][1..] == steps[3..] && Legal(s2, steps[2..]) && Exec(s2, steps[2..]) == s5;
    assert steps[1..][1..] == steps[2..] && Legal(s1, steps[1..]) && Exec(s1, steps[1..]) == s5;
    assert Legal(s0, steps) && Exec(s0, steps) == s5;
    assert Reachable(s5);
  }

  // ---- when the tail keeps the ring's order ----------------------------------------

  /** The next push to broadcast, in the order of the ring, is p. */
  predicate TurnOf(s: State, p: PushId) {
    |s.broadcasts| < |s.written| && s.written[|s.broadcasts|] == p
  }

  /** Beginning a broadcast keeps the ring's order exactly when it is that push's turn. */
  lemma BroadcastInOrderIff(s: State, p: PushId)
    requires LogInv(s) && s.broadcasts <= s.written && Enabled(s, BeginBroadcast(p))
    ensures Next(s, BeginBroadcast(p)).broadcasts <= s.written <==> TurnOf(s, p)
  {
    if s.broadcasts + [p] <= s.written {
      assert s.written[|s.broadcasts|] == (s.broadcasts + [p])[|s.broadcasts|];
    }
  }

  /** Each broadcast of the run begins with the push whose turn it is. */
  ghost predicate InTurn(s: State, steps: seq<Step>)
    requires Legal(s, steps)
    decreases |steps|
  {
    steps != [] ==>
      && (steps[0].BeginBroadcast? ==> TurnOf(s, steps[0].p))
      && InTurn(Next(s, steps[0]), steps[1..])
  }

  /** Later steps only extend the two logs, so a position where they differ never heals. */
  lemma DifferenceStays(s: State, t: State)
    requires Extends(s, t) && LogInv(s) && LogInv(t) && !(s.broadcasts <= s.written)
    ensures !(t.broadcasts <= t.written)
  {
    BroadcastsAreWritten(s);
  }

  /** Only written records are broadcast, each once. */
  lemma BroadcastsAreWritten(s: State)
    requires LogInv(s)
    ensures |s.broadcasts| <= |s.written|
  {
    DistinctCount(s.broadcasts);
    DistinctCount(s.written);
    forall p | p in Members(s.broadcasts) ensures p in Members(s.written) {
      assert p in s.phase;
    }
    SubsetCount(Members(s.broadcasts), Members(s.written));
  }

  function Members(xs: seq<PushId>): set<PushId> {
    set p | p in xs
  }

  lemma {:induction false} DistinctCount(xs: seq<PushId>)
    requires NoDup(xs)
    ensures |Members(xs)| == |xs|
  {
    if xs == [] {
    } else {
      var k := |xs| - 1;
      DistinctCount(xs[..k]);
      assert xs == xs[..k] + [xs[k]];
      assert Members(xs) == Members(xs[..k]) + {xs[k]};
    }
  }

  lemma SubsetCount(a: set<PushId>, b: set<PushId>)
    requires a <= b
    ensures |a| <= |b|
  {
    assert b == a + (b - a);
  }

  /** One step from states in ring order leaves it only by a broadcast out of turn. */
  lemma StepInOrderIff(s: State, step: Step)
    requires LogInv(s) && s.broadcasts <= s.written && Enabled(s, step)
    ensures Next(s, step).broadcasts <= Next(s, step).written <==> (step.BeginBroadcast? ==> TurnOf(s, step.p))
  {
    if step.BeginBroadcast? {
      BroadcastInOrderIff(s, step.p);
    }
  }

  lemma OutOfOrderForGood(s: State, steps: seq<Step>)
    requires Inv(s) && Legal(s, steps) && !(s.broadcasts <= s.written)
    ensures !(Exec(s, steps).broadcasts <= Exec(s, steps).written)
  {
    RunInv(s, steps);
    RunExtends(s, steps);
    DifferenceStays(s, Exec(s, steps));
  }

  /**
   The exact condition over whole runs: subscribers are served in the order the ring
   shows if and only if every broadcast was begun by the push whose turn it was.
   */
  lemma {:induction false} TailInRingOrderIff(s: State, steps: seq<Step>)
    requires Inv(s) && s.broadcasts <= s.written && Legal(s, steps)
    ensures Exec(s, steps).broadcasts <= Exec(s, steps).written <==> InTurn(s, steps)
    decreases |steps|
  {
    if steps == [] {
    } else {
      var t := Next(s, steps[0]);
      StepInv(s, steps[0]);
      StepInOrderIff(s, steps[0]);
      if t.broadcasts <= t.written {
        TailInRingOrderIff(t, steps[1..]);
      } else {
        OutOfOrderForGood(t, steps[1..]);
      }
    }
  }

  /** Then each subscriber sees its records in the ring's own order: at increasing positions of the write log. */
  lemma SubscriberSeesRingOrder(items: seq<PushId>, steps: seq<Step>, c: ChanId) returns (at: seq<nat>)
    requires items != [] && Legal(Init(items), steps) && InTurn(Init(items), steps)
    requires c in Exec(Init(items), steps).chans
    ensures var s := Exec(Init(items), steps);
            && |at| == |Accepted(s.chans[c])|
            && (forall i | 0 <= i < |at| :: at[i] < |s.written| && s.written[at[i]] == Accepted(s.chans[c])[i])
            && (forall i, j | 0 <= i < j < |at| :: at[i] < at[j])
  {
    InitInv(items);
    RunInv(Init(items), steps);
    TailInRingOrderIff(Init(items), steps);
    at := AcceptedPositions(Exec(Init(items), steps), c);
  }

  // ---- one pusher at a time ------------------------------------------------------

  ghost predicate Quiet(s: State) {
    forall p | p in s.phase :: s.phase[p] == Done
  }

  /** No push starts while another is between its ring write and the end of its broadcast. */
  ghost predicate OneAtATime(s: State, steps: seq<Step>)
    requires Legal(s, steps)
    decreases |steps|
  {
    steps != [] ==>
      && (steps[0].WriteRing? ==> Quiet(s))
      && OneAtATime(Next(s, steps[0]), steps[1..])
  }

  ghost predicate Settled(s: State) {
    s.written == s.broadcasts && forall p | p in s.phase :: s.phase[p] != Written
  }

  ghost predicate Waiting(s: State, q: PushId) {
    && s.written == s.broadcasts + [q]
    && q in s.phase && s.phase[q] == Written
    && forall p | p in s.phase && s.phase[p] == Written :: p == q
  }

  /** At most one record is in the ring and not yet broadcast, and it is the newest. */
  ghost predicate InOrder(s: State) {
    Settled(s) || exists q :: Waiting(s, q)
  }

  /** Pushes that do not overlap take their turns, so they are broadcast in the order they entered the ring. */
  lemma {:induction false} SequentialPushesKeepOrder(s: State, steps: seq<Step>)
    requires Inv(s) && InOrder(s) && Legal(s, steps) && OneAtATime(s, steps)
    ensures InTurn(s, steps)
    ensures Exec(s, steps).broadcasts <= Exec(s, steps).written
    decreases |steps|
  {
    if steps == [] {
    } else {
      StepInv(s, steps[0]);
      InOrderStep(s, steps[0]);
      SequentialPushesKeepOrder(Next(s, steps[0]), steps[1..]);
    }
    TailInRingOrderIff(s, steps);
  }

  lemma InOrderStep(s: State, step: Step)
    requires s.ring.WellFormed() && LockInv(s) && InOrder(s) && Enabled(s, step)
    requires step.WriteRing? ==> Quiet(s)
    ensures InOrder(Next(s, step))
    ensures step.BeginBroadcast? ==> TurnOf(s, step.p)
  {
    var t := Next(s, step);
    if Settled(s) {
      assert if step.WriteRing? then Waiting(t, step.p) else Settled(t);
    } else {
      var q :| Waiting(s, q);
      assert if step.BeginBroadcast? then Settled(t) else Waiting(t, q);
    }
  }
}
