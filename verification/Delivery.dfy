/** What the protocol guarantees over whole histories: at-least-once delivery, the
    shape of the fan-out, and the single firing of each acknowledgement. */
module Delivery {
  import opened Model
  import opened Protocol
  import T = Tumbling

  // ---- Counting finished managers ---------------------------------------------

  /** How many managers have finished envelope `p`. */
  function Finished(streams: seq<Stream>, p: nat): nat {
    if streams == [] then 0
    else Finished(streams[..|streams| - 1], p) + if streams[|streams| - 1].done > p then 1 else 0
  }

  lemma {:induction false} FinishedUpdate(streams: seq<Stream>, i: nat, st: Stream, p: nat)
    requires i < |streams|
    ensures Finished(streams[i := st], p)
         == Finished(streams, p) + (if st.done > p then 1 else 0) - (if streams[i].done > p then 1 else 0)
  {
    var n := |streams| - 1;
    if i == n {
      assert streams[i := st][..n] == streams[..n];
    } else {
      FinishedUpdate(streams[..n], i, st, p);
      assert streams[i := st][..n] == streams[..n][i := st];
    }
  }

  lemma {:induction false} AllFinishedIff(streams: seq<Stream>, p: nat)
    ensures Finished(streams, p) <= |streams|
    ensures Finished(streams, p) == |streams| <==> forall i | 0 <= i < |streams| :: streams[i].done > p
  {
    if streams == [] {
    } else {
      var n := |streams| - 1;
      AllFinishedIff(streams[..n], p);
      assert forall i | 0 <= i < n :: streams[..n][i] == streams[i];
    }
  }

  lemma {:induction false} NoneFinished(streams: seq<Stream>, p: nat)
    requires forall i | 0 <= i < |streams| :: streams[i].done <= p
    ensures Finished(streams, p) == 0
  {
    if streams == [] {
    } else {
      NoneFinished(streams[..|streams| - 1], p);
    }
  }

  // ---- The invariant of the whole ---------------------------------------------

  /** What each stream's channel has carried: everything taken, except that the last
      envelope has only reached the first streams. */
  ghost predicate FanOut(s: State) {
    && s.next <= |s.streams|
    && (s.next < |s.streams| ==> s.input != [])
    && forall i | 0 <= i < |s.streams| ::
         |s.streams[i].received| == if i < s.next || s.next == |s.streams| then |s.input| else |s.input| - 1
  }

  /** The barrier of an envelope: one count per unfinished manager, fired at zero. */
  ghost predicate BarrierOk(streams: seq<Stream>, env: Envelope, p: nat, left: int, fired: nat) {
    if env.ack.None? then fired == 0
    else left == |streams| - Finished(streams, p) && fired == if left == 0 then 1 else 0
  }

  ghost predicate Barriers(streams: seq<Stream>, input: seq<Envelope>, remaining: seq<int>, fired: seq<nat>) {
    && |input| == |remaining| == |fired|
    && forall p | 0 <= p < |input| :: BarrierOk(streams, input[p], p, remaining[p], fired[p])
  }

  /** A manager only runs the real callback of an envelope that all have finished. */
  ghost predicate CallbackOk(s: State, st: Stream) {
    st.pc.Marking? || st.pc.Acking? ==>
      && st.pc.p < |s.input| == |s.remaining|
      && s.input[st.pc.p].ack.Some? && s.remaining[st.pc.p] == 0
  }

  predicate EnvelopeOk(sys: System, env: Envelope) {
    env.ack.Some? ==> env.ack.value.msg in sys.broker && sys.broker[env.ack.value.msg] == Some(env.ev)
  }

  /** The event of a message is safe in every manager. */
  ghost predicate MessageSafe(sys: System, streams: seq<Stream>, msg: nat) {
    && msg in sys.broker && sys.broker[msg].Some?
    && forall i | 0 <= i < |streams| :: Safe(streams[i].mgr, sys.broker[msg].value)
  }

  /** A message is only dropped as a duplicate if its event is safe, and stays so. */
  ghost predicate HandlerOk(sys: System, streams: seq<Stream>, h: Handler) {
    match h
    case Sending(env) => EnvelopeOk(sys, env)
    case Dropping(msg) => MessageSafe(sys, streams, msg)
  }

  ghost predicate MemberOk(sys: System, s: State, i: nat)
    requires i < |s.streams| == |sys.managers|
  {
    && StreamOk(sys.managers[i], s.input, s.streams[i])
    && CallbackOk(s, s.streams[i])
    && s.streams[i].mgr.disk.Some? == sys.durable[i]
  }

  ghost predicate Consistent(sys: System, s: State) {
    && |s.streams| == |sys.managers|
    && (forall i | 0 <= i < |s.streams| :: MemberOk(sys, s, i))
    && FanOut(s)
    && Barriers(s.streams, s.input, s.remaining, s.fired)
    && (forall h | h in s.handlers :: HandlerOk(sys, s.streams, h))
    && (forall env | env in s.eventCh :: EnvelopeOk(sys, env))
    && (forall env | env in s.input :: EnvelopeOk(sys, env))
    && (forall msg | msg in s.seen :: MessageSafe(sys, s.streams, msg))
    && (forall msg | msg in s.acked :: MessageSafe(sys, s.streams, msg))
  }

  // ---- Preservation -----------------------------------------------------------

  lemma KeepsIsSafe(m: T.State, n: T.State, ev: Event)
    requires T.Inv(m) && T.Inv(n) && Keeps(m, n) && Safe(m, ev)
    ensures Safe(n, ev)
  {
    if m.disk.Some? {
      KeptIsSafe(m, ev);
      KeptIsSafe(n, ev);
    }
  }

  lemma MessageStaysSafe(sys: System, streams: seq<Stream>, i: nat, st: Stream, msg: nat)
    requires i < |streams| && MessageSafe(sys, streams, msg)
    requires T.Inv(streams[i].mgr) && T.Inv(st.mgr) && Keeps(streams[i].mgr, st.mgr)
    ensures MessageSafe(sys, streams[i := st], msg)
  {
    KeepsIsSafe(streams[i].mgr, st.mgr, sys.broker[msg].value);
  }

  /** An envelope that every manager has finished carries a safe message. */
  lemma FinishedIsSafe(sys: System, s: State, p: nat)
    requires Consistent(sys, s) && p < |s.input| && s.input[p].ack.Some? && s.remaining[p] == 0
    ensures MessageSafe(sys, s.streams, s.input[p].ack.value.msg)
  {
    assert BarrierOk(s.streams, s.input[p], p, s.remaining[p], s.fired[p]);
    AllFinishedIff(s.streams, p);
    assert EnvelopeOk(sys, s.input[p]);
    forall i | 0 <= i < |s.streams| ensures Safe(s.streams[i].mgr, s.input[p].ev) {
      assert MemberOk(sys, s, i);
      if s.streams[i].mgr.disk.Some? {
        KeptIsSafe(s.streams[i].mgr, s.input[p].ev);
      }
    }
  }

  /** A stream replaced by one that has finished as much leaves the barriers alone. */
  lemma BarriersStay(s: State, i: nat, st: Stream)
    requires i < |s.streams| && st.done == s.streams[i].done
    requires Barriers(s.streams, s.input, s.remaining, s.fired)
    ensures Barriers(s.streams[i := st], s.input, s.remaining, s.fired)
  {
    forall p | 0 <= p < |s.input| ensures BarrierOk(s.streams[i := st], s.input[p], p, s.remaining[p], s.fired[p]) {
      assert BarrierOk(s.streams, s.input[p], p, s.remaining[p], s.fired[p]);
      FinishedUpdate(s.streams, i, st, p);
    }
  }

  lemma MessagesStay(sys: System, s: State, i: nat, st: Stream)
    requires Consistent(sys, s) && i < |s.streams|
    requires T.Inv(st.mgr) && Keeps(s.streams[i].mgr, st.mgr)
    ensures forall msg | msg in s.seen :: MessageSafe(sys, s.streams[i := st], msg)
    ensures forall msg | msg in s.acked :: MessageSafe(sys, s.streams[i := st], msg)
    ensures forall h | h in s.handlers :: HandlerOk(sys, s.streams[i := st], h)
  {
    assert MemberOk(sys, s, i);
    forall h | h in s.handlers ensures HandlerOk(sys, s.streams[i := st], h) {
      assert HandlerOk(sys, s.streams, h);
      if h.Dropping? {
        MessageStaysSafe(sys, s.streams, i, st, h.msg);
      }
    }
    forall msg | msg in s.seen || msg in s.acked ensures MessageSafe(sys, s.streams[i := st], msg) {
      MessageStaysSafe(sys, s.streams, i, st, msg);
    }
  }

  /** Replacing one stream by one that keeps its promises and its counts. */
  lemma ReplaceStream(sys: System, s: State, i: nat, st: Stream)
    requires Consistent(sys, s) && i < |s.streams|
    requires StreamOk(sys.managers[i], s.input, st) && CallbackOk(s, st)
    requires st.done == s.streams[i].done && st.received == s.streams[i].received
    requires Keeps(s.streams[i].mgr, st.mgr)
    ensures Consistent(sys, s.(streams := s.streams[i := st]))
  {
    var t := s.(streams := s.streams[i := st]);
    BarriersStay(s, i, st);
    MessagesStay(sys, s, i, st);
    forall j | 0 <= j < |t.streams| ensures MemberOk(sys, t, j) {
      assert MemberOk(sys, s, j);
    }
  }

  lemma ManagerConsistent(sys: System, s: State, i: nat, step: Local)
    requires Consistent(sys, s) && Enabled(sys, s, Manager(i, step))
    ensures Consistent(sys, Apply(sys, s, Manager(i, step)))
  {
    var st := s.streams[i];
    assert MemberOk(sys, s, i);
    LocalOk(sys.managers[i], s.input, st, step);
    ReplaceStream(sys, s, i, LocalApply(sys.managers[i], s.input, st, step));
  }

  /** The seen and acknowledged sets may grow by a message that is safe. */
  lemma MessageAdded(sys: System, s: State, t: State, msg: nat)
    requires Consistent(sys, s) && MessageSafe(sys, s.streams, msg)
    requires t == s.(seen := t.seen, acked := t.acked)
    requires t.seen <= s.seen + {msg} && t.acked <= s.acked + {msg}
    ensures Consistent(sys, t)
  {
    forall j | 0 <= j < |t.streams| ensures MemberOk(sys, t, j) {
      assert MemberOk(sys, s, j);
    }
  }

  lemma MarkConsistent(sys: System, s: State, i: nat)
    requires Consistent(sys, s) && Enabled(sys, s, MarkSeen(i))
    ensures Consistent(sys, Apply(sys, s, MarkSeen(i)))
  {
    var p := s.streams[i].pc.p;
    assert MemberOk(sys, s, i);
    FinishedIsSafe(sys, s, p);
    var more := s.(seen := s.seen + {s.input[p].ack.value.msg});
    MessageAdded(sys, s, more, s.input[p].ack.value.msg);
    ReplaceStream(sys, more, i, s.streams[i].(pc := Acking(p)));
  }

  lemma BrokerAckConsistent(sys: System, s: State, i: nat)
    requires Consistent(sys, s) && Enabled(sys, s, BrokerAck(i))
    ensures Consistent(sys, Apply(sys, s, BrokerAck(i)))
  {
    var p := s.streams[i].pc.p;
    assert MemberOk(sys, s, i);
    FinishedIsSafe(sys, s, p);
    var more := s.(acked := s.acked + {s.input[p].ack.value.msg});
    MessageAdded(sys, s, more, s.input[p].ack.value.msg);
    ReplaceStream(sys, more, i, s.streams[i].(pc := Idle));
  }

  lemma TakeConsistent(sys: System, s: State)
    requires Consistent(sys, s) && Enabled(sys, s, Take)
    ensures Consistent(sys, Apply(sys, s, Take))
  {
    var t := Apply(sys, s, Take);
    var last := |s.input|;
    forall i | 0 <= i < |t.streams| ensures MemberOk(sys, t, i) {
      assert MemberOk(sys, s, i);
    }
    forall p | 0 <= p < |t.input| ensures BarrierOk(t.streams, t.input[p], p, t.remaining[p], t.fired[p]) {
      if p < last {
        assert BarrierOk(s.streams, s.input[p], p, s.remaining[p], s.fired[p]);
      } else {
        forall i | 0 <= i < |s.streams| ensures s.streams[i].done <= last {
          assert MemberOk(sys, s, i);
        }
        NoneFinished(t.streams, p);
      }
    }
    assert s.eventCh[0] in s.eventCh;
  }

  /** A channel takes the envelope that follows what it has carried. */
  lemma ReceivedOneMore(c: T.Config, input: seq<Envelope>, st: Stream)
    requires StreamOk(c, input, st) && |st.received| == |input| - 1
    ensures StreamOk(c, input, st.(queue := st.queue + [|input| - 1], received := st.received + [|input| - 1]))
  {
    var m := st.done + Busy(st.pc);
    assert (st.received + [|input| - 1])[m..] == st.received[m..] + [|input| - 1];
  }

  lemma ForwardConsistent(sys: System, s: State)
    requires Consistent(sys, s) && Enabled(sys, s, Forward)
    ensures Consistent(sys, Apply(sys, s, Forward))
  {
    var t := Apply(sys, s, Forward);
    var i, st := s.next, t.streams[s.next];
    assert MemberOk(sys, s, i);
    ReceivedOneMore(sys.managers[i], s.input, s.streams[i]);
    BarriersStay(s, i, st);
    MessagesStay(sys, s, i, st);
    forall j | 0 <= j < |t.streams| ensures MemberOk(sys, t, j) {
      assert MemberOk(sys, s, j);
    }
  }

  /** A stream that finishes an envelope takes one off its barrier, which fires at zero. */
  lemma BarrierCountsDown(streams: seq<Stream>, i: nat, st: Stream, env: Envelope, left: int, fired: nat)
    requires i < |streams| && st.done == streams[i].done + 1 && env.ack.Some?
    requires BarrierOk(streams, env, streams[i].done, left, fired)
    ensures left > 0
    ensures BarrierOk(streams[i := st], env, streams[i].done, left - 1, fired + if left == 1 then 1 else 0)
  {
    AllFinishedIff(streams, streams[i].done);
    FinishedUpdate(streams, i, st, streams[i].done);
  }

  /** ... and leaves the barrier of every other envelope as it is. */
  lemma BarrierIsOwn(streams: seq<Stream>, i: nat, st: Stream, env: Envelope, q: nat, left: int, fired: nat)
    requires i < |streams| && st.done == streams[i].done + 1 && (env.ack.None? || q != streams[i].done)
    requires BarrierOk(streams, env, q, left, fired)
    ensures BarrierOk(streams[i := st], env, q, left, fired)
  {
    FinishedUpdate(streams, i, st, q);
  }

  /** One more finished manager, one less on the barrier. */
  lemma CountDownBarriers(sys: System, s: State, i: nat)
    requires Consistent(sys, s) && Enabled(sys, s, ChildAck(i))
    ensures var t := CountDown(s, i); Barriers(t.streams, t.input, t.remaining, t.fired)
    ensures var p := s.streams[i].pc.p; s.input[p].ack.Some? ==> s.remaining[p] > 0
  {
    var t, p := CountDown(s, i), s.streams[i].pc.p;
    assert MemberOk(sys, s, i);
    var st := t.streams[i];
    assert t.streams == s.streams[i := st] && s.streams[i].done == p;
    forall q | 0 <= q < |t.input| ensures BarrierOk(t.streams, t.input[q], q, t.remaining[q], t.fired[q]) {
      assert BarrierOk(s.streams, s.input[q], q, s.remaining[q], s.fired[q]);
      if q == p && s.input[p].ack.Some? {
        BarrierCountsDown(s.streams, i, st, s.input[p], s.remaining[p], s.fired[p]);
      } else {
        BarrierIsOwn(s.streams, i, st, s.input[q], q, s.remaining[q], s.fired[q]);
      }
    }
    assert BarrierOk(s.streams, s.input[p], p, s.remaining[p], s.fired[p]);
    if s.input[p].ack.Some? {
      BarrierCountsDown(s.streams, i, st, s.input[p], s.remaining[p], s.fired[p]);
    }
  }

  lemma ChildAckSelf(sys: System, s: State, i: nat)
    requires Consistent(sys, s) && Enabled(sys, s, ChildAck(i))
    ensures MemberOk(sys, CountDown(s, i), i)
  {
    assert MemberOk(sys, s, i);
    CountDownBarriers(sys, s, i);
  }

  lemma ChildAckOther(sys: System, s: State, i: nat, j: nat)
    requires Consistent(sys, s) && Enabled(sys, s, ChildAck(i)) && j < |s.streams| && j != i
    ensures MemberOk(sys, CountDown(s, i), j)
  {
    assert MemberOk(sys, s, j);
    CountDownBarriers(sys, s, i);
    var t := CountDown(s, i);
    assert t.streams[j] == s.streams[j] && t.input == s.input;
    assert CallbackOk(t, t.streams[j]);
  }

  lemma ChildAckConsistent(sys: System, s: State, i: nat)
    requires Consistent(sys, s) && Enabled(sys, s, ChildAck(i))
    ensures Consistent(sys, Apply(sys, s, ChildAck(i)))
  {
    var t := CountDown(s, i);
    CountDownBarriers(sys, s, i);
    ChildAckSelf(sys, s, i);
    var st := t.streams[i];
    assert t.streams == s.streams[i := st] && st.mgr == s.streams[i].mgr;
    MessagesStay(sys, s, i, st);
    forall j | 0 <= j < |t.streams| ensures MemberOk(sys, t, j) {
      if j != i {
        ChildAckOther(sys, s, i, j);
      }
    }
    assert FanOut(t);
  }

  lemma RebootOk(sys: System, s: State, i: nat)
    requires Consistent(sys, s) && i < |s.streams|
    ensures StreamOk(sys.managers[i], [], Reboot(s.streams[i]))
    ensures sys.durable[i] ==> Reboot(s.streams[i]).mgr == s.streams[i].mgr
    ensures Reboot(s.streams[i]).mgr.disk.Some? == sys.durable[i] == s.streams[i].mgr.disk.Some?
  {
    assert MemberOk(sys, s, i);
    if s.streams[i].mgr.disk.Some? {
      T.RestartIsInvisible(s.streams[i].mgr);
    }
  }

  /** A crash loses every channel and every counter, and nothing that was promised. */
  lemma CrashConsistent(sys: System, s: State)
    requires Consistent(sys, s)
    ensures Consistent(sys, Apply(sys, s, Crash))
  {
    var t := Apply(sys, s, Crash);
    forall i | 0 <= i < |t.streams| ensures MemberOk(sys, t, i) {
      RebootOk(sys, s, i);
    }
    forall msg | msg in s.seen || msg in s.acked ensures MessageSafe(sys, t.streams, msg) {
      assert MessageSafe(sys, s.streams, msg);
      forall i | 0 <= i < |t.streams| ensures Safe(t.streams[i].mgr, sys.broker[msg].value) {
        RebootOk(sys, s, i);
      }
    }
  }

  /** Handlers, posts and expiries touch no manager. */
  lemma ArrivalConsistent(sys: System, s: State, t: State)
    requires Consistent(sys, s)
    requires t == s.(handlers := t.handlers, eventCh := t.eventCh, seen := t.seen, acked := t.acked)
    requires forall h | h in t.handlers :: HandlerOk(sys, s.streams, h)
    requires forall env | env in t.eventCh :: EnvelopeOk(sys, env)
    requires t.seen <= s.seen && forall msg | msg in t.acked :: MessageSafe(sys, s.streams, msg)
    ensures Consistent(sys, t)
  {
    forall j | 0 <= j < |t.streams| ensures MemberOk(sys, t, j) {
      assert MemberOk(sys, s, j);
    }
  }

  /** A handler that returns, whatever has been marked or expired since it looked. */
  lemma HandlerConsistent(sys: System, s: State, a: Action, j: nat)
    requires Consistent(sys, s) && Enabled(sys, s, a)
    requires a in {Enqueue(j), AckDuplicate(j), GiveUp(j)}
    ensures Consistent(sys, Apply(sys, s, a))
  {
    assert s.handlers[j] in s.handlers;
    assert HandlerOk(sys, s.streams, s.handlers[j]);
    ArrivalConsistent(sys, s, Apply(sys, s, a));
  }

  lemma StepConsistent(sys: System, s: State, a: Action)
    requires Consistent(sys, s) && Enabled(sys, s, a)
    ensures Consistent(sys, Apply(sys, s, a))
  {
    match a
    case Take => TakeConsistent(sys, s);
    case Forward => ForwardConsistent(sys, s);
    case Manager(i, step) => ManagerConsistent(sys, s, i, step);
    case ChildAck(i) => ChildAckConsistent(sys, s, i);
    case MarkSeen(i) => MarkConsistent(sys, s, i);
    case BrokerAck(i) => BrokerAckConsistent(sys, s, i);
    case Crash => CrashConsistent(sys, s);
    case Enqueue(j) => HandlerConsistent(sys, s, a, j);
    case AckDuplicate(j) => HandlerConsistent(sys, s, a, j);
    case GiveUp(j) => HandlerConsistent(sys, s, a, j);
    case _ => ArrivalConsistent(sys, s, Apply(sys, s, a));
  }

  lemma {:induction false} RunsAreConsistent(sys: System, h: History)
    requires Legal(sys, h)
    ensures Consistent(sys, Run(sys, h))
  {
    if h.Then? {
      RunsAreConsistent(sys, h.before);
      StepConsistent(sys, Run(sys, h.before), h.action);
    } else {
      var s := Booted(sys);
      forall i | 0 <= i < |s.streams| ensures MemberOk(sys, s, i) {
        T.FreshInv(sys.durable[i]);
      }
    }
  }

  // ---- The guarantees ---------------------------------------------------------

  /** At-least-once, end to end: in every history, whatever the interleaving and
      wherever the crashes, once a message is marked as seen or acknowledged to the
      broker, its event is in every manager with a store either in a stored open
      bucket or in a batch already handed downstream. So the broker may forget it,
      and a redelivery that is dropped as seen loses nothing. */
  lemma AtLeastOnce(sys: System, h: History, msg: nat, i: nat)
    requires Legal(sys, h) && i < |sys.managers| && sys.durable[i]
    requires msg in Run(sys, h).seen + Run(sys, h).acked
    ensures var s := Run(sys, h);
            && |s.streams| == |sys.managers| && msg in sys.broker && sys.broker[msg].Some?
            && var m, ev := s.streams[i].mgr, sys.broker[msg].value;
            m.disk.Some? && (Stored(m.disk.value.buckets, ev) || Emitted(m.out, ev))
  {
    RunsAreConsistent(sys, h);
    assert MemberOk(sys, Run(sys, h), i);
    assert MessageSafe(sys, Run(sys, h).streams, msg);
  }

  /** The fan-out: each stream has received a prefix of what was taken, the prefixes
      shrink along the streams, and differ by at most one envelope. */
  lemma FanOutPrefixes(sys: System, h: History)
    requires Legal(sys, h)
    ensures var s := Run(sys, h);
            && (forall i | 0 <= i < |s.streams| :: forall j | 0 <= j < |s.streams[i].received| ::
                  s.streams[i].received[j] == j < |s.input|)
            && (forall i, j | 0 <= i < j < |s.streams| ::
                  |s.streams[j].received| <= |s.streams[i].received| <= |s.streams[j].received| + 1)
  {
    RunsAreConsistent(sys, h);
    var s := Run(sys, h);
    forall i, j | 0 <= i < |s.streams| && 0 <= j < |s.streams[i].received|
      ensures s.streams[i].received[j] == j < |s.input|
    {
      assert MemberOk(sys, s, i);
    }
  }

  /** The barrier: an upstream callback fires at most once, and if and only if every
      manager has finished adding the event. */
  lemma AckFiresOnceAfterAll(sys: System, h: History, p: nat)
    requires Legal(sys, h) && p < |Run(sys, h).input| && Run(sys, h).input[p].ack.Some?
    ensures var s := Run(sys, h);
            && p < |s.fired| && s.fired[p] <= 1
            && (s.fired[p] == 1 <==> forall i | 0 <= i < |s.streams| :: s.streams[i].done > p)
  {
    RunsAreConsistent(sys, h);
    var s := Run(sys, h);
    assert BarrierOk(s.streams, s.input[p], p, s.remaining[p], s.fired[p]);
    AllFinishedIff(s.streams, p);
  }
}
