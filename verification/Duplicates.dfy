/** What the seen entries are for: a message that was marked is not taken a second time,
    and a message is marked before it is acknowledged. And that a message can always get
    through. */
module Duplicates {
  import opened Model
  import opened Protocol
  import T = Tumbling

  predicate Carries(env: Envelope, msg: nat) {
    env.ack.Some? && env.ack.value.msg == msg
  }

  // ---- No message is taken after it was marked --------------------------------

  /** No handler is about to enqueue the message, and no envelope of it is queued. */
  ghost predicate NoneInFlight(s: State, msg: nat) {
    && (forall h | h in s.handlers && h.Sending? :: !Carries(h.env, msg))
    && (forall env | env in s.eventCh :: !Carries(env, msg))
  }

  /** How often the fan-out has taken the message, in all processes so far. */
  ghost function TimesTaken(sys: System, h: History, msg: nat): nat
    requires Legal(sys, h)
  {
    if h.Boot? then 0
    else TimesTaken(sys, h.before, msg)
         + if h.action.Take? && Carries(Run(sys, h.before).eventCh[0], msg) then 1 else 0
  }

  /** `more` continues `h`, its mark does not expire, and every delivery of the message
      has an id to look up. */
  predicate Remembered(h: History, more: History, msg: nat) {
    h == more
    || (more.Then? && Remembered(h, more.before, msg)
        && more.action != ExpireSeen(msg) && more.action != Deliver(msg, false))
  }

  lemma StepDropsDuplicates(sys: System, s: State, a: Action, msg: nat)
    requires Enabled(sys, s, a) && msg in s.seen && NoneInFlight(s, msg)
    requires a != ExpireSeen(msg) && a != Deliver(msg, false)
    ensures msg in Apply(sys, s, a).seen && NoneInFlight(Apply(sys, s, a), msg)
    ensures a.Take? ==> !Carries(s.eventCh[0], msg)
  {
    if a.Take? {
      assert s.eventCh[0] in s.eventCh;
    } else if a.Enqueue? {
      assert s.handlers[a.j] in s.handlers;
    }
  }

  /** Deduplication: once a message is marked, and no copy of it is on its way, it is never
      taken again until the mark expires, whatever the broker redelivers, whatever the
      interleaving, and wherever the crashes. */
  lemma {:induction false} MarkedMessageIsNotTakenAgain(sys: System, h: History, more: History, msg: nat)
    requires Legal(sys, h) && Legal(sys, more) && Remembered(h, more, msg)
    requires msg in Run(sys, h).seen && NoneInFlight(Run(sys, h), msg)
    ensures msg in Run(sys, more).seen && NoneInFlight(Run(sys, more), msg)
    ensures TimesTaken(sys, more, msg) == TimesTaken(sys, h, msg)
  {
    if h == more {
    } else {
      MarkedMessageIsNotTakenAgain(sys, h, more.before, msg);
      StepDropsDuplicates(sys, Run(sys, more.before), more.action, msg);
    }
  }

  /** A redelivery of a marked message can be acknowledged at once, and changes nothing
      else. */
  lemma DuplicateIsAcknowledged(sys: System, h: History, msg: nat)
    requires Legal(sys, h) && msg in sys.broker && msg in Run(sys, h).seen
    ensures var s, more := Run(sys, h), Then(Then(h, Deliver(msg, true)), AckDuplicate(|Run(sys, h).handlers|));
            Legal(sys, more) && Run(sys, more) == s.(acked := s.acked + {msg})
  {
    var s := Run(sys, h);
    assert (s.handlers + [Dropping(msg)])[..|s.handlers|] + (s.handlers + [Dropping(msg)])[|s.handlers| + 1..] == s.handlers;
  }

  // ---- A message is marked before it is acknowledged --------------------------

  /** Every delivery of the message so far had an id to look up, and no mark expired. */
  predicate AlwaysTagged(h: History, msg: nat) {
    h.Then? ==> AlwaysTagged(h.before, msg) && h.action != ExpireSeen(msg) && h.action != Deliver(msg, false)
  }

  predicate TaggedIfCarried(env: Envelope, msg: nat) {
    Carries(env, msg) ==> env.ack.value.tagged
  }

  ghost predicate MarksFirst(s: State, msg: nat) {
    && (forall h | h in s.handlers :: if h.Sending? then TaggedIfCarried(h.env, msg) else h.msg == msg ==> msg in s.seen)
    && (forall env | env in s.eventCh :: TaggedIfCarried(env, msg))
    && (forall env | env in s.input :: TaggedIfCarried(env, msg))
    && (forall i | 0 <= i < |s.streams| :: AcksMarked(s, s.streams[i].pc, msg))
    && (msg in s.acked ==> msg in s.seen)
  }

  predicate AcksMarked(s: State, pc: Pc, msg: nat) {
    pc.Acking? ==> pc.p < |s.input| && (Carries(s.input[pc.p], msg) ==> msg in s.seen)
  }

  lemma CountDownMarksFirst(s: State, i: nat, msg: nat)
    requires MarksFirst(s, msg)
    requires i < |s.streams| && s.streams[i].pc.Added? && s.streams[i].pc.p < |s.input| == |s.remaining| == |s.fired|
    ensures MarksFirst(CountDown(s, i), msg)
  {
    var t := CountDown(s, i);
    assert s.input[s.streams[i].pc.p] in s.input;
    forall j | 0 <= j < |t.streams| ensures AcksMarked(t, t.streams[j].pc, msg) {
      assert AcksMarked(s, s.streams[j].pc, msg);
    }
  }

  /** Steps that change the goroutine of one manager only, not into acknowledging. */
  lemma ManagerMarksFirst(sys: System, s: State, i: nat, step: Local, msg: nat)
    requires MarksFirst(s, msg) && Enabled(sys, s, Manager(i, step))
    ensures MarksFirst(Apply(sys, s, Manager(i, step)), msg)
  {
    var t := Apply(sys, s, Manager(i, step));
    forall j | 0 <= j < |t.streams| ensures AcksMarked(t, t.streams[j].pc, msg) {
      assert AcksMarked(s, s.streams[j].pc, msg);
    }
  }

  lemma AckMarksFirst(sys: System, s: State, a: Action, msg: nat)
    requires MarksFirst(s, msg) && Enabled(sys, s, a) && (a.MarkSeen? || a.BrokerAck?)
    ensures MarksFirst(Apply(sys, s, a), msg)
  {
    var t := Apply(sys, s, a);
    assert AcksMarked(s, s.streams[a.i].pc, msg);
    forall j | 0 <= j < |t.streams| ensures AcksMarked(t, t.streams[j].pc, msg) {
      assert AcksMarked(s, s.streams[j].pc, msg);
    }
  }

  /** Steps between the broker and the channels. */
  lemma ChannelMarksFirst(sys: System, s: State, a: Action, msg: nat)
    requires Enabled(sys, s, a) && MarksFirst(s, msg)
    requires a != ExpireSeen(msg) && a != Deliver(msg, false)
    requires !a.Manager? && !a.ChildAck? && !a.MarkSeen? && !a.BrokerAck?
    ensures MarksFirst(Apply(sys, s, a), msg)
  {
    var t := Apply(sys, s, a);
    if a.Take? {
      assert s.eventCh[0] in s.eventCh;
    } else if a.Enqueue? || a.AckDuplicate? {
      assert s.handlers[a.j] in s.handlers;
    }
    forall j | 0 <= j < |t.streams| ensures AcksMarked(t, t.streams[j].pc, msg) {
      assert a.Crash? || AcksMarked(s, s.streams[j].pc, msg);
    }
  }

  /** A message whose deliveries all have ids, and whose mark does not expire, is marked
      as seen before it is acknowledged, in every history: the redelivery that a crash in
      between costs is dropped. */
  lemma {:induction false} MarkedBeforeAcked(sys: System, h: History, msg: nat)
    requires Legal(sys, h) && AlwaysTagged(h, msg)
    ensures MarksFirst(Run(sys, h), msg)
    ensures msg in Run(sys, h).acked ==> msg in Run(sys, h).seen
  {
    if h.Boot? {
    } else {
      MarkedBeforeAcked(sys, h.before, msg);
      var s, a := Run(sys, h.before), h.action;
      if a.Manager? {
        ManagerMarksFirst(sys, s, a.i, a.step, msg);
      } else if a.ChildAck? {
        CountDownMarksFirst(s, a.i, msg);
      } else if a.MarkSeen? || a.BrokerAck? {
        AckMarksFirst(sys, s, a, msg);
      } else {
        ChannelMarksFirst(sys, s, a, msg);
      }
    }
  }

  // ---- A message can always get through ---------------------------------------

  /** A history and the state it leads to. */
  ghost predicate At(sys: System, h: History, s: State) {
    Legal(sys, h) && Run(sys, h) == s
  }

  predicate Follows(h: History, more: History) {
    h == more || (more.Then? && Follows(h, more.before))
  }

  lemma Next(sys: System, start: History, h: History, s: State, a: Action)
    requires At(sys, h, s) && Follows(start, h) && Enabled(sys, s, a)
    ensures At(sys, Then(h, a), Apply(sys, s, a)) && Follows(start, Then(h, a))
  {
  }

  /** Right after a crash. */
  ghost predicate Empty(sys: System, s: State) {
    && |s.streams| == |sys.managers| == s.next && s.handlers == [] && s.eventCh == []
    && s.input == [] && s.remaining == [] && s.fired == []
    && forall i | 0 <= i < |s.streams| :: s.streams[i].pc == Idle && s.streams[i].queue == []
  }

  /** The one envelope has reached the first `m` managers. */
  ghost predicate Spreading(sys: System, s: State, env: Envelope, m: nat) {
    && |s.streams| == |sys.managers| && s.next == m <= |s.streams|
    && s.input == [env] && s.remaining == [|s.streams|] && |s.fired| == 1
    && forall i | 0 <= i < |s.streams| :: s.streams[i].pc == Idle && s.streams[i].queue == if i < m then [0] else []
  }

  /** The first `m` managers, not all of them, have finished with it. */
  ghost predicate Finishing(sys: System, s: State, env: Envelope, m: nat) {
    && |s.streams| == |sys.managers| && m < |s.streams|
    && s.input == [env] && s.remaining == [|s.streams| - m] && |s.fired| == 1
    && forall i | m <= i < |s.streams| :: s.streams[i].pc == Idle && s.streams[i].queue == [0]
  }

  lemma {:induction false} Spread(sys: System, start: History, h: History, s: State, env: Envelope, m: nat)
    returns (more: History, t: State)
    requires At(sys, h, s) && Follows(start, h) && Spreading(sys, s, env, m)
    ensures At(sys, more, t) && Follows(start, more) && Spreading(sys, t, env, |t.streams|)
    decreases |s.streams| - m
  {
    if m == |s.streams| {
      more, t := h, s;
    } else {
      Next(sys, start, h, s, Forward);
      more, t := Spread(sys, start, Then(h, Forward), Apply(sys, s, Forward), env, m + 1);
    }
  }

  /** One manager adds the event, in two or three steps, but has not called back yet. */
  lemma AddOne(sys: System, start: History, h: History, s: State, env: Envelope, m: nat)
    returns (more: History, t: State)
    requires At(sys, h, s) && Follows(start, h) && Finishing(sys, s, env, m)
    ensures At(sys, more, t) && Follows(start, more)
    ensures |t.streams| == |s.streams| && t.streams[m].pc == Added(0) && t == s.(streams := s.streams[m := t.streams[m]])
  {
    var c, ev := sys.managers[m], env.ev;
    Next(sys, start, h, s, Manager(m, StartAdd));
    more, t := Then(h, Manager(m, StartAdd)), Apply(sys, s, Manager(m, StartAdd));
    Next(sys, start, more, t, Manager(m, PlaceEvent));
    var before := t.streams[m].mgr;
    more, t := Then(more, Manager(m, PlaceEvent)), Apply(sys, t, Manager(m, PlaceEvent));
    if T.Corrects(c, before, T.KeyOf(c, ev)) {
      Next(sys, start, more, t, Manager(m, Correct));
      more, t := Then(more, Manager(m, Correct)), Apply(sys, t, Manager(m, Correct));
    }
  }

  /** The remaining managers finish, and the last one holds the real callback. */
  lemma {:induction false} Finish(sys: System, start: History, h: History, s: State, env: Envelope, m: nat)
    returns (more: History, t: State, i: nat)
    requires At(sys, h, s) && Follows(start, h) && Finishing(sys, s, env, m) && env.ack.Some?
    ensures At(sys, more, t) && Follows(start, more)
    ensures t.input == [env] && i < |t.streams|
    ensures t.streams[i].pc == if env.ack.value.tagged then Marking(0) else Acking(0)
    decreases |s.streams| - m
  {
    var u;
    more, u := AddOne(sys, start, h, s, env, m);
    Next(sys, start, more, u, ChildAck(m));
    FinishOne(sys, s, u, env, m);
    more, t, i := Then(more, ChildAck(m)), CountDown(u, m), m;
    if m + 1 == |s.streams| {
    } else {
      more, t, i := Finish(sys, start, more, t, env, m + 1);
    }
  }

  /** The callback of one manager. */
  lemma FinishOne(sys: System, s: State, u: State, env: Envelope, m: nat)
    requires Finishing(sys, s, env, m) && env.ack.Some?
    requires |u.streams| == |s.streams| && u.streams[m].pc == Added(0) && u == s.(streams := s.streams[m := u.streams[m]])
    ensures var t := CountDown(u, m);
            && t.input == [env] && |t.streams| == |s.streams|
            && if m + 1 == |s.streams| then t.streams[m].pc == if env.ack.value.tagged then Marking(0) else Acking(0)
               else Finishing(sys, t, env, m + 1)
  {
  }

  /** The real callback runs. */
  lemma Acknowledge(sys: System, start: History, h: History, s: State, env: Envelope, i: nat) returns (more: History)
    requires At(sys, h, s) && Follows(start, h) && s.input == [env] && env.ack.Some? && i < |s.streams|
    requires s.streams[i].pc == if env.ack.value.tagged then Marking(0) else Acking(0)
    ensures Legal(sys, more) && Follows(start, more) && env.ack.value.msg in Run(sys, more).acked
    ensures env.ack.value.tagged ==> env.ack.value.msg in Run(sys, more).seen
  {
    var t := s;
    more := h;
    if env.ack.value.tagged {
      Next(sys, start, more, t, MarkSeen(i));
      more, t := Then(more, MarkSeen(i)), Apply(sys, t, MarkSeen(i));
    }
    Next(sys, start, more, t, BrokerAck(i));
    more := Then(more, BrokerAck(i));
  }

  /** The fan-out takes a new message of an empty process. */
  lemma TakeOne(sys: System, start: History, h: History, s: State, msg: nat, tagged: bool)
    returns (more: History, t: State, env: Envelope)
    requires At(sys, h, s) && Follows(start, h) && Empty(sys, s)
    requires msg in sys.broker && sys.broker[msg].Some? && !(tagged && msg in s.seen)
    ensures env == Envelope(sys.broker[msg].value, Some(Ack(msg, tagged)))
    ensures At(sys, more, t) && Follows(start, more) && Spreading(sys, t, env, 0)
  {
    env := Envelope(sys.broker[msg].value, Some(Ack(msg, tagged)));
    Next(sys, start, h, s, Deliver(msg, tagged));
    more, t := Then(h, Deliver(msg, tagged)), s.(handlers := [Sending(env)]);
    assert At(sys, more, t);
    Next(sys, start, more, t, Enqueue(0));
    more, t := Then(more, Enqueue(0)), s.(eventCh := [env]);
    assert At(sys, more, t);
    Next(sys, start, more, t, Take);
    more, t := Then(more, Take), Apply(sys, t, Take);
  }

  /** After every history, however bad, each message that decodes can still get through:
      there is a continuation in which it is acknowledged, and marked if it has an id. At
      worst it takes a crash and a redelivery. */
  lemma MessageCanGetThrough(sys: System, h: History, msg: nat, tagged: bool) returns (more: History)
    requires Legal(sys, h) && msg in sys.broker && sys.broker[msg].Some?
    ensures Legal(sys, more) && Follows(h, more) && msg in Run(sys, more).acked
    ensures tagged ==> msg in Run(sys, more).seen
  {
    StreamCount(sys, h);
    Next(sys, h, h, Run(sys, h), Crash);
    more := Then(h, Crash);
    var t := Run(sys, more);
    if tagged && msg in t.seen {
      DuplicateIsAcknowledged(sys, more, msg);
      more := Then(Then(more, Deliver(msg, true)), AckDuplicate(|t.handlers|));
    } else {
      var env, i;
      more, t, env := TakeOne(sys, h, more, t, msg, tagged);
      more, t := Spread(sys, h, more, t, env, 0);
      more, t, i := Finish(sys, h, more, t, env, 0);
      more := Acknowledge(sys, h, more, t, env, i);
    }
  }

  lemma {:induction false} StreamCount(sys: System, h: History)
    requires Legal(sys, h)
    ensures |Run(sys, h).streams| == |sys.managers|
  {
    if h.Boot? {
    } else {
      StreamCount(sys, h.before);
    }
  }
}
