/** The single steps of a manager in the protocol never amount to anything but its
    operations: between two of them it is somewhere inside one add or one tick, and what
    it has done so far is a whole run. Refinement shows the other direction. */
module Operations {
  import opened Model
  import opened Protocol
  import T = Tumbling
  import R = Traces
  import D = Delivery

  // ---- Inside one operation ---------------------------------------------------

  ghost predicate HasSent(c: T.Config, m: T.State, now: int, order: seq<Key>, n: T.State) {
    T.TickAllowed(c, m, now, order, false) && n == T.Close(c, m, order)
  }

  ghost predicate IsSending(c: T.Config, m: T.State, now: int, order: seq<Key>, k: Key, n: T.State) {
    && T.TickAllowed(c, m, now, order, false)
    && k in T.Close(c, m, order).windows && T.Expired(c, m.maxTS, now, k)
    && n == T.Send(c, T.Close(c, m, order), k)
  }

  function Without(m: T.State, gone: set<Key>): T.State {
    m.(closed := m.closed - gone, disk := T.Deleted(m.disk, gone))
  }

  ghost predicate IsCollecting(c: T.Config, m: T.State, now: int, order: seq<Key>, gone: set<Key>, n: T.State) {
    && T.TickAllowed(c, m, now, order, true)
    && gone <= T.Due(c, T.Close(c, m, order), now)
    && n == Without(T.Close(c, m, order), gone)
  }

  /** A manager that was `m` when its operation began, or is, if it is in none. */
  ghost predicate UnderWay(c: T.Config, input: seq<Envelope>, m: T.State, st: Stream) {
    match st.pc
    case Advanced(p) => p < |input| && st.mgr == T.Advance(m, input[p].ev)
    case Placed(p) =>
      && p < |input| && T.Corrects(c, T.Advance(m, input[p].ev), T.KeyOf(c, input[p].ev))
      && st.mgr == T.Place(c, T.Advance(m, input[p].ev), input[p].ev)
    case Added(p) => p < |input| && st.mgr == T.AddEvent(c, m, input[p].ev)
    case Closing(now) => exists order :: HasSent(c, m, now, order, st.mgr)
    case Sent(now, k) => exists order :: IsSending(c, m, now, order, k, st.mgr)
    case Collecting(now) => exists order, gone :: IsCollecting(c, m, now, order, gone, st.mgr)
    case _ => st.mgr == m
  }

  /** A tick, whole or cut short, that leads from one state to the other. */
  ghost predicate TickLeads(c: T.Config, m: T.State, now: int, order: seq<Key>, complete: bool, n: T.State) {
    T.TickAllowed(c, m, now, order, complete) && n == T.TickWindows(c, m, now, order, complete)
  }

  lemma BeginIsUnderWay(c: T.Config, m: T.State, now: int)
    ensures HasSent(c, m, now, [], m)
  {
    T.CloseNone(c, m);
  }

  lemma SendIsUnderWay(c: T.Config, m: T.State, now: int, order: seq<Key>, k: Key, n: T.State)
    requires HasSent(c, m, now, order, n) && k in n.windows && T.Expired(c, n.maxTS, now, k)
    ensures IsSending(c, m, now, order, k, T.Send(c, n, k))
  {
  }

  lemma RetireIsUnderWay(c: T.Config, m: T.State, now: int, order: seq<Key>, k: Key, n: T.State)
    requires T.Inv(m) && IsSending(c, m, now, order, k, n) && k in n.windows
    ensures HasSent(c, m, now, order + [k], T.Retire(n, k))
  {
    T.CloseOneMore(c, m, order, k);
  }

  lemma EndClosingIsUnderWay(c: T.Config, m: T.State, now: int, order: seq<Key>, n: T.State)
    requires HasSent(c, m, now, order, n)
    requires forall k | k in n.windows :: !T.Expired(c, n.maxTS, now, k)
    ensures IsCollecting(c, m, now, order, {}, n)
  {
    T.DeleteNone(n.disk);
    assert n.closed - {} == n.closed;
    forall k | k in m.windows && T.Expired(c, m.maxTS, now, k) ensures k in order {
      assert k !in n.windows;
    }
  }

  lemma ForgetIsUnderWay(c: T.Config, m: T.State, now: int, order: seq<Key>, gone: set<Key>, n: T.State, k: Key)
    requires IsCollecting(c, m, now, order, gone, n) && k in n.closed && T.GcDue(c, n.maxTS, now, k)
    ensures IsCollecting(c, m, now, order, gone + {k}, T.Forget(n, k))
  {
    var closed := T.Close(c, m, order);
    T.DeleteOneMore(closed.disk, gone, k);
    T.MapMinusUnion(closed.closed, gone, {k});
  }

  lemma EndTickIsTick(c: T.Config, m: T.State, now: int, order: seq<Key>, gone: set<Key>, n: T.State)
    requires IsCollecting(c, m, now, order, gone, n)
    requires forall k | k in n.closed :: !T.GcDue(c, n.maxTS, now, k)
    ensures TickLeads(c, m, now, order, true, n)
  {
    var closed := T.Close(c, m, order);
    forall k | k in T.Due(c, closed, now) ensures k in gone {
      assert k !in n.closed;
    }
    assert gone == T.Due(c, closed, now);
  }

  lemma AddIsUnderWay(c: T.Config, input: seq<Envelope>, m: T.State, st: Stream, step: Local)
    requires UnderWay(c, input, m, st) && LocalEnabled(c, input, st, step)
    requires step.StartAdd? || step.PlaceEvent? || step.Correct?
    ensures UnderWay(c, input, m, LocalApply(c, input, st, step))
  {
  }

  /** Every step of a manager continues the operation it is in, or ends a tick. */
  lemma StepIsOfOperation(c: T.Config, input: seq<Envelope>, m: T.State, st: Stream, step: Local)
    returns (now: int, order: seq<Key>, complete: bool)
    requires T.Inv(m) && UnderWay(c, input, m, st) && LocalEnabled(c, input, st, step)
    ensures var t := LocalApply(c, input, st, step);
            if t.pc.Idle? then TickLeads(c, m, now, order, complete, t.mgr) else UnderWay(c, input, m, t)
  {
    now, order, complete := 0, [], false;
    match step
    case BeginTick(n) => BeginIsUnderWay(c, m, n);
    case SendWindow(k) =>
      order :| HasSent(c, m, st.pc.now, order, st.mgr);
      SendIsUnderWay(c, m, st.pc.now, order, k, st.mgr);
    case RetireWindow =>
      order :| IsSending(c, m, st.pc.now, order, st.pc.k, st.mgr);
      RetireIsUnderWay(c, m, st.pc.now, order, st.pc.k, st.mgr);
    case CancelTick =>
      now := st.pc.now;
      order :| HasSent(c, m, now, order, st.mgr);
    case EndClosing =>
      order :| HasSent(c, m, st.pc.now, order, st.mgr);
      EndClosingIsUnderWay(c, m, st.pc.now, order, st.mgr);
    case ForgetWindow(k) =>
      var gone;
      order, gone :| IsCollecting(c, m, st.pc.now, order, gone, st.mgr);
      ForgetIsUnderWay(c, m, st.pc.now, order, gone, st.mgr, k);
    case EndTick =>
      var gone;
      now, complete := st.pc.now, true;
      order, gone :| IsCollecting(c, m, now, order, gone, st.mgr);
      EndTickIsTick(c, m, now, order, gone, st.mgr);
    case _ => AddIsUnderWay(c, input, m, st, step);
  }

  // ---- Whole histories --------------------------------------------------------

  predicate BetweenOperations(pc: Pc) {
    pc.Idle? || pc.Marking? || pc.Acking?
  }

  /** If there are crashes, the manager has a store, and is in no operation then. */
  ghost predicate CrashesBetween(sys: System, h: History, i: nat)
    requires Legal(sys, h) && i < |sys.managers|
  {
    h.Then? ==>
      && CrashesBetween(sys, h.before, i)
      && (h.action.Crash? ==>
            var s := Run(sys, h.before);
            sys.durable[i] && i < |s.streams| && BetweenOperations(s.streams[i].pc))
  }

  /** The events the manager has finished, in all processes so far. */
  ghost function Finished(sys: System, h: History, i: nat): seq<Event>
    requires Legal(sys, h)
  {
    if h.Boot? then []
    else if h.action == ChildAck(i) then
      var s := Run(sys, h.before);
      Finished(sys, h.before, i) + [s.input[s.streams[i].pc.p].ev]
    else Finished(sys, h.before, i)
  }

  /** A whole run of the manager by itself, over the events it has finished, up to the
      operation it is in. */
  ghost predicate Explains(sys: System, h: History, i: nat, tr: R.Trace)
    requires Legal(sys, h) && i < |sys.managers|
  {
    && R.Legal(sys.managers[i], sys.durable[i], tr)
    && R.Inputs(tr) == Finished(sys, h, i)
    && i < |Run(sys, h).streams|
    && UnderWay(sys.managers[i], Run(sys, h).input, R.Run(sys.managers[i], sys.durable[i], tr), Run(sys, h).streams[i])
  }

  /** Input that is only added to leaves a manager where it is. */
  lemma MoreInput(c: T.Config, input: seq<Envelope>, env: Envelope, m: T.State, st: Stream)
    requires UnderWay(c, input, m, st)
    ensures UnderWay(c, input + [env], m, st)
  {
  }

  /** A step of the manager itself. */
  lemma LocalExplained(sys: System, h: History, i: nat, tr: R.Trace, step: Local) returns (more: R.Trace)
    requires Legal(sys, Then(h, Manager(i, step))) && i < |sys.managers| && Explains(sys, h, i, tr)
    ensures Explains(sys, Then(h, Manager(i, step)), i, more)
  {
    var c, s := sys.managers[i], Run(sys, h);
    var m := R.Run(c, sys.durable[i], tr);
    R.InvHolds(c, sys.durable[i], tr);
    var now, order, complete := StepIsOfOperation(c, s.input, m, s.streams[i], step);
    if LocalApply(c, s.input, s.streams[i], step).pc.Idle? {
      more := R.After(tr, R.Tick(now, order, complete));
      assert R.Run(c, sys.durable[i], more) == T.TickWindows(c, m, now, order, complete);
    } else {
      more := tr;
    }
  }

  /** Its callback: the add is over. */
  lemma CallbackExplained(sys: System, h: History, i: nat, tr: R.Trace) returns (more: R.Trace)
    requires Legal(sys, Then(h, ChildAck(i))) && i < |sys.managers| && Explains(sys, h, i, tr)
    ensures Explains(sys, Then(h, ChildAck(i)), i, more)
  {
    var s := Run(sys, h);
    var ev := s.input[s.streams[i].pc.p].ev;
    more := R.After(tr, R.Add(ev));
    assert R.Run(sys.managers[i], sys.durable[i], more) == s.streams[i].mgr;
  }

  /** A crash between operations. */
  lemma CrashExplained(sys: System, h: History, i: nat, tr: R.Trace) returns (more: R.Trace)
    requires Legal(sys, h) && i < |sys.managers| && Explains(sys, h, i, tr)
    requires sys.durable[i] && BetweenOperations(Run(sys, h).streams[i].pc)
    ensures Explains(sys, Then(h, Crash), i, more)
  {
    more := R.After(tr, R.Crash);
    R.InvHolds(sys.managers[i], sys.durable[i], tr);
    assert R.Run(sys.managers[i], sys.durable[i], more) == T.Restart(R.Run(sys.managers[i], sys.durable[i], tr));
  }

  /** Steps of others leave a manager's state, and at most end its callback. */
  lemma OthersLeave(sys: System, s: State, a: Action, i: nat)
    requires Enabled(sys, s, a) && i < |s.streams| && !a.Crash? && !(a.Manager? && a.i == i) && a != ChildAck(i)
    ensures var t := Apply(sys, s, a);
            && i < |t.streams| && t.streams[i].mgr == s.streams[i].mgr
            && (t.streams[i].pc == s.streams[i].pc
                || (BetweenOperations(s.streams[i].pc) && BetweenOperations(t.streams[i].pc)))
            && t.input == if a.Take? then s.input + [s.eventCh[0]] else s.input
  {
  }

  lemma SameUnderWay(c: T.Config, input: seq<Envelope>, m: T.State, st: Stream, u: Stream)
    requires UnderWay(c, input, m, st) && u.mgr == st.mgr
    requires u.pc == st.pc || (BetweenOperations(st.pc) && BetweenOperations(u.pc))
    ensures UnderWay(c, input, m, u)
  {
  }

  lemma OthersExplained(sys: System, h: History, i: nat, tr: R.Trace, a: Action)
    requires Legal(sys, Then(h, a)) && i < |sys.managers| && Explains(sys, h, i, tr)
    requires !a.Crash? && !(a.Manager? && a.i == i) && a != ChildAck(i)
    ensures Explains(sys, Then(h, a), i, tr)
  {
    var s := Run(sys, h);
    var c, m := sys.managers[i], R.Run(sys.managers[i], sys.durable[i], tr);
    OthersLeave(sys, s, a, i);
    if a.Take? {
      MoreInput(c, s.input, s.eventCh[0], m, s.streams[i]);
    }
    SameUnderWay(c, Apply(sys, s, a).input, m, s.streams[i], Apply(sys, s, a).streams[i]);
  }

  /** Whatever the interleaving, every manager of the protocol has gone through a whole run
      by itself, over exactly the events it has finished, in the order of the input; and
      what it is doing since is part of one add or one tick. So what holds of whole runs
      holds of it. */
  lemma {:induction false} HistoriesAreRuns(sys: System, h: History, i: nat) returns (tr: R.Trace)
    requires Legal(sys, h) && i < |sys.managers| && CrashesBetween(sys, h, i)
    ensures Explains(sys, h, i, tr)
  {
    if h.Boot? {
      tr := R.Start;
    } else {
      tr := HistoriesAreRuns(sys, h.before, i);
      if h.action.Manager? && h.action.i == i {
        tr := LocalExplained(sys, h.before, i, tr, h.action.step);
      } else if h.action == ChildAck(i) {
        tr := CallbackExplained(sys, h.before, i, tr);
      } else if h.action.Crash? {
        tr := CrashExplained(sys, h.before, i, tr);
      } else {
        OthersExplained(sys, h.before, i, tr, h.action);
      }
    }
  }

  predicate NoCrash(h: History) {
    h.Then? ==> NoCrash(h.before) && !h.action.Crash?
  }

  /** A step finishes one envelope of a manager, the next one, or none. */
  lemma StepFinishes(sys: System, s: State, a: Action, i: nat)
    requires D.Consistent(sys, s) && Enabled(sys, s, a) && !a.Crash? && i < |s.streams|
    ensures var t := Apply(sys, s, a);
            && |t.streams| == |s.streams| && s.input <= t.input
            && t.streams[i].done == s.streams[i].done + if a == ChildAck(i) then 1 else 0
    ensures a == ChildAck(i) ==> s.streams[i].pc.p == s.streams[i].done < |s.input|
  {
    assert D.MemberOk(sys, s, i);
  }

  /** In one process, what a manager has finished is a prefix of what the fan-out took: so
      all managers go through the same events in the same order. */
  lemma {:induction false} FinishedIsPrefix(sys: System, h: History, i: nat)
    requires Legal(sys, h) && i < |sys.managers| && NoCrash(h)
    ensures var s := Run(sys, h);
            && i < |s.streams| && s.streams[i].done == |Finished(sys, h, i)| <= |s.input|
            && forall p | 0 <= p < |Finished(sys, h, i)| :: Finished(sys, h, i)[p] == s.input[p].ev
  {
    if h.Boot? {
    } else {
      FinishedIsPrefix(sys, h.before, i);
      D.RunsAreConsistent(sys, h.before);
      StepFinishes(sys, Run(sys, h.before), h.action, i);
    }
  }
}
