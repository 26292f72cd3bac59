/** The acknowledgement protocol, from the broker through the fan-out to the window
    managers and back (internal/ingester/nats.go, internal/engine/engine.go and
    internal/window/tumbling.go), as a state machine whose steps are single channel
    operations and single store writes. A crash may come between any two of them. */
module Protocol {
  import opened Model
  import T = Tumbling

  // ---- State ------------------------------------------------------------------

  /** The window managers, which of them have a store, and the broker's messages: what
      each decodes to, if it does. The broker may deliver any message at any time, any
      number of times. */
  datatype Setup = Setup(managers: seq<T.Config>, durable: seq<bool>, broker: map<nat, Option<Event>>)

  /** The engine runs at least one manager. */
  type System = sys: Setup | |sys.managers| == |sys.durable| > 0
    witness Setup([T.Settings(1, 0, [])], [false], map[])

  /** The callback an envelope carries. `tagged`: the delivery had an id and there is
      a deduper, so the callback marks the message before acknowledging it. */
  datatype Ack = Ack(msg: nat, tagged: bool)

  datatype Envelope = Envelope(ev: Event, ack: Option<Ack>)

  /** A delivery whose handler has looked the message up: blocked on the channel with an
      envelope, or about to acknowledge a duplicate. */
  datatype Handler = Sending(env: Envelope) | Dropping(msg: nat)

  /** Where a manager's goroutine stands. Envelopes are named by their position among
      those the fan-out has taken. */
  datatype Pc =
    | Idle
    | Advanced(p: nat)
    | Placed(p: nat)
    | Added(p: nat)
    | Marking(p: nat)
    | Acking(p: nat)
    | Closing(now: int)
    | Sent(now: int, k: Key)
    | Collecting(now: int)

  /** One manager: its state, the channel into it, and two records, what the channel
      ever carried and how many envelopes the manager has finished. */
  datatype Stream = Stream(mgr: T.State, queue: seq<nat>, pc: Pc, received: seq<nat>, done: nat)

  /** `input` is what the fan-out has taken, and `next` the stream it sends the last of
      it to next. `remaining` and `fired` belong to the barrier of each envelope. `seen`
      and `acked` outlive the process, as do the managers' stores. */
  datatype State = State(
    streams: seq<Stream>,
    handlers: seq<Handler>,
    eventCh: seq<Envelope>,
    input: seq<Envelope>,
    next: nat,
    remaining: seq<int>,
    fired: seq<nat>,
    seen: set<nat>,
    acked: set<nat>)

  // ---- Steps ------------------------------------------------------------------

  /** The steps a manager takes on its own state and channel. */
  datatype Local =
    | StartAdd
    | PlaceEvent
    | Correct
    | BeginTick(now: int)
    | SendWindow(k: Key)
    | RetireWindow
    | CancelTick
    | EndClosing
    | ForgetWindow(k: Key)
    | EndTick

  datatype Action =
    | Deliver(msg: nat, tagged: bool)
    | Enqueue(j: nat)
    | AckDuplicate(j: nat)
    | GiveUp(j: nat)
    | Post(ev: Event)
    | Take
    | Forward
    | Manager(i: nat, step: Local)
    | ChildAck(i: nat)
    | MarkSeen(i: nat)
    | BrokerAck(i: nat)
    | ExpireSeen(msg: nat)
    | Crash

  ghost predicate LocalEnabled(c: T.Config, input: seq<Envelope>, st: Stream, step: Local) {
    match step
    case StartAdd => st.pc.Idle? && st.queue != [] && st.queue[0] < |input|
    case PlaceEvent => st.pc.Advanced? && st.pc.p < |input|
    case Correct => st.pc.Placed? && st.pc.p < |input| && T.KeyOf(c, input[st.pc.p].ev) in st.mgr.closed
    case BeginTick(_) => st.pc.Idle?
    case SendWindow(k) => st.pc.Closing? && k in st.mgr.windows && T.Expired(c, st.mgr.maxTS, st.pc.now, k)
    case RetireWindow => st.pc.Sent? && st.pc.k in st.mgr.windows
    case CancelTick => st.pc.Closing?
    case EndClosing => st.pc.Closing? && forall k | k in st.mgr.windows :: !T.Expired(c, st.mgr.maxTS, st.pc.now, k)
    case ForgetWindow(k) => st.pc.Collecting? && k in st.mgr.closed && T.GcDue(c, st.mgr.maxTS, st.pc.now, k)
    case EndTick => st.pc.Collecting? && forall k | k in st.mgr.closed :: !T.GcDue(c, st.mgr.maxTS, st.pc.now, k)
  }

  function LocalApply(c: T.Config, input: seq<Envelope>, st: Stream, step: Local): Stream
    requires LocalEnabled(c, input, st, step)
  {
    match step
    case StartAdd =>
      var p := st.queue[0];
      st.(queue := st.queue[1..], mgr := T.Advance(st.mgr, input[p].ev), pc := Advanced(p))
    case PlaceEvent =>
      var ev := input[st.pc.p].ev;
      st.(mgr := T.Place(c, st.mgr, ev),
          pc := if T.Corrects(c, st.mgr, T.KeyOf(c, ev)) then Placed(st.pc.p) else Added(st.pc.p))
    case Correct => st.(mgr := T.EmitCorrection(c, st.mgr, T.KeyOf(c, input[st.pc.p].ev)), pc := Added(st.pc.p))
    case BeginTick(now) => st.(pc := Closing(now))
    case SendWindow(k) => st.(mgr := T.Send(c, st.mgr, k), pc := Sent(st.pc.now, k))
    case RetireWindow => st.(mgr := T.Retire(st.mgr, st.pc.k), pc := Closing(st.pc.now))
    case CancelTick => st.(pc := Idle)
    case EndClosing => st.(pc := Collecting(st.pc.now))
    case ForgetWindow(k) => st.(mgr := T.Forget(st.mgr, k))
    case EndTick => st.(pc := Idle)
  }

  ghost predicate Enabled(sys: System, s: State, a: Action) {
    match a
    case Deliver(msg, _) => msg in sys.broker
    case Enqueue(j) => j < |s.handlers| && s.handlers[j].Sending?
    case AckDuplicate(j) => j < |s.handlers| && s.handlers[j].Dropping?
    case GiveUp(j) => j < |s.handlers|
    case Post(_) => true
    case Take => s.next == |s.streams| && s.eventCh != []
    case Forward => s.next < |s.streams| && s.input != []
    case Manager(i, step) =>
      i < |s.streams| && i < |sys.managers| && LocalEnabled(sys.managers[i], s.input, s.streams[i], step)
    case ChildAck(i) => i < |s.streams| && s.streams[i].pc.Added? && s.streams[i].pc.p < |s.input| == |s.remaining| == |s.fired|
    case MarkSeen(i) => i < |s.streams| && s.streams[i].pc.Marking? && AckOf(s, s.streams[i].pc.p).Some?
    case BrokerAck(i) => i < |s.streams| && s.streams[i].pc.Acking? && AckOf(s, s.streams[i].pc.p).Some?
    case ExpireSeen(_) => true
    case Crash => true
  }

  function AckOf(s: State, p: nat): Option<Ack> {
    if p < |s.input| then s.input[p].ack else None
  }

  /** The handler looks the message up, and decodes it. What it does next comes later:
      other copies may be marked, and marks may expire, in between. */
  function DeliverMessage(sys: System, s: State, msg: nat, tagged: bool): State
    requires msg in sys.broker
  {
    if tagged && msg in s.seen then s.(handlers := s.handlers + [Dropping(msg)])
    else if sys.broker[msg].None? then s
    else s.(handlers := s.handlers + [Sending(Envelope(sys.broker[msg].value, Some(Ack(msg, tagged))))])
  }

  /** The j-th handler returns. */
  function Returned(s: State, j: nat): State
    requires j < |s.handlers|
  {
    s.(handlers := s.handlers[..j] + s.handlers[j + 1..])
  }

  /** A child callback: counts down, and the last one takes on the real one. */
  function CountDown(s: State, i: nat): State
    requires i < |s.streams| && s.streams[i].pc.Added? && s.streams[i].pc.p < |s.input| == |s.remaining| == |s.fired|
  {
    var st, p := s.streams[i], s.streams[i].pc.p;
    var ack := s.input[p].ack;
    var left := s.remaining[p] - 1;
    if ack.None? then s.(streams := s.streams[i := st.(pc := Idle, done := st.done + 1)])
    else if left != 0 then
      s.(streams := s.streams[i := st.(pc := Idle, done := st.done + 1)], remaining := s.remaining[p := left])
    else
      s.(streams := s.streams[i := st.(pc := if ack.value.tagged then Marking(p) else Acking(p), done := st.done + 1)],
         remaining := s.remaining[p := left],
         fired := s.fired[p := s.fired[p] + 1])
  }

  function Reboot(st: Stream): Stream {
    Stream(T.Restart(st.mgr), [], Idle, [], 0)
  }

  function Apply(sys: System, s: State, a: Action): State
    requires Enabled(sys, s, a)
  {
    match a
    case Deliver(msg, tagged) => DeliverMessage(sys, s, msg, tagged)
    case Enqueue(j) => Returned(s, j).(eventCh := s.eventCh + [s.handlers[j].env])
    case AckDuplicate(j) => Returned(s, j).(acked := s.acked + {s.handlers[j].msg})
    case GiveUp(j) => Returned(s, j)
    case Post(ev) => s.(eventCh := s.eventCh + [Envelope(ev, None)])
    case Take =>
      s.(eventCh := s.eventCh[1..], input := s.input + [s.eventCh[0]], next := 0,
         remaining := s.remaining + [|s.streams|], fired := s.fired + [0])
    case Forward =>
      var st, p := s.streams[s.next], |s.input| - 1;
      s.(streams := s.streams[s.next := st.(queue := st.queue + [p], received := st.received + [p])], next := s.next + 1)
    case Manager(i, step) => s.(streams := s.streams[i := LocalApply(sys.managers[i], s.input, s.streams[i], step)])
    case ChildAck(i) => CountDown(s, i)
    case MarkSeen(i) =>
      var p := s.streams[i].pc.p;
      s.(streams := s.streams[i := s.streams[i].(pc := Acking(p))], seen := s.seen + {AckOf(s, p).value.msg})
    case BrokerAck(i) =>
      var p := s.streams[i].pc.p;
      s.(streams := s.streams[i := s.streams[i].(pc := Idle)], acked := s.acked + {AckOf(s, p).value.msg})
    case ExpireSeen(msg) => s.(seen := s.seen - {msg})
    case Crash =>
      State(seq(|s.streams|, i requires 0 <= i < |s.streams| => Reboot(s.streams[i])), [], [], [], |s.streams|, [], [], s.seen, s.acked)
  }

  // ---- Runs -------------------------------------------------------------------

  datatype History = Boot | Then(before: History, action: Action)

  /** The first start of the engine, over empty stores. */
  function Booted(sys: System): State {
    State(seq(|sys.durable|, i requires 0 <= i < |sys.durable| => Stream(T.Fresh(sys.durable[i]), [], Idle, [], 0)),
          [], [], [], |sys.durable|, [], [], {}, {})
  }

  ghost predicate Legal(sys: System, h: History)
    decreases h, 0
  {
    h.Then? ==> Legal(sys, h.before) && Enabled(sys, Run(sys, h.before), h.action)
  }

  ghost function Run(sys: System, h: History): State
    requires Legal(sys, h)
    decreases h, 1
  {
    if h.Boot? then Booted(sys) else Apply(sys, Run(sys, h.before), h.action)
  }

  // ---- What must never be lost ------------------------------------------------

  ghost predicate Stored(buckets: map<Key, Bucket>, ev: Event) {
    exists k :: k in buckets && !buckets[k].closed && ev in buckets[k].events
  }

  ghost predicate Emitted(out: seq<Batch>, ev: Event) {
    exists b :: b in out && ev in b.events
  }

  /** In a manager with a store, the event is in a stored open bucket, or in a batch
      that was handed downstream. */
  ghost predicate Safe(m: T.State, ev: Event) {
    m.disk.Some? ==> Stored(m.disk.value.buckets, ev) || Emitted(m.out, ev)
  }

  /** The same, said of the open windows in memory. */
  ghost predicate Kept(m: T.State, ev: Event) {
    Stored(m.windows, ev) || Emitted(m.out, ev)
  }

  lemma KeptIsSafe(m: T.State, ev: Event)
    requires T.Inv(m) && m.disk.Some?
    ensures Kept(m, ev) <==> Safe(m, ev)
  {
    var buckets := m.disk.value.buckets;
    assert buckets == m.windows + m.closed;
    if Stored(m.windows, ev) {
      var k :| k in m.windows && ev in m.windows[k].events;
      assert buckets[k] == m.windows[k];
    }
    if Stored(buckets, ev) {
      var k :| k in buckets && !buckets[k].closed && ev in buckets[k].events;
      assert k in m.windows;
    }
  }

  // ---- The invariant of one manager -------------------------------------------

  /** How many envelopes the manager has in hand. */
  function Busy(pc: Pc): nat {
    if pc.Advanced? || pc.Placed? || pc.Added? then 1 else 0
  }

  ghost predicate PcOk(c: T.Config, input: seq<Envelope>, st: Stream) {
    match st.pc
    case Advanced(p) => p == st.done < |input| && input[p].ev.ts <= st.mgr.maxTS
    case Placed(p) =>
      && p == st.done < |input|
      && var k := T.KeyOf(c, input[p].ev);
      k in st.mgr.closed && input[p].ev in st.mgr.closed[k].events
    case Added(p) => p == st.done < |input| && Kept(st.mgr, input[p].ev)
    case Sent(_, k) =>
      k in st.mgr.windows && exists b :: b in st.mgr.out && b.events == st.mgr.windows[k].events
    case _ => true
  }

  /** Memory and store agree; the channel carried the taken envelopes in order; what
      is finished is kept. */
  ghost predicate StreamOk(c: T.Config, input: seq<Envelope>, st: Stream) {
    && T.Inv(st.mgr)
    && (forall j | 0 <= j < |st.received| :: st.received[j] == j)
    && st.done + Busy(st.pc) <= |st.received| <= |input|
    && st.queue == st.received[st.done + Busy(st.pc)..]
    && PcOk(c, input, st)
    && (forall p | 0 <= p < st.done :: Kept(st.mgr, input[p].ev))
  }

  /** Whatever was kept is kept. */
  ghost predicate Keeps(m: T.State, n: T.State) {
    && n.disk.Some? == m.disk.Some?
    && forall ev | Kept(m, ev) :: Kept(n, ev)
  }

  lemma PlaceKeeps(c: T.Config, m: T.State, ev: Event)
    requires T.Inv(m) && ev.ts <= m.maxTS
    ensures Keeps(m, T.Place(c, m, ev))
    ensures var k, n := T.KeyOf(c, ev), T.Place(c, m, ev);
            if T.Corrects(c, m, k) then k in n.closed && ev in n.closed[k].events else Kept(n, ev)
  {
    var k, n := T.KeyOf(c, ev), T.Place(c, m, ev);
    T.PlaceInv(c, m, ev);
    forall e | Kept(m, e) ensures Kept(n, e) {
      if Stored(m.windows, e) {
        var x :| x in m.windows && !m.windows[x].closed && e in m.windows[x].events;
        assert x in n.windows && !n.windows[x].closed && e in n.windows[x].events;
      }
    }
    if !T.Corrects(c, m, k) {
      assert k in n.windows && !n.windows[k].closed && ev in n.windows[k].events;
    }
  }

  lemma EmitKeeps(m: T.State, n: T.State, b: Batch)
    requires n == m.(out := m.out + [b])
    ensures Keeps(m, n)
    ensures forall ev | ev in b.events :: Kept(n, ev)
    ensures b in n.out
  {
    assert b in n.out;
    forall e | Kept(m, e) ensures Kept(n, e) {
      if Emitted(m.out, e) {
        var x :| x in m.out && e in x.events;
        assert x in n.out;
      }
    }
  }

  lemma RetireKeeps(m: T.State, k: Key)
    requires T.Inv(m) && k in m.windows
    requires exists b :: b in m.out && b.events == m.windows[k].events
    ensures Keeps(m, T.Retire(m, k))
  {
    var n := T.Retire(m, k);
    forall e | Kept(m, e) ensures Kept(n, e) {
      if Stored(m.windows, e) && !Emitted(m.out, e) {
        var x :| x in m.windows && !m.windows[x].closed && e in m.windows[x].events;
        assert x != k;
        assert x in n.windows && n.windows[x] == m.windows[x];
      }
    }
  }

  lemma StartAddOk(c: T.Config, input: seq<Envelope>, st: Stream)
    requires StreamOk(c, input, st) && LocalEnabled(c, input, st, StartAdd)
    ensures StreamOk(c, input, LocalApply(c, input, st, StartAdd))
    ensures Keeps(st.mgr, LocalApply(c, input, st, StartAdd).mgr)
  {
    var p := st.queue[0];
    T.AdvanceInv(st.mgr, input[p].ev);
    assert p == st.done;
    assert forall e :: Kept(T.Advance(st.mgr, input[p].ev), e) == Kept(st.mgr, e);
  }

  lemma PlaceOk(c: T.Config, input: seq<Envelope>, st: Stream)
    requires StreamOk(c, input, st) && LocalEnabled(c, input, st, PlaceEvent)
    ensures StreamOk(c, input, LocalApply(c, input, st, PlaceEvent))
    ensures Keeps(st.mgr, LocalApply(c, input, st, PlaceEvent).mgr)
  {
    T.PlaceInv(c, st.mgr, input[st.pc.p].ev);
    PlaceKeeps(c, st.mgr, input[st.pc.p].ev);
  }

  lemma CorrectOk(c: T.Config, input: seq<Envelope>, st: Stream)
    requires StreamOk(c, input, st) && LocalEnabled(c, input, st, Correct)
    ensures StreamOk(c, input, LocalApply(c, input, st, Correct))
    ensures Keeps(st.mgr, LocalApply(c, input, st, Correct).mgr)
  {
    var k := T.KeyOf(c, input[st.pc.p].ev);
    EmitKeeps(st.mgr, T.EmitCorrection(c, st.mgr, k), T.BatchOf(c, st.mgr.closed[k], true));
  }

  lemma SendOk(c: T.Config, input: seq<Envelope>, st: Stream, k: Key)
    requires StreamOk(c, input, st) && LocalEnabled(c, input, st, SendWindow(k))
    ensures StreamOk(c, input, LocalApply(c, input, st, SendWindow(k)))
    ensures Keeps(st.mgr, LocalApply(c, input, st, SendWindow(k)).mgr)
  {
    EmitKeeps(st.mgr, T.Send(c, st.mgr, k), T.BatchOf(c, st.mgr.windows[k], false));
  }

  lemma RetireOk(c: T.Config, input: seq<Envelope>, st: Stream)
    requires StreamOk(c, input, st) && LocalEnabled(c, input, st, RetireWindow)
    ensures StreamOk(c, input, LocalApply(c, input, st, RetireWindow))
    ensures Keeps(st.mgr, LocalApply(c, input, st, RetireWindow).mgr)
  {
    T.RetireInv(st.mgr, st.pc.k);
    RetireKeeps(st.mgr, st.pc.k);
  }

  lemma ForgetOk(c: T.Config, input: seq<Envelope>, st: Stream, k: Key)
    requires StreamOk(c, input, st) && LocalEnabled(c, input, st, ForgetWindow(k))
    ensures StreamOk(c, input, LocalApply(c, input, st, ForgetWindow(k)))
    ensures Keeps(st.mgr, LocalApply(c, input, st, ForgetWindow(k)).mgr)
  {
    T.ForgetInv(st.mgr, k);
    assert forall e :: Kept(T.Forget(st.mgr, k), e) == Kept(st.mgr, e);
  }

  /** Every step of a manager preserves its invariant, and loses nothing kept. */
  lemma LocalOk(c: T.Config, input: seq<Envelope>, st: Stream, step: Local)
    requires StreamOk(c, input, st) && LocalEnabled(c, input, st, step)
    ensures StreamOk(c, input, LocalApply(c, input, st, step))
    ensures Keeps(st.mgr, LocalApply(c, input, st, step).mgr)
  {
    match step
    case StartAdd => StartAddOk(c, input, st);
    case PlaceEvent => PlaceOk(c, input, st);
    case Correct => CorrectOk(c, input, st);
    case SendWindow(k) => SendOk(c, input, st, k);
    case RetireWindow => RetireOk(c, input, st);
    case ForgetWindow(k) => ForgetOk(c, input, st, k);
    case _ =>
  }
}
