/** Whole runs of a tumbling manager: events, ticks and crashes in any order.
    The reference functions of this module read a trace only; none of them looks
    at a manager's state. */
module Traces {
  import opened Model
  import opened EventTime
  import opened Tumbling
  import opened Deadlines

  datatype Step =
    | Add(ev: Event)
    | Tick(now: int, order: seq<Key>, complete: bool)
    | Crash

  datatype Trace = Start | After(before: Trace, step: Step)

  // ---- Running a trace --------------------------------------------------------

  ghost predicate Enabled(c: Config, s: State, step: Step) {
    match step
    case Add(_) => true
    case Tick(now, order, complete) => TickAllowed(c, s, now, order, complete)
    case Crash => s.disk.Some?
  }

  function Apply(c: Config, s: State, step: Step): State
    requires Enabled(c, s, step)
  {
    match step
    case Add(ev) => AddEvent(c, s, ev)
    case Tick(now, order, complete) => TickWindows(c, s, now, order, complete)
    case Crash => Restart(s)
  }

  /** Every step was possible in the state it found. */
  ghost predicate Legal(c: Config, durable: bool, tr: Trace)
    decreases tr, 0
  {
    tr.After? ==>
      && Legal(c, durable, tr.before)
      && Enabled(c, Run(c, durable, tr.before), tr.step)
  }

  ghost function Run(c: Config, durable: bool, tr: Trace): State
    requires Legal(c, durable, tr)
    decreases tr, 1
  {
    if tr.Start? then Fresh(durable) else Apply(c, Run(c, durable, tr.before), tr.step)
  }

  // ---- Reference functions ----------------------------------------------------

  /** All events of the trace, in arrival order. */
  function Inputs(tr: Trace): seq<Event> {
    if tr.Start? then []
    else if tr.step.Add? then Inputs(tr.before) + [tr.step.ev]
    else Inputs(tr.before)
  }

  /** The events of one window, in arrival order. */
  function OfKey(c: Config, events: seq<Event>, k: Key): seq<Event> {
    if events == [] then []
    else
      var n := |events| - 1;
      if KeyOf(c, events[n]) == k then OfKey(c, events[..n], k) + [events[n]] else OfKey(c, events[..n], k)
  }

  /** The newest timestamp so far; the clock starts at 0. */
  function MaxTs(tr: Trace): int {
    if tr.Start? then 0
    else if tr.step.Add? && tr.step.ev.ts > MaxTs(tr.before) then tr.step.ev.ts
    else MaxTs(tr.before)
  }

  /** A complete tick, by which the window is forgotten. */
  predicate Horizon(c: Config, maxTS: int, step: Step, k: Key) {
    step.Tick? && step.complete && IsForgotten(c, maxTS, step.now, k)
  }

  /** The events of one window since it was last collected. */
  function Since(c: Config, tr: Trace, k: Key): seq<Event> {
    if tr.Start? || Horizon(c, MaxTs(tr.before), tr.step, k) then []
    else if tr.step.Add? && KeyOf(c, tr.step.ev) == k then Since(c, tr.before, k) + [tr.step.ev]
    else Since(c, tr.before, k)
  }

  // ---- Looking at a state -----------------------------------------------------

  predicate IsHeld(s: State, k: Key) {
    k in s.windows || k in s.closed
  }

  function Held(s: State, k: Key): seq<Event> {
    if k in s.windows then s.windows[k].events
    else if k in s.closed then s.closed[k].events
    else []
  }

  function HeldCount(s: State, k: Key): int {
    if k in s.windows then s.windows[k].count
    else if k in s.closed then s.closed[k].count
    else 0
  }

  /** The newest batch of a window among those handed downstream. */
  function LastBatch(out: seq<Batch>, k: Key): Option<Batch> {
    if out == [] then None
    else if out[|out| - 1].key == k then Some(out[|out| - 1])
    else LastBatch(out[..|out| - 1], k)
  }

  // ---- Invariants of every run ------------------------------------------------

  lemma {:induction false} InvHolds(c: Config, durable: bool, tr: Trace)
    requires Legal(c, durable, tr)
    ensures Inv(Run(c, durable, tr))
    ensures Run(c, durable, tr).maxTS == MaxTs(tr)
    ensures Run(c, durable, tr).disk.Some? == durable
  {
    if tr.Start? {
    } else {
      InvHolds(c, durable, tr.before);
      var s := Run(c, durable, tr.before);
      match tr.step
      case Add(ev) => AddInv(c, s, ev);
      case Tick(now, order, complete) => TickInv(c, s, now, order, complete);
      case Crash => RestartIsInvisible(s);
    }
  }

  // ---- Crash transparency -----------------------------------------------------

  function WithoutCrashes(tr: Trace): Trace {
    if tr.Start? then Start
    else if tr.step.Crash? then WithoutCrashes(tr.before)
    else After(WithoutCrashes(tr.before), tr.step)
  }

  /** Crashes between operations are invisible: with a store, a trace can run if
      and only if it can run with its crashes left out, and both end in the same
      state after emitting the same batches. */
  lemma {:induction false} CrashesAreTransparent(c: Config, tr: Trace)
    ensures Legal(c, true, tr) <==> Legal(c, true, WithoutCrashes(tr))
    ensures Legal(c, true, tr) ==> Run(c, true, tr) == Run(c, true, WithoutCrashes(tr))
  {
    if tr.Start? {
    } else {
      CrashesAreTransparent(c, tr.before);
      if tr.step.Crash? && Legal(c, true, tr.before) {
        InvHolds(c, true, tr.before);
        RestartIsInvisible(Run(c, true, tr.before));
      }
    }
  }

  // ---- Streaming refines the query over history -------------------------------

  /** What one add does to any window. */
  lemma AddHeld(c: Config, s: State, ev: Event, k: Key)
    requires Inv(s)
    ensures var t := AddEvent(c, s, ev);
            if KeyOf(c, ev) == k then
              Held(t, k) == Held(s, k) + [ev] && HeldCount(t, k) == HeldCount(s, k) + 1 && IsHeld(t, k)
            else
              Held(t, k) == Held(s, k) && HeldCount(t, k) == HeldCount(s, k) && (IsHeld(t, k) <==> IsHeld(s, k))
  {
  }

  /** What one tick does to any window. */
  lemma TickHeld(c: Config, s: State, now: int, order: seq<Key>, complete: bool, k: Key)
    requires Inv(s) && c.lateness >= 0 && TickAllowed(c, s, now, order, complete)
    ensures var t := TickWindows(c, s, now, order, complete);
            if complete && GcDue(c, s.maxTS, now, k) then
              !IsHeld(t, k)
            else
              Held(t, k) == Held(s, k) && HeldCount(t, k) == HeldCount(s, k) && (IsHeld(t, k) <==> IsHeld(s, k))
  {
    var u := Close(c, s, order);
    assert Held(u, k) == Held(s, k) && HeldCount(u, k) == HeldCount(s, k) && (IsHeld(u, k) <==> IsHeld(s, k));
    if complete && GcDue(c, s.maxTS, now, k) {
      DueImpliesExpired(c, s.maxTS, now, k);
      assert k !in u.windows;
    }
  }

  /** The main refinement: a window is held exactly while it has events since it
      was last collected, and its bucket is then exactly those events, in arrival
      order, with the right count. */
  lemma {:induction false} BucketsAreHistory(c: Config, durable: bool, tr: Trace, k: Key)
    requires Legal(c, durable, tr) && c.lateness >= 0
    ensures var s := Run(c, durable, tr);
            && Held(s, k) == Since(c, tr, k)
            && HeldCount(s, k) == |Since(c, tr, k)|
            && (IsHeld(s, k) <==> Since(c, tr, k) != [])
  {
    if tr.Start? {
    } else {
      BucketsAreHistory(c, durable, tr.before, k);
      InvHolds(c, durable, tr.before);
      var s := Run(c, durable, tr.before);
      match tr.step
      case Add(ev) => AddHeld(c, s, ev, k);
      case Tick(now, order, complete) => TickHeld(c, s, now, order, complete, k);
      case Crash => RestartIsInvisible(s);
    }
  }
}
