/** What the watermark promises, and what the processing clock can undo. */
module Completeness {
  import opened Model
  import opened EventTime
  import opened Tumbling
  import opened Traces
  import opened Deadlines

  // ---- Watermark completeness -------------------------------------------------

  /** No event is behind the newest one by more than the lateness. */
  predicate OnTime(c: Config, tr: Trace) {
    tr.After? ==>
      && OnTime(c, tr.before)
      && (tr.step.Add? ==> (MaxTs(tr.before) - tr.step.ev.ts) * SECOND <= c.lateness)
  }

  /** The clock never closes a window before the events do. */
  predicate ClosesByWatermark(c: Config, tr: Trace) {
    tr.After? ==>
      && ClosesByWatermark(c, tr.before)
      && (tr.step.Tick? ==> forall k | k in tr.step.order :: IsLate(c, MaxTs(tr.before), k))
  }

  ghost predicate KeysDistinct(out: seq<Batch>) {
    forall i, j | 0 <= i < j < |out| :: out[i].key != out[j].key
  }

  ghost predicate Reported(out: seq<Batch>, k: Key) {
    exists b :: b in out && b.key == k
  }

  /** The report of a window holds everything that ever arrived for it. */
  predicate Exhaustive(c: Config, inputs: seq<Event>, b: Batch) {
    b == Batch(b.key, b.key.start + c.size, OfKey(c, inputs, b.key), |OfKey(c, inputs, b.key)|, false)
  }

  /** Every event so far is in exactly one place, an open window or a final report. */
  ghost predicate Partitioned(c: Config, inputs: seq<Event>, s: State) {
    && (forall k | k in s.windows ::
          s.windows[k].events == OfKey(c, inputs, k) && s.windows[k].count == |OfKey(c, inputs, k)|)
    && (forall k | k in s.closed :: IsLate(c, s.maxTS, k))
    && (forall b | b in s.out ::
          Exhaustive(c, inputs, b) && IsLate(c, s.maxTS, b.key) && b.key !in s.windows)
    && KeysDistinct(s.out)
    && (forall ev | ev in inputs :: KeyOf(c, ev) in s.windows || Reported(s.out, KeyOf(c, ev)))
  }

  lemma {:induction false} OfKeyEmpty(c: Config, events: seq<Event>, k: Key)
    requires forall ev | ev in events :: KeyOf(c, ev) != k
    ensures OfKey(c, events, k) == []
  {
    if events == [] {
    } else {
      OfKeyEmpty(c, events[..|events| - 1], k);
    }
  }

  lemma OfKeySnoc(c: Config, events: seq<Event>, ev: Event, k: Key)
    ensures OfKey(c, events + [ev], k) == if KeyOf(c, ev) == k then OfKey(c, events, k) + [ev] else OfKey(c, events, k)
  {
    assert (events + [ev])[..|events + [ev]| - 1] == events;
  }

  lemma OnTimeEventOpens(c: Config, inputs: seq<Event>, s: State, ev: Event)
    requires c.size % SECOND == 0 && c.lateness >= 0
    requires Inv(s) && Partitioned(c, inputs, s) && (s.maxTS - ev.ts) * SECOND <= c.lateness
    ensures var k, t := KeyOf(c, ev), AddEvent(c, s, ev);
            && t.out == s.out && t.closed == s.closed && t.maxTS >= s.maxTS
            && !Reported(s.out, k)
            && t.windows.Keys == s.windows.Keys + {k}
            && (forall x | x in s.windows && x != k :: t.windows[x] == s.windows[x])
            && t.windows[k].events == OfKey(c, inputs, k) + [ev]
            && t.windows[k].count == |OfKey(c, inputs, k)| + 1
  {
    var k := KeyOf(c, ev);
    EventInTimeIsNotLate(c, s.maxTS, ev);
    assert k !in s.closed && !Reported(s.out, k);
    if k !in s.windows {
      OfKeyEmpty(c, inputs, k);
    }
  }

  lemma AddPartitions(c: Config, inputs: seq<Event>, s: State, ev: Event)
    requires c.size % SECOND == 0 && c.lateness >= 0
    requires Inv(s) && Partitioned(c, inputs, s) && (s.maxTS - ev.ts) * SECOND <= c.lateness
    ensures Partitioned(c, inputs + [ev], AddEvent(c, s, ev))
  {
    var k, t := KeyOf(c, ev), AddEvent(c, s, ev);
    OnTimeEventOpens(c, inputs, s, ev);
    forall x | x in t.windows
      ensures t.windows[x].events == OfKey(c, inputs + [ev], x) && t.windows[x].count == |OfKey(c, inputs + [ev], x)|
    {
      OfKeySnoc(c, inputs, ev, x);
    }
    forall b | b in t.out
      ensures Exhaustive(c, inputs + [ev], b) && IsLate(c, t.maxTS, b.key) && b.key !in t.windows
    {
      OfKeySnoc(c, inputs, ev, b.key);
    }
  }

  lemma ClosePartitions(c: Config, inputs: seq<Event>, s: State, order: seq<Key>)
    requires Inv(s) && Partitioned(c, inputs, s) && Distinct(order)
    requires forall k | k in order :: k in s.windows && IsLate(c, s.maxTS, k)
    ensures Partitioned(c, inputs, Close(c, s, order))
  {
    var t, more := Close(c, s, order), Batches(c, s, order);
    assert forall i | 0 <= i < |more| :: more[i].key == order[i] && Exhaustive(c, inputs, more[i]);
    assert t.out == s.out + more;
    forall b | b in t.out
      ensures Exhaustive(c, inputs, b) && IsLate(c, t.maxTS, b.key) && b.key !in t.windows
    {
    }
    CloseReports(c, inputs, s, order);
    assert KeysDistinct(t.out);
  }

  lemma CloseReports(c: Config, inputs: seq<Event>, s: State, order: seq<Key>)
    requires forall k | k in order :: k in s.windows
    requires Inv(s) && forall ev | ev in inputs :: KeyOf(c, ev) in s.windows || Reported(s.out, KeyOf(c, ev))
    ensures var t := Close(c, s, order);
            forall ev | ev in inputs :: KeyOf(c, ev) in t.windows || Reported(t.out, KeyOf(c, ev))
  {
    var t, more := Close(c, s, order), Batches(c, s, order);
    forall ev | ev in inputs ensures KeyOf(c, ev) in t.windows || Reported(t.out, KeyOf(c, ev)) {
      var k := KeyOf(c, ev);
      if k in order {
        var i :| 0 <= i < |order| && order[i] == k;
        assert more[i] in t.out && more[i].key == k;
      } else if k !in s.windows {
        var b :| b in s.out && b.key == k;
        assert b in t.out;
      }
    }
  }

  lemma {:induction false} RunPartitions(c: Config, durable: bool, tr: Trace)
    requires c.size % SECOND == 0 && c.lateness >= 0
    requires Legal(c, durable, tr) && OnTime(c, tr) && ClosesByWatermark(c, tr)
    ensures Partitioned(c, Inputs(tr), Run(c, durable, tr))
  {
    if tr.Start? {
    } else {
      RunPartitions(c, durable, tr.before);
      InvHolds(c, durable, tr.before);
      var s := Run(c, durable, tr.before);
      match tr.step
      case Add(ev) => AddPartitions(c, Inputs(tr.before), s, ev);
      case Tick(now, order, complete) => ClosePartitions(c, Inputs(tr), s, order);
      case Crash => RestartIsInvisible(s);
    }
  }

  /** Extends a trace by further steps. */
  predicate Extends(tr: Trace, more: Trace) {
    tr == more || (more.After? && Extends(tr, more.before))
  }

  lemma StepGrowsOut(c: Config, s: State, step: Step)
    requires Enabled(c, s, step)
    ensures s.out <= Apply(c, s, step).out
  {
  }

  lemma {:induction false} OutGrows(c: Config, durable: bool, tr: Trace, more: Trace)
    requires Legal(c, durable, more) && Extends(tr, more)
    ensures Legal(c, durable, tr) && Run(c, durable, tr).out <= Run(c, durable, more).out
  {
    if tr == more {
    } else {
      OutGrows(c, durable, tr, more.before);
      StepGrowsOut(c, Run(c, durable, more.before), more.step);
    }
  }

  /** Watermark completeness: if no event is later than the lateness and windows
      close by watermark only, then no correction is ever emitted, no window is
      reported twice, and a report already holds every event of its window in the
      whole stream, also of the stream still to come. */
  lemma ReportsAreComplete(c: Config, durable: bool, tr: Trace, more: Trace, b: Batch)
    requires c.size % SECOND == 0 && c.lateness >= 0
    requires Extends(tr, more)
    requires Legal(c, durable, more) && OnTime(c, more) && ClosesByWatermark(c, more)
    ensures Legal(c, durable, tr) && KeysDistinct(Run(c, durable, more).out)
    ensures b in Run(c, durable, tr).out ==> !b.corrected && b.events == OfKey(c, Inputs(more), b.key)
  {
    OutGrows(c, durable, tr, more);
    RunPartitions(c, durable, more);
  }

  // ---- At most one normal report ----------------------------------------------

  /** Windows are only collected once the watermark has passed their horizon. */
  ghost predicate CollectsByWatermark(c: Config, tr: Trace) {
    tr.After? ==>
      && CollectsByWatermark(c, tr.before)
      && (forall k :: Since(c, tr.before, k) != [] && Horizon(c, MaxTs(tr.before), tr.step, k)
                      ==> MaxTs(tr.before) >= Unix(k.start + c.size) + 2 * (c.lateness / SECOND))
  }

  ghost predicate NormalKeysDistinct(out: seq<Batch>) {
    forall i, j | 0 <= i < j < |out| && !out[i].corrected && !out[j].corrected :: out[i].key != out[j].key
  }

  /** A window that was reported never opens again. */
  ghost predicate Settled(c: Config, s: State) {
    && NormalKeysDistinct(s.out)
    && (forall b | b in s.out && !b.corrected ::
          b.key !in s.windows && (b.key in s.closed || Passed(c, s.maxTS, b.key)))
  }

  lemma AddSettled(c: Config, s: State, ev: Event)
    requires Inv(s) && Settled(c, s)
    ensures Settled(c, AddEvent(c, s, ev))
  {
  }

  lemma CloseSettled(c: Config, s: State, order: seq<Key>)
    requires Inv(s) && Settled(c, s) && Distinct(order)
    requires forall k | k in order :: k in s.windows
    ensures Settled(c, Close(c, s, order))
  {
    var t, more := Close(c, s, order), Batches(c, s, order);
    assert forall i | 0 <= i < |more| :: more[i].key == order[i];
    forall b | b in t.out && !b.corrected
      ensures b.key !in t.windows && (b.key in t.closed || Passed(c, t.maxTS, b.key))
    {
    }
    assert NormalKeysDistinct(t.out);
  }

  lemma {:induction false} AtMostOneNormalReport(c: Config, durable: bool, tr: Trace)
    requires c.lateness >= 0
    requires Legal(c, durable, tr) && CollectsByWatermark(c, tr)
    ensures Settled(c, Run(c, durable, tr))
  {
    if tr.Start? {
    } else {
      AtMostOneNormalReport(c, durable, tr.before);
      InvHolds(c, durable, tr.before);
      var s := Run(c, durable, tr.before);
      match tr.step
      case Add(ev) => AddSettled(c, s, ev);
      case Tick(now, order, complete) =>
        CloseSettled(c, s, order);
        var t := Close(c, s, order);
        forall k | complete && k in Due(c, t, now) ensures Passed(c, s.maxTS, k) {
          BucketsAreHistory(c, durable, tr.before, k);
          assert Horizon(c, s.maxTS, tr.step, k);
        }
      case Crash => RestartIsInvisible(s);
    }
  }

  // ---- When a reported window can open again ----------------------------------

  lemma StepKeepsShut(c: Config, s: State, step: Step, k: Key)
    requires Inv(s) && Enabled(c, s, step) && Passed(c, s.maxTS, k) && k !in s.windows
    ensures k !in Apply(c, s, step).windows && Apply(c, s, step).maxTS >= s.maxTS
  {
    if step.Crash? {
      RestartIsInvisible(s);
    }
  }

  lemma {:induction false} PassedWindowsStayShut(c: Config, durable: bool, tr: Trace, more: Trace, k: Key)
    requires Extends(tr, more) && Legal(c, durable, tr) && Legal(c, durable, more)
    requires Passed(c, MaxTs(tr), k) && k !in Run(c, durable, tr).windows
    ensures Passed(c, MaxTs(more), k) && k !in Run(c, durable, more).windows
  {
    if tr == more {
    } else {
      PassedWindowsStayShut(c, durable, tr, more.before, k);
      InvHolds(c, durable, more.before);
      InvHolds(c, durable, more);
      StepKeepsShut(c, Run(c, durable, more.before), more.step, k);
    }
  }

  lemma {:induction false} Enumerate(ks: set<Key>) returns (order: seq<Key>)
    ensures Distinct(order) && forall k :: k in order <==> k in ks
  {
    order := [];
    if ks == {} {
    } else {
      var k :| k in ks;
      var rest := Enumerate(ks - {k});
      order := rest + [k];
    }
  }

  /** A tick late enough on the processing clock forgets any window. */
  lemma ForgettingTick(c: Config, durable: bool, tr: Trace, k: Key) returns (more: Trace)
    requires Legal(c, durable, tr) && c.lateness >= 0
    ensures more.After? && more.before == tr && Legal(c, durable, more)
    ensures MaxTs(more) == MaxTs(tr) && !IsHeld(Run(c, durable, more), k)
  {
    var s := Run(c, durable, tr);
    var now := WindowEnd(c, k) + 2 * c.lateness;
    var order := Enumerate(set x | x in s.windows && Expired(c, s.maxTS, now, x));
    more := After(tr, Tick(now, order, true));
    InvHolds(c, durable, tr);
    TickHeld(c, s, now, order, true, k);
  }

  /** A longer run in which the window is open. */
  ghost predicate OpensIn(c: Config, durable: bool, tr: Trace, more: Trace, k: Key) {
    Extends(tr, more) && Legal(c, durable, more) && k in Run(c, durable, more).windows
  }

  lemma OpenAgain(c: Config, durable: bool, tr: Trace, ev: Event) returns (more: Trace)
    requires c.size % SECOND == 0 && c.lateness >= 0
    requires Legal(c, durable, tr) && !IsLate(c, MaxTs(tr), KeyOf(c, ev))
    ensures OpensIn(c, durable, tr, more, KeyOf(c, ev))
  {
    var forgotten := ForgettingTick(c, durable, tr, KeyOf(c, ev));
    InvHolds(c, durable, forgotten);
    more := After(forgotten, Add(ev));
    WholeSecondWindow(c.size, ev.ts);
    assert Extends(tr, forgotten);
    assert Run(c, durable, more) == AddEvent(c, Run(c, durable, forgotten), ev);
  }

  /** Exactly when a window that is not open can still open later in some run: as long
      as the watermark has not passed its end. */
  lemma WindowCanOpenIff(c: Config, durable: bool, tr: Trace, ev: Event)
    requires c.size % SECOND == 0 && c.lateness >= 0
    requires Legal(c, durable, tr) && KeyOf(c, ev) !in Run(c, durable, tr).windows
    ensures (exists more :: OpensIn(c, durable, tr, more, KeyOf(c, ev))) <==> !IsLate(c, MaxTs(tr), KeyOf(c, ev))
  {
    var k := KeyOf(c, ev);
    if IsLate(c, MaxTs(tr), k) {
      forall more | Extends(tr, more) && Legal(c, durable, more) ensures !OpensIn(c, durable, tr, more, k) {
        PassedWindowsStayShut(c, durable, tr, more, k);
      }
    } else {
      var more := OpenAgain(c, durable, tr, ev);
    }
  }

  /** Some batch after the first `n` reports the window as normal. */
  ghost predicate NormalReportAfter(out: seq<Batch>, n: nat, k: Key) {
    exists i :: n <= i < |out| && out[i].key == k && !out[i].corrected
  }

  /** A longer run that reports the window as normal, after the run so far. */
  ghost predicate ReportsNormalIn(c: Config, durable: bool, tr: Trace, more: Trace, k: Key)
    requires Legal(c, durable, tr)
  {
    Extends(tr, more) && Legal(c, durable, more)
    && NormalReportAfter(Run(c, durable, more).out, |Run(c, durable, tr).out|, k)
  }

  /** Only an open window is reported as normal. */
  lemma NormalReportsAreOfOpen(c: Config, s: State, step: Step, k: Key)
    requires Inv(s) && Enabled(c, s, step) && k !in s.windows
    ensures s.out <= Apply(c, s, step).out
    ensures !NormalReportAfter(Apply(c, s, step).out, |s.out|, k)
  {
    if step.Tick? {
      var more := Batches(c, s, step.order);
      assert Apply(c, s, step).out == s.out + more;
      assert forall i | 0 <= i < |more| :: more[i].key == step.order[i];
    }
  }

  lemma {:induction false} PassedWindowsAreNotReported(c: Config, durable: bool, tr: Trace, more: Trace, k: Key)
    requires Extends(tr, more) && Legal(c, durable, tr) && Legal(c, durable, more)
    requires Passed(c, MaxTs(tr), k) && k !in Run(c, durable, tr).windows
    ensures Run(c, durable, tr).out <= Run(c, durable, more).out
    ensures !NormalReportAfter(Run(c, durable, more).out, |Run(c, durable, tr).out|, k)
  {
    if tr == more {
    } else {
      PassedWindowsAreNotReported(c, durable, tr, more.before, k);
      PassedWindowsStayShut(c, durable, tr, more.before, k);
      InvHolds(c, durable, more.before);
      NormalReportsAreOfOpen(c, Run(c, durable, more.before), more.step, k);
    }
  }

  /** A tick that sends one open window, by the processing clock, and is cut short. */
  lemma ReportOpenWindow(c: Config, durable: bool, tr: Trace, k: Key) returns (more: Trace)
    requires Legal(c, durable, tr) && k in Run(c, durable, tr).windows
    ensures more.After? && more.before == tr && ReportsNormalIn(c, durable, tr, more, k)
  {
    var s := Run(c, durable, tr);
    more := After(tr, Tick(WindowEnd(c, k) + c.lateness, [k], false));
    InvHolds(c, durable, tr);
    assert Extends(tr, more);
    assert Run(c, durable, more).out == s.out + Batches(c, s, [k]);
    assert Run(c, durable, more).out[|s.out|] == BatchOf(c, s.windows[k], false);
  }

  lemma {:induction false} ExtendsFurther(tr: Trace, mid: Trace, more: Trace)
    requires Extends(tr, mid) && Extends(mid, more)
    ensures Extends(tr, more)
  {
    if mid == more {
    } else {
      ExtendsFurther(tr, mid, more.before);
    }
  }

  lemma ReportAgain(c: Config, durable: bool, tr: Trace, ev: Event) returns (more: Trace)
    requires c.size % SECOND == 0 && c.lateness >= 0
    requires Legal(c, durable, tr) && !IsLate(c, MaxTs(tr), KeyOf(c, ev))
    ensures ReportsNormalIn(c, durable, tr, more, KeyOf(c, ev))
  {
    var reopened := OpenAgain(c, durable, tr, ev);
    more := ReportOpenWindow(c, durable, reopened, KeyOf(c, ev));
    ExtendsFurther(tr, reopened, more);
    OutGrows(c, durable, tr, reopened);
    var n, m := |Run(c, durable, tr).out|, |Run(c, durable, reopened).out|;
    var i :| m <= i < |Run(c, durable, more).out|
             && Run(c, durable, more).out[i].key == KeyOf(c, ev) && !Run(c, durable, more).out[i].corrected;
    assert n <= i;
  }

  /** Exactly when a window that is not open can still be reported as normal, so for a
      second time if it was before: in some continuation, if and only if the watermark
      has not passed its end. A report by the processing clock is never final. */
  lemma WindowCanBeReportedIff(c: Config, durable: bool, tr: Trace, ev: Event)
    requires c.size % SECOND == 0 && c.lateness >= 0
    requires Legal(c, durable, tr) && KeyOf(c, ev) !in Run(c, durable, tr).windows
    ensures (exists more :: ReportsNormalIn(c, durable, tr, more, KeyOf(c, ev))) <==> !IsLate(c, MaxTs(tr), KeyOf(c, ev))
  {
    var k := KeyOf(c, ev);
    if IsLate(c, MaxTs(tr), k) {
      forall more | Extends(tr, more) && Legal(c, durable, more) ensures !ReportsNormalIn(c, durable, tr, more, k) {
        PassedWindowsAreNotReported(c, durable, tr, more, k);
      }
    } else {
      var more := ReportAgain(c, durable, tr, ev);
    }
  }

  /** Late enough on the processing clock to close and forget a window at once. */
  function ForgetAt(c: Config, k: Key): Step {
    Tick(WindowEnd(c, k) + 2 * c.lateness, [k], true)
  }

  ghost predicate HoldsNothing(s: State) {
    Inv(s) && s.windows == map[] && s.closed == map[]
  }

  lemma OpenFirstWindow(c: Config, s: State, ev: Event)
    requires c.size % SECOND == 0 && c.lateness >= 0
    requires HoldsNothing(s) && !Passed(c, s.maxTS, KeyOf(c, ev))
    ensures var t := AddEvent(c, s, ev);
            && Inv(t) && t.windows.Keys == {KeyOf(c, ev)} && t.closed == map[] && t.out == s.out
  {
    AddInv(c, s, ev);
    WholeSecondWindow(c.size, ev.ts);
  }

  lemma CollectEverything(c: Config, s: State, now: int)
    requires forall k | k in s.closed :: GcDue(c, s.maxTS, now, k)
    ensures Collect(c, s, now).closed == map[]
  {
    assert s.closed.Keys <= Due(c, s, now);
  }

  lemma ForgetOnlyWindow(c: Config, t: State, k: Key)
    requires c.lateness >= 0 && Inv(t) && t.windows.Keys == {k} && t.closed == map[]
    ensures Enabled(c, t, ForgetAt(c, k))
    ensures var u := Apply(c, t, ForgetAt(c, k));
            && HoldsNothing(u) && u.maxTS == t.maxTS
            && u.out == t.out + [BatchOf(c, t.windows[k], false)]
  {
    var now := WindowEnd(c, k) + 2 * c.lateness;
    TickInv(c, t, now, [k], true);
    CloseOne(c, t, k);
    CollectEverything(c, Close(c, t, [k]), now);
  }

  lemma OpenThenForget(c: Config, s: State, ev: Event)
    requires c.size % SECOND == 0 && c.lateness >= 0
    requires HoldsNothing(s) && !Passed(c, s.maxTS, KeyOf(c, ev))
    ensures var k, t := KeyOf(c, ev), AddEvent(c, s, ev);
            && Enabled(c, t, ForgetAt(c, k))
            && var u := Apply(c, t, ForgetAt(c, k));
            && HoldsNothing(u) && u.maxTS == t.maxTS
            && |u.out| == |s.out| + 1 && s.out <= u.out
            && u.out[|s.out|].key == k && !u.out[|s.out|].corrected
  {
    OpenFirstWindow(c, s, ev);
    ForgetOnlyWindow(c, AddEvent(c, s, ev), KeyOf(c, ev));
  }

  /** A window filled, closed and forgotten by the processing clock, then filled and
      closed again. */
  function ReportedTwice(c: Config, ev: Event): Trace {
    var once := After(After(Start, Add(ev)), ForgetAt(c, KeyOf(c, ev)));
    After(After(once, Add(ev)), ForgetAt(c, KeyOf(c, ev)))
  }

  /** Without the condition on collection the claim fails, whatever the lateness,
      and even if no event is late: two normal reports for one window. */
  lemma ProcessingClockReportsTwice(c: Config, durable: bool, ev: Event)
    requires c.size % SECOND == 0 && c.lateness >= 0 && ev.ts >= 0
    ensures var tr := ReportedTwice(c, ev);
            && OnTime(c, tr) && Legal(c, durable, tr)
            && !NormalKeysDistinct(Run(c, durable, tr).out)
  {
    var tr := ReportedTwice(c, ev);
    var t1, t2 := tr.before.before.before, tr.before.before;
    WholeSecondWindow(c.size, ev.ts);
    assert MaxTs(Start) == 0 && MaxTs(t1) == ev.ts && MaxTs(t2) == ev.ts;
    assert OnTime(c, Start) && OnTime(c, t1) && OnTime(c, t2) && OnTime(c, tr.before);
    ReportOnce(c, durable, Start, ev);
    ReportOnce(c, durable, t2, ev);
    var out, once := Run(c, durable, tr).out, Run(c, durable, t2).out;
    assert out[0] == once[0] && out[0].key == out[1].key;
  }

  /** From a manager that holds nothing to one that has reported the window once more. */
  lemma ReportOnce(c: Config, durable: bool, tr: Trace, ev: Event)
    requires c.size % SECOND == 0 && c.lateness >= 0
    requires Legal(c, durable, tr) && HoldsNothing(Run(c, durable, tr)) && !Passed(c, Run(c, durable, tr).maxTS, KeyOf(c, ev))
    ensures var more := After(After(tr, Add(ev)), ForgetAt(c, KeyOf(c, ev)));
            && Legal(c, durable, more) && HoldsNothing(Run(c, durable, more))
            && Run(c, durable, more).maxTS == AddEvent(c, Run(c, durable, tr), ev).maxTS
            && var s, u := Run(c, durable, tr), Run(c, durable, more);
            |u.out| == |s.out| + 1 && s.out <= u.out && u.out[|s.out|].key == KeyOf(c, ev) && !u.out[|s.out|].corrected
  {
    OpenThenForget(c, Run(c, durable, tr), ev);
    assert Run(c, durable, After(tr, Add(ev))) == AddEvent(c, Run(c, durable, tr), ev);
  }
}
