/** Which events are reported as corrections, and what a window reports while it is
    retained. `Shut` and `Retained` read a trace only. */
module Corrections {
  import opened Model
  import opened EventTime
  import opened Tumbling
  import opened Deadlines
  import opened Traces
  import opened Reports
  import opened Aggregator
  import opened Rules

  // ---- When is a window shut? -------------------------------------------------

  /** Since it was last collected, the window was sent by a tick, or begun by an event
      that came after the watermark had passed its end. */
  predicate Shut(c: Config, tr: Trace, k: Key) {
    tr.After?
    && !Horizon(c, MaxTs(tr.before), tr.step, k)
    && (if tr.step.Tick? && k in tr.step.order then true
        else if tr.step.Add? && KeyOf(c, tr.step.ev) == k && Since(c, tr.before, k) == [] then IsLate(c, MaxTs(tr), k)
        else Shut(c, tr.before, k))
  }

  lemma AddShuts(c: Config, s: State, ev: Event, k: Key)
    requires Inv(s)
    ensures var t := AddEvent(c, s, ev);
            k in t.closed <==> if KeyOf(c, ev) == k && !IsHeld(s, k) then Passed(c, t.maxTS, k) else k in s.closed
  {
  }

  lemma TickShuts(c: Config, s: State, now: int, order: seq<Key>, complete: bool, k: Key)
    requires TickAllowed(c, s, now, order, complete)
    ensures k in TickWindows(c, s, now, order, complete).closed
       <==> (k in s.closed || k in order) && !(complete && GcDue(c, s.maxTS, now, k))
  {
    assert k in Close(c, s, order).closed <==> k in s.closed || k in order;
  }

  lemma {:induction false} ClosedIffShut(c: Config, durable: bool, tr: Trace, k: Key)
    requires Legal(c, durable, tr) && c.lateness >= 0
    ensures k in Run(c, durable, tr).closed <==> Shut(c, tr, k)
  {
    if tr.Start? {
    } else {
      ClosedIffShut(c, durable, tr.before, k);
      BucketsAreHistory(c, durable, tr.before, k);
      InvHolds(c, durable, tr.before);
      InvHolds(c, durable, tr);
      var s := Run(c, durable, tr.before);
      match tr.step
      case Add(ev) => AddShuts(c, s, ev, k);
      case Tick(now, order, complete) => TickShuts(c, s, now, order, complete, k);
      case Crash => RestartIsInvisible(s);
    }
  }

  // ---- When is an event reported? ---------------------------------------------

  /** Exactly what an event makes a manager send: if its window is shut once the event
      is in, one correction with everything since the window's last collection; and
      otherwise nothing. The lateness only matters through the collections. */
  lemma EventIsReportedIffShut(c: Config, durable: bool, tr: Trace, ev: Event)
    requires Legal(c, durable, tr) && c.lateness >= 0
    ensures var next, k := After(tr, Add(ev)), KeyOf(c, ev);
            && Legal(c, durable, next)
            && Run(c, durable, next).out ==
                 Run(c, durable, tr).out
                 + if Shut(c, next, k) then [Batch(k, k.start + c.size, Since(c, next, k), |Since(c, next, k)|, true)] else []
  {
    var next, k := After(tr, Add(ev)), KeyOf(c, ev);
    var s := Run(c, durable, tr);
    InvHolds(c, durable, tr);
    InvHolds(c, durable, next);
    ClosedIffShut(c, durable, next, k);
    BucketsAreHistory(c, durable, next, k);
    AddSends(c, s, ev);
  }

  lemma AddSends(c: Config, s: State, ev: Event)
    requires Inv(s)
    ensures var t, k := AddEvent(c, s, ev), KeyOf(c, ev);
            t.out == s.out + if k in t.closed then [BatchOf(c, t.closed[k], true)] else []
  {
    AdvanceInv(s, ev);
    PlaceInv(c, Advance(s, ev), ev);
    assert s.out + [] == s.out;
  }

  /** An event for a window past the watermark and not held is reported by itself,
      whatever the window held before it was collected. */
  lemma LateEventIsReportedAlone(c: Config, durable: bool, tr: Trace, ev: Event)
    requires Legal(c, durable, tr) && c.lateness >= 0
    requires Since(c, tr, KeyOf(c, ev)) == [] && IsLate(c, MaxTs(tr), KeyOf(c, ev))
    ensures var k := KeyOf(c, ev);
            && Legal(c, durable, After(tr, Add(ev)))
            && Run(c, durable, After(tr, Add(ev))).out
               == Run(c, durable, tr).out + [Batch(k, k.start + c.size, [ev], 1, true)]
  {
    var next, k := After(tr, Add(ev)), KeyOf(c, ev);
    EventIsReportedIffShut(c, durable, tr, ev);
    assert MaxTs(next) >= MaxTs(tr) && Shut(c, next, k);
    assert Since(c, next, k) == [] + [ev] == [ev];
  }

  // ---- A lateness of zero -----------------------------------------------------

  /** What is true of "dropped immediately": a complete tick forgets at once what it
      sends, so no window is shut that the watermark has passed or that the tick sent. */
  lemma ZeroLatenessDropsAtOnce(c: Config, durable: bool, tr: Trace, now: int, order: seq<Key>, k: Key)
    requires c.lateness == 0 && Legal(c, durable, After(tr, Tick(now, order, true)))
    requires k in order || IsLate(c, MaxTs(tr), k)
    ensures !Shut(c, After(tr, Tick(now, order, true)), k)
    ensures !IsHeld(Run(c, durable, After(tr, Tick(now, order, true))), k)
  {
    InvHolds(c, durable, tr);
    TickHeld(c, Run(c, durable, tr), now, order, true, k);
  }

  /** What is not: the next event for a window that is no longer held is corrected
      exactly when the newest timestamp has reached the window's end. */
  lemma ZeroLatenessCorrectsIff(c: Config, durable: bool, tr: Trace, ev: Event)
    requires c.lateness == 0 && c.size % SECOND == 0
    requires Legal(c, durable, tr) && Since(c, tr, KeyOf(c, ev)) == []
    ensures Legal(c, durable, After(tr, Add(ev)))
    ensures Run(c, durable, After(tr, Add(ev))).out != Run(c, durable, tr).out
       <==> MaxTs(tr) >= Unix(WindowEnd(c, KeyOf(c, ev)))
  {
    EventIsReportedIffShut(c, durable, tr, ev);
    WholeSecondWindow(c.size, ev.ts);
  }

  /** A run without lateness that sends a correction: a first event, and one from a
      window that had ended by then. */
  lemma ZeroLatenessCorrects(c: Config, durable: bool, first: Event, late: Event)
    requires c.lateness == 0 && c.size % SECOND == 0
    requires first.ts > 0 && first.ts >= Unix(WindowEnd(c, KeyOf(c, late)))
    ensures var tr, k := After(After(Start, Add(first)), Add(late)), KeyOf(c, late);
            && Legal(c, durable, tr)
            && Run(c, durable, tr).out == [Batch(k, k.start + c.size, [late], 1, true)]
  {
    var once := After(Start, Add(first));
    WholeSecondWindow(c.size, first.ts);
    assert KeyOf(c, first) != KeyOf(c, late);
    assert MaxTs(Start) == 0 && MaxTs(once) == first.ts;
    assert Since(c, Start, KeyOf(c, late)) == [];
    assert Since(c, once, KeyOf(c, late)) == [];
    EventIsReportedIffShut(c, durable, Start, first);
    assert !Shut(c, Start, KeyOf(c, first)) && !Shut(c, once, KeyOf(c, first));
    LateEventIsReportedAlone(c, durable, once, late);
  }

  /** And one that does not, though the watermark has passed the window's end: until
      a tick sends it, an open window takes late events in silence. */
  lemma OpenWindowTakesLateEvents(c: Config, durable: bool, early: Event, newer: Event, late: Event)
    requires c.lateness == 0 && c.size % SECOND == 0 && early.ts >= 0
    requires KeyOf(c, early) == KeyOf(c, late) && newer.ts >= Unix(WindowEnd(c, KeyOf(c, late)))
    ensures var tr := After(After(Start, Add(early)), Add(newer));
            && Legal(c, durable, After(tr, Add(late))) && IsLate(c, MaxTs(tr), KeyOf(c, late))
            && Run(c, durable, After(tr, Add(late))).out == []
  {
    var t1 := After(Start, Add(early));
    var t2 := After(t1, Add(newer));
    var k := KeyOf(c, late);
    WholeSecondWindow(c.size, early.ts);
    WholeSecondWindow(c.size, newer.ts);
    assert MaxTs(Start) == 0 && MaxTs(t1) == early.ts && MaxTs(t2) == newer.ts;
    assert Since(c, Start, k) == [] && !Shut(c, t1, k) && Since(c, t1, k) == [early];
    assert Since(c, t2, k) == [early] && !Shut(c, t2, k);
    assert KeyOf(c, newer) != k;
    assert Since(c, t1, KeyOf(c, newer)) == [] && !Shut(c, t2, KeyOf(c, newer));
    EventIsReportedIffShut(c, durable, Start, early);
    EventIsReportedIffShut(c, durable, t1, newer);
    EventIsReportedIffShut(c, durable, t2, late);
  }

  // ---- The last report of a shut window ---------------------------------------

  /** What sent the window last: an event, or a tick. */
  predicate SentByEvent(c: Config, tr: Trace, k: Key) {
    tr.After?
    && !(tr.step.Tick? && k in tr.step.order)
    && ((tr.step.Add? && KeyOf(c, tr.step.ev) == k && Shut(c, tr, k)) || SentByEvent(c, tr.before, k))
  }

  lemma {:induction false} LastReportMark(c: Config, durable: bool, tr: Trace, k: Key)
    requires Legal(c, durable, tr) && c.lateness >= 0 && Shut(c, tr, k)
    ensures var last := LastBatch(Run(c, durable, tr).out, k);
            last.Some? && last.value.corrected == SentByEvent(c, tr, k)
  {
    var s := Run(c, durable, tr.before);
    InvHolds(c, durable, tr.before);
    if Shut(c, tr.before, k) {
      LastReportMark(c, durable, tr.before, k);
    }
    match tr.step
    case Add(ev) =>
      EventIsReportedIffShut(c, durable, tr.before, ev);
      LastBatchAppend(s.out, Run(c, durable, tr).out[|s.out|..], k);
      assert Run(c, durable, tr).out == s.out + Run(c, durable, tr).out[|s.out|..];
    case Tick(now, order, complete) =>
      LastBatchAppend(s.out, Batches(c, s, order), k);
      LastBatchOfBatches(c, s, order, k);
    case Crash => RestartIsInvisible(s);
  }

  /** A report of a bucket, spelled out. */
  lemma ReportSpelledOut(c: Config, last: Option<Batch>, b: Bucket, k: Key, events: seq<Event>, mark: bool)
    requires IsReportOf(c, last, b) && b.key == k && b.events == events && b.count == |events|
    requires last.value.corrected == mark
    ensures last == Some(Batch(k, k.start + c.size, events, |events|, mark))
  {
  }

  /** The last batch sent for a shut window is its history since the last collection,
      whole, in arrival order, and marked by what sent it. */
  lemma LastReportIsHistory(c: Config, durable: bool, tr: Trace, k: Key)
    requires Legal(c, durable, tr) && c.lateness >= 0 && Shut(c, tr, k)
    ensures LastBatch(Run(c, durable, tr).out, k)
         == Some(Batch(k, k.start + c.size, Since(c, tr, k), |Since(c, tr, k)|, SentByEvent(c, tr, k)))
  {
    ClosedIffShut(c, durable, tr, k);
    ClosedAreReported(c, durable, tr);
    assert IsReportOf(c, LastBatch(Run(c, durable, tr).out, k), Run(c, durable, tr).closed[k]);
    BucketsAreHistory(c, durable, tr, k);
    InvHolds(c, durable, tr);
    LastReportMark(c, durable, tr, k);
    var s := Run(c, durable, tr);
    ReportSpelledOut(c, LastBatch(s.out, k), s.closed[k], k, Since(c, tr, k), SentByEvent(c, tr, k));
  }

  // ---- While a window is retained ---------------------------------------------

  /** `more` continues `tr` without ever collecting the window. */
  predicate Retained(c: Config, tr: Trace, more: Trace, k: Key) {
    tr == more
    || (more.After? && !Horizon(c, MaxTs(more.before), more.step, k) && Retained(c, tr, more.before, k))
  }

  /** The events of the window that `more` has and `tr` has not. */
  function Arrived(c: Config, tr: Trace, more: Trace, k: Key): seq<Event> {
    if tr == more || more.Start? then []
    else if more.step.Add? && KeyOf(c, more.step.ev) == k then Arrived(c, tr, more.before, k) + [more.step.ev]
    else Arrived(c, tr, more.before, k)
  }

  /** All batches of one window, in the order they were sent. */
  function ReportsOf(out: seq<Batch>, k: Key): seq<Batch> {
    if out == [] then []
    else
      var n := |out| - 1;
      if out[n].key == k then ReportsOf(out[..n], k) + [out[n]] else ReportsOf(out[..n], k)
  }

  lemma ReportsSnoc(out: seq<Batch>, b: Batch, k: Key)
    ensures ReportsOf(out + [b], k) == if b.key == k then ReportsOf(out, k) + [b] else ReportsOf(out, k)
  {
    assert (out + [b])[..|out|] == out;
  }

  lemma {:induction false} ReportsOfOthers(out: seq<Batch>, more: seq<Batch>, k: Key)
    requires forall b | b in more :: b.key != k
    ensures ReportsOf(out + more, k) == ReportsOf(out, k)
  {
    if more == [] {
      assert out + more == out;
    } else {
      var n := |more| - 1;
      assert out + more == (out + more[..n]) + [more[n]];
      ReportsSnoc(out + more[..n], more[n], k);
      ReportsOfOthers(out, more[..n], k);
    }
  }

  lemma {:induction false} LastBatchIsLastReport(out: seq<Batch>, k: Key)
    ensures LastBatch(out, k) == if ReportsOf(out, k) == [] then None else Some(Last(ReportsOf(out, k)))
  {
    if out == [] {
    } else {
      LastBatchIsLastReport(out[..|out| - 1], k);
    }
  }

  /** The report that follows `last` when one more event arrives. */
  function Correction(last: Batch, ev: Event): Batch {
    last.(events := last.events + [ev], count := last.count + 1, corrected := true)
  }

  /** Each report after the first ones is the one before it and one more event. */
  ghost predicate GrowsByOne(before: seq<Batch>, after: seq<Batch>, evs: seq<Event>) {
    && before != [] && before <= after && |after| == |before| + |evs|
    && forall j | |before| <= j < |after| :: after[j] == Correction(after[j - 1], evs[j - |before|])
  }

  lemma GrowsOneMore(before: seq<Batch>, after: seq<Batch>, evs: seq<Event>, ev: Event)
    requires GrowsByOne(before, after, evs)
    ensures GrowsByOne(before, after + [Correction(Last(after), ev)], evs + [ev])
  {
  }

  /** One step of a manager, for a window that it holds closed and does not collect. */
  lemma RetainedStep(c: Config, s: State, step: Step, k: Key)
    requires Inv(s) && ClosedReported(c, s) && Enabled(c, s, step)
    requires k in s.closed && !Horizon(c, s.maxTS, step, k)
    ensures var t := Apply(c, s, step);
            && k in t.closed && ReportsOf(s.out, k) != []
            && ReportsOf(t.out, k) == if step.Add? && KeyOf(c, step.ev) == k
                                      then ReportsOf(s.out, k) + [Correction(Last(ReportsOf(s.out, k)), step.ev)]
                                      else ReportsOf(s.out, k)
  {
    assert IsReportOf(c, LastBatch(s.out, k), s.closed[k]);
    LastBatchIsLastReport(s.out, k);
    match step
    case Add(ev) =>
      AddRetains(c, s, ev, k);
    case Tick(now, order, complete) =>
      TickShuts(c, s, now, order, complete, k);
      ReportsOfOthers(s.out, Batches(c, s, order), k);
    case Crash => RestartIsInvisible(s);
  }

  /** An event for a closed window: the last report and that event are sent. */
  lemma AddCorrects(c: Config, s: State, ev: Event, last: Batch)
    requires Inv(s) && KeyOf(c, ev) in s.closed && IsReportOf(c, Some(last), s.closed[KeyOf(c, ev)])
    ensures KeyOf(c, ev) in AddEvent(c, s, ev).closed
    ensures AddEvent(c, s, ev).out == s.out + [Correction(last, ev)]
  {
  }

  /** An event for another window sends nothing about this one. */
  lemma AddElsewhere(c: Config, s: State, ev: Event, k: Key) returns (more: seq<Batch>)
    requires Inv(s) && KeyOf(c, ev) != k
    ensures k in AddEvent(c, s, ev).closed <==> k in s.closed
    ensures AddEvent(c, s, ev).out == s.out + more && forall b | b in more :: b.key != k
  {
    var t := AddEvent(c, s, ev);
    AddInv(c, s, ev);
    AddSends(c, s, ev);
    more := if KeyOf(c, ev) in t.closed then [BatchOf(c, t.closed[KeyOf(c, ev)], true)] else [];
  }

  lemma AddRetains(c: Config, s: State, ev: Event, k: Key)
    requires Inv(s) && k in s.closed
    requires ReportsOf(s.out, k) != [] && IsReportOf(c, Some(Last(ReportsOf(s.out, k))), s.closed[k])
    ensures var t := AddEvent(c, s, ev);
            && k in t.closed
            && ReportsOf(t.out, k) == if KeyOf(c, ev) == k
                                      then ReportsOf(s.out, k) + [Correction(Last(ReportsOf(s.out, k)), ev)]
                                      else ReportsOf(s.out, k)
  {
    if KeyOf(c, ev) == k {
      var last := Last(ReportsOf(s.out, k));
      AddCorrects(c, s, ev, last);
      ReportsSnoc(s.out, Correction(last, ev), k);
    } else {
      var more := AddElsewhere(c, s, ev, k);
      ReportsOfOthers(s.out, more, k);
    }
  }

  /** While a window is retained, through any ticks, crashes and other events: it stays
      closed, every event for it is reported, and each report is the previous one and
      exactly that event. */
  lemma {:induction false} RetainedWindowReports(c: Config, durable: bool, tr: Trace, more: Trace, k: Key)
    requires Legal(c, durable, tr) && Legal(c, durable, more) && Retained(c, tr, more, k)
    requires k in Run(c, durable, tr).closed
    ensures k in Run(c, durable, more).closed
    ensures GrowsByOne(ReportsOf(Run(c, durable, tr).out, k), ReportsOf(Run(c, durable, more).out, k), Arrived(c, tr, more, k))
  {
    if tr == more {
      ClosedAreReported(c, durable, tr);
      var s := Run(c, durable, tr);
      assert IsReportOf(c, LastBatch(s.out, k), s.closed[k]);
      LastBatchIsLastReport(s.out, k);
    } else {
      RetainedWindowReports(c, durable, tr, more.before, k);
      InvHolds(c, durable, more.before);
      ClosedAreReported(c, durable, more.before);
      var s := Run(c, durable, more.before);
      RetainedStep(c, s, more.step, k);
      if more.step.Add? && KeyOf(c, more.step.ev) == k {
        GrowsOneMore(ReportsOf(Run(c, durable, tr).out, k), ReportsOf(s.out, k), Arrived(c, tr, more.before, k), more.step.ev);
      }
    }
  }

  // ---- Alerts -----------------------------------------------------------------

  /** An alert that later events cannot withdraw. */
  ghost predicate Lasting(events: seq<Event>, r: Rule) {
    Fires(events, r) && (r.aggFunc == AggFunc.Count || Matching(events, r) != [])
  }

  lemma CorrectionLasts(last: Batch, ev: Event, r: Rule)
    requires Monotone(r) && Lasting(last.events, r)
    ensures Lasting(Correction(last, ev).events, r)
  {
    ExtensionKeepsFiring(last.events, ev, r);
    assert Prior(last.events + [ev]) == last.events;
  }

  lemma {:induction false} ChainLasts(before: seq<Batch>, after: seq<Batch>, evs: seq<Event>, r: Rule, j: nat)
    requires GrowsByOne(before, after, evs) && Monotone(r) && Lasting(Last(before).events, r)
    requires |before| - 1 <= j < |after|
    ensures Lasting(after[j].events, r)
  {
    if j == |before| - 1 {
    } else {
      ChainLasts(before, after, evs, r, j - 1);
      CorrectionLasts(after[j - 1], evs[j - |before|], r);
    }
  }

  /** Over whole runs: a monotone alert that fired on a report of a window, with an
      event that matched, fires on every later report while the window is retained. */
  lemma CorrectionsKeepAlertsFiring(c: Config, durable: bool, tr: Trace, more: Trace, k: Key, r: Rule)
    requires Legal(c, durable, tr) && Legal(c, durable, more) && Retained(c, tr, more, k)
    requires k in Run(c, durable, tr).closed && Monotone(r)
    ensures var before, after := ReportsOf(Run(c, durable, tr).out, k), ReportsOf(Run(c, durable, more).out, k);
            && before != [] && before <= after
            && (Lasting(Last(before).events, r) ==> forall j | |before| <= j < |after| :: Fires(after[j].events, r))
  {
    RetainedWindowReports(c, durable, tr, more, k);
    var before, after := ReportsOf(Run(c, durable, tr).out, k), ReportsOf(Run(c, durable, more).out, k);
    if Lasting(Last(before).events, r) {
      forall j | |before| <= j < |after| ensures Fires(after[j].events, r) {
        ChainLasts(before, after, Arrived(c, tr, more, k), r, j);
      }
    }
  }

  /** Over whole runs, exactly when an alert that fired on the last report of a window
      fires on the next one too. */
  lemma AlertSurvivesCorrectionIff(c: Config, durable: bool, tr: Trace, ev: Event, r: Rule)
    requires Legal(c, durable, tr) && c.lateness >= 0 && Shut(c, tr, KeyOf(c, ev)) && Monotone(r)
    ensures var next, k := After(tr, Add(ev)), KeyOf(c, ev);
            && Legal(c, durable, next)
            && var last, correction := LastBatch(Run(c, durable, tr).out, k), LastBatch(Run(c, durable, next).out, k);
            && last.Some? && correction.Some?
            && (Fires(last.value.events, r) ==> (Fires(correction.value.events, r) <==> Outlives(last.value.events, ev, r)))
  {
    var next, k := After(tr, Add(ev)), KeyOf(c, ev);
    ShutHasEvents(c, durable, tr, k);
    LastReportIsHistory(c, durable, tr, k);
    LastReportIsHistory(c, durable, next, k);
    if Fires(Since(c, tr, k), r) {
      AlertSurvivesIff(Since(c, tr, k), ev, r);
    }
  }

  lemma ShutHasEvents(c: Config, durable: bool, tr: Trace, k: Key)
    requires Legal(c, durable, tr) && c.lateness >= 0 && Shut(c, tr, k)
    ensures Since(c, tr, k) != []
  {
    ClosedIffShut(c, durable, tr, k);
    BucketsAreHistory(c, durable, tr, k);
  }

  /** An alert for a load of at least 0 among the hot events of a service. */
  const HOT_LOAD := Rule("hot load", "level", "hot", ["service"], AggFunc.Max, "load", Op.Gte, 0.0, 0, 0)

  const COLD := Event("s", "cold", 1, map[], "")
  const HOT := Event("s", "hot", 1, map["load" := FieldValue("-5", Some(-5.0))], "")

  /** A cold event, the end of its window, and a hot event late for that window. */
  function ColdThenHot(c: Config): Trace {
    var k := KeyOf(c, COLD);
    After(After(After(Start, Add(COLD)), Tick(WindowEnd(c, k) + c.lateness, [k], true)), Add(HOT))
  }

  /** A run in which an event of the window withdraws an alert. */
  lemma CorrectionWithdrawsAlert(c: Config, durable: bool)
    requires c.fields == ["service"] && c.size % SECOND == 0 && c.lateness > 0
    ensures var tr, k := ColdThenHot(c), KeyOf(c, COLD);
            && Legal(c, durable, tr) && KeyOf(c, HOT) == k && Monotone(HOT_LOAD)
            && var last, correction := LastBatch(Run(c, durable, tr.before).out, k), LastBatch(Run(c, durable, tr).out, k);
            && last.Some? && Fires(last.value.events, HOT_LOAD)
            && correction.Some? && !Fires(correction.value.events, HOT_LOAD)
  {
    var tr, k := ColdThenHot(c), KeyOf(c, COLD);
    var began := tr.before.before;
    assert GroupValues(COLD, ["service"]) == ["s"] == GroupValues(HOT, ["service"]);
    WholeSecondWindow(c.size, 1);
    assert MaxTs(Start) == 0 && MaxTs(began) == 1;
    assert Run(c, durable, began).windows.Keys == {k};
    assert Legal(c, durable, tr.before);
    assert Since(c, Start, k) == [] && Since(c, began, k) == [] + [COLD] == [COLD];
    assert Shut(c, tr.before, k) && Since(c, tr.before, k) == [COLD];
    LastReportIsHistory(c, durable, tr.before, k);
    OnlyColdFires();
    AlertSurvivesCorrectionIff(c, durable, tr.before, HOT, HOT_LOAD);
  }

  lemma OnlyColdFires()
    ensures Fires([COLD], HOT_LOAD) && !Outlives([COLD], HOT, HOT_LOAD)
  {
    assert Prior([COLD]) == [] && Last([COLD]) == COLD;
    assert !Matches(HOT_LOAD, COLD) && Matches(HOT_LOAD, HOT);
    assert Matching([COLD], HOT_LOAD) == [];
    ExtremesMeaning([COLD], HOT_LOAD);
    assert FirstExtreme(HOT, HOT_LOAD) == Finite(-5.0);
  }
}
