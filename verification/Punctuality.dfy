/** Completeness of a single window, with clocks that close windows: when its one report
    already holds everything that will ever arrive for it. */
module Punctuality {
  import opened Model
  import opened EventTime
  import opened Tumbling
  import opened Deadlines
  import opened Traces
  import opened Reports
  import opened Corrections
  import Completeness

  /** A tick found the clock past the window's end by the lateness. */
  predicate Rung(c: Config, tr: Trace, k: Key) {
    tr.After? && (Rung(c, tr.before, k) || (tr.step.Tick? && ClockReached(c, tr.step.now, k)))
  }

  /** No event of the window is behind the newest one by more than the lateness, and none
      comes after such a tick. What happens to other windows is free. */
  predicate Punctual(c: Config, tr: Trace, k: Key) {
    tr.After? ==>
      && Punctual(c, tr.before, k)
      && (tr.step.Add? && KeyOf(c, tr.step.ev) == k ==>
            (MaxTs(tr.before) - tr.step.ev.ts) * SECOND <= c.lateness && !Rung(c, tr.before, k))
  }

  /** The one report of a window that got all of `events`. */
  function FullReport(c: Config, events: seq<Event>, k: Key): Batch {
    Batch(k, k.start + c.size, OfKey(c, events, k), |OfKey(c, events, k)|, false)
  }

  /** The window is untouched, or open with everything, or reported with everything; and
      once reported, it is late or its clock has rung. */
  ghost predicate OneReport(c: Config, inputs: seq<Event>, rung: bool, s: State, k: Key) {
    var events, sent := OfKey(c, inputs, k), ReportsOf(s.out, k);
    && (k in s.windows ==> sent == [] && s.windows[k].events == events && s.windows[k].count == |events|)
    && (k in s.closed ==> sent != [])
    && (sent != [] ==> sent == [FullReport(c, inputs, k)] && (IsLate(c, s.maxTS, k) || rung))
    && (events != [] ==> k in s.windows || sent != [])
  }

  /** An event for the window itself comes in time, so nothing of it was sent yet. */
  lemma AddToWindow(c: Config, inputs: seq<Event>, s: State, ev: Event)
    requires c.size % SECOND == 0 && c.lateness >= 0
    requires Inv(s) && OneReport(c, inputs, false, s, KeyOf(c, ev))
    requires (s.maxTS - ev.ts) * SECOND <= c.lateness
    ensures OneReport(c, inputs + [ev], false, AddEvent(c, s, ev), KeyOf(c, ev))
  {
    var k, t := KeyOf(c, ev), AddEvent(c, s, ev);
    EventInTimeIsNotLate(c, s.maxTS, ev);
    EventInTimeIsTaken(c, s, ev);
    Completeness.OfKeySnoc(c, inputs, ev, k);
    assert ReportsOf(s.out, k) == [] && k !in s.closed;
    AddHeld(c, s, ev, k);
    AddInv(c, s, ev);
  }

  lemma AddElsewhereKeeps(c: Config, inputs: seq<Event>, rung: bool, s: State, ev: Event, k: Key)
    requires c.lateness >= 0 && Inv(s) && OneReport(c, inputs, rung, s, k) && KeyOf(c, ev) != k
    ensures OneReport(c, inputs + [ev], rung, AddEvent(c, s, ev), k)
  {
    var more := AddElsewhere(c, s, ev, k);
    AddHeld(c, s, ev, k);
    Completeness.OfKeySnoc(c, inputs, ev, k);
    ReportsOfOthers(s.out, more, k);
    AddAdvances(c, s, ev, k);
  }

  lemma AddAdvances(c: Config, s: State, ev: Event, k: Key)
    ensures AddEvent(c, s, ev).maxTS >= s.maxTS
    ensures KeyOf(c, ev) != k ==> (k in AddEvent(c, s, ev).windows <==> k in s.windows)
    ensures KeyOf(c, ev) != k && k in s.windows ==> AddEvent(c, s, ev).windows[k] == s.windows[k]
  {
  }

  lemma {:induction false} ReportsOfBatches(c: Config, s: State, order: seq<Key>, k: Key)
    requires Inv(s) && Distinct(order)
    requires forall x | x in order :: x in s.windows
    ensures ReportsOf(Batches(c, s, order), k) == if k in order then [BatchOf(c, s.windows[k], false)] else []
  {
    if order == [] {
    } else {
      var n := |order| - 1;
      assert order == order[..n] + [order[n]];
      ReportsOfBatches(c, s, order[..n], k);
      BatchesConcat(c, s, order[..n], [order[n]]);
      var b := BatchOf(c, s.windows[order[n]], false);
      assert Batches(c, s, [order[n]]) == [b];
      ReportsSnoc(Batches(c, s, order[..n]), b, k);
    }
  }

  lemma {:induction false} ReportsAppend(out: seq<Batch>, more: seq<Batch>, k: Key)
    ensures ReportsOf(out + more, k) == ReportsOf(out, k) + ReportsOf(more, k)
  {
    if more == [] {
      assert out + more == out;
    } else {
      var n := |more| - 1;
      assert out + more == (out + more[..n]) + [more[n]];
      assert more == more[..n] + [more[n]];
      ReportsSnoc(out + more[..n], more[n], k);
      ReportsSnoc(more[..n], more[n], k);
      ReportsAppend(out, more[..n], k);
    }
  }

  lemma OpenWindowIsFull(c: Config, inputs: seq<Event>, rung: bool, s: State, k: Key)
    requires Inv(s) && OneReport(c, inputs, rung, s, k) && k in s.windows
    ensures ReportsOf(s.out, k) == [] && BatchOf(c, s.windows[k], false) == FullReport(c, inputs, k)
  {
  }

  lemma CloseKeeps(c: Config, inputs: seq<Event>, rung: bool, s: State, now: int, order: seq<Key>, k: Key)
    requires c.lateness >= 0 && Inv(s) && OneReport(c, inputs, rung, s, k)
    requires TickAllowed(c, s, now, order, false)
    ensures OneReport(c, inputs, rung || ClockReached(c, now, k), Close(c, s, order), k)
  {
    var t := Close(c, s, order);
    ReportsAppend(s.out, Batches(c, s, order), k);
    ReportsOfBatches(c, s, order, k);
    if k in order {
      TickSendsIff(c, s, now, order, false, k);
      OpenWindowIsFull(c, inputs, rung, s, k);
    } else {
      assert ReportsOf(t.out, k) == ReportsOf(s.out, k);
    }
  }

  lemma TickKeeps(c: Config, inputs: seq<Event>, rung: bool, s: State, now: int, order: seq<Key>, complete: bool, k: Key)
    requires c.lateness >= 0 && Inv(s) && OneReport(c, inputs, rung, s, k)
    requires TickAllowed(c, s, now, order, complete)
    ensures OneReport(c, inputs, rung || ClockReached(c, now, k), TickWindows(c, s, now, order, complete), k)
  {
    CloseKeeps(c, inputs, rung, s, now, order, k);
  }

  lemma {:induction false} PunctualWindowHasOneReport(c: Config, durable: bool, tr: Trace, k: Key)
    requires c.size % SECOND == 0 && c.lateness >= 0
    requires Legal(c, durable, tr) && Punctual(c, tr, k)
    ensures OneReport(c, Inputs(tr), Rung(c, tr, k), Run(c, durable, tr), k)
  {
    if tr.Start? {
    } else {
      PunctualWindowHasOneReport(c, durable, tr.before, k);
      InvHolds(c, durable, tr.before);
      var s := Run(c, durable, tr.before);
      match tr.step
      case Add(ev) =>
        if KeyOf(c, ev) == k {
          AddToWindow(c, Inputs(tr.before), s, ev);
        } else {
          AddElsewhereKeeps(c, Inputs(tr.before), Rung(c, tr.before, k), s, ev, k);
        }
      case Tick(now, order, complete) =>
        TickKeeps(c, Inputs(tr.before), Rung(c, tr.before, k), s, now, order, complete, k);
      case Crash => RestartIsInvisible(s);
    }
  }

  lemma {:induction false} PunctualSoFar(c: Config, tr: Trace, more: Trace, k: Key)
    requires Completeness.Extends(tr, more) && Punctual(c, more, k)
    ensures Punctual(c, tr, k)
  {
    if tr == more {
    } else {
      PunctualSoFar(c, tr, more.before, k);
    }
  }

  lemma ReportsGrow(out: seq<Batch>, more: seq<Batch>, k: Key)
    requires out <= more
    ensures ReportsOf(out, k) <= ReportsOf(more, k)
  {
    assert more == out + more[|out|..];
    ReportsAppend(out, more[|out|..], k);
  }

  /** A window whose events all come in time, and before its clock rings, is reported at
      most once, uncorrected, and that report already holds every event of the window in
      any continuation of the stream. Clocks may close any window, and events of other
      windows may be as late as they like. */
  lemma PunctualReportIsComplete(c: Config, durable: bool, tr: Trace, more: Trace, k: Key)
    requires c.size % SECOND == 0 && c.lateness >= 0
    requires Completeness.Extends(tr, more) && Legal(c, durable, more) && Punctual(c, more, k)
    ensures Legal(c, durable, tr)
    ensures var sent := ReportsOf(Run(c, durable, tr).out, k);
            sent == [] || sent == [FullReport(c, Inputs(more), k)]
  {
    Completeness.OutGrows(c, durable, tr, more);
    PunctualWindowHasOneReport(c, durable, more, k);
    ReportsGrow(Run(c, durable, tr).out, Run(c, durable, more).out, k);
    var sent, all := ReportsOf(Run(c, durable, tr).out, k), ReportsOf(Run(c, durable, more).out, k);
    assert all == [] || all == [FullReport(c, Inputs(more), k)];
    assert sent != [] ==> |sent| == 1 && sent[0] == all[0];
  }

  /** And it is reported: a complete tick that finds it late, or its clock past its end by
      the lateness, leaves the report of a window that has an event. */
  lemma PunctualWindowIsReported(c: Config, durable: bool, tr: Trace, k: Key)
    requires c.size % SECOND == 0 && c.lateness >= 0
    requires Legal(c, durable, tr) && Punctual(c, tr, k) && OfKey(c, Inputs(tr), k) != []
    requires tr.After? && tr.step.Tick? && tr.step.complete
    requires IsLate(c, MaxTs(tr), k) || ClockReached(c, tr.step.now, k)
    ensures ReportsOf(Run(c, durable, tr).out, k) == [FullReport(c, Inputs(tr), k)]
  {
    PunctualWindowHasOneReport(c, durable, tr, k);
    InvHolds(c, durable, tr.before);
    var s := Run(c, durable, tr.before);
    if k in s.windows {
      TickSendsIff(c, s, tr.step.now, tr.step.order, true, k);
    }
  }
}
