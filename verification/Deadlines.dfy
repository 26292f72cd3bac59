/** The deadlines of a tumbling window in plain numbers, none of them read off the manager:
    its end, the lateness in whole seconds on the events' side, and the lateness in full on
    the clock's side. Statements about whole runs speak of these. */
module Deadlines {
  import opened Model
  import opened EventTime
  import opened Tumbling

  /** The newest event is past the window's end by the lateness, so what comes now for it
      is late. */
  predicate IsLate(c: Config, maxTS: int, k: Key) {
    maxTS >= Unix(k.start + c.size) + c.lateness / SECOND
  }

  /** The clock is past the window's end by the lateness. */
  predicate ClockReached(c: Config, now: int, k: Key) {
    now >= k.start + c.size + c.lateness
  }

  /** The newest event, or the clock, is past the window's end by twice the lateness. */
  predicate IsForgotten(c: Config, maxTS: int, now: int, k: Key) {
    maxTS >= Unix(k.start + c.size) + 2 * (c.lateness / SECOND) || now >= k.start + c.size + 2 * c.lateness
  }

  /** Go's quotient of durations: the whole part, whatever the sign. */
  lemma WholeSecondsMeaning(d: int)
    ensures WholeSeconds(-d) == -WholeSeconds(d)
    ensures d >= 0 ==> WholeSeconds(d) * SECOND <= d < (WholeSeconds(d) + 1) * SECOND
  {
  }

  /** What the manager tests, in these terms. */
  lemma DeadlinesArePlain(c: Config, maxTS: int, now: int, k: Key)
    requires c.lateness >= 0
    ensures Passed(c, maxTS, k) <==> IsLate(c, maxTS, k)
    ensures Expired(c, maxTS, now, k) <==> IsLate(c, maxTS, k) || ClockReached(c, now, k)
    ensures GcDue(c, maxTS, now, k) <==> IsForgotten(c, maxTS, now, k)
  {
  }

  /** With a negative lateness windows are collected no earlier than that. */
  lemma CollectedIsForgotten(c: Config, maxTS: int, now: int, k: Key)
    requires GcDue(c, maxTS, now, k)
    ensures IsForgotten(c, maxTS, now, k)
  {
  }

  /** An event at most the lateness behind the newest one is never late. */
  lemma EventInTimeIsNotLate(c: Config, maxTS: int, ev: Event)
    requires c.size % SECOND == 0 && c.lateness >= 0
    requires (maxTS - ev.ts) * SECOND <= c.lateness
    ensures !IsLate(c, maxTS, KeyOf(c, ev))
    ensures !IsLate(c, if ev.ts > maxTS then ev.ts else maxTS, KeyOf(c, ev))
  {
    WholeSecondWindow(c.size, ev.ts);
  }

  /** ... and finds no closed window, if only late windows are closed: it is taken in
      silence, into the window it belongs to. */
  lemma EventInTimeIsTaken(c: Config, s: State, ev: Event)
    requires c.size % SECOND == 0 && c.lateness >= 0
    requires (s.maxTS - ev.ts) * SECOND <= c.lateness && KeyOf(c, ev) !in s.closed
    ensures var t, k := AddEvent(c, s, ev), KeyOf(c, ev);
            && t.out == s.out && k in t.windows
            && t.windows[k].events == (if k in s.windows then s.windows[k].events else []) + [ev]
  {
    EventInTimeIsNotLate(c, s.maxTS, ev);
    DeadlinesArePlain(c, (if ev.ts > s.maxTS then ev.ts else s.maxTS), 0, KeyOf(c, ev));
  }

  /** Which windows a tick sends: none before the newest event or the clock is past its
      end by the lateness; and a complete tick, every one after. */
  lemma TickSendsIff(c: Config, s: State, now: int, order: seq<Key>, complete: bool, k: Key)
    requires c.lateness >= 0 && TickAllowed(c, s, now, order, complete) && k in s.windows
    ensures k in order ==> IsLate(c, s.maxTS, k) || ClockReached(c, now, k)
    ensures complete ==> (k in order <==> IsLate(c, s.maxTS, k) || ClockReached(c, now, k))
  {
    DeadlinesArePlain(c, s.maxTS, now, k);
  }

  /** Which windows a complete tick leaves closed: those that were closed or that it sent,
      until the newest event or the clock is past their end by twice the lateness. */
  lemma TickRetainsIff(c: Config, s: State, now: int, order: seq<Key>, k: Key)
    requires c.lateness >= 0 && TickAllowed(c, s, now, order, true)
    ensures k in TickWindows(c, s, now, order, true).closed
       <==> (k in s.closed || k in order) && !IsForgotten(c, s.maxTS, now, k)
  {
    DeadlinesArePlain(c, s.maxTS, now, k);
    assert k in Close(c, s, order).closed <==> k in s.closed || k in order;
  }
}
