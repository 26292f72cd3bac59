/** Whole runs of a sliding manager, within one process: nothing of it is stored. */
module SlidingTraces {
  import opened Model
  import opened EventTime
  import opened Rules
  import opened Sliding
  import opened Traces

  ghost predicate SlidingEnabled(c: Config, s: State, step: Step) {
    match step
    case Add(_) => true
    case Tick(now, order, complete) => Sliding.TickAllowed(c, s, now, order, complete)
    case Crash => false
  }

  function SlidingApply(c: Config, s: State, step: Step): State
    requires SlidingEnabled(c, s, step)
  {
    match step
    case Add(ev) => Sliding.AddEvent(c, s, ev)
    case Tick(now, order, complete) => Sliding.Close(c, s, order)
  }

  ghost predicate SlidingLegal(c: Config, tr: Trace)
    decreases tr, 0
  {
    tr.After? ==>
      && SlidingLegal(c, tr.before)
      && SlidingEnabled(c, SlidingRun(c, tr.before), tr.step)
  }

  ghost function SlidingRun(c: Config, tr: Trace): State
    requires SlidingLegal(c, tr)
    decreases tr, 1
  {
    if tr.Start? then FRESH else SlidingApply(c, SlidingRun(c, tr.before), tr.step)
  }

  // ---- Reference functions ----------------------------------------------------

  predicate InWindow(c: Config, k: Key, ev: Event) {
    GroupKey(ev, c.fields) == k.group && Covers(c, k.start, ev.ts)
  }

  /** The events of a group inside a window, in arrival order. */
  function Covering(c: Config, events: seq<Event>, k: Key): seq<Event> {
    if events == [] then []
    else
      var n := |events| - 1;
      if InWindow(c, k, events[n]) then Covering(c, events[..n], k) + [events[n]] else Covering(c, events[..n], k)
  }

  /** The window has been sent. */
  predicate Flushed(tr: Trace, k: Key) {
    tr.After? && (Flushed(tr.before, k) || (tr.step.Tick? && k in tr.step.order))
  }

  /** The events of a window that arrived before it was sent, and before the newest
      timestamp was past its end. */
  function Admitted(c: Config, tr: Trace, k: Key): seq<Event> {
    if tr.Start? then []
    else if tr.step.Add? && InWindow(c, k, tr.step.ev) && MaxTs(tr) <= Unix(k.start + c.size) && !Flushed(tr.before, k)
    then Admitted(c, tr.before, k) + [tr.step.ev]
    else Admitted(c, tr.before, k)
  }

  // ---- Bucket contents --------------------------------------------------------

  /** An event is put into exactly the windows that contain it and still accept. */
  lemma TouchedAreInWindow(c: Config, s: State, ev: Event, k: Key)
    requires c.size % c.slide == 0
    ensures k in Touched(c, s, ev, Overlap(c)) <==> InWindow(c, k, ev) && Accepts(c, s.maxTS, s.closedK, k)
  {
    if k in Touched(c, s, ev, Overlap(c)) {
      var i: nat :| i < Overlap(c) && k == KeyAt(c, ev, i);
      VisitedStartsCover(c, ev.ts, i);
    } else if InWindow(c, k, ev) {
      var i := CoveringStartsVisited(c, ev.ts, k.start);
      assert KeyAt(c, ev, i) == k;
    }
  }

  /** One window of the state, against the reference functions. */
  ghost predicate Tracks(c: Config, s: State, tr: Trace, k: Key) {
    && (k in s.closedK <==> Flushed(tr, k))
    && (k in s.windows <==> Admitted(c, tr, k) != [] && !Flushed(tr, k))
    && (k in s.windows ==> s.windows[k] == Bucket(k, Admitted(c, tr, k), |Admitted(c, tr, k)|, false))
  }

  lemma {:induction false} RunTracks(c: Config, tr: Trace, k: Key)
    requires c.size % c.slide == 0 && SlidingLegal(c, tr)
    ensures SlidingRun(c, tr).maxTS == MaxTs(tr)
    ensures Tracks(c, SlidingRun(c, tr), tr, k)
  {
    if tr.Start? {
    } else {
      RunTracks(c, tr.before, k);
      if tr.step.Add? {
        TouchedAreInWindow(c, Sliding.Advance(SlidingRun(c, tr.before), tr.step.ev), tr.step.ev, k);
      }
    }
  }

  /** A batch with all that its window admitted. */
  function FullBatch(c: Config, tr: Trace, k: Key): Batch {
    Batch(k, k.start + c.size, Admitted(c, tr, k), |Admitted(c, tr, k)|, false)
  }

  /** What was sent is what was admitted, once for each window. */
  ghost predicate SentAreAdmitted(c: Config, s: State, tr: Trace) {
    && (forall b | b in s.out :: Flushed(tr, b.key) && b == FullBatch(c, tr, b.key))
    && (forall i, j | 0 <= i < j < |s.out| :: s.out[i].key != s.out[j].key)
    && (forall k | k in s.closedK :: exists b :: b in s.out && b.key == k)
  }

  /** The batches of a tick: full ones, of windows not sent before. */
  lemma BatchesAreFull(c: Config, s: State, tr: Trace, step: Step)
    requires c.size % c.slide == 0
    requires SlidingLegal(c, After(tr, step)) && step.Tick? && s == SlidingRun(c, tr)
    ensures var more := Sliding.Batches(c, s, step.order);
            forall i | 0 <= i < |step.order| ::
              !Flushed(tr, step.order[i]) && more[i] == FullBatch(c, After(tr, step), step.order[i])
  {
    forall i | 0 <= i < |step.order|
      ensures !Flushed(tr, step.order[i])
      ensures Sliding.Batches(c, s, step.order)[i] == FullBatch(c, After(tr, step), step.order[i])
    {
      RunTracks(c, tr, step.order[i]);
    }
  }

  lemma CloseSends(c: Config, s: State, tr: Trace, step: Step)
    requires c.size % c.slide == 0
    requires SlidingLegal(c, After(tr, step)) && step.Tick? && s == SlidingRun(c, tr)
    requires SentAreAdmitted(c, s, tr)
    ensures SentAreAdmitted(c, Sliding.Close(c, s, step.order), After(tr, step))
  {
    var order, t := step.order, Sliding.Close(c, s, step.order);
    var more := Sliding.Batches(c, s, order);
    BatchesAreFull(c, s, tr, step);
    forall b | b in s.out ensures FullBatch(c, After(tr, step), b.key) == FullBatch(c, tr, b.key) {
    }
    forall k | k in t.closedK ensures exists b :: b in t.out && b.key == k {
      if k in order {
        var i :| 0 <= i < |order| && order[i] == k;
        assert more[i] in t.out;
      } else {
        var b :| b in s.out && b.key == k;
        assert b in t.out;
      }
    }
  }

  /** Over any run: a window is sent at most once, the keys sent are exactly those
      remembered as closed, and every batch holds exactly what was admitted. */
  lemma {:induction false} SentOnceAndExactly(c: Config, tr: Trace)
    requires c.size % c.slide == 0 && SlidingLegal(c, tr)
    ensures SentAreAdmitted(c, SlidingRun(c, tr), tr)
    ensures forall b | b in SlidingRun(c, tr).out :: b.key in SlidingRun(c, tr).closedK
  {
    if tr.Start? {
    } else {
      SentOnceAndExactly(c, tr.before);
      if tr.step.Tick? {
        CloseSends(c, SlidingRun(c, tr.before), tr.before, tr.step);
      }
    }
    forall b | b in SlidingRun(c, tr).out ensures b.key in SlidingRun(c, tr).closedK {
      RunTracks(c, tr, b.key);
    }
  }

  /** The admitted events are a prefix of the stream, filtered: once the watermark
      or a flush has shut a window out, it stays out. */
  lemma {:induction false} AdmittedIsFilteredPrefix(c: Config, tr: Trace, k: Key) returns (n: nat)
    ensures n <= |Inputs(tr)| && Admitted(c, tr, k) == Covering(c, Inputs(tr)[..n], k)
    ensures MaxTs(tr) <= Unix(k.start + c.size) && !Flushed(tr, k) ==> n == |Inputs(tr)|
  {
    n := 0;
    if tr.Start? {
    } else {
      n := AdmittedIsFilteredPrefix(c, tr.before, k);
      if tr.step.Add? {
        var all := Inputs(tr);
        assert all[..n] == Inputs(tr.before)[..n];
        if MaxTs(tr) <= Unix(k.start + c.size) && !Flushed(tr.before, k) {
          assert all[..|all|] == all && all[..|all| - 1] == Inputs(tr.before)[..n];
          n := |all|;
        }
      }
    }
  }

  // ---- Deadlines --------------------------------------------------------------

  /** Which windows a tick sends: none before the newest event or the clock has reached
      its end; and a complete tick, every one after. There is no lateness. */
  lemma SlidingTickSendsIff(c: Config, s: State, now: int, order: seq<Key>, complete: bool, k: Key)
    requires Sliding.TickAllowed(c, s, now, order, complete) && k in s.windows
    ensures k in order ==> s.maxTS >= Unix(k.start + c.size) || now >= k.start + c.size
    ensures complete ==> (k in order <==> s.maxTS >= Unix(k.start + c.size) || now >= k.start + c.size)
  {
  }

  // ---- In-order streams -------------------------------------------------------

  /** No event is older than one before it. */
  predicate InOrder(tr: Trace) {
    tr.After? ==> InOrder(tr.before) && (tr.step.Add? ==> tr.step.ev.ts >= MaxTs(tr.before))
  }

  /** The wall clock never closes a window before the watermark does. */
  predicate ClosedByWatermark(c: Config, tr: Trace) {
    tr.After? ==>
      && ClosedByWatermark(c, tr.before)
      && (tr.step.Tick? ==> forall k | k in tr.step.order :: Unix(k.start + c.size) <= MaxTs(tr.before))
  }

  lemma {:induction false} FlushedArePassed(c: Config, tr: Trace, k: Key)
    requires ClosedByWatermark(c, tr) && Flushed(tr, k)
    ensures Unix(k.start + c.size) <= MaxTs(tr)
  {
    if Flushed(tr.before, k) {
      FlushedArePassed(c, tr.before, k);
    }
  }

  /** A window of whole seconds ends strictly after every event inside it. */
  lemma EventPrecedesEnd(c: Config, k: Key, ev: Event)
    requires c.size % SECOND == 0 && c.slide % SECOND == 0 && InWindow(c, k, ev)
    ensures ev.ts < Unix(k.start + c.size)
  {
    DivisibilityChains(k.start, c.slide, SECOND);
    UnixMonotone(ev.ts, k.start + c.size);
  }

  /** With events in order and windows closed by the watermark, no event is ever
      shut out of a window: each holds every event of its group and time span in
      the whole stream. */
  lemma {:induction false} InOrderLosesNothing(c: Config, tr: Trace, k: Key)
    requires c.size % SECOND == 0 && c.slide % SECOND == 0
    requires InOrder(tr) && ClosedByWatermark(c, tr)
    ensures Admitted(c, tr, k) == Covering(c, Inputs(tr), k)
  {
    if tr.Start? {
    } else {
      InOrderLosesNothing(c, tr.before, k);
      if tr.step.Add? {
        assert Inputs(tr)[..|Inputs(tr)| - 1] == Inputs(tr.before);
        if InWindow(c, k, tr.step.ev) {
          EventPrecedesEnd(c, k, tr.step.ev);
          if Flushed(tr.before, k) {
            FlushedArePassed(c, tr.before, k);
          }
        }
      }
    }
  }

  /** The window has every event of its group and time span. */
  predicate LosesNothing(c: Config, tr: Trace, k: Key) {
    Admitted(c, tr, k) == Covering(c, Inputs(tr), k)
  }

  /** A multiple of `slide` just one slide after a whole number of seconds. */
  lemma BoundaryInsideSecond(slide: int, n: int)
    requires slide > 0
    ensures var end := (n * SECOND + 1) * slide;
            && FromUnix(n * slide + slide / SECOND - EPOCH) == end - slide % SECOND
            && Unix(end) == n * slide + slide / SECOND - EPOCH
  {
    assert (n * SECOND + 1) * slide == (n * slide) * SECOND + slide;
  }

  lemma MultipleMinusMultiple(a: int, size: int, slide: int)
    requires slide > 0 && size % slide == 0
    ensures (a * slide - size) % slide == 0
  {
    assert size == size / slide * slide;
    assert a * slide - size == (a - size / slide) * slide;
    MultipleMod(a - size / slide, slide);
  }

  lemma SlideFits(size: int, slide: int)
    requires size > 0 && slide > 0 && size % slide == 0
    ensures size >= slide
  {
  }

  /** A slide with a fraction of a second: an event in the last second of a window whose
      end, read in seconds, it has reached. */
  lemma FractionalEnd(c: Config) returns (ts: int, start: int)
    requires c.size % c.slide == 0 && c.slide % SECOND != 0
    ensures ts >= 0 && Covers(c, start, ts) && Unix(start + c.size) == ts
  {
    ts := EPOCH * c.slide + c.slide / SECOND - EPOCH;
    start := (EPOCH * SECOND + 1) * c.slide - c.size;
    BoundaryInsideSecond(c.slide, EPOCH);
    MultipleMinusMultiple(EPOCH * SECOND + 1, c.size, c.slide);
    SlideFits(c.size, c.slide);
  }

  /** Two events of one second, with the end of a window's tick between them. */
  function Interrupted(c: Config, k: Key, ev: Event): Trace {
    After(After(After(Start, Add(ev)), Tick(k.start + c.size, [k], false)), Add(ev))
  }

  lemma InterruptedRuns(c: Config, k: Key, ev: Event)
    requires c.size % c.slide == 0 && ev.ts >= 0 && InWindow(c, k, ev) && Unix(k.start + c.size) == ev.ts
    ensures SlidingLegal(c, Interrupted(c, k, ev))
  {
    var once := After(Start, Add(ev));
    assert MaxTs(Start) == 0 && MaxTs(once) == ev.ts;
    assert !Flushed(Start, k) && Admitted(c, once, k) == [] + [ev];
    RunTracks(c, once, k);
    assert SlidingLegal(c, Interrupted(c, k, ev).before);
  }

  lemma InterruptedInOrder(c: Config, k: Key, ev: Event)
    requires ev.ts >= 0 && Unix(k.start + c.size) == ev.ts
    ensures InOrder(Interrupted(c, k, ev)) && ClosedByWatermark(c, Interrupted(c, k, ev))
  {
    var tr := Interrupted(c, k, ev);
    var once := tr.before.before;
    assert MaxTs(Start) == 0 && MaxTs(once) == ev.ts && MaxTs(tr.before) == ev.ts;
    assert InOrder(Start) && InOrder(once) && InOrder(tr.before);
    assert ClosedByWatermark(c, Start) && ClosedByWatermark(c, once) && ClosedByWatermark(c, tr.before);
  }

  lemma CoveringSnoc(c: Config, events: seq<Event>, ev: Event, k: Key)
    requires InWindow(c, k, ev)
    ensures Covering(c, events + [ev], k) == Covering(c, events, k) + [ev]
  {
    assert (events + [ev])[..|events + [ev]| - 1] == events;
  }

  lemma AdmittedStep(c: Config, tr: Trace, step: Step, k: Key)
    ensures |Admitted(c, After(tr, step), k)| <= |Admitted(c, tr, k)| + 1
    ensures !step.Add? || Flushed(tr, k) ==> Admitted(c, After(tr, step), k) == Admitted(c, tr, k)
  {
  }

  lemma InterruptedLoses(c: Config, k: Key, ev: Event)
    requires ev.ts >= 0 && InWindow(c, k, ev)
    ensures !LosesNothing(c, Interrupted(c, k, ev), k)
  {
    var tr := Interrupted(c, k, ev);
    var once := tr.before.before;
    AdmittedStep(c, Start, Add(ev), k);
    AdmittedStep(c, once, tr.before.step, k);
    assert Flushed(tr.before, k);
    AdmittedStep(c, tr.before, Add(ev), k);
    CoveringSnoc(c, [], ev, k);
    CoveringSnoc(c, [] + [ev], ev, k);
    assert Inputs(Start) == [] && Inputs(once) == [] + [ev] && Inputs(tr.before) == Inputs(once);
    assert Inputs(tr) == [] + [ev] + [ev];
  }

  /** In order and with windows closed by the watermark, no window of any run loses an
      event if and only if the slide is a whole number of seconds. */
  lemma InOrderLosesNothingIff(c: Config)
    requires c.size % c.slide == 0
    ensures (forall tr, k | SlidingLegal(c, tr) && InOrder(tr) && ClosedByWatermark(c, tr) :: LosesNothing(c, tr, k))
       <==> c.slide % SECOND == 0
  {
    if c.slide % SECOND == 0 {
      DivisibilityChains(c.size, c.slide, SECOND);
      forall tr, k | SlidingLegal(c, tr) && InOrder(tr) && ClosedByWatermark(c, tr) ensures LosesNothing(c, tr, k) {
        InOrderLosesNothing(c, tr, k);
      }
    } else {
      var ts, start := FractionalEnd(c);
      var ev := Event("", "", ts, map[], "");
      var k := Key(GroupKey(ev, c.fields), start);
      InterruptedRuns(c, k, ev);
      InterruptedInOrder(c, k, ev);
      InterruptedLoses(c, k, ev);
    }
  }

  /** ... and every event is in exactly size/slide windows on arrival. */
  lemma EventLandsInAllWindows(c: Config, tr: Trace, ev: Event)
    requires c.size % c.slide == 0 && c.size % SECOND == 0 && c.slide % SECOND == 0
    requires SlidingLegal(c, tr) && InOrder(After(tr, Add(ev))) && ClosedByWatermark(c, tr)
    ensures |set i: nat | i < Overlap(c) :: KeyAt(c, ev, i)| == c.size / c.slide
    ensures forall k :: InWindow(c, k, ev) <==> k in set i: nat | i < Overlap(c) :: KeyAt(c, ev, i)
    ensures forall i: nat | i < Overlap(c) ::
              LandsIn(Sliding.AddEvent(c, SlidingRun(c, tr), ev), KeyAt(c, ev, i), ev)
  {
    CountVisited(c, ev, Overlap(c));
    forall k ensures InWindow(c, k, ev) <==> k in set i: nat | i < Overlap(c) :: KeyAt(c, ev, i) {
      VisitedAreInWindow(c, ev, k);
    }
    forall i: nat | i < Overlap(c)
      ensures LandsIn(Sliding.AddEvent(c, SlidingRun(c, tr), ev), KeyAt(c, ev, i), ev)
    {
      LandsInWindow(c, tr, ev, i);
    }
  }

  predicate LandsIn(s: State, k: Key, ev: Event) {
    k in s.windows && ev in s.windows[k].events
  }

  lemma VisitedAreInWindow(c: Config, ev: Event, k: Key)
    requires c.size % c.slide == 0
    ensures InWindow(c, k, ev) <==> k in set i: nat | i < Overlap(c) :: KeyAt(c, ev, i)
  {
    if InWindow(c, k, ev) {
      var i := CoveringStartsVisited(c, ev.ts, k.start);
      assert KeyAt(c, ev, i) == k;
    } else if k in set i: nat | i < Overlap(c) :: KeyAt(c, ev, i) {
      var i: nat :| i < Overlap(c) && k == KeyAt(c, ev, i);
      VisitedStartsCover(c, ev.ts, i);
    }
  }

  lemma LandsInWindow(c: Config, tr: Trace, ev: Event, i: nat)
    requires c.size % c.slide == 0 && c.size % SECOND == 0 && c.slide % SECOND == 0
    requires SlidingLegal(c, tr) && InOrder(After(tr, Add(ev))) && ClosedByWatermark(c, tr)
    requires i < Overlap(c)
    ensures LandsIn(Sliding.AddEvent(c, SlidingRun(c, tr), ev), KeyAt(c, ev, i), ev)
  {
    var k := KeyAt(c, ev, i);
    RunTracks(c, tr, k);
    VisitedStartsCover(c, ev.ts, i);
    EventPrecedesEnd(c, k, ev);
    if Flushed(tr, k) {
      FlushedArePassed(c, tr, k);
    }
    TouchedAreInWindow(c, Sliding.Advance(SlidingRun(c, tr), ev), ev, k);
  }

  lemma {:induction false} CountVisited(c: Config, ev: Event, n: nat)
    requires n <= Overlap(c)
    ensures |set i: nat | i < n :: KeyAt(c, ev, i)| == n
  {
    if n == 0 {
    } else {
      CountVisited(c, ev, n - 1);
      VisitedKeysDistinct(c, ev, n - 1);
      var before := set i: nat | i < n - 1 :: KeyAt(c, ev, i);
      assert (set i: nat | i < n :: KeyAt(c, ev, i)) == before + {KeyAt(c, ev, n - 1)};
      assert KeyAt(c, ev, n - 1) !in before;
    }
  }
}
