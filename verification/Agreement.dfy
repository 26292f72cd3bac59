/** Two implementations of one idea: sliding windows whose slide is their size, and
    tumbling windows without lateness. */
module Agreement {
  import opened Model
  import opened EventTime
  import opened Traces
  import T = Tumbling
  import S = Sliding
  import opened SlidingTraces

  function AsTumbling(size: int, fields: seq<string>): T.Config
    requires size > 0
  {
    T.Settings(size, 0, fields)
  }

  function AsSliding(size: int, fields: seq<string>): S.Config
    requires size > 0
  {
    S.Settings(size, size, fields)
  }

  /** The two managers look the same from outside. */
  ghost predicate Agree(t: T.State, s: S.State) {
    t.windows == s.windows && t.out == s.out && t.maxTS == s.maxTS
  }

  ghost predicate Related(t: T.State, s: S.State) {
    && Agree(t, s)
    && T.Inv(t)
    && t.closed.Keys <= s.closedK
    && s.windows.Keys !! s.closedK
  }

  /** The window of the event is open and not past, or new and not yet due. */
  predicate Fits(c: S.Config, s: S.State, ev: Event) {
    var k, end := S.KeyAt(c, ev, 0), Unix(S.WindowEnd(c, S.KeyAt(c, ev, 0)));
    var maxTS := S.Advance(s, ev).maxTS;
    if k in s.windows then end >= maxTS else end > maxTS && k !in s.closedK
  }

  lemma TouchedOnce(c: S.Config, s: S.State, ev: Event)
    requires c.slide == c.size
    ensures var k := S.KeyAt(c, ev, 0);
            S.Touched(c, s, ev, S.Overlap(c)) == if S.Accepts(c, s.maxTS, s.closedK, k) then {k} else {}
  {
    assert S.Overlap(c) == 1;
    S.TouchedOneMore(c, s, ev, 0);
    assert S.Touched(c, s, ev, 0) == {};
  }

  lemma SlidingAddOne(c: S.Config, s: S.State, ev: Event)
    requires c.slide == c.size
    ensures var k, a := S.KeyAt(c, ev, 0), S.Advance(s, ev);
            S.AddEvent(c, s, ev) ==
              if S.Accepts(c, a.maxTS, a.closedK, k) then a.(windows := a.windows[k := S.Joined(a.windows, k, ev)]) else a
  {
    var k, a := S.KeyAt(c, ev, 0), S.Advance(s, ev);
    TouchedOnce(c, a, ev);
    var ks := S.Touched(c, a, ev, S.Overlap(c));
    if S.Accepts(c, a.maxTS, a.closedK, k) {
      assert S.JoinAll(a.windows, {k}, ev) == a.windows[k := S.Joined(a.windows, k, ev)];
    } else {
      assert S.JoinAll(a.windows, {}, ev) == a.windows;
    }
  }

  /** An event that fits meets the same branch in both. */
  lemma FittingEventAgrees(size: int, fields: seq<string>, t: T.State, s: S.State, ev: Event)
    requires size > 0 && Related(t, s) && Fits(AsSliding(size, fields), s, ev)
    ensures Related(T.AddEvent(AsTumbling(size, fields), t, ev), S.AddEvent(AsSliding(size, fields), s, ev))
  {
    var tc, sc := AsTumbling(size, fields), AsSliding(size, fields);
    T.AddInv(tc, t, ev);
    SlidingAddOne(sc, s, ev);
    assert S.KeyAt(sc, ev, 0) == T.KeyOf(tc, ev);
    assert [] + [ev] == [ev];
  }

  lemma MisfitDisagrees(size: int, fields: seq<string>, t: T.State, s: S.State, ev: Event)
    requires size > 0 && Related(t, s) && !Fits(AsSliding(size, fields), s, ev)
    ensures !Agree(T.AddEvent(AsTumbling(size, fields), t, ev), S.AddEvent(AsSliding(size, fields), s, ev))
  {
    var tc, sc := AsTumbling(size, fields), AsSliding(size, fields);
    SlidingAddOne(sc, s, ev);
    var k := S.KeyAt(sc, ev, 0);
    assert k == T.KeyOf(tc, ev);
    var t', s' := T.AddEvent(tc, t, ev), S.AddEvent(sc, s, ev);
    if k in t.windows {
      assert |t'.windows[k].events| == |t.windows[k].events| + 1;
    } else if T.Corrects(tc, T.Advance(t, ev), k) {
      assert |t'.out| == |t.out| + 1;
    } else {
      assert k in t'.windows && k !in s'.windows;
    }
  }

  /** Which events keep the two in agreement: exactly those that fit. A late event is
      corrected by the one and dropped by the other; a window forgotten by the one is
      remembered as closed by the other; and a window past its end but not closed yet
      still takes events in the one only. */
  lemma AddAgreesIff(size: int, fields: seq<string>, t: T.State, s: S.State, ev: Event)
    requires size > 0 && Related(t, s)
    ensures Agree(T.AddEvent(AsTumbling(size, fields), t, ev), S.AddEvent(AsSliding(size, fields), s, ev))
            <==> Fits(AsSliding(size, fields), s, ev)
    ensures Fits(AsSliding(size, fields), s, ev) ==>
              Related(T.AddEvent(AsTumbling(size, fields), t, ev), S.AddEvent(AsSliding(size, fields), s, ev))
  {
    if Fits(AsSliding(size, fields), s, ev) {
      FittingEventAgrees(size, fields, t, s, ev);
    } else {
      MisfitDisagrees(size, fields, t, s, ev);
    }
  }

  lemma TickAgrees(size: int, fields: seq<string>, t: T.State, s: S.State, now: int, order: seq<Key>, complete: bool)
    requires size > 0 && Related(t, s)
    ensures T.TickAllowed(AsTumbling(size, fields), t, now, order, complete)
       <==> S.TickAllowed(AsSliding(size, fields), s, now, order, complete)
    ensures S.TickAllowed(AsSliding(size, fields), s, now, order, complete) ==>
              Related(T.TickWindows(AsTumbling(size, fields), t, now, order, complete),
                      S.Close(AsSliding(size, fields), s, order))
  {
    var tc, sc := AsTumbling(size, fields), AsSliding(size, fields);
    assert forall k :: T.Expired(tc, t.maxTS, now, k) == S.Expired(sc, s.maxTS, now, k);
    if S.TickAllowed(sc, s, now, order, complete) {
      T.TickInv(tc, t, now, order, complete);
      assert T.Batches(tc, t, order) == S.Batches(sc, s, order);
    }
  }

  /** Every event fitted, in the run of the sliding manager. */
  ghost predicate AllFit(c: S.Config, tr: Trace)
    requires SlidingLegal(c, tr)
  {
    tr.After? ==>
      && AllFit(c, tr.before)
      && (tr.step.Add? ==> Fits(c, SlidingRun(c, tr.before), tr.step.ev))
  }

  /** On every run whose events fit, the sliding manager can take the same steps as
      the tumbling one, and emits the same batches. */
  lemma {:induction false} SlidingRefinesTumbling(size: int, fields: seq<string>, durable: bool, tr: Trace)
    requires size > 0
    requires SlidingLegal(AsSliding(size, fields), tr) && AllFit(AsSliding(size, fields), tr)
    ensures Legal(AsTumbling(size, fields), durable, tr)
    ensures Related(Run(AsTumbling(size, fields), durable, tr), SlidingRun(AsSliding(size, fields), tr))
  {
    var tc, sc := AsTumbling(size, fields), AsSliding(size, fields);
    if tr.Start? {
    } else {
      SlidingRefinesTumbling(size, fields, durable, tr.before);
      var t, s := Run(tc, durable, tr.before), SlidingRun(sc, tr.before);
      match tr.step
      case Add(ev) => AddAgreesIff(size, fields, t, s, ev);
      case Tick(now, order, complete) => TickAgrees(size, fields, t, s, now, order, complete);
    }
  }
}
