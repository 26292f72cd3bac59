/** What the rules see: the batches of a run, and the results computed from them. */
module Reports {
  import opened Model
  import opened Tumbling
  import opened Traces
  import opened Aggregator
  import opened Rules

  // ---- The last batch of a closed window --------------------------------------

  lemma {:induction false} LastBatchAppend(out: seq<Batch>, more: seq<Batch>, k: Key)
    ensures LastBatch(out + more, k) == if LastBatch(more, k).Some? then LastBatch(more, k) else LastBatch(out, k)
  {
    if more == [] {
      assert out + more == out;
    } else {
      var n := |more| - 1;
      assert (out + more)[..|out + more| - 1] == out + more[..n];
      LastBatchAppend(out, more[..n], k);
    }
  }

  lemma {:induction false} LastBatchOfBatches(c: Config, s: State, order: seq<Key>, k: Key)
    requires Inv(s)
    requires forall x | x in order :: x in s.windows
    ensures LastBatch(Batches(c, s, order), k) == if k in order then Some(BatchOf(c, s.windows[k], false)) else None
  {
    if order == [] {
    } else {
      var n := |order| - 1;
      assert order == order[..n] + [order[n]];
      LastBatchOfBatches(c, s, order[..n], k);
      BatchesConcat(c, s, order[..n], [order[n]]);
      assert Batches(c, s, [order[n]]) == [BatchOf(c, s.windows[order[n]], false)];
    }
  }

  /** Every closed window was reported, and its last report is its bucket: sent
      before it was closed, and sent again after every correction. */
  ghost predicate ClosedReported(c: Config, s: State) {
    forall k | k in s.closed :: IsReportOf(c, LastBatch(s.out, k), s.closed[k])
  }

  predicate IsReportOf(c: Config, last: Option<Batch>, b: Bucket) {
    last.Some? && last.value == BatchOf(c, b, last.value.corrected)
  }

  lemma AddReported(c: Config, s: State, ev: Event)
    requires Inv(s) && ClosedReported(c, s)
    ensures ClosedReported(c, AddEvent(c, s, ev))
  {
    var t := AddEvent(c, s, ev);
    AdvanceInv(s, ev);
    PlaceInv(c, Advance(s, ev), ev);
    if Corrects(c, Advance(s, ev), KeyOf(c, ev)) {
      var b := BatchOf(c, t.closed[KeyOf(c, ev)], true);
      assert t.out == s.out + [b];
      forall k | k in t.closed
        ensures LastBatch(t.out, k) == if k == KeyOf(c, ev) then Some(b) else LastBatch(s.out, k)
      {
        assert t.out[..|t.out| - 1] == s.out;
      }
    }
  }

  lemma TickReported(c: Config, s: State, now: int, order: seq<Key>, complete: bool)
    requires Inv(s) && ClosedReported(c, s)
    requires forall k | k in order :: k in s.windows
    ensures ClosedReported(c, TickWindows(c, s, now, order, complete))
  {
    var u := Close(c, s, order);
    forall k | k in u.closed
      ensures IsReportOf(c, LastBatch(u.out, k), u.closed[k])
    {
      LastBatchAppend(s.out, Batches(c, s, order), k);
      LastBatchOfBatches(c, s, order, k);
    }
  }

  lemma {:induction false} ClosedAreReported(c: Config, durable: bool, tr: Trace)
    requires Legal(c, durable, tr)
    ensures ClosedReported(c, Run(c, durable, tr))
  {
    if tr.Start? {
    } else {
      ClosedAreReported(c, durable, tr.before);
      InvHolds(c, durable, tr.before);
      var s := Run(c, durable, tr.before);
      match tr.step
      case Add(ev) => AddReported(c, s, ev);
      case Tick(now, order, complete) => TickReported(c, s, now, order, complete);
      case Crash => RestartIsInvisible(s);
    }
  }

  // ---- Arrival order ----------------------------------------------------------

  /** The window was never collected while it held events. */
  predicate NeverCollected(c: Config, tr: Trace, k: Key) {
    tr.After? ==>
      && NeverCollected(c, tr.before, k)
      && (Horizon(c, MaxTs(tr.before), tr.step, k) ==> Since(c, tr.before, k) == [])
  }

  lemma {:induction false} SinceIsEverything(c: Config, tr: Trace, k: Key)
    requires NeverCollected(c, tr, k)
    ensures Since(c, tr, k) == OfKey(c, Inputs(tr), k)
  {
    if tr.Start? {
    } else {
      SinceIsEverything(c, tr.before, k);
      if tr.step.Add? {
        assert Inputs(tr)[..|Inputs(tr)| - 1] == Inputs(tr.before);
      }
    }
  }

  lemma {:induction false} OfKeyMultiplicity(c: Config, events: seq<Event>, k: Key, ev: Event)
    ensures multiset(OfKey(c, events, k))[ev] == if KeyOf(c, ev) == k then multiset(events)[ev] else 0
  {
    if events == [] {
    } else {
      var n := |events| - 1;
      assert events == events[..n] + [events[n]];
      OfKeyMultiplicity(c, events[..n], k, ev);
    }
  }

  lemma OfKeyPermutation(c: Config, a: seq<Event>, b: seq<Event>, k: Key)
    requires multiset(a) == multiset(b)
    ensures multiset(OfKey(c, a, k)) == multiset(OfKey(c, b, k))
  {
    forall ev ensures multiset(OfKey(c, a, k))[ev] == multiset(OfKey(c, b, k))[ev] {
      OfKeyMultiplicity(c, a, k, ev);
      OfKeyMultiplicity(c, b, k, ev);
    }
  }

  lemma HeldIsEverything(c: Config, durable: bool, tr: Trace, k: Key)
    requires Legal(c, durable, tr) && c.lateness >= 0 && NeverCollected(c, tr, k)
    ensures Held(Run(c, durable, tr), k) == OfKey(c, Inputs(tr), k)
  {
    BucketsAreHistory(c, durable, tr, k);
    SinceIsEverything(c, tr, k);
  }

  /** Arrival order does not matter: two runs over the same events, in any order
      and with any ticks and crashes that do not collect the window, hold the same
      events for it, and every rule aggregates them to the same value. */
  lemma ArrivalOrderIrrelevant(c: Config, durable: bool, a: Trace, b: Trace, k: Key, r: Rule)
    requires Legal(c, durable, a) && Legal(c, durable, b) && c.lateness >= 0
    requires multiset(Inputs(a)) == multiset(Inputs(b))
    requires NeverCollected(c, a, k) && NeverCollected(c, b, k)
    ensures var x, y := Held(Run(c, durable, a), k), Held(Run(c, durable, b), k);
            multiset(x) == multiset(y) && Value(x, r) == Value(y, r)
  {
    HeldIsEverything(c, durable, a, k);
    HeldIsEverything(c, durable, b, k);
    OfKeyPermutation(c, Inputs(a), Inputs(b), k);
    ValuePermutation(OfKey(c, Inputs(a), k), OfKey(c, Inputs(b), k), r);
  }
}
