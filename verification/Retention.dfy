/** How many windows a manager can be holding after a tick. */
module Retention {
  import opened Model
  import opened EventTime
  import opened Tumbling
  import opened Traces
  import opened Deadlines
  import P = Protocol
  import D = Delivery

  /** The smallest number of windows of `b` seconds that span `a` seconds. */
  function CeilDiv(a: nat, b: int): nat
    requires b > 0
  {
    (a + b - 1) / b
  }

  lemma CeilDivCovers(a: nat, b: int)
    requires b > 0
    ensures CeilDiv(a, b) * b >= a
  {
  }

  /** Keys of one group whose window numbers lie in a range: at most one per number. */
  lemma {:induction false} WindowsInRange(ks: set<Key>, size: int, group: string, lo: int, hi: int)
    requires size > 0 && lo <= hi + 1
    requires forall k | k in ks :: k.group == group && k.start % size == 0 && lo <= k.start / size <= hi
    ensures |ks| <= hi - lo + 1
    decreases hi - lo + 1
  {
    if hi < lo {
      assert ks == {};
    } else {
      var last := Key(group, hi * size);
      forall k | k in ks - {last} ensures k.start / size <= hi - 1 {
        assert k.start == k.start / size * size;
      }
      WindowsInRange(ks - {last}, size, group, lo, hi - 1);
    }
  }

  lemma {:induction false} SinceHasKey(c: Config, tr: Trace, k: Key)
    ensures forall ev | ev in Since(c, tr, k) :: KeyOf(c, ev) == k
  {
    if tr.Start? {
    } else {
      SinceHasKey(c, tr.before, k);
    }
  }

  /** Every key a manager holds is the window of some event. */
  lemma HeldKeysAreWindows(c: Config, durable: bool, tr: Trace, k: Key)
    requires Legal(c, durable, tr) && c.lateness >= 0 && IsHeld(Run(c, durable, tr), k)
    ensures k.start % c.size == 0
    ensures Unix(k.start) <= MaxTs(tr)
  {
    BucketsAreHistory(c, durable, tr, k);
    SinceHasKey(c, tr, k);
    InvHolds(c, durable, tr);
    var ev := Since(c, tr, k)[0];
    assert KeyOf(c, ev) == k;
    TruncateBounds(FromUnix(ev.ts), c.size);
  }

  /** The range of window numbers, over plain integers. */
  lemma NumberRange(q: int, last: int, n: int, per: int, now: int, span: int)
    requires per > 0 && n * per >= span
    requires q * per <= now < (q + 1) * per + span
    requires last * per <= now < (last + 1) * per
    ensures last - n <= q <= last
  {
    assert q > last ==> q * per >= (last + 1) * per;
    assert (last - n) * per == last * per - n * per;
    assert q + 1 <= last - n ==> (q + 1) * per <= (last - n) * per;
  }

  /** Window number `q` starts `q` whole window sizes after the zero time. */
  lemma WindowNumber(size: int, q: int)
    requires size > 0 && size % SECOND == 0
    ensures Unix(q * size) == q * (size / SECOND) - EPOCH
  {
    var per := size / SECOND;
    assert size == per * SECOND;
    assert q * size == (q * per) * SECOND;
  }

  lemma WindowSpan(size: int, start: int)
    requires size > 0 && size % SECOND == 0 && start % size == 0
    ensures Unix(start) == start / size * (size / SECOND) - EPOCH
    ensures Unix(start + size) == (start / size + 1) * (size / SECOND) - EPOCH
  {
    var q := start / size;
    assert start == q * size;
    assert start + size == (q + 1) * size;
    WindowNumber(size, q);
    WindowNumber(size, q + 1);
  }

  /** A window whose end is after `maxTS - span` is one of the last few. */
  lemma RecentWindow(c: Config, k: Key, maxTS: int, span: nat)
    requires c.size % SECOND == 0 && k.start % c.size == 0
    requires Unix(k.start) <= maxTS < Unix(WindowEnd(c, k)) + span
    ensures var last := Truncate(FromUnix(maxTS), c.size) / c.size;
            last - CeilDiv(span, c.size / SECOND) <= k.start / c.size <= last
  {
    var start := Truncate(FromUnix(maxTS), c.size);
    TruncateBounds(FromUnix(maxTS), c.size);
    WholeSecondWindow(c.size, maxTS);
    WindowSpan(c.size, k.start);
    WindowSpan(c.size, start);
    CeilDivCovers(span, c.size / SECOND);
    NumberRange(k.start / c.size, start / c.size, CeilDiv(span, c.size / SECOND), c.size / SECOND, maxTS + EPOCH, span);
  }

  function OfGroup(ks: set<Key>, group: string): set<Key> {
    set k | k in ks && k.group == group
  }

  /** At most ceil(L/S)+1 open windows of a group, and ceil(2L/S)+1 windows in all, with
      L the lateness and S the size in seconds. */
  ghost predicate Bounded(c: Config, s: State, group: string)
    requires c.size % SECOND == 0 && c.lateness >= 0
  {
    var late, per := c.lateness / SECOND, c.size / SECOND;
    && |OfGroup(s.windows.Keys, group)| <= CeilDiv(late, per) + 1
    && |OfGroup(s.windows.Keys + s.closed.Keys, group)| <= CeilDiv(2 * late, per) + 1
  }

  /** Every window starts at a multiple of the size. */
  ghost predicate Aligned(c: Config, s: State) {
    forall k | k in s.windows || k in s.closed :: k.start % c.size == 0
  }

  /** Nothing left to send, and nothing left to collect. */
  ghost predicate Quiet(c: Config, s: State, now: int) {
    && (forall k | k in s.windows :: !Expired(c, s.maxTS, now, k))
    && (forall k | k in s.closed :: !GcDue(c, s.maxTS, now, k))
  }

  /** Windows of one group that have not ended `span` seconds before the newest event. */
  lemma RecentWindowsAreFew(c: Config, s: State, ks: set<Key>, group: string, span: nat)
    requires c.size % SECOND == 0 && Inv(s) && Aligned(c, s)
    requires ks <= s.windows.Keys + s.closed.Keys
    requires forall k | k in ks :: k.group == group && s.maxTS < Unix(WindowEnd(c, k)) + span
    ensures |ks| <= CeilDiv(span, c.size / SECOND) + 1
  {
    var last := Truncate(FromUnix(s.maxTS), c.size) / c.size;
    forall k | k in ks
      ensures k.start % c.size == 0 && last - CeilDiv(span, c.size / SECOND) <= k.start / c.size <= last
    {
      assert IsHeld(s, k);
      RecentWindow(c, k, s.maxTS, span);
    }
    WindowsInRange(ks, c.size, group, last - CeilDiv(span, c.size / SECOND), last);
  }

  lemma QuietIsBounded(c: Config, s: State, now: int, group: string)
    requires c.size % SECOND == 0 && c.lateness >= 0
    requires Inv(s) && Aligned(c, s) && Quiet(c, s, now)
    ensures Bounded(c, s, group)
  {
    var late := c.lateness / SECOND;
    RecentWindowsAreFew(c, s, OfGroup(s.windows.Keys, group), group, late);
    RecentWindowsAreFew(c, s, OfGroup(s.windows.Keys + s.closed.Keys, group), group, 2 * late);
  }

  // ---- After whole operations -------------------------------------------------

  lemma TickIsQuiet(c: Config, s: State, now: int, order: seq<Key>)
    requires c.lateness >= 0 && TickAllowed(c, s, now, order, true)
    ensures Quiet(c, TickWindows(c, s, now, order, true), now)
  {
  }

  /** Bounded state: right after a complete tick, whatever came before it. */
  lemma StateIsBounded(c: Config, durable: bool, tr: Trace, group: string)
    requires c.size % SECOND == 0 && c.lateness >= 0
    requires Legal(c, durable, tr) && tr.After? && tr.step.Tick? && tr.step.complete
    ensures Bounded(c, Run(c, durable, tr), group)
  {
    var s := Run(c, durable, tr);
    InvHolds(c, durable, tr);
    TickIsQuiet(c, Run(c, durable, tr.before), tr.step.now, tr.step.order);
    forall k | k in s.windows || k in s.closed ensures k.start % c.size == 0 {
      HeldKeysAreWindows(c, durable, tr, k);
    }
    QuietIsBounded(c, s, tr.step.now, group);
  }

  // ---- With crashes between any two store writes ------------------------------

  /** What a manager keeps from step to step: aligned windows, and once it collects,
      no expired window is open. */
  ghost predicate Tidy(c: Config, st: P.Stream) {
    && Aligned(c, st.mgr)
    && (st.pc.Collecting? ==> forall k | k in st.mgr.windows :: !Expired(c, st.mgr.maxTS, st.pc.now, k))
  }

  lemma LocalTidy(c: Config, input: seq<P.Envelope>, st: P.Stream, step: P.Local)
    requires Tidy(c, st) && P.LocalEnabled(c, input, st, step)
    ensures Tidy(c, P.LocalApply(c, input, st, step))
  {
    if step.PlaceEvent? {
      TruncateBounds(FromUnix(input[st.pc.p].ev.ts), c.size);
    }
  }

  lemma StepTidy(sys: P.System, s: P.State, a: P.Action, i: nat)
    requires D.Consistent(sys, s) && P.Enabled(sys, s, a)
    requires i < |s.streams| && Tidy(sys.managers[i], s.streams[i])
    ensures var t := P.Apply(sys, s, a); i < |t.streams| && Tidy(sys.managers[i], t.streams[i])
  {
    match a
    case Manager(j, step) =>
      if j == i {
        LocalTidy(sys.managers[i], s.input, s.streams[i], step);
      }
    case Crash =>
      assert D.MemberOk(sys, s, i);
      if s.streams[i].mgr.disk.Some? {
        RestartIsInvisible(s.streams[i].mgr);
      }
    case _ =>
  }

  lemma {:induction false} RunsAreTidy(sys: P.System, h: P.History, i: nat)
    requires P.Legal(sys, h) && i < |sys.managers|
    ensures var s := P.Run(sys, h); i < |s.streams| && Tidy(sys.managers[i], s.streams[i])
  {
    if h.Boot? {
    } else {
      RunsAreTidy(sys, h.before, i);
      D.RunsAreConsistent(sys, h.before);
      StepTidy(sys, P.Run(sys, h.before), h.action, i);
    }
  }

  /** The same bound in the protocol, where a crash may come between any two store
      writes, also after a checkpoint and before the bucket of its event: whenever a
      manager ends a tick. */
  lemma StateIsBoundedAcrossCrashes(sys: P.System, h: P.History, i: nat, group: string)
    requires P.Legal(sys, h) && h.Then? && h.action == P.Manager(i, P.EndTick)
    requires i < |sys.managers| && sys.managers[i].size % SECOND == 0 && sys.managers[i].lateness >= 0
    ensures var s := P.Run(sys, h);
            |s.streams| == |sys.managers| && Bounded(sys.managers[i], s.streams[i].mgr, group)
  {
    var before := P.Run(sys, h.before);
    RunsAreTidy(sys, h.before, i);
    D.RunsAreConsistent(sys, h.before);
    assert D.MemberOk(sys, before, i);
    QuietIsBounded(sys.managers[i], before.streams[i].mgr, before.streams[i].pc.now, group);
  }
}
