/** The sliding window manager (internal/window/sliding.go): its state functions, and
    what holds over whole runs. */
module Sliding {
  import opened Model
  import opened EventTime
  import opened Rules

  /** `size` and `slide` are durations in nanoseconds. */
  datatype Settings = Settings(size: int, slide: int, fields: seq<string>)

  type Config = c: Settings | c.size > 0 && c.slide > 0 witness Settings(1, 1, [])

  datatype State = State(windows: map<Key, Bucket>, closedK: set<Key>, maxTS: int, out: seq<Batch>)

  const FRESH := State(map[], {}, 0, [])

  // ---- Window assignment ------------------------------------------------------

  /** How many windows each event touches; a fractional quotient is cut off. */
  function Overlap(c: Config): nat {
    c.size / c.slide
  }

  /** The start of the i-th window the loop visits, counting back. */
  function StartAt(c: Config, ts: int, i: nat): int {
    Truncate(FromUnix(ts), c.slide) - i * c.slide
  }

  /** An aligned window start whose window contains the instant. */
  predicate Covers(c: Config, start: int, ts: int) {
    start % c.slide == 0 && start <= FromUnix(ts) < start + c.size
  }

  /** Every aligned start is the truncated time, some number of slides earlier. */
  lemma CoveringIndex(c: Config, start: int, ts: int) returns (i: nat)
    requires Covers(c, start, ts)
    ensures start == StartAt(c, ts, i) && i * c.slide < c.size
  {
    var base := Truncate(FromUnix(ts), c.slide);
    TruncateBounds(FromUnix(ts), c.slide);
    var n := MultiplesDiffer(base, start, c.slide);
    if n < 0 {
      MultiplesApart(0, n, c.slide);
    }
    i := n;
  }

  /** The loop visits distinct starts, all of windows that contain the event. */
  lemma VisitedStartsCover(c: Config, ts: int, i: nat)
    requires i < Overlap(c)
    ensures Covers(c, StartAt(c, ts, i), ts)
    ensures forall j: nat | j < i :: StartAt(c, ts, j) > StartAt(c, ts, i)
  {
    TruncateBounds(FromUnix(ts), c.slide);
    ModOfDifference(Truncate(FromUnix(ts), c.slide), i, c.slide);
    MultipleBelow(i, c.size, c.slide);
    assert (i + 1) * c.slide == i * c.slide + c.slide;
    if i > 0 {
      MultiplesApart(i, 0, c.slide);
    }
    forall j: nat | j < i ensures StartAt(c, ts, j) > StartAt(c, ts, i) {
      MultiplesApart(i, j, c.slide);
    }
  }

  lemma CoveringStartsVisited(c: Config, ts: int, start: int) returns (i: nat)
    requires c.size % c.slide == 0 && Covers(c, start, ts)
    ensures i < Overlap(c) && start == StartAt(c, ts, i)
  {
    i := CoveringIndex(c, start, ts);
    assert c.size == Overlap(c) * c.slide;
    if i > Overlap(c) {
      MultiplesApart(i, Overlap(c), c.slide);
    }
  }

  /** An instant on a slide boundary, at or after any given moment. */
  lemma BoundaryAfter(c: Config, from: int) returns (ts: int)
    ensures ts >= from && FromUnix(ts) % c.slide == 0
  {
    var n := EPOCH + if from > 0 then from else 0;
    ts := n * c.slide - EPOCH;
    MultiplesApart(c.slide, 0, n);
    assert FromUnix(ts) == (n * SECOND) * c.slide;
    MultipleMod(n * SECOND, c.slide);
  }

  /** With a fraction of a slide left over, the earliest window of an instant on a
      slide boundary is not visited. */
  lemma EarliestWindowMissed(c: Config, ts: int)
    requires c.size % c.slide != 0 && FromUnix(ts) % c.slide == 0
    ensures Covers(c, StartAt(c, ts, Overlap(c)), ts)
    ensures forall i: nat | i < Overlap(c) :: StartAt(c, ts, Overlap(c)) != StartAt(c, ts, i)
  {
    var n := Overlap(c);
    assert Truncate(FromUnix(ts), c.slide) == FromUnix(ts);
    assert c.size == n * c.slide + c.size % c.slide;
    ModOfDifference(FromUnix(ts), n, c.slide);
    if n > 0 {
      MultiplesApart(n, 0, c.slide);
    }
    forall i: nat | i < n ensures StartAt(c, ts, n) != StartAt(c, ts, i) {
      MultiplesApart(n, i, c.slide);
    }
  }

  /** From some moment on, the loop reaches every window that contains the event. */
  ghost predicate VisitsEveryWindow(c: Config, from: int) {
    forall ts, start | ts >= from && Covers(c, start, ts) :: exists i: nat :: i < Overlap(c) && start == StartAt(c, ts, i)
  }

  /** It does, from any moment on, if and only if the slide divides the size. The
      configuration checks that only for rules that name a size: a rule that takes
      the engine's default size may lose windows, and never stops doing so. */
  lemma EveryWindowVisitedIff(c: Config, from: int)
    ensures VisitsEveryWindow(c, from) <==> c.size % c.slide == 0
  {
    if c.size % c.slide == 0 {
      forall ts, start | ts >= from && Covers(c, start, ts)
        ensures exists i: nat :: i < Overlap(c) && start == StartAt(c, ts, i)
      {
        var i := CoveringStartsVisited(c, ts, start);
      }
    } else {
      var ts := BoundaryAfter(c, from);
      EarliestWindowMissed(c, ts);
    }
  }

  // ---- The manager's operations -----------------------------------------------

  function WindowEnd(c: Config, k: Key): int {
    k.start + c.size
  }

  function KeyAt(c: Config, ev: Event, i: nat): Key {
    Key(GroupKey(ev, c.fields), StartAt(c, ev.ts, i))
  }

  /** The window may still take events: not past the watermark, not flushed. */
  predicate Accepts(c: Config, maxTS: int, closedK: set<Key>, k: Key) {
    Unix(WindowEnd(c, k)) >= maxTS && k !in closedK
  }

  /** The windows the first `n` turns of the loop put the event into. */
  function Touched(c: Config, s: State, ev: Event, n: nat): set<Key> {
    set i: nat | i < n && Accepts(c, s.maxTS, s.closedK, KeyAt(c, ev, i)) :: KeyAt(c, ev, i)
  }

  function Joined(windows: map<Key, Bucket>, k: Key, ev: Event): Bucket {
    if k in windows then windows[k].(events := windows[k].events + [ev], count := windows[k].count + 1)
    else Bucket(k, [ev], 1, false)
  }

  function JoinAll(windows: map<Key, Bucket>, ks: set<Key>, ev: Event): map<Key, Bucket> {
    windows + map k | k in ks :: Joined(windows, k, ev)
  }

  function Advance(s: State, ev: Event): State {
    if ev.ts > s.maxTS then s.(maxTS := ev.ts) else s
  }

  function Place(c: Config, s: State, ev: Event, n: nat): State {
    s.(windows := JoinAll(s.windows, Touched(c, s, ev, n), ev))
  }

  function AddEvent(c: Config, s: State, ev: Event): State {
    Place(c, Advance(s, ev), ev, Overlap(c))
  }

  predicate Expired(c: Config, maxTS: int, now: int, k: Key) {
    Unix(WindowEnd(c, k)) <= maxTS || now >= WindowEnd(c, k)
  }

  function BatchOf(c: Config, b: Bucket): Batch {
    Batch(b.key, WindowEnd(c, b.key), b.events, b.count, false)
  }

  function Batches(c: Config, s: State, order: seq<Key>): seq<Batch>
    requires forall k | k in order :: k in s.windows
  {
    seq(|order|, i requires 0 <= i < |order| => BatchOf(c, s.windows[order[i]]))
  }

  function Close(c: Config, s: State, order: seq<Key>): State
    requires forall k | k in order :: k in s.windows
  {
    s.(windows := s.windows - Keys(order),
       closedK := s.closedK + Keys(order),
       out := s.out + Batches(c, s, order))
  }

  ghost predicate TickAllowed(c: Config, s: State, now: int, order: seq<Key>, complete: bool) {
    && Distinct(order)
    && (forall k | k in order :: k in s.windows && Expired(c, s.maxTS, now, k))
    && (complete ==> forall k | k in s.windows && Expired(c, s.maxTS, now, k) :: k in order)
  }

  /** Sending and closing one more window. */
  lemma CloseOneMore(c: Config, s: State, order: seq<Key>, k: Key)
    requires k in s.windows && k !in order
    requires forall x | x in order :: x in s.windows
    ensures var t, u := Close(c, s, order), Close(c, s, order + [k]);
            && k in t.windows
            && u == State(t.windows - {k}, t.closedK + {k}, t.maxTS, t.out + [BatchOf(c, t.windows[k])])
  {
    var t, u := Close(c, s, order), Close(c, s, order + [k]);
    assert Keys(order + [k]) == Keys(order) + {k};
    assert u.windows == t.windows - {k};
    assert Batches(c, s, order + [k]) == Batches(c, s, order) + [BatchOf(c, s.windows[k])];
  }

  lemma CloseNone(c: Config, s: State)
    ensures Close(c, s, []) == s
  {
    assert Keys([]) == {} && s.windows - {} == s.windows;
  }

  /** The keys an event visits are pairwise distinct. */
  lemma VisitedKeysDistinct(c: Config, ev: Event, i: nat)
    requires i < Overlap(c)
    ensures forall j: nat | j < i :: KeyAt(c, ev, j) != KeyAt(c, ev, i)
  {
    VisitedStartsCover(c, ev.ts, i);
    forall j: nat | j < i ensures KeyAt(c, ev, j) != KeyAt(c, ev, i) {
      assert StartAt(c, ev.ts, j) > StartAt(c, ev.ts, i);
    }
  }

  lemma TouchedOneMore(c: Config, s: State, ev: Event, i: nat)
    ensures Touched(c, s, ev, i + 1)
         == Touched(c, s, ev, i) + if Accepts(c, s.maxTS, s.closedK, KeyAt(c, ev, i)) then {KeyAt(c, ev, i)} else {}
  {
  }

  lemma JoinOneMore(windows: map<Key, Bucket>, ks: set<Key>, k: Key, ev: Event)
    requires k !in ks
    ensures var m := JoinAll(windows, ks, ev);
            JoinAll(windows, ks + {k}, ev) == m[k := Joined(m, k, ev)]
  {
  }

  /** One more turn of the loop over the windows of an event. */
  lemma PlaceOneMore(c: Config, s: State, ev: Event, i: nat)
    requires i < Overlap(c)
    ensures var k, t := KeyAt(c, ev, i), Place(c, s, ev, i);
            Place(c, s, ev, i + 1) ==
              if Accepts(c, s.maxTS, s.closedK, k) then t.(windows := t.windows[k := Joined(t.windows, k, ev)]) else t
  {
    VisitedKeysDistinct(c, ev, i);
    TouchedOneMore(c, s, ev, i);
    var ks, k := Touched(c, s, ev, i), KeyAt(c, ev, i);
    assert k !in ks;
    if Accepts(c, s.maxTS, s.closedK, k) {
      JoinOneMore(s.windows, ks, k, ev);
    } else {
      assert ks + {} == ks;
    }
  }

  lemma PlaceNone(c: Config, s: State, ev: Event)
    ensures Place(c, s, ev, 0) == s
  {
    assert Touched(c, s, ev, 0) == {};
    assert Place(c, s, ev, 0).windows == s.windows;
  }
}
