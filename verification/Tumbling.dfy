/** The tumbling window manager as functions on its state (internal/window/tumbling.go).
    Manager.dfy proves the object that updates its maps in place against these. */
module Tumbling {
  import opened Model
  import opened EventTime
  import opened Rules

  /** `size` and `lateness` are durations in nanoseconds. */
  datatype Settings = Settings(size: int, lateness: int, fields: seq<string>)

  /** A ticker needs a positive period, so every manager has a positive size. */
  type Config = c: Settings | c.size > 0 witness Settings(1, 0, [])

  /** What one namespace of the store holds. */
  datatype Disk = Disk(buckets: map<Key, Bucket>, checkpoint: Option<int>)

  /** `out` records every batch handed downstream. Without a store `disk` is None. */
  datatype State = State(
    windows: map<Key, Bucket>,
    closed: map<Key, Bucket>,
    maxTS: int,
    disk: Option<Disk>,
    out: seq<Batch>)

  const EMPTY_DISK := Disk(map[], None)

  /** A new manager, over an empty store if it has one. */
  function Fresh(durable: bool): State {
    State(map[], map[], 0, if durable then Some(EMPTY_DISK) else None, [])
  }

  // ---- Keys and deadlines -----------------------------------------------------

  function KeyOf(c: Config, ev: Event): Key {
    Key(GroupKey(ev, c.fields), Truncate(FromUnix(ev.ts), c.size))
  }

  function WindowEnd(c: Config, k: Key): int {
    k.start + c.size
  }

  function Watermark(c: Config, maxTS: int): int {
    maxTS - WholeSeconds(c.lateness)
  }

  /** The event-time deadline of a window has passed. */
  predicate Passed(c: Config, maxTS: int, k: Key) {
    Unix(WindowEnd(c, k)) <= Watermark(c, maxTS)
  }

  predicate Expired(c: Config, maxTS: int, now: int, k: Key) {
    Passed(c, maxTS, k) || now >= WindowEnd(c, k) + c.lateness
  }

  predicate GcByWatermark(c: Config, maxTS: int, k: Key) {
    Watermark(c, maxTS) >= Unix(WindowEnd(c, k)) + WholeSeconds(c.lateness)
  }

  predicate GcDue(c: Config, maxTS: int, now: int, k: Key) {
    GcByWatermark(c, maxTS, k) || now >= WindowEnd(c, k) + 2 * c.lateness
  }

  // ---- The store --------------------------------------------------------------

  function Saved(d: Option<Disk>, b: Bucket): Option<Disk> {
    if d.Some? then Some(d.value.(buckets := d.value.buckets[b.key := b])) else None
  }

  function Deleted(d: Option<Disk>, ks: set<Key>): Option<Disk> {
    if d.Some? then Some(d.value.(buckets := d.value.buckets - ks)) else None
  }

  function Checkpointed(d: Option<Disk>, maxTS: int): Option<Disk> {
    if d.Some? then Some(d.value.(checkpoint := Some(maxTS))) else None
  }

  function OpenBuckets(buckets: map<Key, Bucket>): map<Key, Bucket> {
    map k | k in buckets && !buckets[k].closed :: buckets[k]
  }

  function ClosedBuckets(buckets: map<Key, Bucket>): map<Key, Bucket> {
    map k | k in buckets && buckets[k].closed :: buckets[k]
  }

  /** A new process: only the store survives, and Restore reads it back. Without a
      store the new process starts from nothing. `out` is the record of the past. */
  function Restart(s: State): State {
    if s.disk.None? then Fresh(false).(out := s.out)
    else
      var d := s.disk.value;
      s.(windows := OpenBuckets(d.buckets),
         closed := ClosedBuckets(d.buckets),
         maxTS := if d.checkpoint.Some? then d.checkpoint.value else 0)
  }

  // ---- add, one store write at a time -----------------------------------------

  /** The watermark moves, and its checkpoint is written. */
  function Advance(s: State, ev: Event): State {
    if ev.ts > s.maxTS then s.(maxTS := ev.ts, disk := Checkpointed(s.disk, ev.ts)) else s
  }

  function Appended(b: Bucket, ev: Event): Bucket {
    b.(events := b.events + [ev], count := b.count + 1)
  }

  /** A window that is not open but closed already, or past the watermark. */
  predicate Corrects(c: Config, s: State, k: Key) {
    k !in s.windows && (k in s.closed || Passed(c, s.maxTS, k))
  }

  function BucketAt(s: State, k: Key, late: bool): Bucket {
    if k in s.windows then s.windows[k]
    else if k in s.closed then s.closed[k]
    else Bucket(k, [], 0, late)
  }

  function PutOpen(s: State, k: Key, b: Bucket): State {
    s.(windows := s.windows[k := b], disk := Saved(s.disk, b))
  }

  function PutClosed(s: State, k: Key, b: Bucket): State {
    s.(closed := s.closed[k := b], disk := Saved(s.disk, b))
  }

  /** The event joins its bucket, and the bucket is saved. */
  function Place(c: Config, s: State, ev: Event): State {
    var k := KeyOf(c, ev);
    var late := Corrects(c, s, k);
    var b := Appended(BucketAt(s, k, late), ev);
    if late then PutClosed(s, k, b) else PutOpen(s, k, b)
  }

  function BatchOf(c: Config, b: Bucket, corrected: bool): Batch {
    Batch(b.key, WindowEnd(c, b.key), b.events, b.count, corrected)
  }

  function EmitCorrection(c: Config, s: State, k: Key): State
    requires k in s.closed
  {
    s.(out := s.out + [BatchOf(c, s.closed[k], true)])
  }

  function AddEvent(c: Config, s: State, ev: Event): State {
    var k := KeyOf(c, ev);
    var s1 := Advance(s, ev);
    var s2 := Place(c, s1, ev);
    if Corrects(c, s1, k) then EmitCorrection(c, s2, k) else s2
  }

  // ---- closeExpired and gcClosed ----------------------------------------------

  /** The batch of an open window is handed downstream ... */
  function Send(c: Config, s: State, k: Key): State
    requires k in s.windows
  {
    s.(out := s.out + [BatchOf(c, s.windows[k], false)])
  }

  /** ... and only then does the window move to the closed set, and get saved. */
  function Retire(s: State, k: Key): State
    requires k in s.windows
  {
    PutClosed(s.(windows := s.windows - {k}), k, s.windows[k].(closed := true))
  }

  function Forget(s: State, k: Key): State {
    s.(closed := s.closed - {k}, disk := Deleted(s.disk, {k}))
  }

  function Retired(s: State, ks: set<Key>): map<Key, Bucket>
    requires ks <= s.windows.Keys
  {
    map k | k in ks :: s.windows[k].(closed := true)
  }

  function Batches(c: Config, s: State, order: seq<Key>): seq<Batch>
    requires forall k | k in order :: k in s.windows
  {
    seq(|order|, i requires 0 <= i < |order| => BatchOf(c, s.windows[order[i]], false))
  }

  /** Closing the windows of `order`, whatever order the map is iterated in. */
  function Close(c: Config, s: State, order: seq<Key>): State
    requires forall k | k in order :: k in s.windows
  {
    var ks := Keys(order);
    s.(windows := s.windows - ks,
       closed := s.closed + Retired(s, ks),
       disk := if s.disk.None? then None
               else Some(s.disk.value.(buckets := s.disk.value.buckets + Retired(s, ks))),
       out := s.out + Batches(c, s, order))
  }

  function Due(c: Config, s: State, now: int): set<Key> {
    set k | k in s.closed && GcDue(c, s.maxTS, now, k)
  }

  function Collect(c: Config, s: State, now: int): State {
    s.(closed := s.closed - Due(c, s, now), disk := Deleted(s.disk, Due(c, s, now)))
  }

  /** The windows one tick sends: expired ones, each once, and all of them unless
      the context is cancelled during the sends. */
  ghost predicate TickAllowed(c: Config, s: State, now: int, order: seq<Key>, complete: bool) {
    && Distinct(order)
    && (forall k | k in order :: k in s.windows && Expired(c, s.maxTS, now, k))
    && (complete ==> forall k | k in s.windows && Expired(c, s.maxTS, now, k) :: k in order)
  }

  /** A tick that is cancelled returns before collecting. */
  function TickWindows(c: Config, s: State, now: int, order: seq<Key>, complete: bool): State
    requires forall k | k in order :: k in s.windows
  {
    if complete then Collect(c, Close(c, s, order), now) else Close(c, s, order)
  }

  // ---- The state invariant ----------------------------------------------------

  predicate BucketSound(maxTS: int, k: Key, b: Bucket, closed: bool) {
    b.key == k && b.closed == closed && Unix(k.start) <= maxTS
  }

  /** The store holds exactly the open and the closed buckets, and the watermark. */
  ghost predicate Synced(s: State) {
    s.disk.Some? ==>
      && s.disk.value.buckets == s.windows + s.closed
      && s.disk.value.checkpoint == if s.maxTS == 0 then None else Some(s.maxTS)
  }

  /** What holds between any two store writes: memory and store agree, a key is
      open or closed but not both, and no window starts after the newest event. */
  ghost predicate Inv(s: State) {
    && s.maxTS >= 0
    && s.windows.Keys !! s.closed.Keys
    && (forall k | k in s.windows :: BucketSound(s.maxTS, k, s.windows[k], false))
    && (forall k | k in s.closed :: BucketSound(s.maxTS, k, s.closed[k], true))
    && Synced(s)
  }

  lemma FreshInv(durable: bool)
    ensures Inv(Fresh(durable))
  {
  }

  /** Between any two store writes, a crash with a store loses nothing: the state
      that Restore rebuilds is the state before the crash. */
  lemma RestartIsInvisible(s: State)
    requires Inv(s) && s.disk.Some?
    ensures Restart(s) == s
  {
    var d := s.disk.value;
    assert OpenBuckets(d.buckets) == s.windows;
    assert ClosedBuckets(d.buckets) == s.closed;
  }

  /** Without a store, a new process starts from nothing. */
  lemma RestartFromNothing(s: State)
    requires s.disk.None?
    ensures Restart(s) == State(map[], map[], 0, None, s.out)
  {
  }

  /** A new manager over the store of an old one is the old one, less its record of
      past output. */
  lemma RestoreRebuilds(s: State)
    requires Inv(s) && s.disk.Some?
    ensures Restart(State(map[], map[], 0, s.disk, [])) == s.(out := [])
  {
    RestartIsInvisible(s);
  }

  lemma AdvanceInv(s: State, ev: Event)
    requires Inv(s)
    ensures Inv(Advance(s, ev)) && ev.ts <= Advance(s, ev).maxTS
  {
  }

  lemma PutOpenInv(s: State, k: Key, b: Bucket)
    requires Inv(s) && k !in s.closed && BucketSound(s.maxTS, k, b, false)
    ensures Inv(PutOpen(s, k, b))
  {
    var t := PutOpen(s, k, b);
    if s.disk.Some? {
      assert t.disk.value.buckets == t.windows + t.closed;
    }
  }

  lemma PutClosedInv(s: State, k: Key, b: Bucket)
    requires Inv(s) && BucketSound(s.maxTS, k, b, true)
    ensures Inv(PutClosed(s.(windows := s.windows - {k}), k, b))
  {
    var t := PutClosed(s.(windows := s.windows - {k}), k, b);
    if s.disk.Some? {
      assert t.disk.value.buckets == t.windows + t.closed;
    }
  }

  lemma WindowStartsBeforeEvent(c: Config, ev: Event)
    ensures Unix(KeyOf(c, ev).start) <= ev.ts
  {
    TruncateBounds(FromUnix(ev.ts), c.size);
    UnixMonotone(KeyOf(c, ev).start, FromUnix(ev.ts));
    UnixMonotone(ev.ts, 0);
  }

  lemma PlaceInv(c: Config, s: State, ev: Event)
    requires Inv(s) && ev.ts <= s.maxTS
    ensures Inv(Place(c, s, ev))
    ensures Corrects(c, s, KeyOf(c, ev)) ==> KeyOf(c, ev) in Place(c, s, ev).closed
  {
    var k := KeyOf(c, ev);
    var late := Corrects(c, s, k);
    var b := Appended(BucketAt(s, k, late), ev);
    WindowStartsBeforeEvent(c, ev);
    assert BucketSound(s.maxTS, k, b, late);
    if late {
      assert s.windows - {k} == s.windows;
      PutClosedInv(s, k, b);
    } else {
      PutOpenInv(s, k, b);
    }
  }

  lemma RetireInv(s: State, k: Key)
    requires Inv(s) && k in s.windows
    ensures Inv(Retire(s, k))
  {
    PutClosedInv(s, k, s.windows[k].(closed := true));
  }

  lemma ForgetInv(s: State, k: Key)
    requires Inv(s) && k in s.closed
    ensures Inv(Forget(s, k))
  {
    var t := Forget(s, k);
    if s.disk.Some? {
      assert t.disk.value.buckets == t.windows + t.closed;
    }
  }

  lemma AddInv(c: Config, s: State, ev: Event)
    requires Inv(s)
    ensures Inv(AddEvent(c, s, ev))
  {
    AdvanceInv(s, ev);
    PlaceInv(c, Advance(s, ev), ev);
  }

  lemma MoveAcross(w: map<Key, Bucket>, d: map<Key, Bucket>, r: map<Key, Bucket>)
    requires r.Keys <= w.Keys && w.Keys !! d.Keys
    ensures w + d + r == (w - r.Keys) + (d + r)
  {
  }

  lemma CloseInv(c: Config, s: State, order: seq<Key>)
    requires Inv(s)
    requires forall k | k in order :: k in s.windows
    ensures Inv(Close(c, s, order))
  {
    var t, r := Close(c, s, order), Retired(s, Keys(order));
    assert r.Keys == Keys(order);
    MoveAcross(s.windows, s.closed, r);
    assert Synced(t);
  }

  lemma CollectInv(c: Config, s: State, now: int)
    requires Inv(s)
    ensures Inv(Collect(c, s, now))
  {
    var t := Collect(c, s, now);
    if s.disk.Some? {
      assert t.disk.value.buckets == t.windows + t.closed;
    }
  }

  lemma TickInv(c: Config, s: State, now: int, order: seq<Key>, complete: bool)
    requires Inv(s)
    requires forall k | k in order :: k in s.windows
    ensures Inv(TickWindows(c, s, now, order, complete))
  {
    CloseInv(c, s, order);
    CollectInv(c, Close(c, s, order), now);
  }

  // ---- Ticks and the order of map iteration -----------------------------------

  lemma KeysConcat(o1: seq<Key>, o2: seq<Key>)
    ensures Keys(o1 + o2) == Keys(o1) + Keys(o2)
  {
  }

  lemma BatchesConcat(c: Config, s: State, o1: seq<Key>, o2: seq<Key>)
    requires forall k | k in o1 :: k in s.windows
    requires forall k | k in o2 :: k in s.windows
    ensures Batches(c, s, o1 + o2) == Batches(c, s, o1) + Batches(c, s, o2)
  {
  }

  lemma MapPlusAssociates(a: map<Key, Bucket>, b: map<Key, Bucket>, c: map<Key, Bucket>)
    ensures a + b + c == a + (b + c)
  {
  }

  lemma Overwrite(m: map<Key, Bucket>, k: Key, a: Bucket, b: Bucket)
    ensures m[k := a][k := b] == m[k := b]
  {
  }

  lemma MapMinusUnion(m: map<Key, Bucket>, a: set<Key>, b: set<Key>)
    ensures m - (a + b) == m - a - b
  {
  }

  /** Retiring in two steps what can be retired in one. */
  lemma RetiredUnion(s: State, t: State, a: set<Key>, b: set<Key>)
    requires a + b <= s.windows.Keys && t.windows == s.windows - a && a !! b
    ensures Retired(s, a + b) == Retired(s, a) + Retired(t, b)
  {
  }

  lemma RetireTwice(m: map<Key, Bucket>, s: State, t: State, a: set<Key>, b: set<Key>)
    requires a + b <= s.windows.Keys && t.windows == s.windows - a && a !! b
    ensures m + Retired(s, a) + Retired(t, b) == m + Retired(s, a + b)
  {
    RetiredUnion(s, t, a, b);
    MapPlusAssociates(m, Retired(s, a), Retired(t, b));
  }

  /** Closing in two steps what can be closed in one. */
  lemma CloseConcat(c: Config, s: State, o1: seq<Key>, o2: seq<Key>)
    requires forall k | k in o1 :: k in s.windows
    requires forall k | k in o2 :: k in s.windows && k !in o1
    ensures Close(c, Close(c, s, o1), o2) == Close(c, s, o1 + o2)
  {
    var t := Close(c, s, o1);
    KeysConcat(o1, o2);
    MapMinusUnion(s.windows, Keys(o1), Keys(o2));
    BatchesConcat(c, s, o1, o2);
    assert Batches(c, t, o2) == Batches(c, s, o2);
    RetireTwice(s.closed, s, t, Keys(o1), Keys(o2));
    if s.disk.Some? {
      RetireTwice(s.disk.value.buckets, s, t, Keys(o1), Keys(o2));
    }
  }

  lemma CloseNone(c: Config, s: State)
    ensures Close(c, s, []) == s
  {
    assert Retired(s, {}) == map[];
    assert s.windows - {} == s.windows && s.closed + map[] == s.closed;
    assert s.disk.Some? ==> s.disk.value.buckets + map[] == s.disk.value.buckets;
  }

  /** Sending and retiring one more window extends a close by that window. */
  lemma CloseOneMore(c: Config, s: State, order: seq<Key>, k: Key)
    requires Inv(s) && k in s.windows && k !in order
    requires forall x | x in order :: x in s.windows
    ensures k in Close(c, s, order).windows
    ensures Inv(Close(c, s, order + [k]))
    ensures Close(c, s, order + [k]) == Retire(Send(c, Close(c, s, order), k), k)
  {
    CloseInv(c, s, order);
    CloseInv(c, s, order + [k]);
    CloseOne(c, Close(c, s, order), k);
    CloseConcat(c, s, order, [k]);
  }

  /** Loading one more of the buckets that are still to load. */
  lemma LoadOneMore(buckets: map<Key, Bucket>, todo: set<Key>, k: Key)
    requires k in todo && todo <= buckets.Keys
    ensures OpenBuckets(buckets - (todo - {k}))
         == if buckets[k].closed then OpenBuckets(buckets - todo) else OpenBuckets(buckets - todo)[k := buckets[k]]
    ensures ClosedBuckets(buckets - (todo - {k}))
         == if buckets[k].closed then ClosedBuckets(buckets - todo)[k := buckets[k]] else ClosedBuckets(buckets - todo)
  {
  }

  lemma DeleteNone(d: Option<Disk>)
    ensures Deleted(d, {}) == d
  {
    assert d.Some? ==> d.value.buckets - {} == d.value.buckets;
  }

  lemma DeleteOneMore(d: Option<Disk>, ks: set<Key>, k: Key)
    ensures Deleted(Deleted(d, ks), {k}) == Deleted(d, ks + {k})
  {
    if d.Some? {
      MapMinusUnion(d.value.buckets, ks, {k});
    }
  }

  /** Where a tick stands: what it has sent, and which windows it has yet to visit. */
  ghost predicate TickUnderWay(c: Config, s: State, now: int, order: seq<Key>, todo: set<Key>) {
    && TickAllowed(c, s, now, order, false)
    && todo <= Close(c, s, order).windows.Keys
    && forall k | k in Close(c, s, order).windows && Expired(c, s.maxTS, now, k) :: k in todo
  }

  lemma TickStarts(c: Config, s: State, now: int)
    ensures TickUnderWay(c, s, now, [], s.windows.Keys)
  {
    CloseNone(c, s);
  }

  /** A window that has not expired is passed over. */
  lemma TickSkips(c: Config, s: State, now: int, order: seq<Key>, todo: set<Key>, k: Key)
    requires TickUnderWay(c, s, now, order, todo) && k in todo && !Expired(c, s.maxTS, now, k)
    ensures TickUnderWay(c, s, now, order, todo - {k})
  {
  }

  /** One that has is sent, and retired. */
  lemma TickSends(c: Config, s: State, now: int, order: seq<Key>, todo: set<Key>, k: Key)
    requires Inv(s) && TickUnderWay(c, s, now, order, todo) && k in todo && Expired(c, s.maxTS, now, k)
    ensures k in Close(c, s, order).windows
    ensures TickUnderWay(c, s, now, order + [k], todo - {k})
    ensures Inv(Close(c, s, order + [k]))
    ensures Close(c, s, order + [k]) == Retire(Send(c, Close(c, s, order), k), k)
  {
    CloseOneMore(c, s, order, k);
    assert Close(c, s, order + [k]).windows == Close(c, s, order).windows - {k};
  }

  /** A tick that has visited every window is complete. */
  lemma TickEnds(c: Config, s: State, now: int, order: seq<Key>)
    requires TickUnderWay(c, s, now, order, {})
    ensures TickAllowed(c, s, now, order, true)
  {
    forall k | k in s.windows && Expired(c, s.maxTS, now, k) ensures k in order {
      assert k !in Close(c, s, order).windows;
    }
  }

  /** Closing one window is sending its batch and then retiring it. */
  lemma CloseOne(c: Config, s: State, k: Key)
    requires Inv(s) && k in s.windows
    ensures Close(c, s, [k]) == Retire(Send(c, s, k), k)
  {
    var b := s.windows[k].(closed := true);
    assert Keys([k]) == {k};
    assert Retired(s, {k}) == map[k := b];
    assert s.closed + map[k := b] == s.closed[k := b];
    assert Batches(c, s, [k]) == [BatchOf(c, s.windows[k], false)];
    if s.disk.Some? {
      assert s.disk.value.buckets + map[k := b] == s.disk.value.buckets[k := b];
    }
  }

  /** closeExpired does not depend on the order of map iteration: the state is the
      same, and the batches are the same up to their order. */
  lemma TickOrderIrrelevant(c: Config, s: State, now: int, o1: seq<Key>, o2: seq<Key>, complete: bool)
    requires TickAllowed(c, s, now, o1, true) && TickAllowed(c, s, now, o2, true)
    ensures var t1, t2 := TickWindows(c, s, now, o1, complete), TickWindows(c, s, now, o2, complete);
            t1.(out := []) == t2.(out := []) && multiset(t1.out) == multiset(t2.out)
  {
    assert Keys(o1) == Keys(o2);
    DistinctSameElements(o1, o2);
    BatchesPermute(c, s, o1, o2);
  }

  lemma {:induction false} DistinctSameElements<T>(a: seq<T>, b: seq<T>)
    requires Distinct(a) && Distinct(b)
    requires forall x :: x in a <==> x in b
    ensures multiset(a) == multiset(b)
  {
    forall x ensures multiset(a)[x] == multiset(b)[x] {
      DistinctMultiplicity(a, x);
      DistinctMultiplicity(b, x);
    }
  }

  lemma {:induction false} DistinctMultiplicity<T>(s: seq<T>, x: T)
    requires Distinct(s)
    ensures multiset(s)[x] == if x in s then 1 else 0
  {
    if s == [] {
    } else {
      var n := |s| - 1;
      assert s == s[..n] + [s[n]];
      DistinctMultiplicity(s[..n], x);
    }
  }

  lemma BatchesMiddle(c: Config, s: State, x: seq<Key>, k: Key, y: seq<Key>)
    requires forall q | q in x + [k] + y :: q in s.windows
    requires forall q | q in x + y :: q in s.windows
    ensures multiset(Batches(c, s, x + [k] + y)) == multiset(Batches(c, s, x + y)) + multiset{BatchOf(c, s.windows[k], false)}
  {
    assert k in x + [k] + y;
    var b := BatchOf(c, s.windows[k], false);
    assert Batches(c, s, x + [k] + y) == Batches(c, s, x + y)[..|x|] + [b] + Batches(c, s, x + y)[|x|..];
    assert Batches(c, s, x + y) == Batches(c, s, x + y)[..|x|] + Batches(c, s, x + y)[|x|..];
    MultisetOfMiddle(Batches(c, s, x + y)[..|x|], b, Batches(c, s, x + y)[|x|..]);
  }

  lemma {:induction false} BatchesPermute(c: Config, s: State, o1: seq<Key>, o2: seq<Key>)
    requires forall k | k in o1 :: k in s.windows
    requires forall k | k in o2 :: k in s.windows
    requires multiset(o1) == multiset(o2)
    ensures multiset(Batches(c, s, o1)) == multiset(Batches(c, s, o2))
  {
    if o1 == [] {
      assert |o2| == |multiset(o2)| == 0;
    } else {
      var i := RemoveFromBoth(o1, o2);
      var k := Last(o1);
      assert o1 == Prior(o1) + [k] + [] && Prior(o1) + [] == Prior(o1);
      assert o2 == o2[..i] + [k] + o2[i + 1..];
      BatchesPermute(c, s, Prior(o1), o2[..i] + o2[i + 1..]);
      BatchesMiddle(c, s, Prior(o1), k, []);
      BatchesMiddle(c, s, o2[..i], k, o2[i + 1..]);
    }
  }

  lemma ExpiredLater(c: Config, maxTS: int, now: int, later: int, k: Key)
    requires now <= later && Expired(c, maxTS, now, k)
    ensures Expired(c, maxTS, later, k)
  {
  }

  /** What the next tick finds after one that was cut short: the state as it was left,
      or what a new process reads back of it. */
  function Resumed(c: Config, s: State, o1: seq<Key>, restart: bool): State
    requires forall k | k in o1 :: k in s.windows
  {
    if restart then Restart(Close(c, s, o1)) else Close(c, s, o1)
  }

  /** A tick cut short by a cancelled context loses nothing: a later tick, after a
      restart or not, gives what it would have given had the first one not happened. */
  lemma InterruptedTickResumes(c: Config, s: State, now: int, o1: seq<Key>, restart: bool, later: int, o2: seq<Key>)
    requires Inv(s) && (restart ==> s.disk.Some?) && now <= later
    requires TickAllowed(c, s, now, o1, false)
    requires TickAllowed(c, Resumed(c, s, o1, restart), later, o2, true)
    ensures TickAllowed(c, s, later, o1 + o2, true)
    ensures TickWindows(c, Resumed(c, s, o1, restart), later, o2, true) == TickWindows(c, s, later, o1 + o2, true)
  {
    var t := Close(c, s, o1);
    CloseInv(c, s, o1);
    if restart {
      RestartIsInvisible(t);
    }
    CloseConcat(c, s, o1, o2);
    forall k | k in o1 ensures Expired(c, s.maxTS, later, k) {
      ExpiredLater(c, s.maxTS, now, later, k);
    }
    forall k | k in s.windows && Expired(c, s.maxTS, later, k) ensures k in o1 + o2 {
      assert k in t.windows ==> k in o2;
    }
  }

  /** Nothing is collected before it was sent: a window due for collection is
      expired, so a complete tick closes it first. */
  lemma DueImpliesExpired(c: Config, maxTS: int, now: int, k: Key)
    requires c.lateness >= 0 && GcDue(c, maxTS, now, k)
    ensures Expired(c, maxTS, now, k)
  {
  }
}
