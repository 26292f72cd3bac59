/** The one database under all the managers of a process, and what the guarantees of the
    protocol come to in it. The managers of the protocol have a store each, with a bucket
    for every window; the database has text keys, shared by all of them and by the seen
    entries. Here every step of the protocol writes to the database what the code writes. */
module SharedStore {
  import opened Model
  import opened EventTime
  import opened StoreKeys
  import opened Badger
  import opened Protocol
  import Rules
  import Retention
  import R = Traces
  import T = Tumbling
  import D = Delivery

  type Database = map<string, Entry>

  /** The namespace of each manager, and the name of the broker's stream, from which the
      ids of messages are made. */
  datatype Names = Names(stores: seq<string>, stream: string)

  function MsgId(names: Names, msg: nat): string {
    names.stream + "." + Decimal(msg)
  }

  /** The id of a message, by example: the stream and the sequence number in it. */
  lemma MsgIdText()
    ensures MsgId(Names([], "events"), 7) == "events.7"
  {
  }

  lemma MsgIdInjective(names: Names, msg: nat)
    ensures forall other: nat :: MsgId(names, other) == MsgId(names, msg) <==> other == msg
  {
    forall other: nat | MsgId(names, other) == MsgId(names, msg) ensures other == msg {
      var n := |names.stream + "."|;
      assert Decimal(other) == MsgId(names, other)[n..] && Decimal(msg) == MsgId(names, msg)[n..];
      DecimalInjective(other, msg);
    }
  }

  // ---- What the steps write ---------------------------------------------------

  function WithBucket(db: Database, ns: string, b: Bucket): Database {
    db[BucketKey(ns, b.key) := BucketEntry(b)]
  }

  function WithCheckpoint(db: Database, ns: string, ts: int): Database {
    db[CheckpointKey(ns) := CheckpointEntry(EncodeTs(ts))]
  }

  /** The bucket an event joins, with the event in it. */
  function JoinedBucket(c: T.Config, m: T.State, ev: Event): Bucket {
    T.Appended(T.BucketAt(m, T.KeyOf(c, ev), T.Corrects(c, m, T.KeyOf(c, ev))), ev)
  }

  function LocalWrites(c: T.Config, ns: string, input: seq<Envelope>, st: Stream, step: Local, db: Database): Database
    requires LocalEnabled(c, input, st, step)
  {
    match step
    case StartAdd =>
      var ev := input[st.queue[0]].ev;
      if ev.ts > st.mgr.maxTS then WithCheckpoint(db, ns, ev.ts) else db
    case PlaceEvent => WithBucket(db, ns, JoinedBucket(c, st.mgr, input[st.pc.p].ev))
    case RetireWindow => WithBucket(db, ns, st.mgr.windows[st.pc.k].(closed := true))
    case ForgetWindow(k) => db - {BucketKey(ns, k)}
    case _ => db
  }

  function Writes(sys: System, names: Names, s: State, a: Action, db: Database): Database
    requires |names.stores| == |sys.managers| && Enabled(sys, s, a)
  {
    match a
    case Manager(i, step) =>
      if sys.durable[i] then LocalWrites(sys.managers[i], names.stores[i], s.input, s.streams[i], step, db) else db
    case MarkSeen(i) => db[SeenKey(MsgId(names, AckOf(s, s.streams[i].pc.p).value.msg)) := SeenEntry]
    case ExpireSeen(msg) => db - {SeenKey(MsgId(names, msg))}
    case _ => db
  }

  /** The database after a history. A crash leaves it as it is. */
  ghost function DatabaseOf(sys: System, names: Names, h: History): Database
    requires |names.stores| == |sys.managers| && Legal(sys, h)
  {
    if h.Boot? then map[] else Writes(sys, names, Run(sys, h.before), h.action, DatabaseOf(sys, names, h.before))
  }

  // ---- The windows a manager holds --------------------------------------------

  /** Some event falls in the window. */
  ghost predicate IsWindow(c: T.Config, k: Key) {
    exists ts :: k.start == StartOf(c.size, ts)
  }

  ghost predicate HoldsWindows(c: T.Config, m: T.State) {
    forall k | k in m.windows || k in m.closed :: IsWindow(c, k)
  }

  lemma LocalHoldsWindows(c: T.Config, input: seq<Envelope>, st: Stream, step: Local)
    requires HoldsWindows(c, st.mgr) && LocalEnabled(c, input, st, step)
    ensures HoldsWindows(c, LocalApply(c, input, st, step).mgr)
  {
    if step.PlaceEvent? {
      var ev := input[st.pc.p].ev;
      assert T.KeyOf(c, ev).start == StartOf(c.size, ev.ts);
    }
  }

  lemma WindowsHaveOwnTexts(c: T.Config, ns: string, k: Key, l: Key)
    requires Separates(c.size) && IsWindow(c, k) && IsWindow(c, l)
    requires BucketKey(ns, k) == BucketKey(ns, l)
    ensures k == l
  {
    var ts :| k.start == StartOf(c.size, ts);
    var us :| l.start == StartOf(c.size, us);
    SameBucketKeyIff(ns, k, l);
    SeparatedStarts(c.size, ts, us);
  }

  // ---- One manager against the database ---------------------------------------

  /** What the manager believes to be stored is what its namespace of the database has. */
  ghost predicate Mirrors(db: Database, ns: string, m: T.State) {
    Filed(db, ns) && m.disk == Some(View(db, ns))
  }

  lemma WindowIsFree(c: T.Config, db: Database, ns: string, m: T.State, k: Key)
    requires Separates(c.size) && T.Inv(m) && HoldsWindows(c, m) && Mirrors(db, ns, m) && IsWindow(c, k)
    ensures IsFree(db, ns, k)
  {
    forall l | l in View(db, ns).buckets && BucketKey(ns, l) == BucketKey(ns, k) ensures l == k {
      assert l in m.windows || l in m.closed;
      WindowsHaveOwnTexts(c, ns, l, k);
    }
  }

  lemma SaveMirrors(c: T.Config, db: Database, ns: string, m: T.State, b: Bucket)
    requires Separates(c.size) && T.Inv(m) && HoldsWindows(c, m) && Mirrors(db, ns, m) && IsWindow(c, b.key)
    ensures Filed(WithBucket(db, ns, b), ns) && T.Saved(m.disk, b) == Some(View(WithBucket(db, ns, b), ns))
  {
    WindowIsFree(c, db, ns, m, b.key);
    SaveChangesView(db, ns, b);
  }

  lemma CheckpointMirrors(db: Database, ns: string, m: T.State, ts: int)
    requires Mirrors(db, ns, m) && IsInt64(ts)
    ensures Filed(WithCheckpoint(db, ns, ts), ns) && T.Checkpointed(m.disk, ts) == Some(View(WithCheckpoint(db, ns, ts), ns))
  {
    CheckpointRoundTrip(ts);
    CheckpointChangesView(db, ns, EncodeTs(ts));
  }

  predicate IsInt64(ts: int) {
    -TWO_63 <= ts < TWO_63
  }

  /** The bucket that a placed event joins keeps its own key. */
  lemma JoinedKey(c: T.Config, m: T.State, ev: Event)
    requires T.Inv(m)
    ensures JoinedBucket(c, m, ev).key == T.KeyOf(c, ev)
    ensures IsWindow(c, T.KeyOf(c, ev))
    ensures T.Place(c, m, ev).disk == T.Saved(m.disk, JoinedBucket(c, m, ev))
  {
    assert T.KeyOf(c, ev).start == StartOf(c.size, ev.ts);
  }

  /** Every step of a manager changes the database as it changes its own store. */
  lemma LocalMirrors(c: T.Config, ns: string, input: seq<Envelope>, st: Stream, step: Local, db: Database)
    requires Separates(c.size) && StreamOk(c, input, st) && HoldsWindows(c, st.mgr) && Mirrors(db, ns, st.mgr)
    requires LocalEnabled(c, input, st, step)
    requires forall env | env in input :: IsInt64(env.ev.ts)
    ensures Mirrors(LocalWrites(c, ns, input, st, step, db), ns, LocalApply(c, input, st, step).mgr)
  {
    match step
    case StartAdd =>
      var env := input[st.queue[0]];
      assert env in input;
      if env.ev.ts > st.mgr.maxTS {
        CheckpointMirrors(db, ns, st.mgr, env.ev.ts);
      }
    case PlaceEvent =>
      var ev := input[st.pc.p].ev;
      JoinedKey(c, st.mgr, ev);
      SaveMirrors(c, db, ns, st.mgr, JoinedBucket(c, st.mgr, ev));
    case RetireWindow =>
      SaveMirrors(c, db, ns, st.mgr, st.mgr.windows[st.pc.k].(closed := true));
    case ForgetWindow(k) =>
      WindowIsFree(c, db, ns, st.mgr, k);
      DeleteChangesView(db, ns, k);
    case _ =>
  }

  /** ... and leaves other namespaces and the seen entries as they are. */
  lemma LocalLeavesOthers(c: T.Config, ns: string, input: seq<Envelope>, st: Stream, step: Local, db: Database)
    requires LocalEnabled(c, input, st, step)
    ensures var after := LocalWrites(c, ns, input, st, step, db);
            && (forall other | Apart(ns, other) && Filed(db, other) :: Filed(after, other) && View(after, other) == View(db, other))
            && (forall id :: SeenKey(id) in after <==> SeenKey(id) in db)
  {
    var after := LocalWrites(c, ns, input, st, step, db);
    CheckpointConcernsOne(ns);
    forall k ensures (forall other | Apart(ns, other) ::
                        !(KeyPrefix(other) <= BucketKey(ns, k)) && BucketKey(ns, k) != CheckpointKey(other))
                     && (forall id :: BucketKey(ns, k) != SeenKey(id))
    {
      BucketKeyConcernsOne(ns, k);
    }
    forall other | Apart(ns, other) && Filed(db, other)
      ensures Filed(after, other) && View(after, other) == View(db, other)
    {
      UntouchedView(db, after, other);
    }
  }

  // ---- The whole process against the database ---------------------------------

  /** Managers with a store have sizes that keep their windows apart, and namespaces that
      keep them apart from each other. */
  ghost predicate WellNamed(sys: System, names: Names) {
    && |names.stores| == |sys.managers|
    && (forall i | 0 <= i < |sys.managers| && sys.durable[i] :: Separates(sys.managers[i].size))
    && (forall i, j | 0 <= i < |sys.managers| && 0 <= j < |sys.managers| && i != j && sys.durable[i] && sys.durable[j] ::
          Apart(names.stores[i], names.stores[j]))
  }

  /** Timestamps are 64-bit integers. */
  ghost predicate Int64Events(sys: System, h: History) {
    && (forall msg | msg in sys.broker && sys.broker[msg].Some? :: IsInt64(sys.broker[msg].value.ts))
    && (h.Then? ==> Int64Events(sys, h.before) && (h.action.Post? ==> IsInt64(h.action.ev.ts)))
  }

  ghost predicate InRange(s: State) {
    && (forall hd | hd in s.handlers && hd.Sending? :: IsInt64(hd.env.ev.ts))
    && (forall env | env in s.eventCh :: IsInt64(env.ev.ts))
    && (forall env | env in s.input :: IsInt64(env.ev.ts))
  }

  ghost predicate StoreShared(sys: System, names: Names, s: State, db: Database, i: nat)
    requires i < |s.streams| == |sys.managers| == |names.stores|
  {
    HoldsWindows(sys.managers[i], s.streams[i].mgr)
    && (sys.durable[i] ==> Mirrors(db, names.stores[i], s.streams[i].mgr))
  }

  ghost predicate SeenShared(names: Names, s: State, db: Database) {
    forall msg: nat :: SeenKey(MsgId(names, msg)) in db <==> msg in s.seen
  }

  ghost predicate Shared(sys: System, names: Names, s: State, db: Database) {
    && |s.streams| == |sys.managers| == |names.stores|
    && (forall i | 0 <= i < |s.streams| :: StoreShared(sys, names, s, db, i))
    && SeenShared(names, s, db)
    && InRange(s)
  }

  lemma StepInRange(sys: System, s: State, a: Action)
    requires Enabled(sys, s, a) && InRange(s)
    requires forall msg | msg in sys.broker && sys.broker[msg].Some? :: IsInt64(sys.broker[msg].value.ts)
    requires a.Post? ==> IsInt64(a.ev.ts)
    ensures InRange(Apply(sys, s, a))
  {
    if a.Enqueue? {
      assert s.handlers[a.j] in s.handlers;
    } else if a.Take? {
      assert s.eventCh[0] in s.eventCh;
    }
  }

  lemma ManagerShared(sys: System, names: Names, s: State, db: Database, i: nat, step: Local)
    requires WellNamed(sys, names) && D.Consistent(sys, s) && Shared(sys, names, s, db)
    requires Enabled(sys, s, Manager(i, step))
    ensures var t, after := Apply(sys, s, Manager(i, step)), Writes(sys, names, s, Manager(i, step), db);
            && (forall j | 0 <= j < |t.streams| :: StoreShared(sys, names, t, after, j))
            && SeenShared(names, t, after)
  {
    var t, after := Apply(sys, s, Manager(i, step)), Writes(sys, names, s, Manager(i, step), db);
    var c := sys.managers[i];
    assert D.MemberOk(sys, s, i) && StoreShared(sys, names, s, db, i);
    LocalHoldsWindows(c, s.input, s.streams[i], step);
    if sys.durable[i] {
      LocalMirrors(c, names.stores[i], s.input, s.streams[i], step, db);
      LocalLeavesOthers(c, names.stores[i], s.input, s.streams[i], step, db);
    }
    forall j | 0 <= j < |t.streams| ensures StoreShared(sys, names, t, after, j) {
      assert StoreShared(sys, names, s, db, j);
    }
  }

  /** A mark, or its expiry. */
  lemma SeenStepShared(sys: System, names: Names, s: State, db: Database, t: State, msg: nat, marks: bool)
    requires Shared(sys, names, s, db) && |t.streams| == |s.streams|
    requires forall i | 0 <= i < |s.streams| :: t.streams[i].mgr == s.streams[i].mgr
    requires t.seen == if marks then s.seen + {msg} else s.seen - {msg}
    ensures var key := SeenKey(MsgId(names, msg));
            var after := if marks then db[key := SeenEntry] else db - {key};
            && (forall i | 0 <= i < |t.streams| :: StoreShared(sys, names, t, after, i))
            && SeenShared(names, t, after)
  {
    var id := MsgId(names, msg);
    var after := if marks then db[SeenKey(id) := SeenEntry] else db - {SeenKey(id)};
    forall i | 0 <= i < |t.streams| ensures StoreShared(sys, names, t, after, i) {
      assert StoreShared(sys, names, s, db, i);
      if sys.durable[i] {
        SeenConcernsNone(db, after, names.stores[i], id);
      }
    }
    MsgIdInjective(names, msg);
    SeenKeyInjective(id);
  }

  /** Steps that write nothing leave every manager as it is, or crash it. */
  lemma QuietStep(sys: System, s: State, a: Action)
    requires Enabled(sys, s, a) && !a.Manager? && !a.MarkSeen? && !a.ExpireSeen?
    ensures var t := Apply(sys, s, a);
            && |t.streams| == |s.streams| && t.seen == s.seen
            && forall j | 0 <= j < |s.streams| ::
                 t.streams[j].mgr == if a.Crash? then T.Restart(s.streams[j].mgr) else s.streams[j].mgr
  {
  }

  /** With a store, a crash changes nothing of what a manager holds; without one, it
      leaves nothing. */
  lemma RestartShared(c: T.Config, m: T.State)
    requires T.Inv(m) && HoldsWindows(c, m)
    ensures HoldsWindows(c, T.Restart(m)) && (m.disk.Some? ==> T.Restart(m) == m)
  {
    if m.disk.Some? {
      T.RestartIsInvisible(m);
    }
  }

  lemma QuietStepShared(sys: System, names: Names, s: State, db: Database, t: State)
    requires D.Consistent(sys, s) && Shared(sys, names, s, db)
    requires |t.streams| == |s.streams| && t.seen == s.seen
    requires forall j | 0 <= j < |s.streams| ::
               t.streams[j].mgr == s.streams[j].mgr || t.streams[j].mgr == T.Restart(s.streams[j].mgr)
    ensures (forall j | 0 <= j < |t.streams| :: StoreShared(sys, names, t, db, j)) && SeenShared(names, t, db)
  {
    forall j | 0 <= j < |t.streams| ensures StoreShared(sys, names, t, db, j) {
      assert D.MemberOk(sys, s, j) && StoreShared(sys, names, s, db, j);
      RestartShared(sys.managers[j], s.streams[j].mgr);
    }
  }

  ghost predicate StepKeepsShared(sys: System, names: Names, s: State, db: Database, a: Action)
    requires Enabled(sys, s, a) && |s.streams| == |sys.managers| == |names.stores|
  {
    var t, after := Apply(sys, s, a), Writes(sys, names, s, a, db);
    && |t.streams| == |s.streams|
    && (forall j | 0 <= j < |t.streams| :: StoreShared(sys, names, t, after, j))
    && SeenShared(names, t, after)
  }

  lemma SeenStepKeeps(sys: System, names: Names, s: State, db: Database, a: Action)
    requires D.Consistent(sys, s) && Shared(sys, names, s, db) && Enabled(sys, s, a) && (a.MarkSeen? || a.ExpireSeen?)
    ensures StepKeepsShared(sys, names, s, db, a)
  {
    var msg := if a.MarkSeen? then AckOf(s, s.streams[a.i].pc.p).value.msg else a.msg;
    SeenStepShared(sys, names, s, db, Apply(sys, s, a), msg, a.MarkSeen?);
  }

  lemma StepShared(sys: System, names: Names, s: State, db: Database, a: Action)
    requires WellNamed(sys, names) && D.Consistent(sys, s) && Shared(sys, names, s, db) && Enabled(sys, s, a)
    ensures StepKeepsShared(sys, names, s, db, a)
  {
    if a.Manager? {
      ManagerShared(sys, names, s, db, a.i, a.step);
    } else if a.MarkSeen? || a.ExpireSeen? {
      SeenStepKeeps(sys, names, s, db, a);
    } else {
      QuietStep(sys, s, a);
      QuietStepShared(sys, names, s, db, Apply(sys, s, a));
    }
  }

  lemma {:induction false} RunsAreShared(sys: System, names: Names, h: History)
    requires WellNamed(sys, names) && Legal(sys, h) && Int64Events(sys, h)
    ensures Shared(sys, names, Run(sys, h), DatabaseOf(sys, names, h))
  {
    if h.Boot? {
      BootShared(sys, names);
    } else {
      var s := Run(sys, h.before);
      RunsAreShared(sys, names, h.before);
      D.RunsAreConsistent(sys, h.before);
      StepShared(sys, names, s, DatabaseOf(sys, names, h.before), h.action);
      StepInRange(sys, s, h.action);
    }
  }

  lemma BootShared(sys: System, names: Names)
    requires |names.stores| == |sys.managers|
    ensures Shared(sys, names, Booted(sys), map[])
  {
    forall i | 0 <= i < |sys.managers| ensures StoreShared(sys, names, Booted(sys), map[], i) {
      assert View(map[], names.stores[i]) == T.EMPTY_DISK;
    }
  }

  // ---- The guarantees, in the database ----------------------------------------

  /** A bucket of the namespace that is not closed, and holds the event. */
  ghost predicate InOpenBucket(db: Database, ns: string, ev: Event) {
    exists t :: t in db && KeyPrefix(ns) <= t && db[t].BucketEntry? && !db[t].bucket.closed && ev in db[t].bucket.events
  }

  lemma StoredIsInDatabase(db: Database, ns: string, ev: Event)
    requires Filed(db, ns)
    ensures Stored(View(db, ns).buckets, ev) <==> InOpenBucket(db, ns, ev)
  {
    var buckets := View(db, ns).buckets;
    if Stored(buckets, ev) {
      var k :| k in buckets && !buckets[k].closed && ev in buckets[k].events;
      ViewHas(db, ns, k);
      PrefixOfBucketKey(ns, k);
      assert BucketKey(ns, k) in db;
    }
    if InOpenBucket(db, ns, ev) {
      var t :| t in db && KeyPrefix(ns) <= t && db[t].BucketEntry? && !db[t].bucket.closed && ev in db[t].bucket.events;
      ViewHas(db, ns, db[t].bucket.key);
      assert db[t].bucket.key in buckets;
    }
  }

  /** At-least-once, end to end, in the one database: once a message is marked there as
      seen, or acknowledged to the broker, the database has an open bucket with its event
      under the namespace of every manager with a store, or the event is in a batch that
      the manager has handed downstream. */
  lemma AtLeastOnceInDatabase(sys: System, names: Names, h: History, msg: nat, i: nat)
    requires WellNamed(sys, names) && Legal(sys, h) && Int64Events(sys, h)
    requires i < |sys.managers| && sys.durable[i]
    requires SeenKey(MsgId(names, msg)) in DatabaseOf(sys, names, h) || msg in Run(sys, h).acked
    ensures var s, db := Run(sys, h), DatabaseOf(sys, names, h);
            && |s.streams| == |sys.managers| && msg in sys.broker && sys.broker[msg].Some?
            && var ev := sys.broker[msg].value;
            InOpenBucket(db, names.stores[i], ev) || Emitted(s.streams[i].mgr.out, ev)
  {
    RunsAreShared(sys, names, h);
    var s, db := Run(sys, h), DatabaseOf(sys, names, h);
    D.AtLeastOnce(sys, h, msg, i);
    assert StoreShared(sys, names, s, db, i);
    StoredIsInDatabase(db, names.stores[i], sys.broker[msg].value);
  }

  /** A crash anywhere is invisible in the database, too: after any history, a manager
      that starts empty and restores what its namespace holds is the manager there was,
      less its record of past output. */
  lemma RestoreFromDatabase(sys: System, names: Names, h: History, i: nat)
    requires WellNamed(sys, names) && Legal(sys, h) && Int64Events(sys, h)
    requires i < |sys.managers| && sys.durable[i]
    ensures var s, db := Run(sys, h), DatabaseOf(sys, names, h);
            && |s.streams| == |sys.managers| && Filed(db, names.stores[i])
            && T.Restart(T.State(map[], map[], 0, Some(View(db, names.stores[i])), [])) == s.streams[i].mgr.(out := [])
  {
    RunsAreShared(sys, names, h);
    D.RunsAreConsistent(sys, h);
    var s := Run(sys, h);
    assert StoreShared(sys, names, s, DatabaseOf(sys, names, h), i) && D.MemberOk(sys, s, i);
    T.RestoreRebuilds(s.streams[i].mgr);
  }

  // ---- Sizes that do not keep windows apart -----------------------------------

  /** What every run holds has its own text, for all runs, if and only if the size keeps
      windows apart. Otherwise a later bucket replaces an earlier one in the database,
      though the manager holds both. */
  lemma HeldWindowsHaveOwnTextsIff(c: T.Config, ns: string, durable: bool)
    requires c.lateness >= 0
    ensures (forall tr, k, l | R.Legal(c, durable, tr) && R.IsHeld(R.Run(c, durable, tr), k)
                               && R.IsHeld(R.Run(c, durable, tr), l) && BucketKey(ns, k) == BucketKey(ns, l) :: k == l)
       <==> Separates(c.size)
  {
    if Separates(c.size) {
      forall tr, k, l | R.Legal(c, durable, tr) && R.IsHeld(R.Run(c, durable, tr), k)
                        && R.IsHeld(R.Run(c, durable, tr), l) && BucketKey(ns, k) == BucketKey(ns, l)
        ensures k == l
      {
        HeldIsWindow(c, durable, tr, k);
        HeldIsWindow(c, durable, tr, l);
        WindowsHaveOwnTexts(c, ns, k, l);
      }
    } else {
      var first, second := CollidingEvents(c);
      var tr := R.After(R.After(R.Start, R.Add(first)), R.Add(second));
      var k, l := T.KeyOf(c, first), T.KeyOf(c, second);
      SameBucketKeyIff(ns, k, l);
      R.BucketsAreHistory(c, durable, tr, k);
      R.BucketsAreHistory(c, durable, tr, l);
      assert R.Since(c, tr.before, k) == [] + [first];
    }
  }

  lemma {:induction false} HeldIsWindow(c: T.Config, durable: bool, tr: R.Trace, k: Key)
    requires c.lateness >= 0 && R.Legal(c, durable, tr) && R.IsHeld(R.Run(c, durable, tr), k)
    ensures IsWindow(c, k)
  {
    R.BucketsAreHistory(c, durable, tr, k);
    Retention.SinceHasKey(c, tr, k);
    var ev := R.Since(c, tr, k)[0];
    assert T.KeyOf(c, ev).start == StartOf(c.size, ev.ts);
  }

  function EventAt(ts: int): Event {
    Event("", "", ts, map[], "")
  }

  /** Two events, a second apart, in two windows with one text. */
  lemma CollidingEvents(c: T.Config) returns (first: Event, second: Event)
    requires !Separates(c.size)
    ensures 0 < first.ts < second.ts && IsInt64(first.ts) && IsInt64(second.ts)
    ensures var k, l := T.KeyOf(c, first), T.KeyOf(c, second);
            k != l && k.group == l.group && Unix(k.start) == Unix(l.start) == first.ts
    ensures second.ts == first.ts + 1
    ensures Unix(T.WindowEnd(c, T.KeyOf(c, first))) == first.ts && Unix(T.WindowEnd(c, T.KeyOf(c, second))) == second.ts
  {
    var ts := CollidingStarts(c.size, 1);
    first, second := EventAt(ts), EventAt(ts + 1);
    assert Rules.GroupValues(first, Rules.GroupFields(c.fields)) == Rules.GroupValues(second, Rules.GroupFields(c.fields));
    assert T.KeyOf(c, first).start == StartOf(c.size, ts) && T.KeyOf(c, second).start == StartOf(c.size, ts + 1);
  }

  /** Where a history leads. */
  ghost predicate Reaches(sys: System, names: Names, h: History, s: State, db: Database) {
    && |names.stores| == |sys.managers| && Legal(sys, h) && Int64Events(sys, h)
    && Run(sys, h) == s && DatabaseOf(sys, names, h) == db
  }

  lemma ReachesNext(sys: System, names: Names, h: History, s: State, db: Database, a: Action)
    requires Reaches(sys, names, h, s, db) && Enabled(sys, s, a) && !a.Post?
    ensures Reaches(sys, names, Then(h, a), Apply(sys, s, a), Writes(sys, names, s, a, db))
  {
  }

  /** Nothing is on its way in a process with one manager. */
  ghost predicate Resting(s: State) {
    && |s.streams| == 1 && s.handlers == [] && s.eventCh == [] && s.next == 1
    && s.streams[0].pc == Idle && s.streams[0].queue == []
    && |s.input| == |s.remaining| == |s.fired|
  }

  /** A resting process with one more message in the manager's channel. */
  function Arrived(s: State, env: Envelope): State
    requires |s.streams| == 1
  {
    var p := |s.input|;
    s.(streams := [s.streams[0].(queue := [p], received := s.streams[0].received + [p])],
       input := s.input + [env], remaining := s.remaining + [1], fired := s.fired + [0])
  }

  lemma Arrive(sys: System, names: Names, h: History, s: State, db: Database, msg: nat)
    returns (more: History)
    requires Reaches(sys, names, h, s, db) && Resting(s)
    requires msg in sys.broker && sys.broker[msg].Some?
    ensures Reaches(sys, names, more, Arrived(s, Envelope(sys.broker[msg].value, Some(Ack(msg, false)))), db)
  {
    var env := Envelope(sys.broker[msg].value, Some(Ack(msg, false)));
    ReachesNext(sys, names, h, s, db, Deliver(msg, false));
    var h1, s1 := Then(h, Deliver(msg, false)), s.(handlers := [Sending(env)]);
    assert Reaches(sys, names, h1, s1, db);
    ReachesNext(sys, names, h1, s1, db, Enqueue(0));
    var h2, s2 := Then(h1, Enqueue(0)), s.(eventCh := [env]);
    assert Reaches(sys, names, h2, s2, db);
    more := Forwarded(sys, names, h2, s2, db, env);
    assert s2.(eventCh := []) == s;
  }

  /** The fan-out hands the one envelope on. */
  lemma Forwarded(sys: System, names: Names, h: History, s: State, db: Database, env: Envelope)
    returns (more: History)
    requires Reaches(sys, names, h, s, db)
    requires |s.streams| == 1 && s.next == 1 && s.eventCh == [env] && s.streams[0].queue == []
    ensures Reaches(sys, names, more, Arrived(s.(eventCh := []), env), db)
  {
    ReachesNext(sys, names, h, s, db, Take);
    var h1 := Then(h, Take);
    var s1 := s.(eventCh := [], input := s.input + [env], next := 0, remaining := s.remaining + [1], fired := s.fired + [0]);
    assert Reaches(sys, names, h1, s1, db);
    ReachesNext(sys, names, h1, s1, db, Forward);
    more := Then(h1, Forward);
    var st, p := s.streams[0], |s.input|;
    var received := st.(queue := st.queue + [p], received := st.received + [p]);
    assert s1.streams[0 := received] == [received] && st.queue + [p] == [p];
  }

  /** A step of the one manager. */
  lemma ManagerStep(sys: System, names: Names, h: History, s: State, db: Database, step: Local) returns (more: History)
    requires Reaches(sys, names, h, s, db) && |sys.managers| == 1 && sys.durable[0] && |s.streams| == 1
    requires LocalEnabled(sys.managers[0], s.input, s.streams[0], step)
    ensures Reaches(sys, names, more, s.(streams := [LocalApply(sys.managers[0], s.input, s.streams[0], step)]),
                    LocalWrites(sys.managers[0], names.stores[0], s.input, s.streams[0], step, db))
  {
    more := Then(h, Manager(0, step));
    ReachesNext(sys, names, h, s, db, Manager(0, step));
    var t := LocalApply(sys.managers[0], s.input, s.streams[0], step);
    assert s.streams[0 := t] == [t];
  }

  /** The last callback of an envelope, and the acknowledgement it makes. */
  lemma AckStep(sys: System, names: Names, h: History, s: State, db: Database, env: Envelope) returns (more: History, t: State)
    requires Reaches(sys, names, h, s, db) && |s.streams| == 1
    requires s.streams[0].pc.Added? && s.streams[0].pc.p < |s.input| == |s.remaining| == |s.fired|
    requires s.input[s.streams[0].pc.p] == env && env.ack.Some? && !env.ack.value.tagged && s.remaining[s.streams[0].pc.p] == 1
    ensures Reaches(sys, names, more, t, db)
    ensures t == s.(streams := t.streams, remaining := t.remaining, fired := t.fired, acked := s.acked + {env.ack.value.msg})
    ensures |t.remaining| == |s.remaining| && |t.fired| == |s.fired|
    ensures t.streams == [s.streams[0].(pc := Idle, done := s.streams[0].done + 1)]
  {
    var p := s.streams[0].pc.p;
    ReachesNext(sys, names, h, s, db, ChildAck(0));
    var h1, s1 := Then(h, ChildAck(0)), CountDown(s, 0);
    assert Reaches(sys, names, h1, s1, db);
    assert s1.streams[0].pc == Acking(p) && s1.input == s.input;
    ReachesNext(sys, names, h1, s1, db, BrokerAck(0));
    more, t := Then(h1, BrokerAck(0)), Apply(sys, s1, BrokerAck(0));
  }

  /** A message goes all the way: it is added in time, its bucket is saved, and it is
      acknowledged. */
  lemma Pass(sys: System, names: Names, h: History, s: State, db: Database, msg: nat) returns (more: History, t: State)
    requires Reaches(sys, names, h, s, db) && Resting(s) && |sys.managers| == 1 && sys.durable[0]
    requires msg in sys.broker && sys.broker[msg].Some?
    requires var c, m, ev := sys.managers[0], s.streams[0].mgr, sys.broker[msg].value;
             ev.ts > m.maxTS && !T.Corrects(c, T.Advance(m, ev), T.KeyOf(c, ev))
    ensures Resting(t) && t.acked == s.acked + {msg}
    ensures var c, m, ev := sys.managers[0], s.streams[0].mgr, sys.broker[msg].value;
            && t.streams[0].mgr == T.Place(c, T.Advance(m, ev), ev)
            && Reaches(sys, names, more, t, WithBucket(WithCheckpoint(db, names.stores[0], ev.ts),
                                                       names.stores[0], JoinedBucket(c, T.Advance(m, ev), ev)))
  {
    var ev, c, ns, p := sys.broker[msg].value, sys.managers[0], names.stores[0], |s.input|;
    var env := Envelope(ev, Some(Ack(msg, false)));
    more := Arrive(sys, names, h, s, db, msg);
    var s0 := Arrived(s, env);
    var st := s0.streams[0];
    assert s0.input[p] == env && s0.remaining[p] == 1;
    more := ManagerStep(sys, names, more, s0, db, StartAdd);
    var s1 := s0.(streams := [LocalApply(c, s0.input, st, StartAdd)]);
    assert s1.streams[0].pc == Advanced(p) && s1.streams[0].mgr == T.Advance(st.mgr, ev);
    more := ManagerStep(sys, names, more, s1, WithCheckpoint(db, ns, ev.ts), PlaceEvent);
    var s2 := s1.(streams := [LocalApply(c, s1.input, s1.streams[0], PlaceEvent)]);
    assert s2.streams[0].pc == Added(p);
    more, t := AckStep(sys, names, more, s2,
                       WithBucket(WithCheckpoint(db, ns, ev.ts), ns, JoinedBucket(c, T.Advance(st.mgr, ev), ev)), env);
  }

  /** Whether a process with this one manager keeps what it acknowledged. */
  ghost predicate KeepsAcked(c: T.Config, names: Names, sys: System, h: History, msg: nat)
    requires |names.stores| == 1
  {
    sys.managers == [c] && sys.durable == [true] && Legal(sys, h) && Int64Events(sys, h) && msg in Run(sys, h).acked ==>
      && |Run(sys, h).streams| == 1 && msg in sys.broker && sys.broker[msg].Some?
      && (InOpenBucket(DatabaseOf(sys, names, h), names.stores[0], sys.broker[msg].value)
          || Emitted(Run(sys, h).streams[0].mgr.out, sys.broker[msg].value))
  }

  /** A run that acknowledges two messages, and then has the first in no stored bucket
      and in no batch. */
  lemma CollidingWindowsLose(c: T.Config, names: Names) returns (sys: System, h: History)
    requires |names.stores| == 1 && c.lateness >= SECOND && !Separates(c.size)
    ensures !KeepsAcked(c, names, sys, h, 0)
  {
    var first, second := CollidingEvents(c);
    sys := Setup([c], [true], map[0 := Some(first), 1 := Some(second)]);
    var ns, s0 := names.stores[0], Booted(sys);
    var k, l := T.KeyOf(c, first), T.KeyOf(c, second);
    SameBucketKeyIff(ns, k, l);
    assert Reaches(sys, names, Boot, s0, map[]);
    var s1, s2;
    var db1 := WithBucket(WithCheckpoint(map[], ns, first.ts), ns, Bucket(k, [first], 1, false));
    var db2 := WithBucket(WithCheckpoint(db1, ns, second.ts), ns, Bucket(l, [second], 1, false));
    FirstOpens(c, T.Fresh(true), first);
    h, s1 := Pass(sys, names, Boot, s0, map[], 0);
    assert Reaches(sys, names, h, s1, db1);
    FirstOpens(c, s1.streams[0].mgr, second);
    h, s2 := Pass(sys, names, h, s1, db1, 1);
    assert Reaches(sys, names, h, s2, db2);
    OnlyBucket(ns, first.ts, Bucket(k, [first], 1, false), second.ts, Bucket(l, [second], 1, false), first);
  }

  /** An event that is the first of its window, and newer than all before it. */
  lemma FirstOpens(c: T.Config, m: T.State, ev: Event)
    requires ev.ts > m.maxTS && T.KeyOf(c, ev) !in m.windows && T.KeyOf(c, ev) !in m.closed && c.lateness >= SECOND
    requires Unix(T.WindowEnd(c, T.KeyOf(c, ev))) == ev.ts
    ensures var a, k := T.Advance(m, ev), T.KeyOf(c, ev);
            && !T.Corrects(c, a, k) && JoinedBucket(c, a, ev) == Bucket(k, [ev], 1, false)
            && T.Place(c, a, ev).windows == m.windows[k := Bucket(k, [ev], 1, false)]
            && T.Place(c, a, ev).closed == m.closed && T.Place(c, a, ev).out == m.out && T.Place(c, a, ev).maxTS == ev.ts
  {
    assert [] + [ev] == [ev];
  }

  /** A second bucket under the text of a first one: only the second is left. */
  lemma OnlyBucket(ns: string, ts: int, a: Bucket, us: int, b: Bucket, ev: Event)
    requires BucketKey(ns, a.key) == BucketKey(ns, b.key) && ev !in b.events
    ensures !InOpenBucket(WithBucket(WithCheckpoint(WithBucket(WithCheckpoint(map[], ns, ts), ns, a), ns, us), ns, b), ns, ev)
  {
    PrefixOfBucketKey(ns, a.key);
  }

  /** With at least a second of lateness, acknowledged events are kept in every run if and
      only if the size keeps windows apart. */
  lemma AckedAreKeptIff(c: T.Config, names: Names)
    requires |names.stores| == 1 && c.lateness >= SECOND
    ensures (forall sys, h, msg :: KeepsAcked(c, names, sys, h, msg)) <==> Separates(c.size)
  {
    if Separates(c.size) {
      forall sys, h, msg ensures KeepsAcked(c, names, sys, h, msg) {
        if sys.managers == [c] && sys.durable == [true] && Legal(sys, h) && Int64Events(sys, h) && msg in Run(sys, h).acked {
          AtLeastOnceInDatabase(sys, names, h, msg, 0);
        }
      }
    } else {
      var sys, h := CollidingWindowsLose(c, names);
    }
  }

  /** With less, windows of less than a second are past the watermark when their events
      come: none is ever opened, and an event is sent before it is acknowledged. */
  lemma SmallWindowsAreSentOnArrival(c: T.Config, s: T.State, ev: Event)
    requires c.size < SECOND && c.lateness < SECOND && T.Inv(s) && s.windows == map[]
    ensures var t := T.AddEvent(c, s, ev);
            t.windows == map[] && |t.out| == |s.out| + 1 && s.out <= t.out && ev in t.out[|s.out|].events
  {
    var a := T.Advance(s, ev);
    T.AdvanceInv(s, ev);
    SmallWindowIsPassed(c, a.maxTS, ev);
    var late := T.Place(c, a, ev);
    T.PlaceInv(c, a, ev);
    assert late.windows == map[] && ev in late.closed[T.KeyOf(c, ev)].events;
  }

  lemma SmallWindowIsPassed(c: T.Config, maxTS: int, ev: Event)
    requires c.size < SECOND && c.lateness < SECOND && ev.ts <= maxTS
    ensures T.Passed(c, maxTS, T.KeyOf(c, ev))
  {
    TruncateBounds(FromUnix(ev.ts), c.size);
    UnixMonotone(T.WindowEnd(c, T.KeyOf(c, ev)), FromUnix(ev.ts) + SECOND - 1);
  }
}
