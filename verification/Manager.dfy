/** The tumbling manager as an object: two maps of buckets, a watermark, a store and
    an output, all updated in place (internal/window/tumbling.go). */
module Manager {
  import opened Model
  import opened EventTime
  import opened Tumbling

  class WindowManager {
    const c: Config
    var windows: map<Key, Bucket>
    var closed: map<Key, Bucket>
    var maxTS: int
    var disk: Option<Disk>
    var out: seq<Batch>

    ghost function Abs(): State
      reads this
    {
      State(windows, closed, maxTS, disk, out)
    }

    ghost predicate Valid()
      reads this
    {
      Inv(Abs())
    }

    /** NewManager and SetStore: the maps start empty, whatever the store holds. */
    constructor (c: Config, disk: Option<Disk>)
      ensures this.c == c && Abs() == State(map[], map[], 0, disk, [])
    {
      this.c, this.windows, this.closed := c, map[], map[];
      this.maxTS, this.disk, this.out := 0, disk, [];
    }

    /** Called once, before Run. Loading a store that a manager left behind rebuilds
        that manager. */
    method Restore() returns (open: nat)
      requires windows == map[] && closed == map[] && maxTS == 0
      requires disk.Some? ==> forall k | k in disk.value.buckets :: disk.value.buckets[k].key == k
      modifies this
      ensures Abs() == Restart(old(Abs()))
      ensures open == |windows|
    {
      open := 0;
      if disk.None? {
        return;
      }
      if disk.value.checkpoint.Some? {
        maxTS := disk.value.checkpoint.value;
      }
      open := LoadBuckets(disk.value.buckets);
    }

    /** The loop of Restore over the saved buckets, in any order. */
    method LoadBuckets(buckets: map<Key, Bucket>) returns (open: nat)
      requires windows == map[] && closed == map[]
      requires forall k | k in buckets :: buckets[k].key == k
      modifies this`windows, this`closed
      ensures windows == OpenBuckets(buckets) && closed == ClosedBuckets(buckets)
      ensures open == |windows|
    {
      open := 0;
      var todo := buckets.Keys;
      while todo != {}
        invariant todo <= buckets.Keys && open == |windows|
        invariant windows == OpenBuckets(buckets - todo)
        invariant closed == ClosedBuckets(buckets - todo)
      {
        var k :| k in todo;
        var b := buckets[k];
        LoadOneMore(buckets, todo, k);
        if b.closed {
          closed := closed[b.key := b];
        } else {
          windows := windows[b.key := b];
          open := open + 1;
        }
        todo := todo - {k};
      }
      assert buckets - {} == buckets;
    }

    /** Adds the event to the bucket of a key and saves it. */
    method Append(key: Key, ev: Event)
      requires key in windows || key in closed
      requires key in windows ==> key !in closed && windows[key].key == key
      requires key in closed ==> closed[key].key == key
      modifies this`windows, this`closed, this`disk
      ensures var s := old(Abs());
              Abs() == if key in s.windows then PutOpen(s, key, Appended(s.windows[key], ev))
                       else PutClosed(s, key, Appended(s.closed[key], ev))
    {
      var b := if key in windows then windows[key] else closed[key];
      b := b.(events := b.events + [ev]);
      b := b.(count := b.count + 1);
      if key in windows {
        windows := windows[key := b];
      } else {
        closed := closed[key := b];
      }
      if disk.Some? {
        disk := Some(disk.value.(buckets := disk.value.buckets[b.key := b]));
      }
    }

    method EmitBlocking(b: Bucket, corrected: bool)
      modifies this`out
      ensures out == old(out) + [BatchOf(c, b, corrected)]
    {
      out := out + [Batch(b.key, WindowEnd(c, b.key), b.events, b.count, corrected)];
    }

    /** A newer event moves the watermark, and its checkpoint is written at once. */
    method Observe(ev: Event)
      modifies this`maxTS, this`disk
      ensures Abs() == Advance(old(Abs()), ev)
    {
      if ev.ts > maxTS {
        maxTS := ev.ts;
        if disk.Some? {
          disk := Some(disk.value.(checkpoint := Some(maxTS)));
        }
      }
    }

    /** The four ways an event can meet its window. */
    method Add(ev: Event)
      requires Valid()
      modifies this
      ensures Valid() && Abs() == AddEvent(c, old(Abs()), ev)
    {
      AddInv(c, Abs(), ev);
      AdvanceInv(Abs(), ev);
      Observe(ev);
      var key := KeyOf(c, ev);
      ghost var s := Abs();
      if key in windows {
        Append(key, ev);
        assert Abs() == Place(c, s, ev);
      } else if key in closed {
        Append(key, ev);
        assert Abs() == Place(c, s, ev);
        EmitBlocking(closed[key], true);
      } else if Unix(WindowEnd(c, key)) <= Watermark(c, maxTS) {
        var b := Bucket(key, [], 0, true);
        Overwrite(closed, key, b, Appended(b, ev));
        closed := closed[key := b];
        Append(key, ev);
        assert Abs() == Place(c, s, ev);
        EmitBlocking(closed[key], true);
      } else {
        var b := Bucket(key, [], 0, false);
        Overwrite(windows, key, b, Appended(b, ev));
        windows := windows[key := b];
        Append(key, ev);
        assert Abs() == Place(c, s, ev);
      }
    }

    /** The rest of closeExpired's loop body, once the batch has a taker. */
    method CloseWindow(key: Key)
      requires key in windows && windows[key].key == key
      modifies this
      ensures Abs() == Retire(Send(c, old(Abs()), key), key)
    {
      var b := windows[key];
      out := out + [Batch(b.key, WindowEnd(c, key), b.events, b.count, false)];
      windows := windows - {key};
      b := b.(closed := true);
      closed := closed[key := b];
      if disk.Some? {
        disk := Some(disk.value.(buckets := disk.value.buckets[b.key := b]));
      }
    }

    /** One tick. The map is iterated in any order, and the context may be
        cancelled at any send: `sends` says how many get through. The order of the
        sends is returned, and whether the tick went on to collect. */
    method CloseExpired(now: int, sends: nat) returns (order: seq<Key>, complete: bool)
      requires Valid()
      modifies this
      ensures Valid() && TickAllowed(c, old(Abs()), now, order, complete)
      ensures Abs() == TickWindows(c, old(Abs()), now, order, complete)
    {
      ghost var s := Abs();
      order, complete := [], true;
      var todo := windows.Keys;
      CloseNone(c, s);
      TickStarts(c, s, now);
      while todo != {}
        invariant TickUnderWay(c, s, now, order, todo)
        invariant Valid() && Abs() == Close(c, s, order)
      {
        var key :| key in todo;
        var end := WindowEnd(c, key);
        var closedByWatermark := Unix(end) <= Watermark(c, maxTS);
        var closedByProcessing := now >= end + c.lateness;
        if !closedByWatermark && !closedByProcessing {
          TickSkips(c, s, now, order, todo, key);
          todo := todo - {key};
          continue;
        }
        if |order| == sends {
          complete := false;
          return;
        }
        TickSends(c, s, now, order, todo, key);
        CloseWindow(key);
        order := order + [key];
        todo := todo - {key};
      }
      TickEnds(c, s, now, order);
      GcClosed(now);
    }

    method GcClosed(now: int)
      requires Valid()
      modifies this`closed, this`disk
      ensures Valid() && Abs() == Collect(c, old(Abs()), now)
    {
      ghost var s := Abs();
      ghost var due := Due(c, s, now);
      var wm := Watermark(c, maxTS);
      var todo := closed.Keys;
      ghost var gone: set<Key> := {};
      DeleteNone(disk);
      while todo != {}
        invariant gone <= due <= gone + todo
        invariant todo <= closed.Keys
        invariant closed == s.closed - gone && disk == Deleted(s.disk, gone)
      {
        var key :| key in todo;
        todo := todo - {key};
        var end := WindowEnd(c, key);
        var gcByWatermark := wm >= Unix(end) + WholeSeconds(c.lateness);
        var gcByProcessing := now >= end + 2 * c.lateness;
        assert key in due <==> gcByWatermark || gcByProcessing;
        if gcByWatermark || gcByProcessing {
          closed := closed - {key};
          if disk.Some? {
            disk := Some(disk.value.(buckets := disk.value.buckets - {key}));
          }
          DeleteOneMore(s.disk, gone, key);
          MapMinusUnion(s.closed, gone, {key});
          gone := gone + {key};
        }
      }
      assert gone == due;
      CollectInv(c, s, now);
    }
  }
}
