/** The sliding manager as an object (internal/window/sliding.go). */
module SlidingManager {
  import opened Model
  import opened EventTime
  import opened Rules
  import opened Sliding

  class WindowManager {
    const c: Config
    const count: nat
    var windows: map<Key, Bucket>
    var closedK: set<Key>
    var maxTS: int
    var out: seq<Batch>

    ghost function Abs(): State
      reads this
    {
      State(windows, closedK, maxTS, out)
    }

    ghost predicate Valid()
      reads this
    {
      count == Overlap(c) && forall k | k in windows :: windows[k].key == k
    }

    constructor (c: Config)
      ensures this.c == c && Valid() && Abs() == FRESH
    {
      this.c, this.count := c, c.size / c.slide;
      this.windows, this.closedK, this.maxTS, this.out := map[], {}, 0, [];
    }

    /** The loop over the windows of an event. */
    method Add(ev: Event)
      requires Valid()
      modifies this
      ensures Valid() && Abs() == AddEvent(c, old(Abs()), ev)
    {
      if ev.ts > maxTS {
        maxTS := ev.ts;
      }
      ghost var s := Abs();
      var base := Truncate(FromUnix(ev.ts), c.slide);
      var gk := GroupKey(ev, c.fields);
      PlaceNone(c, s, ev);
      for i := 0 to count
        invariant Valid() && Abs() == Place(c, s, ev, i)
      {
        PlaceOneMore(c, s, ev, i);
        var start := base - i * c.slide;
        var end := start + c.size;
        assert Key(gk, start) == KeyAt(c, ev, i);
        if Unix(end) < maxTS {
          continue;
        }
        var key := Key(gk, start);
        if key in closedK {
          continue;
        }
        Join(key, ev);
      }
    }

    /** The event enters one window. */
    method Join(key: Key, ev: Event)
      modifies this`windows
      ensures windows == old(windows)[key := Joined(old(windows), key, ev)]
    {
      if key in windows {
        var b := windows[key];
        windows := windows[key := b.(events := b.events + [ev], count := b.count + 1)];
      } else {
        windows := windows[key := Bucket(key, [ev], 1, false)];
      }
    }

    /** One tick: any iteration order, cancelled after `sends` sends. */
    method CloseExpired(now: int, sends: nat) returns (order: seq<Key>, complete: bool)
      requires Valid()
      modifies this
      ensures Valid() && TickAllowed(c, old(Abs()), now, order, complete)
      ensures Abs() == Close(c, old(Abs()), order)
    {
      ghost var s := Abs();
      order, complete := [], true;
      var wm := maxTS;
      var todo := windows.Keys;
      CloseNone(c, s);
      while todo != {}
        invariant todo <= windows.Keys
        invariant TickAllowed(c, s, now, order, false)
        invariant Valid() && Abs() == Close(c, s, order)
        invariant forall k | k in windows && Expired(c, s.maxTS, now, k) :: k in todo
      {
        var key :| key in todo;
        todo := todo - {key};
        var end := key.start + c.size;
        if Unix(end) > wm && now < end {
          continue;
        }
        if |order| == sends {
          complete := false;
          return;
        }
        CloseOneMore(c, s, order, key);
        var b := windows[key];
        out := out + [Batch(b.key, end, b.events, b.count, false)];
        windows := windows - {key};
        closedK := closedK + {key};
        order := order + [key];
      }
      forall k | k in s.windows && Expired(c, s.maxTS, now, k) ensures k in order {
        assert k !in Close(c, s, order).windows;
      }
    }
  }
}
