/** The manager's operations are what its single steps add up to when no crash comes
    between: adds and ticks in the protocol are the adds and ticks of whole runs. */
module Refinement {
  import opened Model
  import opened Protocol
  import T = Tumbling

  /** Consecutive steps of one manager. */
  datatype Path = Here | Go(before: Path, step: Local)

  ghost predicate Walkable(c: T.Config, input: seq<Envelope>, st: Stream, path: Path)
    decreases path, 0
  {
    path.Go? ==>
      && Walkable(c, input, st, path.before)
      && LocalEnabled(c, input, Walk(c, input, st, path.before), path.step)
  }

  ghost function Walk(c: T.Config, input: seq<Envelope>, st: Stream, path: Path): Stream
    requires Walkable(c, input, st, path)
    decreases path, 1
  {
    if path.Here? then st else LocalApply(c, input, Walk(c, input, st, path.before), path.step)
  }

  /** Taking an envelope and adding its event. */
  lemma AddInSteps(c: T.Config, input: seq<Envelope>, st: Stream) returns (path: Path)
    requires StreamOk(c, input, st) && LocalEnabled(c, input, st, StartAdd)
    ensures Walkable(c, input, st, path)
    ensures var p := st.queue[0];
            Walk(c, input, st, path)
            == st.(queue := st.queue[1..], mgr := T.AddEvent(c, st.mgr, input[p].ev), pc := Added(p))
  {
    var ev := input[st.queue[0]].ev;
    StartAddOk(c, input, st);
    PlaceOk(c, input, LocalApply(c, input, st, StartAdd));
    path := Go(Go(Here, StartAdd), PlaceEvent);
    assert Walk(c, input, st, Go(Here, StartAdd)) == LocalApply(c, input, st, StartAdd);
    if T.Corrects(c, T.Advance(st.mgr, ev), T.KeyOf(c, ev)) {
      path := Go(path, Correct);
    }
  }

  /** One window sent and retired. */
  lemma SendInSteps(c: T.Config, input: seq<Envelope>, st: Stream, path: Path, now: int, k: Key)
    returns (more: Path)
    requires Walkable(c, input, st, path) && Walk(c, input, st, path).pc == Closing(now)
    requires var m := Walk(c, input, st, path).mgr; k in m.windows && T.Expired(c, m.maxTS, now, k)
    ensures Walkable(c, input, st, more)
    ensures var a := Walk(c, input, st, path);
            Walk(c, input, st, more) == a.(mgr := T.Retire(T.Send(c, a.mgr, k), k))
  {
    var a := Walk(c, input, st, path);
    var sent := Go(path, SendWindow(k));
    assert Walk(c, input, st, sent) == LocalApply(c, input, a, SendWindow(k));
    more := Go(sent, RetireWindow);
  }

  /** The sends of a tick. */
  lemma {:induction false} CloseInSteps(c: T.Config, input: seq<Envelope>, st: Stream, now: int, order: seq<Key>)
    returns (path: Path)
    requires T.Inv(st.mgr) && st.pc.Idle? && T.TickAllowed(c, st.mgr, now, order, false)
    ensures Walkable(c, input, st, path)
    ensures Walk(c, input, st, path) == st.(mgr := T.Close(c, st.mgr, order), pc := Closing(now))
  {
    if order == [] {
      T.CloseNone(c, st.mgr);
      path := Go(Here, BeginTick(now));
      assert Walk(c, input, st, Here) == st;
    } else {
      var n := |order| - 1;
      var k, rest := order[n], order[..n];
      path := CloseInSteps(c, input, st, now, rest);
      assert order == rest + [k];
      T.CloseOneMore(c, st.mgr, rest, k);
      path := SendInSteps(c, input, st, path, now, k);
    }
  }

  /** The deletions of a tick. */
  lemma {:induction false} CollectInSteps(c: T.Config, input: seq<Envelope>, st: Stream, path: Path, now: int, gone: set<Key>)
    returns (more: Path)
    requires Walkable(c, input, st, path) && Walk(c, input, st, path).pc == Collecting(now)
    requires gone <= T.Due(c, Walk(c, input, st, path).mgr, now)
    ensures Walkable(c, input, st, more)
    ensures var a := Walk(c, input, st, path);
            Walk(c, input, st, more)
            == a.(mgr := a.mgr.(closed := a.mgr.closed - gone, disk := T.Deleted(a.mgr.disk, gone)))
  {
    var a := Walk(c, input, st, path);
    if gone == {} {
      more := path;
      T.DeleteNone(a.mgr.disk);
      assert a.mgr.closed - {} == a.mgr.closed;
    } else {
      var k :| k in gone;
      var rest := gone - {k};
      more := CollectInSteps(c, input, st, path, now, rest);
      T.DeleteOneMore(a.mgr.disk, rest, k);
      T.MapMinusUnion(a.mgr.closed, rest, {k});
      assert rest + {k} == gone;
      more := Go(more, ForgetWindow(k));
    }
  }

  /** The end of a tick that was not cut short. */
  lemma EndInSteps(c: T.Config, input: seq<Envelope>, st: Stream, path: Path, now: int)
    returns (more: Path)
    requires Walkable(c, input, st, path) && Walk(c, input, st, path).pc == Closing(now)
    requires var m := Walk(c, input, st, path).mgr; forall k | k in m.windows :: !T.Expired(c, m.maxTS, now, k)
    ensures Walkable(c, input, st, more)
    ensures var a := Walk(c, input, st, path);
            Walk(c, input, st, more) == a.(mgr := T.Collect(c, a.mgr, now), pc := Idle)
  {
    var m := Walk(c, input, st, path).mgr;
    more := Go(path, EndClosing);
    more := CollectInSteps(c, input, st, more, now, T.Due(c, m, now));
    more := Go(more, EndTick);
  }

  /** A whole tick, complete or cut short by a cancelled context. */
  lemma TickInSteps(c: T.Config, input: seq<Envelope>, st: Stream, now: int, order: seq<Key>, complete: bool)
    returns (path: Path)
    requires T.Inv(st.mgr) && st.pc.Idle? && T.TickAllowed(c, st.mgr, now, order, complete)
    ensures Walkable(c, input, st, path)
    ensures Walk(c, input, st, path) == st.(mgr := T.TickWindows(c, st.mgr, now, order, complete))
  {
    path := CloseInSteps(c, input, st, now, order);
    if complete {
      path := EndInSteps(c, input, st, path, now);
    } else {
      path := Go(path, CancelTick);
    }
  }
}
