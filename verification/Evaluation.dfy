/** What the engine computes from the batches of its streams
    (internal/engine/engine.go): for every batch, one result per rule of its stream. */
module Evaluation {
  import opened Model
  import opened Rules
  import opened Aggregator
  import opened Streams
  import opened Tumbling
  import opened Traces
  import opened Corrections

  /** A batch on its way to the evaluation loop, with the stream it came from. */
  datatype Tagged = Tagged(stream: StreamKey, batch: Batch)

  /** What a notifier is given. */
  datatype Emission = Emission(rule: Rule, result: Result)

  /** The answer of a rule to a batch, in plain terms. */
  function Answer(b: Batch, r: Rule): Result {
    Result(b.key, b.end, |Matching(b.events, r)|, Value(b.events, r), b.corrected)
  }

  function Answers(rules: seq<Rule>, b: Batch): seq<Emission> {
    seq(|rules|, i requires 0 <= i < |rules| => Emission(rules[i], Answer(b, rules[i])))
  }

  function Emissions(rules: seq<Rule>, defaultWindow: int, taken: seq<Tagged>): seq<Emission> {
    if taken == [] then []
    else
      var n := |taken| - 1;
      Emissions(rules, defaultWindow, taken[..n])
      + Answers(RulesOf(rules, defaultWindow, taken[n].stream), taken[n].batch)
  }

  /** The loop at the end of Run, over the batches it has taken so far. The batches of
      one stream arrive in the order they were sent, and those of several interleave. */
  method Evaluate(byGroup: map<StreamKey, seq<Rule>>, ghost rules: seq<Rule>, ghost defaultWindow: int, taken: seq<Tagged>)
    returns (emitted: seq<Emission>)
    requires Grouped(byGroup, rules, defaultWindow)
    requires forall t | t in taken :: t.stream in byGroup
    ensures emitted == Emissions(rules, defaultWindow, taken)
  {
    emitted := [];
    for i := 0 to |taken|
      invariant emitted == Emissions(rules, defaultWindow, taken[..i])
    {
      var b, served := taken[i].batch, byGroup[taken[i].stream];
      ghost var before := emitted;
      for j := 0 to |served|
        invariant emitted == before + Answers(served, b)[..j]
      {
        var res := Aggregate(b, served[j]);
        emitted := emitted + [Emission(served[j], res)];
      }
      assert taken[..i + 1][..i] == taken[..i];
    }
    assert taken[..|taken|] == taken;
  }

  // ---- The last result of a rule ----------------------------------------------

  function LastResult(emitted: seq<Emission>, r: Rule, k: Key): Option<Result> {
    if emitted == [] then None
    else
      var e := emitted[|emitted| - 1];
      if e.rule == r && e.result.key == k then Some(e.result) else LastResult(emitted[..|emitted| - 1], r, k)
  }

  function OfStream(taken: seq<Tagged>, stream: StreamKey): seq<Batch> {
    if taken == [] then []
    else
      var n := |taken| - 1;
      if taken[n].stream == stream then OfStream(taken[..n], stream) + [taken[n].batch] else OfStream(taken[..n], stream)
  }

  lemma {:induction false} LastResultAppend(emitted: seq<Emission>, more: seq<Emission>, r: Rule, k: Key)
    ensures LastResult(emitted + more, r, k)
         == if LastResult(more, r, k).Some? then LastResult(more, r, k) else LastResult(emitted, r, k)
  {
    if more == [] {
      assert emitted + more == emitted;
    } else {
      var n := |more| - 1;
      assert (emitted + more)[..|emitted + more| - 1] == emitted + more[..n];
      LastResultAppend(emitted, more[..n], r, k);
    }
  }

  lemma {:induction false} LastAnswer(rules: seq<Rule>, b: Batch, r: Rule, k: Key)
    ensures LastResult(Answers(rules, b), r, k) == if r in rules && b.key == k then Some(Answer(b, r)) else None
  {
    if rules == [] {
    } else {
      var n := |rules| - 1;
      assert rules == rules[..n] + [rules[n]];
      assert Answers(rules, b)[..n] == Answers(rules[..n], b);
      LastAnswer(rules[..n], b, r, k);
    }
  }

  /** Whatever the other streams send in between, the last result of a rule is its
      answer to the last batch of the one stream that serves it. */
  lemma {:induction false} LastResultIsAnswer(rules: seq<Rule>, defaultWindow: int, taken: seq<Tagged>, r: Rule, k: Key)
    requires r in rules
    ensures var last := LastBatch(OfStream(taken, StreamOf(r, defaultWindow)), k);
            LastResult(Emissions(rules, defaultWindow, taken), r, k)
            == if last.Some? then Some(Answer(last.value, r)) else None
  {
    if taken == [] {
    } else {
      var n := |taken| - 1;
      var t := taken[n];
      LastResultIsAnswer(rules, defaultWindow, taken[..n], r, k);
      LastResultAppend(Emissions(rules, defaultWindow, taken[..n]), Answers(RulesOf(rules, defaultWindow, t.stream), t.batch), r, k);
      LastAnswer(RulesOf(rules, defaultWindow, t.stream), t.batch, r, k);
      RulesOfHas(rules, defaultWindow, t.stream, r);
      var former := OfStream(taken[..n], StreamOf(r, defaultWindow));
      assert (former + [t.batch])[..|former|] == former;
    }
  }

  // ---- A rule's own view of the stream ----------------------------------------

  /** Configurations that differ at most in the names of the fields they group by. */
  ghost predicate Alike(c: Config, d: Config) {
    c.size == d.size && c.lateness == d.lateness && SameGrouping(c.fields, d.fields)
  }

  lemma {:induction false} AlikeHistory(c: Config, d: Config, tr: Trace, k: Key)
    requires Alike(c, d)
    ensures Since(c, tr, k) == Since(d, tr, k)
    ensures Shut(c, tr, k) == Shut(d, tr, k)
    ensures SentByEvent(c, tr, k) == SentByEvent(d, tr, k)
  {
    assert forall ev :: KeyOf(c, ev) == KeyOf(d, ev);
    if tr.Start? {
    } else {
      AlikeHistory(c, d, tr.before, k);
    }
  }

  /** How the manager of a rule's stream is set up: by the first rule of the stream. */
  function ManagerOf(rules: seq<Rule>, defaultWindow: int, lateness: int, r: Rule): Settings
    requires r in rules
  {
    RulesOfHas(rules, defaultWindow, StreamOf(r, defaultWindow), r);
    Settings(SizeOf(r, defaultWindow), lateness, RulesOf(rules, defaultWindow, StreamOf(r, defaultWindow))[0].groupBy)
  }

  /** What the rule asks for by itself. */
  function Asked(r: Rule, defaultWindow: int, lateness: int): Settings {
    Settings(SizeOf(r, defaultWindow), lateness, r.groupBy)
  }

  lemma ManagerServes(rules: seq<Rule>, defaultWindow: int, lateness: int, r: Rule)
    requires r in rules && SizeOf(r, defaultWindow) > 0
    requires forall q | q in rules :: forall name | name in q.groupBy :: '|' !in name
    ensures Alike(ManagerOf(rules, defaultWindow, lateness, r), Asked(r, defaultWindow, lateness))
  {
    StreamsServeRules(rules, defaultWindow, r);
  }

  /** The rule's query over the events of a window since it was last forgotten. */
  function QueryOverHistory(c: Config, tr: Trace, k: Key, r: Rule): Result {
    var history := Since(c, tr, k);
    Result(k, k.start + c.size, |Matching(history, r)|, Value(history, r), SentByEvent(c, tr, k))
  }

  /** For a manager `c` set up like `asked`: the answer to its last report. */
  lemma AnswerToLastReport(c: Config, asked: Config, durable: bool, tr: Trace, k: Key, r: Rule)
    requires Alike(c, asked) && c.lateness >= 0 && Legal(c, durable, tr) && Shut(asked, tr, k)
    ensures var last := LastBatch(Run(c, durable, tr).out, k);
            last.Some? && Answer(last.value, r) == QueryOverHistory(asked, tr, k, r)
  {
    AlikeHistory(c, asked, tr, k);
    LastReportIsHistory(c, durable, tr, k);
  }

  /** End to end, for the rules of tumbling streams: whatever the other rules and streams
      do, and whatever crashes and cancelled ticks lie between, the last result the engine
      gave out for a rule and a shut window is the rule's query over the event history,
      windowed and grouped as the rule itself asks. All it takes is that the evaluation
      loop got the last batch of that window: a crash may have dropped others. */
  lemma LastResultIsBatchQuery(rules: seq<Rule>, defaultWindow: int, lateness: nat, r: Rule,
                               durable: bool, tr: Trace, taken: seq<Tagged>, k: Key)
    requires r in rules && SizeOf(r, defaultWindow) > 0
    requires forall q | q in rules :: forall name | name in q.groupBy :: '|' !in name
    requires Legal(ManagerOf(rules, defaultWindow, lateness, r), durable, tr)
    requires LastBatch(OfStream(taken, StreamOf(r, defaultWindow)), k)
             == LastBatch(Run(ManagerOf(rules, defaultWindow, lateness, r), durable, tr).out, k)
    requires Shut(Asked(r, defaultWindow, lateness), tr, k)
    ensures LastResult(Emissions(rules, defaultWindow, taken), r, k)
         == Some(QueryOverHistory(Asked(r, defaultWindow, lateness), tr, k, r))
  {
    var c, asked := ManagerOf(rules, defaultWindow, lateness, r), Asked(r, defaultWindow, lateness);
    ManagerServes(rules, defaultWindow, lateness, r);
    AnswerToLastReport(c, asked, durable, tr, k, r);
    LastResultIsAnswer(rules, defaultWindow, taken, r, k);
  }
}
