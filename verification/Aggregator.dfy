/** Reducing a batch to one number under a rule (internal/aggregator/agg.go). */
module Aggregator {
  import opened Model
  import opened Rules

  datatype Result = Result(key: Key, end: int, count: int, value: Number, corrected: bool)

  // ---- What is computed -------------------------------------------------------

  function Matching(events: seq<Event>, r: Rule): (matched: seq<Event>)
    ensures forall ev | ev in matched :: Matches(r, ev)
  {
    if events == [] then []
    else if Matches(r, Last(events)) then Matching(Prior(events), r) + [Last(events)]
    else Matching(Prior(events), r)
  }

  function Numbers(events: seq<Event>, field: string): seq<real> {
    if events == [] then []
    else
      var f := FieldFloat(Last(events), field);
      if f.Some? then Numbers(Prior(events), field) + [f.value] else Numbers(Prior(events), field)
  }

  function Total(xs: seq<real>): real {
    if xs == [] then 0.0 else Total(Prior(xs)) + Last(xs)
  }

  /** Everything a rule may ask of its matching events, in one pass. */
  datatype Summary = Summary(count: nat, sum: real, max: Number, min: Number)

  const NOTHING := Summary(0, 0.0, NegInf, PosInf)

  function Include(s: Summary, ev: Event, r: Rule): Summary {
    if !Matches(r, ev) then s
    else
      var f := FieldFloat(ev, r.aggField);
      if f.None? then s.(count := s.count + 1)
      else
        var x := Finite(f.value);
        Summary(
          s.count + 1,
          s.sum + f.value,
          if Less(s.max, x) then x else s.max,
          if Less(x, s.min) then x else s.min)
  }

  function Summarize(events: seq<Event>, r: Rule): Summary {
    if events == [] then NOTHING else Include(Summarize(Prior(events), r), Last(events), r)
  }

  /** The value checked by HAVING. AVG divides by every matching event, numeric or
      not; MAX and MIN of no matching event are 0. */
  function Value(events: seq<Event>, r: Rule): Number {
    var s := Summarize(events, r);
    match r.aggFunc
    case Count => Finite(s.count as real)
    case Sum => Finite(s.sum)
    case Max => if s.count > 0 then s.max else Finite(0.0)
    case Min => if s.count > 0 then s.min else Finite(0.0)
    case Avg => if s.count > 0 then Finite(s.sum / s.count as real) else Finite(0.0)
  }

  predicate Fires(events: seq<Event>, r: Rule) {
    Satisfied(r, Value(events, r))
  }

  /** The loop of Aggregate: only the accumulator of the rule's function moves. */
  method Aggregate(b: Batch, r: Rule) returns (res: Result)
    ensures res.key == b.key && res.end == b.end && res.corrected == b.corrected
    ensures res.count == |Matching(b.events, r)|
    ensures r.filterField == "" ==> res.count == |b.events|
    ensures res.value == Value(b.events, r)
  {
    var count, sum, max, min := 0, 0.0, NegInf, PosInf;
    for i := 0 to |b.events|
      invariant count == Summarize(b.events[..i], r).count == |Matching(b.events[..i], r)|
      invariant r.aggFunc in {Sum, Avg} ==> sum == Summarize(b.events[..i], r).sum
      invariant r.aggFunc == Max ==> max == Summarize(b.events[..i], r).max
      invariant r.aggFunc == Min ==> min == Summarize(b.events[..i], r).min
    {
      var ev := b.events[i];
      assert Prior(b.events[..i + 1]) == b.events[..i];
      if !Matches(r, ev) {
        continue;
      }
      count := count + 1;
      var f := FieldFloat(ev, r.aggField);
      match r.aggFunc {
        case Sum | Avg =>
          if f.Some? {
            sum := sum + f.value;
          }
        case Max =>
          if f.Some? && Less(max, Finite(f.value)) {
            max := Finite(f.value);
          }
        case Min =>
          if f.Some? && Less(Finite(f.value), min) {
            min := Finite(f.value);
          }
        case Count =>
      }
    }
    assert b.events[..|b.events|] == b.events;
    NoFilterSelectsAll(b.events, r);
    var value := Finite(0.0);
    match r.aggFunc {
      case Sum => value := Finite(sum);
      case Max => if count > 0 { value := max; }
      case Min => if count > 0 { value := min; }
      case Avg => if count > 0 { value := Finite(sum / count as real); }
      case Count => value := Finite(count as real);
    }
    res := Result(b.key, b.end, count, value, b.corrected);
  }

  // ---- What it means ----------------------------------------------------------

  /** Without a filter, every event counts. */
  lemma {:induction false} NoFilterSelectsAll(events: seq<Event>, r: Rule)
    ensures r.filterField == "" ==> Matching(events, r) == events
  {
    if events == [] {
    } else {
      NoFilterSelectsAll(Prior(events), r);
      FilterMeaning(r, Last(events));
    }
  }

  /** Whether an event has what the rule's filter asks for. */
  predicate HasAskedFor(r: Rule, ev: Event) {
    match r.filterField
    case "" => true
    case "service" => ev.service == r.filterEq
    case "level" => ev.level == r.filterEq
    case name => name in ev.fields && ev.fields[name].text == r.filterEq
  }

  /** The matching events are a filter of the events, by their own fields, in order:
      event by event, whichever way the batch is cut. */
  lemma {:induction false} MatchingIsFilter(a: seq<Event>, b: seq<Event>, ev: Event, r: Rule)
    ensures Matching([ev], r) == if HasAskedFor(r, ev) then [ev] else []
    ensures Matching(a + b, r) == Matching(a, r) + Matching(b, r)
  {
    assert Prior([ev]) == [] && Last([ev]) == ev;
    if b == [] {
      assert a + b == a;
    } else {
      MatchingIsFilter(a, Prior(b), ev, r);
      assert Prior(a + b) == a + Prior(b) && Last(a + b) == Last(b);
    }
  }

  /** The numbers of a rule's field, likewise: service and level have none. */
  lemma NumberMeaning(ev: Event, field: string)
    ensures FieldFloat(ev, field).Some? <==>
              field !in {"service", "level"} && field in ev.fields && ev.fields[field].number.Some?
    ensures FieldFloat(ev, field).Some? ==> FieldFloat(ev, field) == ev.fields[field].number
  {
  }

  /** A running maximum, started from its infinity: a greatest element, if any. */
  ghost predicate IsGreatest(m: Number, xs: seq<real>) {
    if xs == [] then m == NegInf
    else m.Finite? && m.value in xs && forall x | x in xs :: x <= m.value
  }

  ghost predicate IsLeast(m: Number, xs: seq<real>) {
    if xs == [] then m == PosInf
    else m.Finite? && m.value in xs && forall x | x in xs :: m.value <= x
  }

  /** A summary against plain definitions: a total, a greatest and a least element. */
  ghost predicate Describes(s: Summary, xs: seq<real>) {
    s.sum == Total(xs) && IsGreatest(s.max, xs) && IsLeast(s.min, xs)
  }

  lemma InSnoc(xs: seq<real>, x: real)
    ensures Prior(xs + [x]) == xs && Last(xs + [x]) == x && x in xs + [x]
    ensures forall y :: y in xs + [x] <==> y in xs || y == x
  {
  }

  lemma GreatestOneMore(m: Number, xs: seq<real>, x: real)
    requires IsGreatest(m, xs)
    ensures IsGreatest(if Less(m, Finite(x)) then Finite(x) else m, xs + [x])
  {
    InSnoc(xs, x);
  }

  lemma LeastOneMore(m: Number, xs: seq<real>, x: real)
    requires IsLeast(m, xs)
    ensures IsLeast(if Less(Finite(x), m) then Finite(x) else m, xs + [x])
  {
    InSnoc(xs, x);
  }

  lemma DescribesOneMore(s: Summary, xs: seq<real>, ev: Event, r: Rule)
    requires Describes(s, xs) && Matches(r, ev)
    ensures var f := FieldFloat(ev, r.aggField);
            Describes(Include(s, ev, r), if f.Some? then xs + [f.value] else xs)
  {
    var f := FieldFloat(ev, r.aggField);
    if f.Some? {
      InSnoc(xs, f.value);
      GreatestOneMore(s.max, xs, f.value);
      LeastOneMore(s.min, xs, f.value);
    }
  }

  /** What the one-pass summary says about the numbers of the matching events. */
  lemma {:induction false} SummaryMeaning(events: seq<Event>, r: Rule)
    ensures Summarize(events, r).count == |Matching(events, r)|
    ensures Describes(Summarize(events, r), Numbers(Matching(events, r), r.aggField))
  {
    if events == [] {
    } else {
      SummaryMeaning(Prior(events), r);
      var before, ms := Matching(Prior(events), r), Matching(events, r);
      if Matches(r, Last(events)) {
        assert ms == before + [Last(events)] && Prior(ms) == before && Last(ms) == Last(events);
        DescribesOneMore(Summarize(Prior(events), r), Numbers(before, r.aggField), Last(events), r);
      }
    }
  }

  lemma CountAndSum(events: seq<Event>, r: Rule)
    ensures Summarize(events, r).count == |Matching(events, r)|
    ensures Summarize(events, r).sum == Total(Numbers(Matching(events, r), r.aggField))
  {
    SummaryMeaning(events, r);
  }

  /** COUNT and SUM in plain terms. */
  lemma TotalsMeaning(events: seq<Event>, r: Rule)
    ensures r.aggFunc == Count ==> Value(events, r) == Finite(|Matching(events, r)| as real)
    ensures r.aggFunc == Sum ==> Value(events, r) == Finite(Total(Numbers(Matching(events, r), r.aggField)))
  {
    CountAndSum(events, r);
  }

  /** AVG in plain terms: the total of the numbers, divided by the count of all matching
      events, numeric or not; and 0 if there is no such event. */
  lemma AverageMeaning(events: seq<Event>, r: Rule)
    requires r.aggFunc == Avg
    ensures var v, ms := Value(events, r), Matching(events, r);
            if ms == [] then v == Finite(0.0)
            else v == Finite(Total(Numbers(ms, r.aggField)) / |ms| as real)
  {
    CountAndSum(events, r);
  }

  /** MAX and MIN in plain terms: the greatest and the least number of the matching
      events; an infinity if none has a number; and 0 if there is no such event. */
  lemma ExtremesMeaning(events: seq<Event>, r: Rule)
    requires r.aggFunc == Max || r.aggFunc == Min
    ensures var v, ms := Value(events, r), Matching(events, r);
            var xs := Numbers(ms, r.aggField);
            if ms == [] then v == Finite(0.0)
            else if xs == [] then v == if r.aggFunc == Max then NegInf else PosInf
            else v.Finite? && v.value in xs
                 && forall x | x in xs :: if r.aggFunc == Max then x <= v.value else v.value <= x
  {
    SummaryMeaning(events, r);
  }

  // ---- Arrival order ----------------------------------------------------------

  lemma IncludeCommutes(s: Summary, a: Event, b: Event, r: Rule)
    ensures Include(Include(s, a, r), b, r) == Include(Include(s, b, r), a, r)
  {
  }

  /** Any event may be taken as the last one. */
  lemma {:induction false} SummarizeAnyOrder(events: seq<Event>, r: Rule, i: nat)
    requires i < |events|
    ensures Summarize(events, r) == Include(Summarize(events[..i] + events[i + 1..], r), events[i], r)
  {
    var rest := events[..i] + events[i + 1..];
    if i == |events| - 1 {
      assert rest == Prior(events);
    } else {
      SummarizeAnyOrder(Prior(events), r, i);
      var shorter := Prior(events)[..i] + Prior(events)[i + 1..];
      assert shorter == Prior(rest) && Last(rest) == Last(events);
      IncludeCommutes(Summarize(shorter, r), events[i], Last(events), r);
    }
  }

  lemma {:induction false} SummarizePermutation(a: seq<Event>, b: seq<Event>, r: Rule)
    requires multiset(a) == multiset(b)
    ensures Summarize(a, r) == Summarize(b, r)
  {
    if a == [] {
      assert |b| == |multiset(b)| == 0;
    } else {
      var i := RemoveFromBoth(a, b);
      SummarizePermutation(Prior(a), b[..i] + b[i + 1..], r);
      SummarizeAnyOrder(b, r, i);
    }
  }

  lemma ValuePermutation(a: seq<Event>, b: seq<Event>, r: Rule)
    requires multiset(a) == multiset(b)
    ensures Value(a, r) == Value(b, r)
  {
    SummarizePermutation(a, b, r);
  }

  // ---- Alerts across corrections ----------------------------------------------

  /** A threshold that more events can only push further past. */
  predicate Monotone(r: Rule) {
    || (r.aggFunc in {Count, Max} && r.op in {Gt, Gte})
    || (r.aggFunc == Min && r.op in {Lt, Lte})
  }

  /** One more event never lowers a count or a maximum, nor raises a minimum. */
  lemma IncludeIsMonotone(s: Summary, ev: Event, r: Rule)
    ensures var t := Include(s, ev, r);
            t.count >= s.count && !Less(t.max, s.max) && !Less(s.min, t.min)
  {
  }

  lemma SatisfiedIsMonotone(r: Rule, v: Number, w: Number)
    requires Satisfied(r, v)
    ensures (r.op == Gt || r.op == Gte) && !Less(w, v) ==> Satisfied(r, w)
    ensures (r.op == Lt || r.op == Lte) && !Less(v, w) ==> Satisfied(r, w)
  {
  }

  lemma ExtensionKeepsFiring(events: seq<Event>, ev: Event, r: Rule)
    requires Monotone(r) && Fires(events, r)
    requires r.aggFunc == Count || Matching(events, r) != []
    ensures Fires(events + [ev], r)
  {
    CountAndSum(events, r);
    assert Prior(events + [ev]) == events && Last(events + [ev]) == ev;
    IncludeIsMonotone(Summarize(events, r), ev, r);
    SatisfiedIsMonotone(r, Value(events, r), Value(events + [ev], r));
  }

  /** What MAX and MIN are of one matching event. */
  function FirstExtreme(ev: Event, r: Rule): Number {
    var f := FieldFloat(ev, r.aggField);
    if f.Some? then Finite(f.value) else if r.aggFunc == Max then NegInf else PosInf
  }

  lemma ExtremeOfFirstMatch(events: seq<Event>, ev: Event, r: Rule)
    requires r.aggFunc == Max || r.aggFunc == Min
    requires Matching(events, r) == [] && Matches(r, ev)
    ensures Value(events + [ev], r) == FirstExtreme(ev, r)
  {
    var longer := events + [ev];
    assert Prior(longer) == events && Last(longer) == ev;
    assert Matching(longer, r) == [] + [ev] == [ev];
    ExtremesMeaning(longer, r);
    NumbersOfOne(ev, r.aggField);
  }

  lemma NumbersOfOne(ev: Event, field: string)
    ensures Numbers([ev], field) == if FieldFloat(ev, field).Some? then [FieldFloat(ev, field).value] else []
  {
    assert Prior([ev]) == [] && Last([ev]) == ev;
  }

  /** What an alert needs to outlive one more event: that it counts, or has seen a match,
      or sees none now, or that the first match passes the threshold by itself. */
  predicate Outlives(events: seq<Event>, ev: Event, r: Rule) {
    r.aggFunc == Count || Matching(events, r) != [] || !Matches(r, ev) || Satisfied(r, FirstExtreme(ev, r))
  }

  /** Exactly when a firing alert survives one more event. MAX and MIN of nothing are
      reported as 0, so an alert on a batch without a match may be withdrawn by the first
      match, and by nothing else. */
  lemma AlertSurvivesIff(events: seq<Event>, ev: Event, r: Rule)
    requires Monotone(r) && Fires(events, r)
    ensures Fires(events + [ev], r) <==> Outlives(events, ev, r)
  {
    if r.aggFunc == Count || Matching(events, r) != [] {
      ExtensionKeepsFiring(events, ev, r);
    } else if Matches(r, ev) {
      ExtremeOfFirstMatch(events, ev, r);
    } else {
      assert Prior(events + [ev]) == events && Last(events + [ev]) == ev;
    }
  }
}
