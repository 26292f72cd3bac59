/** Rules and grouping keys (internal/rule/rule.go). */
module Rules {
  import opened Model

  datatype AggFunc = Count | Sum | Max | Min | Avg

  datatype Op = Gt | Gte | Lt | Lte

  /** An aggregate value: MAX and MIN start from an infinity. */
  datatype Number = NegInf | Finite(value: real) | PosInf

  /** `size` and `slide` are durations in nanoseconds; 0 means "not given". */
  datatype Rule = Rule(
    name: string,
    filterField: string,
    filterEq: string,
    groupBy: seq<string>,
    aggFunc: AggFunc,
    aggField: string,
    op: Op,
    threshold: real,
    size: int,
    slide: int)

  function FieldString(ev: Event, field: string): Option<string> {
    if field == "service" then Some(ev.service)
    else if field == "level" then Some(ev.level)
    else if field in ev.fields then Some(ev.fields[field].text)
    else None
  }

  function FieldFloat(ev: Event, field: string): Option<real> {
    if field == "service" || field == "level" then None
    else if field in ev.fields then ev.fields[field].number
    else None
  }

  predicate Matches(r: Rule, ev: Event) {
    r.filterField == "" || FieldString(ev, r.filterField) == Some(r.filterEq)
  }

  predicate Less(a: Number, b: Number) {
    a != b && (a.NegInf? || b.PosInf? || (a.Finite? && b.Finite? && a.value < b.value))
  }

  predicate Satisfied(r: Rule, v: Number) {
    match r.op
    case Gt => Less(Finite(r.threshold), v)
    case Gte => !Less(v, Finite(r.threshold))
    case Lt => Less(v, Finite(r.threshold))
    case Lte => !Less(Finite(r.threshold), v)
  }

  /** Which events a rule selects, in terms of their own fields: without a filter, all. */
  lemma FilterMeaning(r: Rule, ev: Event)
    ensures r.filterField == "" ==> Matches(r, ev)
    ensures r.filterField == "service" ==> (Matches(r, ev) <==> ev.service == r.filterEq)
    ensures r.filterField == "level" ==> (Matches(r, ev) <==> ev.level == r.filterEq)
    ensures r.filterField !in {"", "service", "level"} ==>
              (Matches(r, ev) <==> r.filterField in ev.fields && ev.fields[r.filterField].text == r.filterEq)
  {
  }

  /** Which values pass a threshold; an infinity is beyond every threshold. */
  lemma ThresholdMeaning(r: Rule, x: real)
    ensures r.op == Gt ==> (Satisfied(r, Finite(x)) <==> x > r.threshold)
    ensures r.op == Gte ==> (Satisfied(r, Finite(x)) <==> x >= r.threshold)
    ensures r.op == Lt ==> (Satisfied(r, Finite(x)) <==> x < r.threshold)
    ensures r.op == Lte ==> (Satisfied(r, Finite(x)) <==> x <= r.threshold)
    ensures Satisfied(r, PosInf) <==> r.op in {Gt, Gte}
    ensures Satisfied(r, NegInf) <==> r.op in {Lt, Lte}
  {
  }

  /** An empty field name groups by service; a missing field yields "". */
  function GroupValue(ev: Event, field: string): string {
    var v := FieldString(ev, if field == "" then "service" else field);
    if v.Some? then v.value else ""
  }

  function GroupValues(ev: Event, fields: seq<string>): (values: seq<string>)
    ensures |values| == |fields|
    ensures forall i | 0 <= i < |fields| :: values[i] == GroupValue(ev, fields[i])
  {
    if fields == [] then [] else [GroupValue(ev, fields[0])] + GroupValues(ev, fields[1..])
  }

  /** strings.Join with a one-character separator. */
  function Join(parts: seq<string>, sep: char): string {
    if parts == [] then ""
    else if |parts| == 1 then parts[0]
    else parts[0] + [sep] + Join(parts[1..], sep)
  }

  /** The fields a rule groups by: none given means service. */
  function GroupFields(fields: seq<string>): seq<string> {
    if fields == [] then ["service"] else fields
  }

  /** The composite grouping key of an event. */
  function GroupKey(ev: Event, fields: seq<string>): string {
    Join(GroupValues(ev, GroupFields(fields)), '|')
  }

  /** What an event is grouped by: its service if nothing, or an empty name, is asked for;
      one field as it is, or nothing if it has none; and several, separated. */
  lemma GroupMeaning(ev: Event, field: string, fields: seq<string>)
    ensures GroupKey(ev, []) == GroupKey(ev, [""]) == GroupKey(ev, ["service"]) == ev.service
    ensures GroupKey(ev, ["level"]) == ev.level
    ensures field !in {"", "service", "level"} ==>
              GroupKey(ev, [field]) == if field in ev.fields then ev.fields[field].text else ""
    ensures fields != [] ==> GroupKey(ev, [field] + fields) == GroupKey(ev, [field]) + "|" + GroupKey(ev, fields)
  {
    assert GroupValues(ev, [field]) == [GroupValue(ev, field)];
    if fields != [] {
      var all := [field] + fields;
      assert all[1..] == fields;
      assert GroupValues(ev, all) == [GroupValue(ev, field)] + GroupValues(ev, fields);
      assert GroupValues(ev, all)[1..] == GroupValues(ev, fields);
    }
  }

  /** The first separator splits a string in one way only. */
  lemma FirstSplitUnique(a: string, x: string, b: string, y: string, sep: char)
    requires sep !in a && sep !in b
    requires a + [sep] + x == b + [sep] + y
    ensures a == b && x == y
  {
    var s := a + [sep] + x;
    assert s[|a|] == sep && s[|b|] == sep;
    assert forall i | 0 <= i < |a| :: s[i] == a[i];
    assert forall i | 0 <= i < |b| :: s[i] == b[i];
    assert |a| == |b|;
    assert a == s[..|a|] == b;
    assert x == s[|a| + 1..] == y;
  }

  lemma JoinHasSeparator(f: seq<string>, sep: char)
    ensures |f| > 1 ==> sep in Join(f, sep)
  {
    if |f| > 1 {
      assert Join(f, sep)[|f[0]|] == sep;
    }
  }

  /** Joining is injective on non-empty lists of separator-free parts. */
  lemma {:induction false} JoinInjective(f: seq<string>, g: seq<string>, sep: char)
    requires f != [] && g != []
    requires forall p | p in f :: sep !in p
    requires forall p | p in g :: sep !in p
    requires Join(f, sep) == Join(g, sep)
    ensures f == g
  {
    JoinHasSeparator(f, sep);
    JoinHasSeparator(g, sep);
    if |f| == 1 || |g| == 1 {
    } else {
      FirstSplitUnique(f[0], Join(f[1..], sep), g[0], Join(g[1..], sep), sep);
      JoinInjective(f[1..], g[1..], sep);
      assert f == [f[0]] + f[1..] && g == [g[0]] + g[1..];
    }
  }
}
