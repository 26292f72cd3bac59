/** How the engine splits its rules over window managers (internal/engine/engine.go). */
module Streams {
  import opened Model
  import opened Rules

  datatype StreamKey = StreamKey(size: int, slide: int, groupBy: string)

  /** A canonical text for a group_by list; none given means service. */
  function NormalizeGroupBy(fields: seq<string>): string {
    if fields == [] then "service" else Join(fields, '|')
  }

  function SizeOf(r: Rule, defaultWindow: int): int {
    if r.size <= 0 then defaultWindow else r.size
  }

  function StreamOf(r: Rule, defaultWindow: int): StreamKey {
    StreamKey(SizeOf(r, defaultWindow), r.slide, NormalizeGroupBy(r.groupBy))
  }

  /** The rules of one stream, in configuration order. */
  function RulesOf(rules: seq<Rule>, defaultWindow: int, key: StreamKey): seq<Rule> {
    if rules == [] then []
    else
      var n := |rules| - 1;
      if StreamOf(rules[n], defaultWindow) == key then RulesOf(rules[..n], defaultWindow, key) + [rules[n]]
      else RulesOf(rules[..n], defaultWindow, key)
  }

  function StreamsOf(rules: seq<Rule>, defaultWindow: int): set<StreamKey> {
    set r | r in rules :: StreamOf(r, defaultWindow)
  }

  lemma OneMoreStream(rules: seq<Rule>, defaultWindow: int, r: Rule)
    ensures StreamsOf(rules + [r], defaultWindow) == StreamsOf(rules, defaultWindow) + {StreamOf(r, defaultWindow)}
  {
    assert forall q | q in rules + [r] :: q in rules || q == r;
    assert r in rules + [r] && forall q | q in rules :: q in rules + [r];
  }

  lemma OneMoreRule(rules: seq<Rule>, defaultWindow: int, r: Rule, key: StreamKey)
    ensures RulesOf(rules + [r], defaultWindow, key)
         == if StreamOf(r, defaultWindow) == key then RulesOf(rules, defaultWindow, key) + [r] else RulesOf(rules, defaultWindow, key)
  {
    assert (rules + [r])[..|rules|] == rules;
  }

  /** A map from streams to their rules. */
  ghost predicate Grouped(byGroup: map<StreamKey, seq<Rule>>, rules: seq<Rule>, defaultWindow: int) {
    && byGroup.Keys == StreamsOf(rules, defaultWindow)
    && forall key | key in byGroup :: byGroup[key] == RulesOf(rules, defaultWindow, key) != []
  }

  /** A map from streams to the fields of their first rule, which is what a stream's
      group function is made from. */
  ghost predicate Fielded(groupFields: map<StreamKey, seq<string>>, rules: seq<Rule>, defaultWindow: int) {
    && groupFields.Keys == StreamsOf(rules, defaultWindow)
    && forall key | key in groupFields ::
         var served := RulesOf(rules, defaultWindow, key);
         served != [] && groupFields[key] == served[0].groupBy
  }

  lemma GroupOneMore(m: map<StreamKey, seq<Rule>>, rules: seq<Rule>, defaultWindow: int, r: Rule)
    requires Grouped(m, rules, defaultWindow)
    ensures var gk := StreamOf(r, defaultWindow);
            Grouped(m[gk := (if gk in m then m[gk] else []) + [r]], rules + [r], defaultWindow)
  {
    var gk := StreamOf(r, defaultWindow);
    var n := m[gk := (if gk in m then m[gk] else []) + [r]];
    OneMoreStream(rules, defaultWindow, r);
    forall key | key in n ensures n[key] == RulesOf(rules + [r], defaultWindow, key) != [] {
      OneMoreRule(rules, defaultWindow, r, key);
      if key !in m {
        RulesOfAbsent(rules, defaultWindow, key);
      }
    }
  }

  lemma FieldOneMore(m: map<StreamKey, seq<string>>, rules: seq<Rule>, defaultWindow: int, r: Rule)
    requires Fielded(m, rules, defaultWindow)
    ensures var gk := StreamOf(r, defaultWindow);
            Fielded(if gk in m then m else m[gk := r.groupBy], rules + [r], defaultWindow)
  {
    var gk := StreamOf(r, defaultWindow);
    var n := if gk in m then m else m[gk := r.groupBy];
    OneMoreStream(rules, defaultWindow, r);
    forall key | key in n
      ensures var served := RulesOf(rules + [r], defaultWindow, key); served != [] && n[key] == served[0].groupBy
    {
      OneMoreRule(rules, defaultWindow, r, key);
      if key !in m {
        RulesOfAbsent(rules, defaultWindow, key);
      }
    }
  }

  /** The two maps Run builds, in two passes over the rules. */
  method Partition(rules: seq<Rule>, defaultWindow: int)
    returns (byGroup: map<StreamKey, seq<Rule>>, groupFields: map<StreamKey, seq<string>>)
    ensures Grouped(byGroup, rules, defaultWindow)
    ensures Fielded(groupFields, rules, defaultWindow)
  {
    byGroup, groupFields := map[], map[];
    for i := 0 to |rules|
      invariant Grouped(byGroup, rules[..i], defaultWindow)
    {
      var r := rules[i];
      var gk := StreamKey(if r.size <= 0 then defaultWindow else r.size, r.slide, NormalizeGroupBy(r.groupBy));
      GroupOneMore(byGroup, rules[..i], defaultWindow, r);
      assert rules[..i + 1] == rules[..i] + [r];
      byGroup := byGroup[gk := (if gk in byGroup then byGroup[gk] else []) + [r]];
    }
    for i := 0 to |rules|
      invariant Fielded(groupFields, rules[..i], defaultWindow)
    {
      var r := rules[i];
      var gk := StreamKey(if r.size <= 0 then defaultWindow else r.size, r.slide, NormalizeGroupBy(r.groupBy));
      FieldOneMore(groupFields, rules[..i], defaultWindow, r);
      assert rules[..i + 1] == rules[..i] + [r];
      if gk !in groupFields {
        groupFields := groupFields[gk := r.groupBy];
      }
    }
    assert rules[..|rules|] == rules;
  }

  lemma {:induction false} RulesOfAbsent(rules: seq<Rule>, defaultWindow: int, key: StreamKey)
    requires key !in StreamsOf(rules, defaultWindow)
    ensures RulesOf(rules, defaultWindow, key) == []
  {
    if rules == [] {
    } else {
      var n := |rules| - 1;
      assert rules[n] in rules;
      RulesOfAbsent(rules[..n], defaultWindow, key);
    }
  }

  lemma {:induction false} RulesOfHas(rules: seq<Rule>, defaultWindow: int, key: StreamKey, r: Rule)
    ensures r in RulesOf(rules, defaultWindow, key) <==> r in rules && StreamOf(r, defaultWindow) == key
  {
    if rules == [] {
    } else {
      RulesOfHas(rules[..|rules| - 1], defaultWindow, key, r);
      assert rules == rules[..|rules| - 1] + [rules[|rules| - 1]];
    }
  }

  /** The rules of a stream are a filter of the rules, in configuration order, however the
      list is cut. */
  lemma {:induction false} RulesOfIsFilter(a: seq<Rule>, b: seq<Rule>, r: Rule, defaultWindow: int, key: StreamKey)
    ensures RulesOf([r], defaultWindow, key) == if StreamOf(r, defaultWindow) == key then [r] else []
    ensures RulesOf(a + b, defaultWindow, key) == RulesOf(a, defaultWindow, key) + RulesOf(b, defaultWindow, key)
  {
    assert [r][..0] == [];
    if b == [] {
      assert a + b == a;
    } else {
      var n := |b| - 1;
      RulesOfIsFilter(a, b[..n], r, defaultWindow, key);
      assert a + b == (a + b[..n]) + [b[n]] && b == b[..n] + [b[n]];
      OneMoreRule(a + b[..n], defaultWindow, b[n], key);
      OneMoreRule(b[..n], defaultWindow, b[n], key);
    }
  }

  // ---- Are the rules of a stream grouped alike? -------------------------------

  /** The two lists group every event alike. */
  ghost predicate SameGrouping(f: seq<string>, g: seq<string>) {
    forall ev :: GroupKey(ev, f) == GroupKey(ev, g)
  }

  /** An event whose only field is `name`. */
  function EventWith(name: string): Event {
    Event("", "", 0, map[name := FieldValue("x", None)], "")
  }

  /** Grouping values of that event never contain the separator. */
  lemma ValuesOfEventWith(name: string, fields: seq<string>)
    requires '|' in name
    ensures forall v | v in GroupValues(EventWith(name), fields) :: '|' !in v
    ensures forall i | 0 <= i < |fields| :: GroupValues(EventWith(name), fields)[i] == if fields[i] == name then "x" else ""
  {
    var ev := EventWith(name);
    assert '|' !in "" && '|' !in "service" && '|' !in "level" && '|' !in "x";
    forall field ensures GroupValue(ev, field) == if field == name then "x" else "" {
      if field == name {
        assert field != "" && field != "service" && field != "level";
      }
    }
  }

  /** If two lists join to one text and first differ in their heads, the longer head
      swallowed a separator. */
  lemma DifferentHeads(f: seq<string>, g: seq<string>)
    requires f != [] && g != [] && f[0] != g[0] && |f[0]| <= |g[0]| && Join(f, '|') == Join(g, '|')
    ensures '|' in g[0]
  {
    var s := Join(f, '|');
    assert f[0] <= s && g[0] <= s;
    assert f[0] == s[..|f[0]|] && g[0] == s[..|g[0]|];
    assert |f[0]| < |g[0]|;
    assert s[|f[0]|] == '|' == g[0][|f[0]|];
  }

  /** An event that two lists with one text and different heads group differently. */
  lemma HeadsSeparate(f: seq<string>, g: seq<string>) returns (ev: Event)
    requires f != [] && g != [] && f[0] != g[0] && |f[0]| <= |g[0]| && Join(f, '|') == Join(g, '|')
    ensures Join(GroupValues(ev, f), '|') != Join(GroupValues(ev, g), '|')
  {
    DifferentHeads(f, g);
    ev := EventWith(g[0]);
    ValuesOfEventWith(g[0], f);
    ValuesOfEventWith(g[0], g);
    var a, b := GroupValues(ev, f), GroupValues(ev, g);
    assert a[0] != b[0];
    if Join(a, '|') == Join(b, '|') {
      JoinInjective(a, b, '|');
    }
  }

  /** Different lists with one text: some event tells them apart. */
  lemma {:induction false} Separate(f: seq<string>, g: seq<string>) returns (ev: Event)
    requires f != [] && g != [] && f != g && Join(f, '|') == Join(g, '|')
    ensures Join(GroupValues(ev, f), '|') != Join(GroupValues(ev, g), '|')
  {
    if f[0] != g[0] {
      if |f[0]| <= |g[0]| {
        ev := HeadsSeparate(f, g);
      } else {
        ev := HeadsSeparate(g, f);
      }
    } else {
      assert |f| > 1 && |g| > 1;
      var h := f[0] + ['|'];
      assert Join(f[1..], '|') == Join(f, '|')[|h|..] == Join(g[1..], '|');
      assert f == [f[0]] + f[1..] && g == [g[0]] + g[1..];
      ev := Separate(f[1..], g[1..]);
      var v := GroupValue(ev, f[0]) + ['|'];
      assert Join(GroupValues(ev, f), '|')[|v|..] == Join(GroupValues(ev, f[1..]), '|');
      assert Join(GroupValues(ev, g), '|')[|v|..] == Join(GroupValues(ev, g[1..]), '|');
    }
  }

  /** Two rules that share a stream's text are grouped alike if and only if they name
      the same fields, no fields being the same as service. */
  lemma SameGroupingIff(f: seq<string>, g: seq<string>)
    requires NormalizeGroupBy(f) == NormalizeGroupBy(g)
    ensures SameGrouping(f, g) <==> GroupFields(f) == GroupFields(g)
  {
    var a, b := GroupFields(f), GroupFields(g);
    assert NormalizeGroupBy(f) == Join(a, '|') && NormalizeGroupBy(g) == Join(b, '|');
    if a != b {
      var ev := Separate(a, b);
      assert GroupKey(ev, f) != GroupKey(ev, g);
    }
  }

  /** A separator inside a field name breaks the canonical text: one field or two, they
      share a stream, and are not grouped alike. */
  lemma SeparatorInFieldCollides(a: string, b: string)
    ensures NormalizeGroupBy([a + "|" + b]) == NormalizeGroupBy([a, b])
    ensures !SameGrouping([a + "|" + b], [a, b])
  {
    assert Join([a, b], '|') == a + ['|'] + Join([b], '|');
    assert [a, b][1..] == [b];
    SameGroupingIff([a + "|" + b], [a, b]);
  }

  /** The partition serves every rule with its own grouping: each rule is in exactly
      one stream, and as long as field names are free of the separator, that stream's
      group function agrees with the rule's on every event. */
  lemma StreamsServeRules(rules: seq<Rule>, defaultWindow: int, r: Rule)
    requires r in rules
    requires forall q | q in rules :: forall name | name in q.groupBy :: '|' !in name
    ensures forall key :: r in RulesOf(rules, defaultWindow, key) <==> key == StreamOf(r, defaultWindow)
    ensures var served := RulesOf(rules, defaultWindow, StreamOf(r, defaultWindow));
            served != [] && SameGrouping(served[0].groupBy, r.groupBy)
  {
    var key := StreamOf(r, defaultWindow);
    forall k ensures r in RulesOf(rules, defaultWindow, k) <==> k == key {
      RulesOfHas(rules, defaultWindow, k, r);
    }
    var first := RulesOf(rules, defaultWindow, key)[0];
    RulesOfHas(rules, defaultWindow, key, first);
    JoinInjective(GroupFields(first.groupBy), GroupFields(r.groupBy), '|');
    SameGroupingIff(first.groupBy, r.groupBy);
  }

  /** A rule is served in windows of its own size, or of the default size if it gives
      none; and two rules share a stream exactly if these, their slides and the fields
      they group by are the same. */
  lemma SameStreamIff(q: Rule, r: Rule, defaultWindow: int)
    requires forall name | name in q.groupBy :: '|' !in name
    requires forall name | name in r.groupBy :: '|' !in name
    ensures StreamOf(r, defaultWindow).size == if r.size > 0 then r.size else defaultWindow
    ensures StreamOf(q, defaultWindow) == StreamOf(r, defaultWindow) <==>
              && (if q.size > 0 then q.size else defaultWindow) == (if r.size > 0 then r.size else defaultWindow)
              && q.slide == r.slide && GroupFields(q.groupBy) == GroupFields(r.groupBy)
  {
    assert '|' !in "service";
    assert NormalizeGroupBy(q.groupBy) == Join(GroupFields(q.groupBy), '|');
    assert NormalizeGroupBy(r.groupBy) == Join(GroupFields(r.groupBy), '|');
    if NormalizeGroupBy(q.groupBy) == NormalizeGroupBy(r.groupBy) {
      JoinInjective(GroupFields(q.groupBy), GroupFields(r.groupBy), '|');
    }
  }

  /** With values free of the separator too, a composite key tells groups apart. */
  lemma GroupKeysTellGroupsApart(fields: seq<string>, a: Event, b: Event)
    requires forall v | v in GroupValues(a, GroupFields(fields)) :: '|' !in v
    requires forall v | v in GroupValues(b, GroupFields(fields)) :: '|' !in v
    ensures GroupKey(a, fields) == GroupKey(b, fields)
       <==> GroupValues(a, GroupFields(fields)) == GroupValues(b, GroupFields(fields))
  {
    if GroupKey(a, fields) == GroupKey(b, fields) {
      JoinInjective(GroupValues(a, GroupFields(fields)), GroupValues(b, GroupFields(fields)), '|');
    }
  }
}
