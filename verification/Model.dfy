/** The values that flow through the pipeline (internal/model/event.go and the
    records of internal/window/tumbling.go). */
module Model {

  datatype Option<+T> = None | Some(value: T)

  /** One entry of an event's free-form fields: the text it prints as, and the
      number it coerces to, if any. */
  datatype FieldValue = FieldValue(text: string, number: Option<real>)

  /** An event. `ts` is in unix seconds. `origin` names the envelope that carried
      the event; nothing below reads it, it only keeps equal-looking events apart. */
  datatype Event = Event(service: string, level: string, ts: int, fields: map<string, FieldValue>, origin: string)

  /** A window of one group. `start` is in nanoseconds since Go's zero time. */
  datatype Key = Key(group: string, start: int)

  datatype Bucket = Bucket(key: Key, events: seq<Event>, count: int, closed: bool)

  datatype Batch = Batch(key: Key, end: int, events: seq<Event>, count: int, corrected: bool)

  predicate Distinct<T(==)>(s: seq<T>) {
    forall i, j | 0 <= i < j < |s| :: s[i] != s[j]
  }

  function Keys(order: seq<Key>): set<Key> {
    set k | k in order
  }

  function Prior<T>(s: seq<T>): seq<T>
    requires s != []
  {
    s[..|s| - 1]
  }

  function Last<T>(s: seq<T>): T
    requires s != []
  {
    s[|s| - 1]
  }

  lemma CancelOne<T>(a: multiset<T>, b: multiset<T>, x: T)
    requires a + multiset{x} == b + multiset{x}
    ensures a == b
  {
    assert a == (a + multiset{x}) - multiset{x};
    assert b == (b + multiset{x}) - multiset{x};
  }

  lemma MultisetOfMiddle<T>(x: seq<T>, v: T, y: seq<T>)
    ensures multiset(x + [v] + y) == multiset(x + y) + multiset{v}
  {
  }

  /** Taking one element out of two permutations of each other. */
  lemma RemoveFromBoth<T>(a: seq<T>, b: seq<T>) returns (i: nat)
    requires a != [] && multiset(a) == multiset(b)
    ensures i < |b| && b[i] == Last(a) && multiset(Prior(a)) == multiset(b[..i] + b[i + 1..])
  {
    var v := Last(a);
    assert a == Prior(a) + [v] + [] && Prior(a) + [] == Prior(a);
    MultisetOfMiddle(Prior(a), v, []);
    assert v in multiset(b);
    i :| 0 <= i < |b| && b[i] == v;
    assert b == b[..i] + [v] + b[i + 1..];
    MultisetOfMiddle(b[..i], v, b[i + 1..]);
    CancelOne(multiset(Prior(a)), multiset(b[..i] + b[i + 1..]), v);
  }
}
