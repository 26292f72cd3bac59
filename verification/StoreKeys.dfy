/** The text keys of the database (internal/store/badger.go). */
module StoreKeys {
  import opened Model
  import opened EventTime
  import Rules

  // ---- Decimal text -----------------------------------------------------------

  function Digit(d: nat): char
    requires d < 10
  {
    ('0' as int + d) as char
  }

  function Decimal(n: nat): (text: string)
    ensures text != [] && forall ch | ch in text :: '0' <= ch <= '9'
  {
    if n < 10 then [Digit(n)] else Decimal(n / 10) + [Digit(n % 10)]
  }

  /** The %d verb. */
  function Signed(n: int): string {
    if n < 0 then ['-'] + Decimal(-n) else Decimal(n)
  }

  lemma {:induction false} DecimalInjective(a: nat, b: nat)
    requires Decimal(a) == Decimal(b)
    ensures a == b
  {
    var x, y := Decimal(a), Decimal(b);
    assert x[|x| - 1] == Digit(a % 10) && y[|y| - 1] == Digit(b % 10);
    assert a % 10 == b % 10;
    if a < 10 || b < 10 {
    } else {
      assert Decimal(a / 10) == x[..|x| - 1] == Decimal(b / 10);
      DecimalInjective(a / 10, b / 10);
    }
  }

  lemma SignedSign(n: int)
    ensures Signed(n) != [] && (n < 0 <==> Signed(n)[0] == '-')
  {
    if n >= 0 {
      assert Decimal(n)[0] in Decimal(n);
    }
  }

  lemma SignedInjective(a: int, b: int)
    requires Signed(a) == Signed(b)
    ensures a == b
  {
    SignedSign(a);
    SignedSign(b);
    if a < 0 && b < 0 {
      assert Decimal(-a) == Signed(a)[1..] == Decimal(-b);
      DecimalInjective(-a, -b);
    } else if a >= 0 && b >= 0 {
      DecimalInjective(a, b);
    }
  }

  lemma SignedHasNoSlash(n: int)
    ensures '/' !in Signed(n)
  {
  }

  // ---- Key texts --------------------------------------------------------------

  /** A stream's namespace: the window size as text, and the grouping. */
  function Namespace(size: string, groupBy: string): string {
    size + "/" + groupBy
  }

  function KeyPrefix(ns: string): string {
    "window/" + ns + "/"
  }

  function BucketKey(ns: string, k: Key): string {
    KeyPrefix(ns) + k.group + "/" + Signed(Unix(k.start))
  }

  function CheckpointKey(ns: string): string {
    "checkpoint/" + ns
  }

  function SeenKey(id: string): string {
    "seen/" + id
  }

  /** The keys as they are documented, by example. */
  lemma KeyTexts()
    ensures Namespace("5m0s", "service") == "5m0s/service"
    ensures BucketKey("5m0s/service", Key("api", FromUnix(60))) == "window/5m0s/service/api/60"
    ensures BucketKey("5m0s/service", Key("", FromUnix(-7))) == "window/5m0s/service//-7"
    ensures CheckpointKey("5m0s/service") == "checkpoint/5m0s/service"
    ensures SeenKey("events.12") == "seen/events.12"
  {
    assert Unix(FromUnix(60)) == 60 && Unix(FromUnix(-7)) == -7;
    assert Decimal(6) == "6" && Decimal(60) == "60" && Decimal(7) == "7";
  }

  /** The last separator splits a string in one way only. */
  lemma LastSplitUnique(a: string, x: string, b: string, y: string, sep: char)
    requires sep !in x && sep !in y
    requires a + [sep] + x == b + [sep] + y
    ensures a == b && x == y
  {
    var s := a + [sep] + x;
    assert s[|a|] == sep && s[|b|] == sep;
    assert forall i | |a| < i < |s| :: s[i] == x[i - |a| - 1];
    assert forall i | |b| < i < |s| :: s[i] == y[i - |b| - 1];
    assert |a| == |b|;
    assert a == s[..|a|] == b;
    assert x == s[|a| + 1..] == y;
  }

  /** Within a namespace, group values may contain anything, slashes included; two
      buckets share a text key exactly when they are of one group and their windows
      start in the same second. */
  lemma SameBucketKeyIff(ns: string, k: Key, l: Key)
    ensures BucketKey(ns, k) == BucketKey(ns, l) <==> k.group == l.group && Unix(k.start) == Unix(l.start)
  {
    if BucketKey(ns, k) == BucketKey(ns, l) {
      SignedHasNoSlash(Unix(k.start));
      SignedHasNoSlash(Unix(l.start));
      LastSplitUnique(KeyPrefix(ns) + k.group, Signed(Unix(k.start)), KeyPrefix(ns) + l.group, Signed(Unix(l.start)), '/');
      assert k.group == (KeyPrefix(ns) + k.group)[|KeyPrefix(ns)|..] == l.group;
      SignedInjective(Unix(k.start), Unix(l.start));
    }
  }

  /** The start of the window that an event falls in. */
  function StartOf(size: int, ts: int): int
    requires size > 0
  {
    Truncate(FromUnix(ts), size)
  }

  /** From some moment on, windows of one size that start in one second are one window. */
  ghost predicate StartsTellApart(size: int, from: int)
    requires size > 0
  {
    forall ts, us | ts >= from && us >= from && Unix(StartOf(size, ts)) == Unix(StartOf(size, us)) ::
      StartOf(size, ts) == StartOf(size, us)
  }

  /** At least a second, or a whole fraction of one. */
  predicate Separates(size: int)
    requires size > 0
  {
    size >= SECOND || SECOND % size == 0
  }

  /** Two multiples of `d` in one second, if `d` is no less than that. */
  lemma OneMultipleInSecond(t: int, u: int, d: int)
    requires d >= SECOND && t % d == 0 && u % d == 0 && Unix(t) == Unix(u)
    ensures t == u
  {
    var i := MultiplesDiffer(t, u, d);
    if i > 0 {
      MultiplesApart(i, 0, d);
    } else if i < 0 {
      MultiplesApart(0, i, d);
    }
  }

  /** With a size that divides a second, a window starts with its event's second. */
  lemma StartsWithSecond(size: int, ts: int)
    requires size > 0 && SECOND % size == 0
    ensures StartOf(size, ts) == FromUnix(ts)
  {
    assert SECOND == SECOND / size * size;
    assert FromUnix(ts) == (ts + EPOCH) * (SECOND / size) * size;
    MultipleMod((ts + EPOCH) * (SECOND / size), size);
  }

  lemma SeparatedStarts(size: int, ts: int, us: int)
    requires size > 0 && Separates(size)
    requires Unix(StartOf(size, ts)) == Unix(StartOf(size, us))
    ensures StartOf(size, ts) == StartOf(size, us)
  {
    TruncateBounds(FromUnix(ts), size);
    TruncateBounds(FromUnix(us), size);
    if size >= SECOND {
      OneMultipleInSecond(StartOf(size, ts), StartOf(size, us), size);
    } else {
      StartsWithSecond(size, ts);
      StartsWithSecond(size, us);
    }
  }

  /** A moment from which the windows of this second's and the next second's events start
      in one second, though they are two. */
  lemma CollidingStarts(size: int, from: int) returns (ts: int)
    requires size > 0 && !Separates(size)
    ensures from <= ts < from + size && StartOf(size, ts) == FromUnix(ts)
    ensures FromUnix(ts + 1) - size < StartOf(size, ts + 1) < FromUnix(ts + 1)
    ensures Unix(StartOf(size, ts)) == Unix(StartOf(size, ts + 1)) == ts
  {
    var n := (from + EPOCH + size - 1) / size;
    ts := n * size - EPOCH;
    assert FromUnix(ts) == (n * SECOND) * size;
    MultipleMod(n * SECOND, size);
    NextStartsInside(size, ts);
  }

  /** The next second's event falls in a window that started before its second did. */
  lemma NextStartsInside(size: int, ts: int)
    requires size > 0 && !Separates(size) && FromUnix(ts) % size == 0
    ensures FromUnix(ts + 1) - size < StartOf(size, ts + 1) < FromUnix(ts + 1)
    ensures Unix(StartOf(size, ts + 1)) == ts
  {
    var next := FromUnix(ts + 1);
    TruncateBounds(next, size);
    if StartOf(size, ts + 1) == next {
      var i := MultiplesDiffer(next, FromUnix(ts), size);
      assert SECOND == i * size;
      MultipleMod(i, size);
    }
  }

  /** A bucket's text key keeps the second its window starts in. From any moment on, that
      tells the windows of one size apart if and only if the size is at least a second,
      or divides one. */
  lemma StartsTellApartIff(size: int, from: int)
    requires size > 0
    ensures StartsTellApart(size, from) <==> Separates(size)
  {
    if Separates(size) {
      forall ts, us | ts >= from && us >= from && Unix(StartOf(size, ts)) == Unix(StartOf(size, us))
        ensures StartOf(size, ts) == StartOf(size, us)
      {
        SeparatedStarts(size, ts, us);
      }
    } else {
      var ts := CollidingStarts(size, from);
      assert StartOf(size, ts) != StartOf(size, ts + 1);
    }
  }

  /** Windows of whole seconds never share a key. */
  lemma BucketKeyInjective(ns: string, k: Key, l: Key)
    requires k.start % SECOND == 0 && l.start % SECOND == 0
    requires BucketKey(ns, k) == BucketKey(ns, l)
    ensures k == l
  {
    SameBucketKeyIff(ns, k, l);
  }

  // ---- Namespaces -------------------------------------------------------------

  /** Neither namespace, with its closing slash, begins with the other. */
  predicate Apart(ns: string, other: string) {
    !(ns + "/" <= other + "/") && !(other + "/" <= ns + "/")
  }

  lemma PrefixedBy(p: string, a: string, b: string)
    ensures p + a <= p + b <==> a <= b
  {
    if p + a <= p + b {
      assert a == (p + a)[|p|..] && b == (p + b)[|p|..];
      assert (p + b)[..|p + a|] == p + a;
      assert b[..|a|] == a;
    }
    if a <= b {
      assert (p + b)[..|p + a|] == p + b[..|a|];
    }
  }

  /** Two prefixes of one string: the shorter is a prefix of the longer. */
  lemma PrefixesNest(a: string, b: string, s: string)
    requires a <= s && b <= s
    ensures a <= b || b <= a
  {
    assert a == s[..|a|] && b == s[..|b|];
  }

  /** What follows the namespace in a bucket's key. */
  function Suffix(k: Key): string {
    k.group + "/" + Signed(Unix(k.start))
  }

  lemma ScanSees(ns: string, other: string, k: Key)
    ensures KeyPrefix(ns) <= BucketKey(other, k) <==> ns + "/" <= other + "/" + Suffix(k)
  {
    assert KeyPrefix(ns) == "window/" + (ns + "/");
    assert BucketKey(other, k) == "window/" + (other + "/" + Suffix(k));
    PrefixedBy("window/", ns + "/", other + "/" + Suffix(k));
  }

  lemma ApartScansSeeNothing(ns: string, other: string, k: Key)
    requires Apart(ns, other)
    ensures !(KeyPrefix(ns) <= BucketKey(other, k))
  {
    ScanSees(ns, other, k);
    var a, b := ns + "/", other + "/";
    if a <= b + Suffix(k) {
      assert b <= b + Suffix(k);
      PrefixesNest(a, b, b + Suffix(k));
    }
  }

  /** A group value that leads the scan of `a` to a bucket under `b`. */
  lemma LeakingGroup(a: string, b: string, start: int) returns (k: Key)
    requires a <= b || b <= a
    ensures k.start == start && a <= b + Suffix(k)
  {
    var tail := "/" + Signed(Unix(start));
    if a <= b {
      k := Key("", start);
      PrefixExtends(a, b, Suffix(k));
    } else {
      k := Key(a[|b|..], start);
      assert a == b + k.group;
      ConcatAssociates(b, k.group, tail);
      PrefixExtends(a, a, tail);
    }
  }

  lemma ConcatAssociates(a: string, b: string, c: string)
    ensures a + b + c == a + (b + c)
  {
  }

  lemma PrefixExtends(a: string, b: string, tail: string)
    requires a <= b
    ensures a <= b + tail
  {
  }

  /** Whether the scan of one namespace can see a bucket of another, among the windows
      with a given start: never, for any group, if and only if the two are apart. */
  lemma ScanIsFaithfulIff(ns: string, other: string, start: int)
    ensures (forall group :: !(KeyPrefix(ns) <= BucketKey(other, Key(group, start)))) <==> Apart(ns, other)
  {
    if Apart(ns, other) {
      forall group ensures !(KeyPrefix(ns) <= BucketKey(other, Key(group, start))) {
        ApartScansSeeNothing(ns, other, Key(group, start));
      }
    } else {
      var k := LeakingGroup(ns + "/", other + "/", start);
      ScanSees(ns, other, k);
    }
  }

  /** The namespaces the engine makes from slash-free sizes and groupings are apart
      unless they are the same stream. */
  lemma StreamNamespacesApart(size: string, groupBy: string, size': string, groupBy': string)
    requires '/' !in size && '/' !in groupBy && '/' !in size' && '/' !in groupBy'
    ensures Apart(Namespace(size, groupBy), Namespace(size', groupBy')) <==> (size, groupBy) != (size', groupBy')
  {
    var a, b := Namespace(size, groupBy) + "/", Namespace(size', groupBy') + "/";
    if a <= b {
      NamespacePrefix(size, groupBy, size', groupBy');
    } else if b <= a {
      NamespacePrefix(size', groupBy', size, groupBy);
    }
  }

  lemma NamespacePrefix(size: string, groupBy: string, size': string, groupBy': string)
    requires '/' !in size && '/' !in groupBy && '/' !in size' && '/' !in groupBy'
    requires Namespace(size, groupBy) + "/" <= Namespace(size', groupBy') + "/"
    ensures size == size' && groupBy == groupBy'
  {
    var a, b := Namespace(size, groupBy) + "/", Namespace(size', groupBy') + "/";
    var tail := b[|a|..];
    assert b == a + tail;
    assert b == size + ['/'] + (groupBy + "/" + tail) && b == size' + ['/'] + (groupBy' + "/");
    Rules.FirstSplitUnique(size, groupBy + "/" + tail, size', groupBy' + "/", '/');
    assert groupBy + ['/'] + tail == groupBy' + ['/'] + "";
    Rules.FirstSplitUnique(groupBy, tail, groupBy', "", '/');
  }

  /** A grouping with a slash in it breaks this: one text key, two streams. */
  lemma SlashInGroupingCollides(size: string, groupBy: string, field: string, value: string, start: int)
    ensures BucketKey(Namespace(size, groupBy), Key(field + "/" + value, start))
         == BucketKey(Namespace(size, groupBy + "/" + field), Key(value, start))
  {
    var head := "window/" + size + "/" + groupBy + "/";
    var tail := "/" + Signed(Unix(start));
    assert KeyPrefix(Namespace(size, groupBy)) == head;
    assert KeyPrefix(Namespace(size, groupBy + "/" + field)) == head + field + "/";
    assert head + (field + "/" + value) + tail == head + field + "/" + value + tail;
  }
}
