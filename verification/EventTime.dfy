/** The clock arithmetic of Go's time package that the window managers rely on.
    A time is an integer count of nanoseconds since Go's zero time, year 1. */
module EventTime {

  const SECOND := 1_000_000_000

  /** Seconds from year 1 to the unix epoch. */
  const EPOCH := 62_135_596_800

  function FromUnix(ts: int): int {
    (ts + EPOCH) * SECOND
  }

  /** Time.Unix drops the fraction of a second (Dafny's division floors here, as
      the divisor is positive). */
  function Unix(t: int): int {
    t / SECOND - EPOCH
  }

  /** Time.Truncate rounds down to a multiple of `d` since the zero time. */
  function Truncate(t: int, d: int): int
    requires d > 0
  {
    t - t % d
  }

  /** Go's integer division of a duration by time.Second truncates toward zero. */
  function WholeSeconds(d: int): int {
    if d >= 0 then d / SECOND else -(-d / SECOND)
  }

  lemma TruncateBounds(t: int, d: int)
    requires d > 0
    ensures Truncate(t, d) <= t < Truncate(t, d) + d
    ensures Truncate(t, d) % d == 0
  {
    var q := t / d;
    assert t == q * d + t % d;
    assert Truncate(t, d) == q * d;
    MultipleMod(q, d);
  }

  lemma MultipleMod(q: int, d: int)
    requires d > 0
    ensures (q * d) % d == 0
  {
    var p := (q * d) / d;
    var n := q - p;
    assert (q * d) % d == n * d;
    assert n >= 1 ==> n * d >= d;
    assert n <= -1 ==> n * d <= -d;
  }

  /** A multiple of a multiple. */
  lemma DivisibilityChains(t: int, d: int, e: int)
    requires d > 0 && e > 0 && t % d == 0 && d % e == 0
    ensures t % e == 0
  {
    var q, p := t / d, d / e;
    assert t == q * d && d == p * e;
    assert t == (q * p) * e;
    MultipleMod(q * p, e);
  }

  /** Multiples of `d` keep at least `d` apart. */
  lemma MultiplesApart(i: int, j: int, d: int)
    requires d > 0 && j < i
    ensures j * d + d <= i * d
  {
    assert i * d - j * d == (i - j) * d;
    assert (i - j - 1) * d >= 0;
  }

  lemma MultipleBelow(i: int, size: int, d: int)
    requires d > 0 && i < size / d
    ensures (i + 1) * d <= size
  {
    assert size / d * d <= size;
    if i + 1 < size / d {
      MultiplesApart(size / d, i + 1, d);
    }
  }

  /** Two multiples of `d` differ by a multiple of `d`. */
  lemma MultiplesDiffer(t: int, u: int, d: int) returns (i: int)
    requires d > 0 && t % d == 0 && u % d == 0
    ensures t - u == i * d
  {
    i := t / d - u / d;
    assert t == t / d * d && u == u / d * d;
  }

  lemma ModOfDifference(t: int, i: int, d: int)
    requires d > 0 && t % d == 0
    ensures (t - i * d) % d == 0
  {
    assert t - i * d == (t / d - i) * d;
    MultipleMod(t / d - i, d);
  }

  /** The floor of the unix clock is monotone, and exact on whole seconds. */
  lemma UnixMonotone(t: int, u: int)
    ensures t <= u ==> Unix(t) <= Unix(u)
    ensures Unix(FromUnix(t)) == t
    ensures u % SECOND == 0 ==> (FromUnix(t) < u <==> t < Unix(u))
  {
  }

  /** A window of whole seconds keeps its end, read in unix seconds, strictly
      after every event inside it. */
  lemma WholeSecondWindow(size: int, ts: int)
    requires size > 0 && size % SECOND == 0
    ensures var start := Truncate(FromUnix(ts), size);
            && start % SECOND == 0
            && Unix(start) <= ts < Unix(start + size)
            && Unix(start + size) == Unix(start) + size / SECOND
  {
    var start := Truncate(FromUnix(ts), size);
    TruncateBounds(FromUnix(ts), size);
    DivisibilityChains(start, size, SECOND);
    UnixMonotone(start, FromUnix(ts));
    UnixMonotone(ts, start + size);
  }

  /** The zero time is a midnight, so windows that divide a day start at multiples of
      their size in unix time, too. */
  lemma WindowsDivideTheDay(seconds: int, ts: int)
    requires seconds > 0 && 86_400 % seconds == 0
    ensures Unix(Truncate(FromUnix(ts), seconds * SECOND)) == ts - ts % seconds
  {
    var n := 719_162 * (86_400 / seconds);
    assert EPOCH == n * seconds;
    var q := ts / seconds;
    assert ts == q * seconds + ts % seconds;
    assert FromUnix(ts) == (q + n) * (seconds * SECOND) + ts % seconds * SECOND;
    TruncateIs(FromUnix(ts), q + n, seconds * SECOND);
    assert (q + n) * (seconds * SECOND) == (q * seconds + EPOCH) * SECOND;
  }

  /** It is a Monday, too, and so is January 5th, 1970: windows of a week start there. */
  lemma WeeksStartOnMonday(ts: int)
    ensures (Unix(Truncate(FromUnix(ts), 7 * 86_400 * SECOND)) - 4 * 86_400) % (7 * 86_400) == 0
  {
  }

  /** An event that is past the end of its own window, from any moment on, when the size
      has a fraction of a second. */
  lemma FractionalSizeOvertakes(size: int, from: int) returns (ts: int)
    requires size > 0 && size % SECOND != 0
    ensures ts >= from && ts >= Unix(Truncate(FromUnix(ts), size) + size)
  {
    var n := EPOCH + if from > 0 then from else 0;
    ts := n * size + size / SECOND - EPOCH;
    var start := n * SECOND * size;
    MultiplesApart(size, 0, n);
    assert FromUnix(ts) == start + (size - size % SECOND);
    TruncateIs(FromUnix(ts), n * SECOND, size);
    assert start == (n * size) * SECOND;
    assert Unix(start + size) == n * size + size / SECOND - EPOCH;
  }

  lemma TruncateIs(t: int, q: int, d: int)
    requires d > 0 && q * d <= t < q * d + d
    ensures Truncate(t, d) == q * d
  {
    TruncateBounds(t, d);
    var p := t / d;
    assert Truncate(t, d) == p * d;
    if p < q {
      MultiplesApart(q, p, d);
    } else if q < p {
      MultiplesApart(p, q, d);
    }
  }

  /** The configuration never asks for whole seconds. This is exactly what it costs:
      however late the stream starts, some event is already past the end of its own
      window, on arrival and with no lateness, if and only if the size has a fraction of
      a second. */
  lemma EventsPrecedeTheirWindowEndIff(size: int, from: int)
    requires size > 0
    ensures (forall ts | ts >= from :: ts < Unix(Truncate(FromUnix(ts), size) + size)) <==> size % SECOND == 0
  {
    if size % SECOND == 0 {
      forall ts | ts >= from ensures ts < Unix(Truncate(FromUnix(ts), size) + size) {
        WholeSecondWindow(size, ts);
      }
    } else {
      var ts := FractionalSizeOvertakes(size, from);
    }
  }
}
