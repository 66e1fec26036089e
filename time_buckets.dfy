/** Interval arithmetic of the sampler. An instant is a whole number of seconds counted
    from a midnight, so its clock fields are remainders of that count and the interval
    length is a whole number of seconds. */
module TimeBuckets {

  /** The seconds field of the clock time of instant `t`. */
  function Second(t: int): (s: int)
    ensures 0 <= s < 60
  {
    t % 60
  }

  /** The minutes field of the clock time of instant `t`. */
  function Minute(t: int): (m: int)
    ensures 0 <= m < 60
  {
    (t / 60) % 60
  }

  /** The snap test of the sampler: second 0 and a minute divisible by five. */
  predicate OnFiveMinuteMark(t: int)
  {
    Second(t) == 0 && Minute(t) % 5 == 0
  }

  /** A clock time is on a five-minute mark exactly when the instant is a multiple of
      300 seconds from midnight. */
  lemma FiveMinuteMarkIsMultipleOf300(t: int)
    ensures OnFiveMinuteMark(t) <==> t % 300 == 0
  {
    var q, h := t / 60, t / 3600;
    assert t == 60 * q + Second(t);
    assert q / 60 == h;
    assert q == 60 * h + Minute(t);
    if OnFiveMinuteMark(t) {
      var f := Minute(t) / 5;
      assert Minute(t) == 5 * f;
      assert t == 300 * (12 * h + f);
    }
    if t % 300 == 0 {
      var p := t / 300;
      assert t == 60 * (5 * p);
      MultipleHasNoRemainder(5 * p, 60);
      assert Second(t) == 0;
      assert q == 5 * p;
      assert Minute(t) == 5 * (p - 12 * h);
      MultipleHasNoRemainder(p - 12 * h, 5);
    }
  }

  /** The instant used to choose a bucket: an instant on a five-minute mark is taken one
      second earlier, every other instant as it is. */
  function Snap(t: int): (a: int)
    ensures t % 300 == 0 ==> a == t - 1
    ensures t % 300 != 0 ==> a == t
  {
    FiveMinuteMarkIsMultipleOf300(t);
    if OnFiveMinuteMark(t) then t - 1 else t
  }

  /** The 1-based number of the interval of length `len` after `start` that holds the
      snapped instant; non-positive for instants before `start`. */
  function BucketIndex(start: int, len: int, t: int): (k: int)
    requires len > 0
    ensures start + (k - 1) * len <= Snap(t) < start + k * len
  {
    var d := Snap(t) - start;
    assert d == (d / len) * len + d % len;
    d / len + 1
  }

  /** The end instant of the interval that holds `t`: a whole number of intervals after
      `start`, with the snapped instant in the half-open span of one interval before it. */
  function BucketEnd(start: int, len: int, t: int): (e: int)
    requires len > 0
    ensures e - len <= Snap(t) < e
    ensures (e - start) % len == 0
  {
    var k := BucketIndex(start, len, t);
    MultipleHasNoRemainder(k, len);
    start + k * len
  }

  /** A product with a positive factor is positive only if the other factor is. */
  lemma PositiveFactor(x: int, len: int)
    requires len > 0 && x * len > 0
    ensures x > 0
  {
  }

  /** A whole multiple of `len` leaves no remainder. */
  lemma MultipleHasNoRemainder(k: int, len: int)
    requires len > 0
    ensures (k * len) % len == 0
  {
    var q, r := (k * len) / len, (k * len) % len;
    assert k * len == q * len + r;
    assert r == (k - q) * len;
    assert (k - q + 1) * len == r + len && (1 - (k - q)) * len == len - r;
    PositiveFactor(k - q + 1, len);
    PositiveFactor(1 - (k - q), len);
  }

  /** Two interval ends on the same grid that are less than one interval apart coincide. */
  lemma SameGridClose(start: int, len: int, e1: int, e2: int)
    requires len > 0
    requires (e1 - start) % len == 0 && (e2 - start) % len == 0
    requires e1 - len < e2 < e1 + len
    ensures e1 == e2
  {
    var k1 := (e1 - start) / len;
    var k2 := (e2 - start) / len;
    assert e1 == start + k1 * len;
    assert e2 == start + k2 * len;
    assert (k2 - k1 + 1) * len > 0 && (k1 - k2 + 1) * len > 0;
    PositiveFactor(k2 - k1 + 1, len);
    PositiveFactor(k1 - k2 + 1, len);
  }

  /** The interval end is the only point of the grid `start + k * len` whose interval
      holds the snapped instant. */
  lemma {:induction false} BucketEndUnique(start: int, len: int, t: int, e: int)
    requires len > 0
    requires (e - start) % len == 0
    requires e - len <= Snap(t) < e
    ensures e == BucketEnd(start, len, t)
  {
    SameGridClose(start, len, e, BucketEnd(start, len, t));
  }

  /** A later instant never lands in an earlier interval. */
  lemma {:induction false} BucketEndMonotone(start: int, len: int, t1: int, t2: int)
    requires len > 0
    requires t1 <= t2
    ensures BucketEnd(start, len, t1) <= BucketEnd(start, len, t2)
  {
    var e1, e2 := BucketEnd(start, len, t1), BucketEnd(start, len, t2);
    assert e1 - len <= Snap(t1) <= Snap(t2) < e2;
    if e2 < e1 + len {
      SameGridClose(start, len, e1, e2);
    }
  }

  /** When the start and the interval length are whole multiples of five minutes, an
      instant that is exactly an interval end belongs to the interval it ends, not to the
      next one; for `k == 0` this puts an instant equal to `start` in the interval ending
      at `start`. */
  lemma {:induction false} BoundaryInstantClosesItsBucket(start: int, len: int, k: int)
    requires len > 0
    requires start % 300 == 0 && len % 300 == 0
    ensures BucketEnd(start, len, start + k * len) == start + k * len
  {
    var e := start + k * len;
    var s, l := start / 300, len / 300;
    assert e == (s + k * l) * 300;
    MultipleHasNoRemainder(s + k * l, 300);
    assert Snap(e) == e - 1;
    MultipleHasNoRemainder(k, len);
    BucketEndUnique(start, len, e, e);
  }

  /** The usage example's grid (start 10:00:00, five-minute intervals, instants in seconds
      from midnight): 10:04:45 and 10:05:00 both close at 10:05:00, 10:05:01 closes at
      10:10:00, 10:10:00 closes at 10:10:00 and 10:10:01 at 10:15:00. */
  lemma UsageExampleBuckets()
    ensures BucketEnd(36000, 300, 36285) == 36300
    ensures BucketEnd(36000, 300, 36300) == 36300
    ensures BucketEnd(36000, 300, 36301) == 36600
    ensures BucketEnd(36000, 300, 36600) == 36600
    ensures BucketEnd(36000, 300, 36601) == 36900
  {
    BucketEndUnique(36000, 300, 36285, 36300);
    BucketEndUnique(36000, 300, 36300, 36300);
    BucketEndUnique(36000, 300, 36301, 36600);
    BucketEndUnique(36000, 300, 36600, 36600);
    BucketEndUnique(36000, 300, 36601, 36900);
  }
}
