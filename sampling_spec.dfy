/** What the sampler computes, stated on snapshots of the input: sort by time, split by
    kind, assign every reading the end of its interval, keep the last reading per interval
    end in order of the interval ends' first appearance. */
module SamplingSpec {
  import opened SeqFacts
  import opened TimeBuckets
  import opened OrderedMaps
  import opened Measurements
  import opened StableSorting

  /** The readings of kind `k`, in their order in `s`. */
  function OfKind(s: seq<Reading>, k: MeasType): seq<Reading>
  {
    if s == [] then [] else OfKind(s[..|s| - 1], k) + (if s[|s| - 1].m.kind == k then [s[|s| - 1]] else [])
  }

  /** The kind filter keeps exactly the readings of kind `k`. */
  lemma {:induction false} OfKindMembers(s: seq<Reading>, k: MeasType)
    ensures forall x :: x in OfKind(s, k) ==> x in s && x.m.kind == k
    ensures forall x :: x in s && x.m.kind == k ==> x in OfKind(s, k)
    decreases |s|
  {
    if s != [] {
      var s', last := s[..|s| - 1], s[|s| - 1];
      OfKindMembers(s', k);
      assert s == s' + [last];
    }
  }

  /** Each reading paired with the end of the interval that holds it: the stores the
      sampler makes into its interval map, in order. */
  function Keyed(start: int, len: int, xs: seq<Reading>): (ps: seq<(int, Measurement)>)
    requires len > 0
    ensures |ps| == |xs|
    ensures forall i :: 0 <= i < |xs| ==> ps[i] == (BucketEnd(start, len, xs[i].t), xs[i].m)
  {
    seq(|xs|, i requires 0 <= i < |xs| => (BucketEnd(start, len, xs[i].t), xs[i].m))
  }

  /** The readings of kind `k` in the order the sampler meets them: sorted by time, equal
      times in input order. */
  function Group(rs: seq<Reading>, k: MeasType): seq<Reading>
  {
    OfKind(StableSort(rs), k)
  }

  /** The interval map the sampler builds for kind `k`. */
  function SampledKind(start: int, len: int, rs: seq<Reading>, k: MeasType): (im: OrderedMap<int, Measurement>)
    requires len > 0
    ensures im.Valid()
  {
    FromPairs(Keyed(start, len, Group(rs, k)))
  }

  /** The sampler's result: for every kind, the surviving measurements in the order of
      their interval ends' first appearance. */
  function Sample(start: int, len: int, rs: seq<Reading>): (out: map<MeasType, seq<Measurement>>)
    requires len > 0
    ensures forall k: MeasType :: k in out
  {
    AllTypesComplete();
    map k | k in AllTypes :: SampledKind(start, len, rs, k).Values()
  }

  /** Reading `x` is of kind `k` and falls into the interval ending at `e`. */
  predicate InBucket(start: int, len: int, x: Reading, k: MeasType, e: int)
    requires len > 0
  {
    x.m.kind == k && BucketEnd(start, len, x.t) == e
  }

  // ----- the kind filter -----

  lemma OfKindSnoc(s: seq<Reading>, x: Reading, k: MeasType)
    ensures OfKind(s + [x], k) == OfKind(s, k) + (if x.m.kind == k then [x] else [])
  {
    assert (s + [x])[..|s|] == s;
  }

  /** Filtering keeps the time order. */
  lemma {:induction false} OfKindSorted(s: seq<Reading>, k: MeasType)
    requires SortedByTime(s)
    ensures SortedByTime(OfKind(s, k))
    decreases |s|
  {
    if s != [] {
      var s', last := s[..|s| - 1], s[|s| - 1];
      OfKindSorted(s', k);
      OfKindMembers(s', k);
      forall x | x in OfKind(s', k) ensures x.t <= last.t {
        var p :| 0 <= p < |s'| && s'[p] == x;
        assert s[p] == x;
      }
    }
  }

  /** Filtering takes each reading at most as often as it occurs. */
  lemma {:induction false} OfKindSubMultiset(s: seq<Reading>, k: MeasType)
    ensures multiset(OfKind(s, k)) <= multiset(s)
    decreases |s|
  {
    if s != [] {
      OfKindSubMultiset(s[..|s| - 1], k);
      assert s == s[..|s| - 1] + [s[|s| - 1]];
    }
  }

  /** The readings of kind `k` tying at time `v` are the same before and after the kind
      filter. */
  lemma {:induction false} OfKindTies(s: seq<Reading>, k: MeasType, v: int)
    ensures Ties(OfKind(s, k), k, v) == Ties(s, k, v)
    decreases |s|
  {
    if s != [] {
      var s', last := s[..|s| - 1], s[|s| - 1];
      OfKindTies(s', k, v);
      assert Ties(s, k, v) == Ties(s', k, v) + Tie(last, k, v);
      if last.m.kind == k {
        assert OfKind(s, k) == OfKind(s', k) + [last];
        TiesSnoc(OfKind(s', k), last, k, v);
      } else {
        assert OfKind(s, k) == OfKind(s', k) + [];
        assert OfKind(s, k) == OfKind(s', k);
        assert Ties(s, k, v) == Ties(s', k, v) + [];
        assert Ties(s, k, v) == Ties(s', k, v);
      }
    }
  }

  /** A reading of the kind filter has that kind, stated by position. */
  lemma OfKindKinds(s: seq<Reading>, k: MeasType)
    ensures forall i :: 0 <= i < |OfKind(s, k)| ==> OfKind(s, k)[i].m.kind == k
  {
    OfKindMembers(s, k);
    forall i | 0 <= i < |OfKind(s, k)| ensures OfKind(s, k)[i].m.kind == k {
      assert OfKind(s, k)[i] in OfKind(s, k);
    }
  }

  /** Where the `i`-th reading of kind `k` sits in `s`. */
  lemma PositionInList(s: seq<Reading>, k: MeasType, i: int) returns (p: int)
    requires 0 <= i < |OfKind(s, k)|
    ensures 0 <= p < |s| && s[p] == OfKind(s, k)[i] && s[p].m.kind == k
  {
    OfKindMembers(s, k);
    assert OfKind(s, k)[i] in OfKind(s, k);
    p :| 0 <= p < |s| && s[p] == OfKind(s, k)[i];
  }

  /** Where a reading of kind `k` of `s` sits among the readings of kind `k`. */
  lemma PositionInGroup(s: seq<Reading>, k: MeasType, p: int) returns (i: int)
    requires 0 <= p < |s| && s[p].m.kind == k
    ensures 0 <= i < |OfKind(s, k)| && OfKind(s, k)[i] == s[p]
  {
    OfKindMembers(s, k);
    assert s[p] in OfKind(s, k);
    i :| 0 <= i < |OfKind(s, k)| && OfKind(s, k)[i] == s[p];
  }

  // ----- properties of the sampler's result -----

  /** Where input reading `j` of kind `k` sits in kind `k`'s group. */
  lemma InputInGroup(rs: seq<Reading>, k: MeasType, j: int) returns (q: int)
    requires 0 <= j < |rs| && rs[j].m.kind == k
    ensures 0 <= q < |Group(rs, k)| && Group(rs, k)[q] == rs[j]
  {
    var sorted := StableSort(rs);
    assert rs[j] in multiset(sorted);
    var p :| 0 <= p < |sorted| && sorted[p] == rs[j];
    q := PositionInGroup(sorted, k, p);
  }

  /** A reading of the input is in its kind's group, and a reading of a group is a reading
      of the input of that kind. */
  lemma GroupMembers(rs: seq<Reading>, k: MeasType)
    ensures forall x :: x in Group(rs, k) ==> x in rs && x.m.kind == k
    ensures forall i :: 0 <= i < |rs| && rs[i].m.kind == k ==> rs[i] in Group(rs, k)
  {
    var sorted := StableSort(rs);
    OfKindMembers(sorted, k);
    forall i | 0 <= i < |rs| && rs[i].m.kind == k ensures rs[i] in Group(rs, k) {
      assert rs[i] in multiset(sorted);
    }
    forall x | x in Group(rs, k) ensures x in rs {
      assert x in multiset(rs);
    }
  }

  /** No drop: the interval end of every input reading of kind `k` is a key of kind
      `k`'s interval map, once. */
  lemma KindNoDrop(start: int, len: int, rs: seq<Reading>, k: MeasType)
    requires len > 0
    ensures Distinct(SampledKind(start, len, rs, k).keys)
    ensures |Sample(start, len, rs)[k]| == |SampledKind(start, len, rs, k).keys|
    ensures forall i :: 0 <= i < |rs| && rs[i].m.kind == k ==>
      BucketEnd(start, len, rs[i].t) in SampledKind(start, len, rs, k).keys
  {
    var xs := Group(rs, k);
    var ps := Keyed(start, len, xs);
    GroupMembers(rs, k);
    forall i | 0 <= i < |rs| && rs[i].m.kind == k
      ensures BucketEnd(start, len, rs[i].t) in SampledKind(start, len, rs, k).keys
    {
      var p :| 0 <= p < |xs| && xs[p] == rs[i];
      assert ps[p].0 == BucketEnd(start, len, rs[i].t);
      FromPairsLastWrite(ps, ps[p].0);
    }
  }

  /** No fabrication: every key of kind `k`'s interval map is the interval end of some
      input reading of kind `k`. */
  lemma KindNoFabrication(start: int, len: int, rs: seq<Reading>, k: MeasType, e: int)
    requires len > 0
    requires e in SampledKind(start, len, rs, k).keys
    ensures exists i :: 0 <= i < |rs| && InBucket(start, len, rs[i], k, e)
  {
    var xs := Group(rs, k);
    var ps := Keyed(start, len, xs);
    FromPairsLastWrite(ps, e);
    var p := LastWith(ps, e);
    GroupMembers(rs, k);
    assert xs[p] in xs;
    var i :| 0 <= i < |rs| && rs[i] == xs[p];
    assert InBucket(start, len, rs[i], k, e);
  }

  /** Every kind is a key of the result, and a kind's list is empty exactly when the input
      has no reading of that kind; in particular an empty input gives empty lists. */
  lemma EveryKindPresent(start: int, len: int, rs: seq<Reading>, k: MeasType)
    requires len > 0
    ensures k in Sample(start, len, rs)
    ensures Sample(start, len, rs)[k] == [] <==> forall i :: 0 <= i < |rs| ==> rs[i].m.kind != k
  {
    var keys := SampledKind(start, len, rs, k).keys;
    KindNoDrop(start, len, rs, k);
    if i :| 0 <= i < |rs| && rs[i].m.kind == k {
      assert BucketEnd(start, len, rs[i].t) in keys;
    }
    if keys != [] {
      KindNoFabrication(start, len, rs, k, keys[0]);
    }
  }

  /** Ordering: the interval ends of a kind's result strictly increase. */
  lemma BucketEndsIncrease(start: int, len: int, rs: seq<Reading>, k: MeasType)
    requires len > 0
    ensures Increasing(SampledKind(start, len, rs, k).keys)
  {
    var xs := Group(rs, k);
    var ps := Keyed(start, len, xs);
    OfKindSorted(StableSort(rs), k);
    forall i, j | 0 <= i < j < |ps| ensures ps[i].0 <= ps[j].0 {
      BucketEndMonotone(start, len, xs[i].t, xs[j].t);
    }
    FromPairsIncreasing(ps);
  }

  /** Partition: the `i`-th measurement of kind `k`'s result is one of the input's
      measurements of kind `k`, and it falls into the interval whose end is the `i`-th
      key. */
  lemma SurvivorsAreInputs(start: int, len: int, rs: seq<Reading>, k: MeasType, i: int)
    requires len > 0
    requires 0 <= i < |Sample(start, len, rs)[k]|
    ensures exists j :: (0 <= j < |rs| && rs[j].m == Sample(start, len, rs)[k][i]
      && InBucket(start, len, rs[j], k, SampledKind(start, len, rs, k).keys[i]))
  {
    var im := SampledKind(start, len, rs, k);
    var xs := Group(rs, k);
    var ps := Keyed(start, len, xs);
    var e := im.keys[i];
    assert e in im.entries;
    FromPairsLastWrite(ps, e);
    var p := LastWith(ps, e);
    GroupMembers(rs, k);
    assert xs[p] in xs;
    var j :| 0 <= j < |rs| && rs[j] == xs[p];
    assert InBucket(start, len, rs[j], k, e);
  }

  /** Last write wins: the survivor of interval `e` of kind `k` is a reading of kind `k` in
      that interval whose time is the latest among them and that comes last in the input
      among those with that time; every other reading of that interval is discarded. */
  lemma LastWriteWins(start: int, len: int, rs: seq<Reading>, k: MeasType, e: int)
    requires len > 0
    requires e in SampledKind(start, len, rs, k).entries
    ensures exists i :: (0 <= i < |rs| && InBucket(start, len, rs[i], k, e)
      && SampledKind(start, len, rs, k).entries[e] == rs[i].m
      && forall j :: 0 <= j < |rs| && InBucket(start, len, rs[j], k, e) ==>
           rs[j].t < rs[i].t || (rs[j].t == rs[i].t && j <= i))
  {
    var xs := Group(rs, k);
    var ps := Keyed(start, len, xs);
    FromPairsLastWrite(ps, e);
    var p := LastWith(ps, e);
    SurvivorIsLastTie(start, len, rs, k, e, p);
    SurvivorIsLatest(start, len, rs, k, e, p);
    var i := LastTie(rs, k, xs[p].t);
    assert InBucket(start, len, rs[i], k, e);
  }

  /** The survivor of an interval is at least as late as every input reading of that
      interval. */
  lemma SurvivorIsLatest(start: int, len: int, rs: seq<Reading>, k: MeasType, e: int, p: int)
    requires len > 0
    requires p == LastWith(Keyed(start, len, Group(rs, k)), e) && p >= 0
    ensures forall j :: 0 <= j < |rs| && InBucket(start, len, rs[j], k, e) ==> rs[j].t <= Group(rs, k)[p].t
  {
    var xs := Group(rs, k);
    OfKindSorted(StableSort(rs), k);
    LastOfBucketIsLatest(start, len, xs, e, p);
    forall j | 0 <= j < |rs| && InBucket(start, len, rs[j], k, e) ensures rs[j].t <= xs[p].t {
      var q := InputInGroup(rs, k, j);
    }
  }

  /** The survivor of an interval is the last reading of the input of its kind that
      holds its time: the sort and the kind filter keep such readings in input order. */
  lemma SurvivorIsLastTie(start: int, len: int, rs: seq<Reading>, k: MeasType, e: int, p: int)
    requires len > 0
    requires p == LastWith(Keyed(start, len, Group(rs, k)), e) && p >= 0
    ensures LastTie(rs, k, Group(rs, k)[p].t) >= 0
    ensures rs[LastTie(rs, k, Group(rs, k)[p].t)] == Group(rs, k)[p]
  {
    var xs := Group(rs, k);
    var v := xs[p].t;
    OfKindKinds(StableSort(rs), k);
    OfKindSorted(StableSort(rs), k);
    LastOfBucketIsLatest(start, len, xs, e, p);
    assert LastTie(xs, k, v) == p;
    TiesEndAtLastTie(xs, k, v);
    GroupKeepsTies(rs, k, v);
    TiesEndAtLastTie(rs, k, v);
  }

  /** The readings of kind `k` holding time `v` keep their input order in kind `k`'s
      group. */
  lemma GroupKeepsTies(rs: seq<Reading>, k: MeasType, v: int)
    ensures Ties(Group(rs, k), k, v) == Ties(rs, k, v)
  {
    OfKindTies(StableSort(rs), k, v);
    StableSortKeepsTies(rs, k, v);
  }

  /** In a time-sorted group, the last reading of an interval is at least as late as every
      reading of that interval and is the last reading of its kind holding its time. */
  lemma LastOfBucketIsLatest(start: int, len: int, xs: seq<Reading>, e: int, p: int)
    requires len > 0
    requires SortedByTime(xs)
    requires p == LastWith(Keyed(start, len, xs), e) && p >= 0
    ensures forall q :: 0 <= q < |xs| && BucketEnd(start, len, xs[q].t) == e ==> xs[q].t <= xs[p].t
    ensures forall j :: p < j < |xs| ==> xs[j].t != xs[p].t
  {
    var ps := Keyed(start, len, xs);
    forall q | 0 <= q < |xs| && BucketEnd(start, len, xs[q].t) == e ensures xs[q].t <= xs[p].t {
      assert ps[q].0 == e;
    }
    forall j | p < j < |xs| ensures xs[j].t != xs[p].t {
      assert ps[j].0 != e;
    }
  }

  /** Distinct measurements in the input stay distinct in every kind's group, so the
      sampler meets each of them exactly once. */
  lemma GroupObjectsDistinct(rs: seq<Reading>, k: MeasType)
    requires Distinct(Objects(rs))
    ensures Distinct(Objects(Group(rs, k)))
  {
    var sorted := StableSort(rs);
    var g := Group(rs, k);
    assert Distinct(rs) by {
      forall i, j | 0 <= i < j < |rs| ensures rs[i] != rs[j] {
        assert Objects(rs)[i] != Objects(rs)[j];
      }
    }
    DistinctCountsOnce(rs);
    OfKindSubMultiset(sorted, k);
    SubCountsOnce(g, rs);
    CountsOnceDistinct(g);
    GroupMembers(rs, k);
    forall i, j | 0 <= i < j < |g| ensures g[i].m != g[j].m {
      assert g[i] in g && g[j] in g;
      SameObjectSameReading(rs, g[i], g[j]);
    }
  }

  /** With distinct measurements in the input, two readings of the input that share a
      measurement are the same reading. */
  lemma SameObjectSameReading(rs: seq<Reading>, x: Reading, y: Reading)
    requires Distinct(Objects(rs))
    requires x in rs && y in rs
    ensures x.m == y.m ==> x == y
  {
    var a :| 0 <= a < |rs| && rs[a] == x;
    var b :| 0 <= b < |rs| && rs[b] == y;
    if a != b {
      assert Objects(rs)[a] != Objects(rs)[b];
    }
  }
  /** The usage example's first TEMP interval (start 10:00:00, five-minute intervals):
      the reading listed first, 10:04:45, is later than the one listed after it,
      10:02:01, so the sort puts it last and it is the one kept for 10:05:00. */
  lemma UsageExampleFirstTemp(a: Measurement, b: Measurement)
    requires a != b && a.kind == TEMP && b.kind == TEMP
    ensures Sample(36000, 300, [Reading(a, 36285), Reading(b, 36121)])[TEMP] == [a]
  {
    var ra, rb := Reading(a, 36285), Reading(b, 36121);
    UsageExampleFirstTempOrder(a, b);
    UsageExampleFirstTempMap(a, b);
    assert SampledKind(36000, 300, [ra, rb], TEMP) == FromPairs(Keyed(36000, 300, [rb, ra]));
  }

  /** Sorting and splitting the two readings puts 10:02:01 before 10:04:45. */
  lemma UsageExampleFirstTempOrder(a: Measurement, b: Measurement)
    requires a.kind == TEMP && b.kind == TEMP
    ensures Group([Reading(a, 36285), Reading(b, 36121)], TEMP) == [Reading(b, 36121), Reading(a, 36285)]
  {
    SortTwo(Reading(a, 36285), Reading(b, 36121));
    OfKindTwo(Reading(b, 36121), Reading(a, 36285), TEMP);
  }

  /** Two readings, the first later than the second, swap places in the sort. */
  lemma SortTwo(x: Reading, y: Reading)
    requires x.t > y.t
    ensures StableSort([x, y]) == [y, x]
  {
    assert [x, y][..1] == [x];
    assert [x][..0] == [];
    assert StableSort([x]) == [x];
    assert Insert([x], y) == Insert([], y) + [x];
  }

  /** Two readings of kind `k` both pass the kind filter, in order. */
  lemma OfKindTwo(x: Reading, y: Reading, k: MeasType)
    requires x.m.kind == k && y.m.kind == k
    ensures OfKind([x, y], k) == [x, y]
  {
    assert [x, y][..1] == [x];
    assert [x][..0] == [];
    assert OfKind([x], k) == [x];
  }

  /** Both readings close at 10:05:00, so the interval map keeps one key and the later
      store. */
  lemma UsageExampleFirstTempMap(a: Measurement, b: Measurement)
    ensures FromPairs(Keyed(36000, 300, [Reading(b, 36121), Reading(a, 36285)])).Values() == [a]
  {
    BucketEndUnique(36000, 300, 36285, 36300);
    BucketEndUnique(36000, 300, 36121, 36300);
    var ps := Keyed(36000, 300, [Reading(b, 36121), Reading(a, 36285)]);
    assert ps == [(36300, b), (36300, a)];
    FromPairsPrefix(ps, 0);
    FromPairsPrefix(ps, 1);
    assert ps[..0] == [] && ps[..2] == ps;
    assert FromPairs(ps[..1]).keys == [36300] && 36300 in FromPairs(ps[..1]).entries;
    assert FromPairs(ps).keys == [36300] && FromPairs(ps).entries[36300] == a;
  }
}
