/** The sampler over the caller's list of measurement objects: it sorts the list in place,
    groups it by kind, and per kind keeps the last measurement of every interval while
    rewriting every measurement's time to the end of its interval. */
module Sampler {
  import opened SeqFacts
  import opened TimeBuckets
  import opened OrderedMaps
  import opened Measurements
  import opened StableSorting
  import opened SamplingSpec

  /** Samples the measurements of one kind, met in the order of `ms`: each is stored in
      the interval map under the end of its interval, replacing the one stored there
      before, and its time is rewritten to that end. `g` holds their times on entry. */
  method SampleKind(start: int, len: int, ms: seq<Measurement>, ghost g: seq<Reading>)
    returns (intervalMap: OrderedMap<int, Measurement>)
    requires len > 0
    requires Objects(g) == ms && Distinct(ms)
    requires forall i :: 0 <= i < |ms| ==> ms[i].time == g[i].t
    modifies set i | 0 <= i < |ms| :: ms[i]
    ensures intervalMap == FromPairs(Keyed(start, len, g))
    ensures forall i :: 0 <= i < |ms| ==> ms[i].time == BucketEnd(start, len, g[i].t)
  {
    ghost var ps := Keyed(start, len, g);
    intervalMap := Empty();
    for j := 0 to |ms|
      invariant intervalMap == FromPairs(ps[..j])
      invariant forall i :: 0 <= i < j ==> ms[i].time == ps[i].0
      invariant forall i :: j <= i < |ms| ==> ms[i].time == g[i].t
    {
      var measurement := ms[j];
      var intervalEnd := BucketEnd(start, len, measurement.time);
      intervalMap := intervalMap.Put(intervalEnd, measurement);
      measurement.time := intervalEnd;
      FromPairsPrefix(ps, j);
    }
    assert ps[..|ms|] == ps;
  }

  /** One more reading grouped: its measurement joins the list of its kind. */
  lemma GroupStep(s: seq<Reading>, i: int, k: MeasType)
    requires 0 <= i < |s|
    ensures Objects(OfKind(s[..i + 1], k))
      == Objects(OfKind(s[..i], k)) + (if s[i].m.kind == k then [s[i].m] else [])
  {
    assert s[..i + 1] == s[..i] + [s[i]];
    OfKindSnoc(s[..i], s[i], k);
  }

  /** Groups the time-sorted list by kind: a list per kind, every kind present, each
      measurement appended to its kind's list in list order. */
  method GroupByKind(list: array<Measurement>, ghost sorted: seq<Reading>)
    returns (sampled: map<MeasType, seq<Measurement>>)
    requires list[..] == Objects(sorted)
    ensures forall k: MeasType :: k in sampled && sampled[k] == Objects(OfKind(sorted, k))
  {
    sampled := map[];
    for t := 0 to |AllTypes|
      invariant forall j :: 0 <= j < t ==> AllTypes[j] in sampled && sampled[AllTypes[j]] == []
    {
      sampled := sampled[AllTypes[t] := []];
    }
    forall k: MeasType ensures k in sampled && sampled[k] == [] {
      assert AllTypes[Ordinal(k)] == k;
    }
    assert sorted[..0] == [];
    for i := 0 to list.Length
      invariant forall k: MeasType :: k in sampled && sampled[k] == Objects(OfKind(sorted[..i], k))
    {
      var measurement := list[i];
      assert measurement == sorted[i].m;
      sampled := sampled[measurement.kind := sampled[measurement.kind] + [measurement]];
      forall k: MeasType
        ensures sampled[k] == Objects(OfKind(sorted[..i + 1], k))
      {
        GroupStep(sorted, i, k);
      }
    }
    assert sorted[..list.Length] == sorted;
  }

  /** Kinds `AllTypes[..t]` are sampled: their measurements hold the ends of their
      intervals, the others still hold the times recorded in `sorted`. */
  ghost predicate Progress(start: int, len: int, sorted: seq<Reading>, t: int)
    requires len > 0
    reads set p | 0 <= p < |sorted| :: sorted[p].m
  {
    forall p :: 0 <= p < |sorted| ==>
      sorted[p].m.time == if Ordinal(sorted[p].m.kind) < t then BucketEnd(start, len, sorted[p].t) else sorted[p].t
  }

  /** The list the sampler leaves for kind `k`: the values of its interval map over the
      measurements of kind `k` in `sorted`. */
  ghost function KindValues(start: int, len: int, sorted: seq<Reading>, k: MeasType): seq<Measurement>
    requires len > 0
  {
    FromPairs(Keyed(start, len, OfKind(sorted, k))).Values()
  }

  /** The body of the loop over the kinds: samples kind `AllTypes[t]` and replaces its
      list by the values of its interval map. */
  method SampleNextKind(start: int, len: int, sampled: map<MeasType, seq<Measurement>>, t: int, ghost sorted: seq<Reading>)
    returns (next: map<MeasType, seq<Measurement>>)
    requires len > 0 && 0 <= t < |AllTypes|
    requires AllTypes[t] in sampled && sampled[AllTypes[t]] == Objects(OfKind(sorted, AllTypes[t]))
    requires Distinct(sampled[AllTypes[t]]) && Progress(start, len, sorted, t)
    modifies set p | 0 <= p < |sorted| :: sorted[p].m
    ensures next == sampled[AllTypes[t] := KindValues(start, len, sorted, AllTypes[t])]
    ensures Progress(start, len, sorted, t + 1)
  {
    var measurementType := AllTypes[t];
    var measurements := sampled[measurementType];
    ghost var g := OfKind(sorted, measurementType);
    OrdinalOfIndex(t);
    forall i | 0 <= i < |measurements|
      ensures measurements[i] in set p | 0 <= p < |sorted| :: sorted[p].m
      ensures measurements[i].time == g[i].t
    {
      var p := PositionInList(sorted, measurementType, i);
    }
    ghost var times := seq(|sorted|, p requires 0 <= p < |sorted| reads set j | 0 <= j < |sorted| :: sorted[j].m => sorted[p].m.time);
    var intervalMap := SampleKind(start, len, measurements, g);
    next := sampled[measurementType := intervalMap.Values()];
    forall p | 0 <= p < |sorted|
      ensures sorted[p].m.time ==
        if Ordinal(sorted[p].m.kind) < t + 1 then BucketEnd(start, len, sorted[p].t) else sorted[p].t
    {
      if sorted[p].m.kind == measurementType {
        var i := PositionInGroup(sorted, measurementType, p);
      } else {
        OfKindKinds(sorted, measurementType);
        assert sorted[p].m !in set i | 0 <= i < |measurements| :: measurements[i];
        assert sorted[p].m.time == times[p];
      }
    }
  }

  /** The lists after sampling the kinds `AllTypes[..t]`: those kinds hold their sampled
      lists, the others still hold their groups. */
  ghost function Partial(start: int, len: int, sorted: seq<Reading>, groups: map<MeasType, seq<Measurement>>, t: int)
    : map<MeasType, seq<Measurement>>
    requires len > 0
    requires forall k: MeasType :: k in groups
  {
    map k: MeasType | k in AllTypes :: if Ordinal(k) < t then KindValues(start, len, sorted, k) else groups[k]
  }

  /** Sampling kind `AllTypes[t]` advances the partial result by one kind. */
  lemma PartialStep(start: int, len: int, sorted: seq<Reading>, groups: map<MeasType, seq<Measurement>>, t: int)
    requires len > 0 && 0 <= t < |AllTypes|
    requires forall k: MeasType :: k in groups
    ensures Partial(start, len, sorted, groups, t)[AllTypes[t] := KindValues(start, len, sorted, AllTypes[t])]
      == Partial(start, len, sorted, groups, t + 1)
  {
    OrdinalOfIndex(t);
    AllTypesComplete();
  }

  /** Samples every kind in turn, in the order of `AllTypes`: each kind's list is
      replaced by the values of its interval map, and the times of its measurements are
      rewritten. */
  method SampleEachKind(start: int, len: int, groups: map<MeasType, seq<Measurement>>, ghost sorted: seq<Reading>)
    returns (sampled: map<MeasType, seq<Measurement>>)
    requires len > 0
    requires forall k: MeasType :: k in groups && groups[k] == Objects(OfKind(sorted, k)) && Distinct(groups[k])
    requires Progress(start, len, sorted, 0)
    modifies set p | 0 <= p < |sorted| :: sorted[p].m
    ensures forall k: MeasType :: k in sampled && sampled[k] == KindValues(start, len, sorted, k)
    ensures Progress(start, len, sorted, |AllTypes|)
  {
    AllTypesComplete();
    sampled := groups;
    assert sampled == Partial(start, len, sorted, groups, 0);
    for t := 0 to |AllTypes|
      invariant sampled == Partial(start, len, sorted, groups, t)
      invariant Progress(start, len, sorted, t)
    {
      OrdinalOfIndex(t);
      PartialStep(start, len, sorted, groups, t);
      sampled := SampleNextKind(start, len, sampled, t, sorted);
    }
  }

  /** Once every measurement holds the end of its interval, each survivor of kind `k`
      holds the interval end it was kept under. */
  lemma SurvivorHoldsItsEnd(start: int, len: int, sorted: seq<Reading>, k: MeasType, i: int)
    requires len > 0
    requires forall p :: 0 <= p < |sorted| ==> sorted[p].m.time == BucketEnd(start, len, sorted[p].t)
    requires 0 <= i < |KindValues(start, len, sorted, k)|
    ensures KindValues(start, len, sorted, k)[i].time == FromPairs(Keyed(start, len, OfKind(sorted, k))).keys[i]
  {
    var xs := OfKind(sorted, k);
    var ps := Keyed(start, len, xs);
    var im := FromPairs(ps);
    var e := im.keys[i];
    assert e in im.entries;
    FromPairsLastWrite(ps, e);
    var q := LastWith(ps, e);
    var p := PositionInList(sorted, k, q);
  }

  /** Once every measurement holds the end of its interval, the sorted list is sorted by
      the new times too, and every survivor holds the interval end it was kept under. */
  lemma RewrittenListFacts(start: int, len: int, sorted: seq<Reading>)
    requires len > 0 && SortedByTime(sorted)
    requires forall p :: 0 <= p < |sorted| ==> sorted[p].m.time == BucketEnd(start, len, sorted[p].t)
    ensures forall p, q :: 0 <= p < q < |sorted| ==> sorted[p].m.time <= sorted[q].m.time
    ensures forall k: MeasType, i :: 0 <= i < |KindValues(start, len, sorted, k)| ==>
      KindValues(start, len, sorted, k)[i].time == FromPairs(Keyed(start, len, OfKind(sorted, k))).keys[i]
  {
    forall p, q | 0 <= p < q < |sorted| ensures sorted[p].m.time <= sorted[q].m.time {
      BucketEndMonotone(start, len, sorted[p].t, sorted[q].t);
    }
    forall k: MeasType, i | 0 <= i < |KindValues(start, len, sorted, k)|
      ensures KindValues(start, len, sorted, k)[i].time == FromPairs(Keyed(start, len, OfKind(sorted, k))).keys[i]
    {
      SurvivorHoldsItsEnd(start, len, sorted, k, i);
    }
  }

  /** Two maps over the kinds that agree on every kind are equal. */
  lemma KindMapsEqual<V>(a: map<MeasType, V>, b: map<MeasType, V>)
    requires forall k: MeasType :: k in a && k in b && a[k] == b[k]
    ensures a == b
  {
    assert a.Keys == b.Keys;
  }

  /** Sampling the sorted readings kind by kind gives the sampler's result. */
  lemma SampledBySortedKinds(start: int, len: int, rs: seq<Reading>, sampled: map<MeasType, seq<Measurement>>)
    requires len > 0
    requires forall k: MeasType :: k in sampled && sampled[k] == KindValues(start, len, StableSort(rs), k)
    ensures sampled == Sample(start, len, rs)
  {
    KindMapsEqual(sampled, Sample(start, len, rs));
  }

  /** With no readings every kind gets the empty list. */
  lemma SampleOfNothing(start: int, len: int, rs: seq<Reading>)
    requires len > 0 && rs == []
    ensures Sample(start, len, rs) == map k: MeasType | k in AllTypes :: []
    ensures Objects(StableSort(rs)) == []
  {
    AllTypesComplete();
    forall k: MeasType ensures Sample(start, len, rs)[k] == [] {
      EveryKindPresent(start, len, rs, k);
    }
    KindMapsEqual(map k: MeasType | k in AllTypes :: [], Sample(start, len, rs));
  }

  /** Distinct measurements in the input give distinct measurements in every kind's
      group of the sorted list. */
  lemma SortedGroupsDistinct(rs: seq<Reading>)
    requires Distinct(Objects(rs))
    ensures forall k: MeasType :: Distinct(Objects(OfKind(StableSort(rs), k)))
  {
    forall k: MeasType ensures Distinct(Objects(OfKind(StableSort(rs), k))) {
      GroupObjectsDistinct(rs, k);
    }
  }

  /** Every measurement of the sorted list is one of the input's. */
  lemma SortedObjectsFromInput(rs: seq<Reading>)
    ensures forall p :: 0 <= p < |StableSort(rs)| ==>
      StableSort(rs)[p].m in set i | 0 <= i < |rs| :: rs[i].m
  {
    var sorted := StableSort(rs);
    forall p | 0 <= p < |sorted| ensures sorted[p].m in set i | 0 <= i < |rs| :: rs[i].m {
      assert sorted[p] in multiset(rs);
      var i :| 0 <= i < |rs| && rs[i] == sorted[p];
    }
  }

  /** Groups the time-sorted list by kind and samples every kind. */
  method SampleSorted(start: int, len: int, list: array<Measurement>, ghost rs: seq<Reading>, ghost sorted: seq<Reading>)
    returns (sampled: map<MeasType, seq<Measurement>>)
    requires len > 0 && Distinct(Objects(rs))
    requires Readings(list[..]) == sorted && sorted == StableSort(rs)
    modifies set p | 0 <= p < |sorted| :: sorted[p].m
    ensures sampled == Sample(start, len, rs)
    ensures list[..] == Objects(sorted)
    ensures forall p :: 0 <= p < list.Length ==> list[p].time == BucketEnd(start, len, sorted[p].t)
    ensures forall p, q :: 0 <= p < q < list.Length ==> list[p].time <= list[q].time
    ensures forall k: MeasType, i :: 0 <= i < |sampled[k]| ==>
      sampled[k][i].time == SampledKind(start, len, rs, k).keys[i]
  {
    assert list[..] == Objects(sorted);
    SortedGroupsDistinct(rs);
    var groups := GroupByKind(list, sorted);
    sampled := SampleEachKind(start, len, groups, sorted);
    forall p | 0 <= p < |sorted| ensures sorted[p].m.time == BucketEnd(start, len, sorted[p].t) {
      assert Ordinal(sorted[p].m.kind) < |AllTypes|;
    }
    SampledBySortedKinds(start, len, rs, sampled);
    RewrittenListFacts(start, len, sorted);
  }

  /** The sampler. Sorts the caller's list in place by time (equal times keep their
      order), groups it by kind and samples each kind: the result holds, per kind, the
      last measurement of every interval in the order the intervals first occur, and every
      measurement of the list, kept or not, now holds the end of its interval. An empty
      list gives an empty list for every kind and is left alone. */
  method SampleMeasurement(start: int, len: int, list: array<Measurement>)
    returns (sampled: map<MeasType, seq<Measurement>>)
    requires len > 0
    requires Distinct(list[..])
    modifies list, set i | 0 <= i < list.Length :: list[i]
    ensures sampled == Sample(start, len, old(Readings(list[..])))
    ensures list[..] == Objects(StableSort(old(Readings(list[..]))))
    ensures forall p :: 0 <= p < list.Length ==>
      list[p].time == BucketEnd(start, len, StableSort(old(Readings(list[..])))[p].t)
    ensures forall p, q :: 0 <= p < q < list.Length ==> list[p].time <= list[q].time
    ensures forall k: MeasType, i :: 0 <= i < |sampled[k]| ==>
      sampled[k][i].time == SampledKind(start, len, old(Readings(list[..])), k).keys[i]
  {
    ghost var rs := Readings(list[..]);
    if list.Length == 0 {
      SampleOfNothing(start, len, rs);
      sampled := map k: MeasType | k in AllTypes :: [];
      return;
    }
    assert Objects(rs) == list[..];
    SortByTime(list);
    ghost var sorted := Readings(list[..]);
    SortedObjectsFromInput(rs);
    sampled := SampleSorted(start, len, list, rs, sorted);
  }
}
