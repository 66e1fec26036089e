# Measurement sampling, modelled in Dafny

This project models `sampleMeasurement` from `sample_measurements.py`. The function takes
a start instant, an interval length and the caller's list of `Measurement` objects. It
sorts that list in place by time. It then groups the measurements by kind (`SPO2`, `HR`,
`TEMP`). For each kind it keeps only the last measurement of every interval and rewrites
the time of every measurement to the end of its interval, whether or not that
measurement is kept.

Times are whole seconds counted from a midnight. The snap test "second 0 and minute
divisible by five" then becomes "a multiple of 300". Interval arithmetic is exact
integer arithmetic.

The model has two layers:

- **Specification on values.** A `Reading(m, t)` is a snapshot of a measurement `m`
  together with the time it held on entry. `SamplingSpec.Sample(start, len, rs)` states
  the result on snapshots:
  - sort the snapshots stably by time (`StableSort`);
  - filter by kind (`OfKind`);
  - pair each snapshot with its interval end (`Keyed`);
  - store the pairs in an insertion-ordered dictionary (`OrderedMaps.FromPairs`, which
    models a Python `dict`);
  - take the dictionary's values.
- **Imperative model.** The caller's list is an `array<Measurement>`. `Measurement` is a
  class with a mutable `time` field. `Sampler.SampleMeasurement` follows the source step
  by step:
  - it returns early on an empty list;
  - otherwise it sorts in place (`StableSorting.SortByTime`);
  - it groups with appending loops (`Sampler.GroupByKind`);
  - it runs one interval-map loop per kind (`Sampler.SampleKind`) that rewrites times.

  Its postconditions tie the returned map and the new heap to the specification
  functions. The lemmas of `SamplingSpec` prove what the source promises about those
  functions.

Files:

| file | contents |
|---|---|
| `seq_facts.dfy` | facts about sequences without repeated elements |
| `time_buckets.dfy` | the snap rule and interval-end arithmetic |
| `ordered_maps.dfy` | the insertion-ordered dictionary and what a sequence of stores leaves in it |
| `measurements.dfy` | `MeasType`, the `Measurement` class and snapshots |
| `stable_sorting.dfy` | the stable sort as a function, and the in-place insertion sort proved against it |
| `sampling_spec.dfy` | the sampler's result on snapshots and its properties |
| `sampler.dfy` | the imperative sampler |

## Model

| member | source | states |
|---|---|---|
| Measurements.Measurement.constructor | sample_measurements.py:11-15 | a new measurement holds exactly the given time, kind and value |
| Measurements.Ordinal | sample_measurements.py:6-9 | every kind has a position in the declaration order SPO2, HR, TEMP |
| Measurements.OrdinalOfIndex | sample_measurements.py:6-9 | the position of the kind at index t of the declaration order is t |
| Measurements.AllTypesComplete | sample_measurements.py:6-9 | iterating over the enum visits every kind |
| Measurements.Readings | sample_measurements.py:44 | the snapshot of a list has one entry per measurement, pairing it with its current time |
| Measurements.Objects | sample_measurements.py:44 | the measurements behind a list of snapshots, position by position |
| TimeBuckets.Second | sample_measurements.py:55 | the seconds field of an instant is in 0..59 |
| TimeBuckets.Minute | sample_measurements.py:55 | the minutes field of an instant is in 0..59 |
| TimeBuckets.OnFiveMinuteMark | sample_measurements.py:55 | the snap test: second 0 and minute divisible by five |
| TimeBuckets.FiveMinuteMarkIsMultipleOf300 | sample_measurements.py:55 | "second 0 and minute divisible by 5" holds exactly when the instant is a multiple of 300 seconds |
| TimeBuckets.Snap | sample_measurements.py:55 | an instant on a five-minute mark is bucketed one second earlier; every other instant is bucketed as it is |
| TimeBuckets.BucketIndex | sample_measurements.py:56-57 | the 1-based interval number k satisfies start+(k-1)·len <= snapped instant < start+k·len, with k <= 0 for instants before start |
| TimeBuckets.BucketEnd | sample_measurements.py:56-58 | the interval end e lies on the grid start+k·len, and the snapped instant lies in [e-len, e) |
| TimeBuckets.BucketEndUnique | sample_measurements.py:56-58 | no other grid point has the snapped instant in the interval it closes |
| TimeBuckets.BucketEndMonotone | sample_measurements.py:55-58 | a later instant never gets an earlier interval end |
| TimeBuckets.BoundaryInstantClosesItsBucket | sample_measurements.py:55-58 | if start and length are multiples of five minutes, an instant that is a grid point belongs to the interval it ends; an instant equal to start belongs to the interval ending at start |
| TimeBuckets.UsageExampleBuckets | sample_measurements.py:55-58 | with start 10:00:00 and five-minute intervals: 10:04:45 and 10:05:00 close at 10:05:00; 10:05:01 and 10:10:00 close at 10:10:00; 10:10:01 closes at 10:15:00 |
| OrderedMaps.Put | sample_measurements.py:59 | storing under a new key appends the key; storing under a present key keeps the key order and replaces only that value |
| OrderedMaps.Values | sample_measurements.py:61 | one value per key, in the order the keys were first stored |
| OrderedMaps.Empty | sample_measurements.py:53 | the fresh dictionary has no keys |
| OrderedMaps.FromPairs | sample_measurements.py:53-59 | a run of stores leaves a dictionary whose key list has no repeats and matches its entries |
| OrderedMaps.LastWith | sample_measurements.py:59 | the index of the last store under a key, or -1 when there is none |
| OrderedMaps.FromPairsLastWrite | sample_measurements.py:59 | a key is present exactly when some store used it, and it holds the value of the last such store |
| OrderedMaps.FromPairsKeys | sample_measurements.py:59 | every key of the dictionary comes from some store |
| OrderedMaps.FromPairsIncreasing | sample_measurements.py:53-61 | when store keys never decrease, the dictionary's keys strictly increase |
| StableSorting.Insert | sample_measurements.py:44 | one step of the stable sort: the element goes after the last element that is not later than it |
| StableSorting.InsertPermutes | sample_measurements.py:44 | inserting adds exactly the inserted element |
| StableSorting.InsertSorted | sample_measurements.py:44 | inserting into a sorted list keeps it sorted |
| StableSorting.StableSort | sample_measurements.py:44 | the sorted list is a permutation of the input and is ordered by time |
| StableSorting.StableSortOfSorted | sample_measurements.py:44 | a list already in time order is left unchanged by the sort |
| StableSorting.LastTie | sample_measurements.py:44 | the index of the last reading of a kind at a given time, or -1 |
| StableSorting.TiesEndAtLastTie | sample_measurements.py:44 | the readings of a kind at one time end with the last such reading; there are none exactly when no reading matches |
| StableSorting.InsertKeepsOrderAtTime | sample_measurements.py:44 | insertion puts an element after every element, of any kind, that holds the same time |
| StableSorting.StableSortKeepsOrderAtTime | sample_measurements.py:44 | stability: readings that hold equal times, whatever their kinds, leave the sort in input order |
| StableSorting.TiesWithinAtTime | sample_measurements.py:44-50 | the readings of one kind at a time are those of that kind among all readings at that time |
| StableSorting.StableSortKeepsTies | sample_measurements.py:44 | stability within one kind, as a consequence of stability across kinds |
| StableSorting.Swap | sample_measurements.py:44 | exchanging two neighbours exchanges their snapshots |
| StableSorting.SiftDown | sample_measurements.py:44 | one insertion step sorts one more prefix element into place and leaves the rest alone |
| StableSorting.SortByTime | sample_measurements.py:44 | the caller's list, sorted in place, holds exactly the stable sort of its entry snapshot |
| SamplingSpec.OfKind | sample_measurements.py:49-50 | the split by kind: the readings of one kind, in list order |
| SamplingSpec.Group | sample_measurements.py:44-50 | a kind's readings in the order the sampler meets them: the sort followed by the split |
| SamplingSpec.OfKindMembers | sample_measurements.py:49-50 | the kind filter keeps exactly the readings of that kind |
| SamplingSpec.OfKindKinds | sample_measurements.py:49-50 | every reading the kind filter keeps has that kind |
| SamplingSpec.OfKindSorted | sample_measurements.py:44-50 | filtering a time-sorted list keeps it time-sorted |
| SamplingSpec.OfKindTies | sample_measurements.py:49-50 | filtering keeps the order of the readings of that kind at any one time |
| SamplingSpec.Keyed | sample_measurements.py:55-59 | each reading is paired with the end of its interval, in order |
| SamplingSpec.SampledKind | sample_measurements.py:52-59 | the interval map of one kind is a well-formed dictionary |
| SamplingSpec.Sample | sample_measurements.py:41-63 | the result has an entry for every kind |
| SamplingSpec.GroupMembers | sample_measurements.py:44-50 | a kind's group holds exactly the input readings of that kind |
| SamplingSpec.EveryKindPresent | sample_measurements.py:41-42 | every kind is a key, and its list is empty exactly when the input has no reading of that kind; an empty input gives empty lists |
| SamplingSpec.KindNoDrop | sample_measurements.py:59-61 | every input reading's interval end is a key of its kind, keys do not repeat, and there is one output per key |
| SamplingSpec.KindNoFabrication | sample_measurements.py:59-61 | every key is the interval end of some input reading of that kind |
| SamplingSpec.BucketEndsIncrease | sample_measurements.py:44 | the interval ends of each kind's result strictly increase |
| SamplingSpec.SurvivorsAreInputs | sample_measurements.py:59-61 | the i-th output of a kind is an input measurement of that kind that falls into the interval of the i-th key |
| SamplingSpec.LastWriteWins | sample_measurements.py:36-40 | the survivor of an interval is an input of that interval with the latest time, and the last in input order among those with that time |
| SamplingSpec.SurvivorIsLatest | sample_measurements.py:44 | no input reading of an interval is later than its survivor |
| SamplingSpec.SurvivorIsLastTie | sample_measurements.py:44 | the survivor is the last input reading of its kind that holds its time |
| SamplingSpec.GroupKeepsTies | sample_measurements.py:44-50 | sorting and then filtering keep the input order of readings of one kind at one time |
| SamplingSpec.LastOfBucketIsLatest | sample_measurements.py:59 | in a sorted group, the last store of an interval is its latest reading and is the last one at that time |
| SamplingSpec.GroupObjectsDistinct | sample_measurements.py:44-50 | distinct input measurements stay distinct in every kind's group |
| SamplingSpec.UsageExampleFirstTemp | sample_measurements.py:67-85 | with the usage example's grid, of its two TEMP readings in 10:00–10:05 (10:04:45 listed before 10:02:01), the one at 10:04:45 is kept |
| SamplingSpec.InputInGroup | sample_measurements.py:49-50 | every input reading of a kind appears in that kind's group |
| Sampler.SampleKind | sample_measurements.py:53-60 | the interval map equals the stores of the kind's readings, and every measurement of the kind now holds its interval end |
| Sampler.GroupByKind | sample_measurements.py:46-50 | every kind gets a list, holding that kind's measurements in sorted-list order |
| Sampler.KindValues | sample_measurements.py:61 | one kind's sampled list: the values of its interval map |
| Sampler.SampleNextKind | sample_measurements.py:52-61 | one kind's list is replaced by its interval map's values and its measurements' times are rewritten; other kinds are untouched |
| Sampler.PartialStep | sample_measurements.py:52-61 | sampling the next kind in enum order advances the partial result by exactly that kind |
| Sampler.SampleEachKind | sample_measurements.py:52-61 | after the loop over the kinds, every kind holds its sampled list and every measurement holds its interval end |
| Sampler.SurvivorHoldsItsEnd | sample_measurements.py:59-61 | each survivor's new time is the interval end it was kept under |
| Sampler.RewrittenListFacts | sample_measurements.py:44 | after rewriting, the list is still sorted by (new) time and every survivor holds its key |
| Sampler.SampledBySortedKinds | sample_measurements.py:52-63 | sampling the sorted list kind by kind yields the specified result |
| Sampler.SampleOfNothing | sample_measurements.py:41-42 | with no input, every kind maps to the empty list |
| Sampler.SampleSorted | sample_measurements.py:46-63 | after the sort, grouping and sampling give the specified result and rewrite every time to its interval end |
| Sampler.SampleMeasurement | sample_measurements.py:31-63 | returns the specified result on the entry snapshot; the list is left stably sorted by entry time; every measurement, kept or not, holds its interval end; the list is sorted by the new times; every survivor's time is its key |

## Left out

- The parser `unsampledDataParser` (sample_measurements.py:17-29): it consists of regular-expression and `datetime` library calls.
- Printing (sample_measurements.py:91-95) and `strftime` and `:.2f` formatting: output formatting only.
- The usage script (sample_measurements.py:65-89): its interval ends appear in `TimeBuckets.UsageExampleBuckets` and its first TEMP interval in `SamplingSpec.UsageExampleFirstTemp`. Its full sampled output is not restated as a lemma.
- Calendar dates, microseconds and float `total_seconds()` with float `//`: instants are whole seconds from a midnight, and the interval number uses exact integer floor division.
- Sampler.SampleMeasurement: requires `len > 0`. The source does not check the length. A zero length raises in Python, and a negative length is not modelled.
- Sampler.SampleMeasurement: requires no measurement object to occur twice in the list. A repeated object would be re-read after its time was rewritten, and that is not modelled.
- Python's Timsort is replaced by an in-place stable insertion sort. Any stable sort by time gives the same order, so the result is the same; the sort's running time and memory are not modelled.
- The result is a Dafny `map` from kind to list. The iteration order of the result dictionary (enum order) is not part of it. The kinds are still sampled in enum order.
- The dataclass defaults of `Measurement` (`datetime.min`, `SPO2`, `0.0`, sample_measurements.py:13-15) are not modelled: the constructor takes all three fields, and the sampler never creates a measurement.
- `kind` and `value` are immutable fields, because the sampler never writes them. `value` is a `real` that is only carried.
- Concurrent access to the list or its measurements by other code is not modelled.

In the usage example, the TEMP measurement kept for 10:00–10:05 is the one at 10:04:45 (35.79). It is listed before the one at 10:02:01 (35.82), but it sorts after it, and the last measurement of an interval wins (`SamplingSpec.UsageExampleFirstTemp`). The snap rule also places an instant exactly at a five-minute-aligned start in the interval that ends at start, not in the first interval after it.
