/** The records the sampler works on. */
module Measurements {

  /** The closed set of measurement kinds. */
  datatype MeasType = SPO2 | HR | TEMP

  /** Every kind, in declaration order. */
  const AllTypes: seq<MeasType> := [SPO2, HR, TEMP]

  /** The position of kind `k` in `AllTypes`. */
  function Ordinal(k: MeasType): (n: nat)
    ensures n < |AllTypes| && AllTypes[n] == k
  {
    match k
    case SPO2 => 0
    case HR => 1
    case TEMP => 2
  }

  /** `Ordinal` undoes indexing into `AllTypes`. */
  lemma OrdinalOfIndex(t: int)
    requires 0 <= t < |AllTypes|
    ensures Ordinal(AllTypes[t]) == t
  {
    if t == 0 {
      assert AllTypes[t] == SPO2;
    } else if t == 1 {
      assert AllTypes[t] == HR;
    } else {
      assert AllTypes[t] == TEMP;
    }
  }

  lemma AllTypesComplete()
    ensures forall k: MeasType :: k in AllTypes
  {
    forall k: MeasType ensures k in AllTypes {
      match k
      case SPO2 => assert AllTypes[0] == k;
      case HR => assert AllTypes[1] == k;
      case TEMP => assert AllTypes[2] == k;
    }
  }

  /** One reading. The sampler rewrites `time` in place and never writes the other two
      fields, so they are constants here; `value` is carried, never computed on. */
  class Measurement {
    var time: int
    const kind: MeasType
    const value: real

    constructor (time: int, kind: MeasType, value: real)
      ensures this.time == time && this.kind == kind && this.value == value
    {
      this.time := time;
      this.kind := kind;
      this.value := value;
    }
  }

  /** A measurement together with the time it held when sampling began. The sampler's
      specification is stated over these snapshots, so it does not depend on the heap. */
  datatype Reading = Reading(m: Measurement, t: int)

  /** The snapshot of a list of measurements in the current heap. */
  ghost function Readings(s: seq<Measurement>): (rs: seq<Reading>)
    reads set i | 0 <= i < |s| :: s[i]
    ensures |rs| == |s|
    ensures forall i :: 0 <= i < |s| ==> rs[i] == Reading(s[i], s[i].time)
  {
    seq(|s|, i requires 0 <= i < |s| reads set j | 0 <= j < |s| :: s[j] => Reading(s[i], s[i].time))
  }

  /** The measurements behind a list of snapshots. */
  function Objects(rs: seq<Reading>): (s: seq<Measurement>)
    ensures |s| == |rs|
    ensures forall i :: 0 <= i < |rs| ==> s[i] == rs[i].m
  {
    seq(|rs|, i requires 0 <= i < |rs| => rs[i].m)
  }
}
