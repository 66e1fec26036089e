/** The insertion-ordered dictionary the sampler keeps per measurement kind: a key keeps
    the position of its first insertion, and storing under a present key replaces the
    value in place. */
module OrderedMaps {
  import opened SeqFacts

  /** `keys` lists the keys in order of first insertion; `entries` holds the current value
      of each key. */
  datatype OrderedMap<K(==), V> = OrderedMap(keys: seq<K>, entries: map<K, V>)
  {
    ghost predicate Valid()
    {
      && Distinct(keys)
      && (forall k :: k in entries ==> k in keys)
      && (forall k :: k in keys ==> k in entries)
    }

    /** Stores `v` under `k`: a new key goes after all present ones, a present key keeps
        its place and gets the new value. */
    function Put(k: K, v: V): (r: OrderedMap<K, V>)
      requires Valid()
      ensures r.Valid()
      ensures r.keys == if k in entries then keys else keys + [k]
      ensures r.entries == entries[k := v]
    {
      if k in entries then OrderedMap(keys, entries[k := v])
      else
        assert Distinct(keys + [k]) by {
          assert forall i :: 0 <= i < |keys| ==> keys[i] in entries;
        }
        OrderedMap(keys + [k], entries[k := v])
    }

    /** The current values, in the order of their keys' first insertion. */
    function Values(): (vs: seq<V>)
      requires Valid()
      ensures |vs| == |keys|
      ensures forall i :: 0 <= i < |keys| ==> vs[i] == entries[keys[i]]
    {
      seq(|keys|, i requires 0 <= i < |keys| => entries[keys[i]])
    }
  }

  /** The dictionary with no keys. */
  function Empty<K(==), V>(): (r: OrderedMap<K, V>)
    ensures r.Valid() && r.keys == [] && r.entries == map[]
  {
    OrderedMap([], map[])
  }

  /** The dictionary after storing every pair of `ps`, in order, each under its key. */
  function FromPairs<K(==), V>(ps: seq<(K, V)>): (r: OrderedMap<K, V>)
    ensures r.Valid()
  {
    if ps == [] then Empty()
    else FromPairs(ps[..|ps| - 1]).Put(ps[|ps| - 1].0, ps[|ps| - 1].1)
  }

  /** Storing the pairs up to and including position `j` is storing those before it and
      then pair `j`. */
  lemma FromPairsPrefix<K, V>(ps: seq<(K, V)>, j: int)
    requires 0 <= j < |ps|
    ensures FromPairs(ps[..j + 1]) == FromPairs(ps[..j]).Put(ps[j].0, ps[j].1)
  {
    assert ps[..j + 1][..j] == ps[..j];
  }

  /** The position of the last pair of `ps` with key `k`, or -1 when there is none. */
  function LastWith<K(==), V>(ps: seq<(K, V)>, k: K): (i: int)
    ensures -1 <= i < |ps|
    ensures i >= 0 ==> ps[i].0 == k
    ensures forall j :: i < j < |ps| ==> ps[j].0 != k
  {
    if ps == [] then -1
    else if ps[|ps| - 1].0 == k then |ps| - 1
    else LastWith(ps[..|ps| - 1], k)
  }

  /** A key is present exactly when some pair carries it, and it holds the value of the
      last such pair: later stores overwrite earlier ones. */
  lemma {:induction false} FromPairsLastWrite<K, V>(ps: seq<(K, V)>, k: K)
    ensures k in FromPairs(ps).entries <==> LastWith(ps, k) >= 0
    ensures k in FromPairs(ps).entries ==> FromPairs(ps).entries[k] == ps[LastWith(ps, k)].1
    decreases |ps|
  {
    if ps != [] && ps[|ps| - 1].0 != k {
      FromPairsLastWrite(ps[..|ps| - 1], k);
    }
  }

  /** Every key of the dictionary is carried by some pair. */
  lemma FromPairsKeys<K, V>(ps: seq<(K, V)>, q: int)
    requires 0 <= q < |FromPairs(ps).keys|
    ensures 0 <= LastWith(ps, FromPairs(ps).keys[q]) < |ps|
  {
    FromPairsLastWrite(ps, FromPairs(ps).keys[q]);
  }

  /** Each element is smaller than every later one. */
  predicate Increasing(s: seq<int>)
  {
    forall i, j :: 0 <= i < j < |s| ==> s[i] < s[j]
  }

  /** Appending an element above all present ones keeps the order. */
  lemma IncreasingSnoc(s: seq<int>, x: int)
    requires Increasing(s)
    requires forall q :: 0 <= q < |s| ==> s[q] < x
    ensures Increasing(s + [x])
  {
  }

  /** With keys that never decrease along `ps`, the dictionary's keys strictly increase. */
  lemma {:induction false} FromPairsIncreasing<V>(ps: seq<(int, V)>)
    requires forall i, j :: 0 <= i < j < |ps| ==> ps[i].0 <= ps[j].0
    ensures Increasing(FromPairs(ps).keys)
    decreases |ps|
  {
    if ps != [] {
      var ps', last := ps[..|ps| - 1], ps[|ps| - 1];
      assert forall i :: 0 <= i < |ps'| ==> ps'[i] == ps[i];
      FromPairsIncreasing(ps');
      var im := FromPairs(ps');
      forall q | 0 <= q < |im.keys|
        ensures im.keys[q] <= last.0
      {
        FromPairsKeys(ps', q);
      }
      assert FromPairs(ps) == im.Put(last.0, last.1);
      if last.0 in im.entries {
        assert FromPairs(ps).keys == im.keys;
      } else {
        assert FromPairs(ps).keys == im.keys + [last.0];
        forall q | 0 <= q < |im.keys|
          ensures im.keys[q] != last.0
        {
          assert im.keys[q] in im.keys;
        }
        IncreasingSnoc(im.keys, last.0);
      }
    }
  }
}
