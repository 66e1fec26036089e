/** Ordering measurements by time, keeping the input order among equal times. */
module StableSorting {
  import opened Measurements

  /** Snapshots in non-decreasing time order. */
  predicate SortedByTime(rs: seq<Reading>)
  {
    forall i, j :: 0 <= i < j < |rs| ==> rs[i].t <= rs[j].t
  }

  /** Places `x` directly after the last element of `s` whose time is not later than
      `x`'s, so that it follows every element it ties with. */
  function Insert(s: seq<Reading>, x: Reading): seq<Reading>
  {
    if s == [] || s[|s| - 1].t <= x.t then s + [x]
    else Insert(s[..|s| - 1], x) + [s[|s| - 1]]
  }

  /** Inserting adds exactly `x`. */
  lemma {:induction false} InsertPermutes(s: seq<Reading>, x: Reading)
    ensures multiset(Insert(s, x)) == multiset(s) + multiset{x}
    decreases |s|
  {
    if s != [] && s[|s| - 1].t > x.t {
      assert s == s[..|s| - 1] + [s[|s| - 1]];
      InsertPermutes(s[..|s| - 1], x);
    }
  }

  /** Inserting into a sorted list keeps it sorted. */
  lemma {:induction false} InsertSorted(s: seq<Reading>, x: Reading)
    requires SortedByTime(s)
    ensures SortedByTime(Insert(s, x))
    decreases |s|
  {
    if s != [] && s[|s| - 1].t > x.t {
      var s', last := s[..|s| - 1], s[|s| - 1];
      InsertSorted(s', x);
      var r' := Insert(s', x);
      InsertPermutes(s', x);
      forall y | y in r'
        ensures y.t <= last.t
      {
        assert y in multiset(s') + multiset{x};
        if y != x {
          assert y in s';
        }
      }
    }
  }

  /** The input ordered by time; among equal times the input order is kept. */
  function StableSort(s: seq<Reading>): (r: seq<Reading>)
    ensures multiset(r) == multiset(s)
    ensures SortedByTime(r)
  {
    if s == [] then []
    else
      assert s == s[..|s| - 1] + [s[|s| - 1]];
      InsertSorted(StableSort(s[..|s| - 1]), s[|s| - 1]);
      InsertPermutes(StableSort(s[..|s| - 1]), s[|s| - 1]);
      Insert(StableSort(s[..|s| - 1]), s[|s| - 1])
  }

  /** A list already in time order comes out of the sort unchanged. */
  lemma {:induction false} StableSortOfSorted(s: seq<Reading>)
    requires SortedByTime(s)
    ensures StableSort(s) == s
    decreases |s|
  {
    if s != [] {
      var s', last := s[..|s| - 1], s[|s| - 1];
      SortedDropLast(s);
      StableSortOfSorted(s');
      SortInOrderSnoc(s', last);
      assert s == s' + [last];
    }
  }

  /** A sorted list stays sorted without its last element, which no element precedes in
      time. */
  lemma SortedDropLast(s: seq<Reading>)
    requires SortedByTime(s) && s != []
    ensures SortedByTime(s[..|s| - 1])
    ensures |s| > 1 ==> s[|s| - 2].t <= s[|s| - 1].t
  {
  }

  /** An element not earlier than the end of an already-sorted list stays at the end. */
  lemma SortInOrderSnoc(s: seq<Reading>, x: Reading)
    requires StableSort(s) == s
    requires s == [] || s[|s| - 1].t <= x.t
    ensures StableSort(s + [x]) == s + [x]
  {
    assert (s + [x])[..|s|] == s;
    assert StableSort(s + [x]) == Insert(StableSort(s), x);
    assert Insert(s, x) == s + [x];
  }

  /** `[x]` if `x` is of kind `k` and holds time `v`, otherwise nothing. */
  function Tie(x: Reading, k: MeasType, v: int): seq<Reading>
  {
    if x.m.kind == k && x.t == v then [x] else []
  }

  /** The readings of kind `k` that hold time `v`, in their order in `s`. */
  function Ties(s: seq<Reading>, k: MeasType, v: int): seq<Reading>
  {
    if s == [] then [] else Ties(s[..|s| - 1], k, v) + Tie(s[|s| - 1], k, v)
  }

  lemma TiesSnoc(s: seq<Reading>, x: Reading, k: MeasType, v: int)
    ensures Ties(s + [x], k, v) == Ties(s, k, v) + Tie(x, k, v)
  {
    assert (s + [x])[..|s|] == s;
  }

  /** The position of the last reading of `s` of kind `k` holding time `v`, or -1. */
  function LastTie(s: seq<Reading>, k: MeasType, v: int): (i: int)
    ensures -1 <= i < |s|
    ensures i >= 0 ==> s[i].m.kind == k && s[i].t == v
    ensures forall j :: i < j < |s| ==> !(s[j].m.kind == k && s[j].t == v)
  {
    if s == [] then -1
    else if s[|s| - 1].m.kind == k && s[|s| - 1].t == v then |s| - 1
    else LastTie(s[..|s| - 1], k, v)
  }

  /** The ties of `s` end with its last matching reading, and there are none exactly when
      no reading matches. */
  lemma {:induction false} TiesEndAtLastTie(s: seq<Reading>, k: MeasType, v: int)
    ensures Ties(s, k, v) == [] <==> LastTie(s, k, v) < 0
    ensures LastTie(s, k, v) >= 0 ==> Ties(s, k, v)[|Ties(s, k, v)| - 1] == s[LastTie(s, k, v)]
    decreases |s|
  {
    if s != [] {
      var s', last := s[..|s| - 1], s[|s| - 1];
      TiesEndAtLastTie(s', k, v);
      if !(last.m.kind == k && last.t == v) {
        assert Ties(s, k, v) == Ties(s', k, v) + [];
        assert Ties(s, k, v) == Ties(s', k, v);
      }
    }
  }

  /** The readings of `s` that hold time `v`, whatever their kind, in their order in `s`. */
  function AtTime(s: seq<Reading>, v: int): seq<Reading>
  {
    if s == [] then [] else AtTime(s[..|s| - 1], v) + (if s[|s| - 1].t == v then [s[|s| - 1]] else [])
  }

  lemma AtTimeSnoc(s: seq<Reading>, x: Reading, v: int)
    ensures AtTime(s + [x], v) == AtTime(s, v) + (if x.t == v then [x] else [])
  {
    assert (s + [x])[..|s|] == s;
  }

  /** Inserting `x` puts it after every reading that holds the same time. */
  lemma {:induction false} InsertKeepsOrderAtTime(s: seq<Reading>, x: Reading, v: int)
    ensures AtTime(Insert(s, x), v) == AtTime(s, v) + (if x.t == v then [x] else [])
    decreases |s|
  {
    if s == [] || s[|s| - 1].t <= x.t {
      AtTimeSnoc(s, x, v);
    } else {
      var s', last := s[..|s| - 1], s[|s| - 1];
      var before := AtTime(s', v);
      var tx, tl := (if x.t == v then [x] else []), (if last.t == v then [last] else []);
      assert tx == [] || tl == [];
      calc {
        AtTime(Insert(s, x), v);
        == { assert Insert(s, x) == Insert(s', x) + [last]; }
        AtTime(Insert(s', x) + [last], v);
        == { AtTimeSnoc(Insert(s', x), last, v); }
        AtTime(Insert(s', x), v) + tl;
        == { InsertKeepsOrderAtTime(s', x, v); }
        before + tx + tl;
        == { if tx == [] { assert before + tx == before; } else { assert tl == []; } }
        before + tl + tx;
      }
    }
  }

  /** Stability: readings that hold the same time, of whatever kind, come out of the sort
      in the order they went in. */
  lemma {:induction false} StableSortKeepsOrderAtTime(s: seq<Reading>, v: int)
    ensures AtTime(StableSort(s), v) == AtTime(s, v)
    decreases |s|
  {
    if s != [] {
      var s', last := s[..|s| - 1], s[|s| - 1];
      StableSortKeepsOrderAtTime(s', v);
      InsertKeepsOrderAtTime(StableSort(s'), last, v);
    }
  }

  /** Picking the readings of kind `k` at time `v` out of those at time `v` gives the
      same as picking them out of all of `s`. */
  lemma {:induction false} TiesWithinAtTime(s: seq<Reading>, k: MeasType, v: int)
    ensures Ties(AtTime(s, v), k, v) == Ties(s, k, v)
    decreases |s|
  {
    if s != [] {
      var s', last := s[..|s| - 1], s[|s| - 1];
      TiesWithinAtTime(s', k, v);
      if last.t == v {
        TiesSnoc(AtTime(s', v), last, k, v);
      } else {
        assert AtTime(s, v) == AtTime(s', v) + [];
        assert AtTime(s, v) == AtTime(s', v);
        assert Ties(s, k, v) == Ties(s', k, v);
      }
    }
  }

  /** Stability within one kind, as a consequence of stability across kinds. */
  lemma StableSortKeepsTies(s: seq<Reading>, k: MeasType, v: int)
    ensures Ties(StableSort(s), k, v) == Ties(s, k, v)
  {
    StableSortKeepsOrderAtTime(s, v);
    TiesWithinAtTime(StableSort(s), k, v);
    TiesWithinAtTime(s, k, v);
  }

  /** Sorting one more element of the input is inserting it into the sorted rest. */
  lemma SortStep(input: seq<Reading>, i: int)
    requires 0 <= i < |input|
    ensures StableSort(input[..i + 1]) == Insert(StableSort(input[..i]), input[i])
  {
    assert input[..i + 1][..i] == input[..i];
  }

  /** `x` lands right after the last element that is not later than it. */
  lemma {:induction false} InsertAt(s: seq<Reading>, x: Reading, j: int)
    requires 0 <= j <= |s|
    requires j > 0 ==> s[j - 1].t <= x.t
    requires forall p :: j <= p < |s| ==> s[p].t > x.t
    ensures Insert(s, x) == s[..j] + [x] + s[j..]
    decreases |s|
  {
    if j < |s| {
      var s' := s[..|s| - 1];
      assert s == s' + [s[|s| - 1]];
      InsertAt(s', x, j);
      assert s'[..j] == s[..j];
      assert s[j..] == s'[j..] + [s[|s| - 1]];
    } else {
      assert s[..j] == s;
    }
  }

  /** Where the sift stops, the list is the sorted prefix with `cur[i]` inserted. */
  lemma SiftDone(cur: seq<Reading>, next: seq<Reading>, i: int, j: int)
    requires 0 <= j <= i < |cur| == |next|
    requires forall p :: 0 <= p < j ==> next[p] == cur[p]
    requires next[j] == cur[i]
    requires forall p :: j < p <= i ==> next[p] == cur[p - 1]
    requires forall p :: i < p < |cur| ==> next[p] == cur[p]
    requires j > 0 ==> cur[j - 1].t <= cur[i].t
    requires forall p :: j <= p < i ==> cur[p].t > cur[i].t
    ensures next[..i + 1] == Insert(cur[..i], cur[i])
  {
    var s := cur[..i];
    assert forall p :: j <= p < |s| ==> s[p] == cur[p];
    InsertAt(s, cur[i], j);
    assert s[..j] == cur[..j] && s[j..] == cur[j..i];
    assert next[..j] == cur[..j];
    assert next[j + 1..i + 1] == cur[j..i];
    assert next[..i + 1] == next[..j] + [next[j]] + next[j + 1..i + 1];
  }

  /** The array holds the measurements of `cur`, in order, each still at the time
      recorded for it there. */
  ghost predicate Mirrors(a: array<Measurement>, cur: seq<Reading>)
    reads a, set p | 0 <= p < a.Length :: a[p]
  {
    |cur| == a.Length && forall p :: 0 <= p < a.Length ==> a[p] == cur[p].m && cur[p].t == a[p].time
  }

  /** Exchanges `a[j - 1]` and `a[j]`. */
  method Swap(a: array<Measurement>, j: int, ghost cur: seq<Reading>) returns (ghost next: seq<Reading>)
    requires 0 < j < a.Length && Mirrors(a, cur)
    modifies a
    ensures Mirrors(a, next)
    ensures next == cur[j - 1 := cur[j]][j := cur[j - 1]]
  {
    a[j - 1], a[j] := a[j], a[j - 1];
    next := cur[j - 1 := cur[j]][j := cur[j - 1]];
  }

  /** One step of the insertion sort: moves `a[i]` down past every earlier measurement
      with a strictly later time. */
  method SiftDown(a: array<Measurement>, i: int, ghost cur: seq<Reading>) returns (ghost next: seq<Reading>)
    requires 0 <= i < a.Length && Mirrors(a, cur)
    modifies a
    ensures Mirrors(a, next)
    ensures next[..i + 1] == Insert(cur[..i], cur[i])
    ensures forall p :: i < p < |cur| ==> next[p] == cur[p]
  {
    ghost var x := cur[i];
    next := cur;
    var j := i;
    while j > 0 && a[j - 1].time > a[j].time
      invariant 0 <= j <= i
      invariant Mirrors(a, next)
      invariant forall p :: 0 <= p < j ==> next[p] == cur[p]
      invariant next[j] == x
      invariant forall p :: j < p <= i ==> next[p] == cur[p - 1]
      invariant forall p :: i < p < |cur| ==> next[p] == cur[p]
      invariant forall p :: j <= p < i ==> cur[p].t > x.t
    {
      next := Swap(a, j, next);
      j := j - 1;
    }
    assert j > 0 ==> cur[j - 1].t <= x.t by {
      assert j > 0 ==> a[j - 1].time == next[j - 1].t == cur[j - 1].t;
    }
    SiftDone(cur, next, i, j);
  }

  /** A mirrored list of snapshots is the snapshot of the array. */
  lemma MirrorsReadings(a: array<Measurement>, cur: seq<Reading>)
    requires Mirrors(a, cur)
    ensures Readings(a[..]) == cur
  {
  }

  /** Sorts the caller's list in place by time; equal times keep their order. */
  method SortByTime(a: array<Measurement>)
    modifies a
    ensures Readings(a[..]) == StableSort(old(Readings(a[..])))
  {
    ghost var input := Readings(a[..]);
    ghost var cur := input;
    for i := 0 to a.Length
      invariant Mirrors(a, cur)
      invariant cur[..i] == StableSort(input[..i])
      invariant forall p :: i <= p < a.Length ==> cur[p] == input[p]
    {
      cur := SiftDown(a, i, cur);
      SortStep(input, i);
    }
    assert cur == cur[..a.Length] && input == input[..a.Length];
    MirrorsReadings(a, cur);
  }
}
