/** Facts about sequences without repeated elements. */
module SeqFacts {

  /** No element occurs twice. */
  predicate Distinct<T(==)>(s: seq<T>)
  {
    forall i, j :: 0 <= i < j < |s| ==> s[i] != s[j]
  }

  /** Every element occurs at most once, counted as a multiset; unlike `Distinct` this
      survives any permutation. */
  predicate CountsOnce<T(==)>(s: seq<T>)
  {
    forall x :: x in multiset(s) ==> multiset(s)[x] == 1
  }

  lemma {:induction false} DistinctCountsOnce<T>(s: seq<T>)
    requires Distinct(s)
    ensures CountsOnce(s)
    decreases |s|
  {
    if s != [] {
      var s', last := s[..|s| - 1], s[|s| - 1];
      assert s == s' + [last];
      DistinctCountsOnce(s');
      assert last !in s' by {
        forall i | 0 <= i < |s'| ensures s'[i] != last {
          assert s'[i] == s[i];
        }
      }
    }
  }

  lemma CountsOnceDistinct<T>(s: seq<T>)
    requires CountsOnce(s)
    ensures Distinct(s)
  {
    forall i, j | 0 <= i < j < |s| ensures s[i] != s[j] {
      assert s == s[..i] + [s[i]] + s[i + 1..j] + [s[j]] + s[j + 1..];
      assert multiset(s)[s[i]] >= 1 + multiset([s[j]])[s[i]];
    }
  }

  /** Dropping elements keeps the counts at most one. */
  lemma SubCountsOnce<T>(s: seq<T>, big: seq<T>)
    requires multiset(s) <= multiset(big) && CountsOnce(big)
    ensures CountsOnce(s)
  {
    forall x | x in multiset(s) ensures multiset(s)[x] == 1 {
      assert x in multiset(big);
    }
  }
}
