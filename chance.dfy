/** Python's `random.choice`, `random.sample` and `random.shuffle`, modelled
    as nondeterministic choice: each method promises only what every
    outcome of the random call has in common. */
module Chance {
  import opened Seqs

  /** `random.choice(s)`: some element of `s` (Python raises IndexError on an
      empty sequence; no caller in the game passes one). */
  method Choice<T(==)>(s: seq<T>) returns (x: T)
    requires |s| > 0
    ensures x in s
  {
    assert s[0] in s;
    x :| x in s;
  }

  /** `random.sample(pop, k)`: `k` entries of `pop` drawn without replacement
      (Python raises ValueError when `k` exceeds the population). */
  method Sample<T(==)>(pop: seq<T>, k: nat) returns (r: seq<T>)
    requires k <= |pop|
    ensures |r| == k
    ensures multiset(r) <= multiset(pop)
  {
    r := [];
    var rest := pop;
    while |r| < k
      invariant |r| <= k && |r| + |rest| == |pop|
      invariant multiset(r) + multiset(rest) == multiset(pop)
    {
      assert rest[0] in rest;
      var x :| x in rest;
      r := r + [x];
      rest := Remove(rest, x);
    }
  }

  /** `random.shuffle(s)`: some permutation of `s`. */
  method Shuffle<T(==)>(s: seq<T>) returns (r: seq<T>)
    ensures multiset(r) == multiset(s)
  {
    r := [];
    var rest := s;
    while rest != []
      invariant multiset(r) + multiset(rest) == multiset(s)
      decreases |rest|
    {
      assert rest[0] in rest;
      var x :| x in rest;
      r := r + [x];
      rest := Remove(rest, x);
    }
  }

  /** Drawing without replacement from a population of distinct values
      yields distinct values of that population. */
  lemma SampleOfDistinct<T>(r: seq<T>, pop: seq<T>)
    requires multiset(r) <= multiset(pop)
    requires Distinct(pop)
    ensures Distinct(r)
    ensures forall x :: x in r ==> x in pop
  {
    forall x | x in r ensures x in pop {
      assert multiset(r)[x] > 0;
    }
    forall i, j | 0 <= i < j < |r| ensures r[i] != r[j] {
      if r[i] == r[j] {
        TwoOccurrences(r, i, j);
        assert r[i] in pop;
        var k :| 0 <= k < |pop| && pop[k] == r[i];
        DistinctCount(pop, k);
      }
    }
  }
}
