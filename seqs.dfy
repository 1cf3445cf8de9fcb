/** Sequence facts shared by both game variants: distinctness, Python's
    `list.remove`, and the cardinality of the set of a sequence's elements. */
module Seqs {

  /** No element occurs twice. */
  ghost predicate Distinct<T>(s: seq<T>)
  {
    forall i, j :: 0 <= i < j < |s| ==> s[i] != s[j]
  }

  /** The set of elements of a sequence. */
  function Elems<T>(s: seq<T>): set<T>
  {
    set x | x in s
  }

  /** Python's `list.remove(x)`: drops the first occurrence of `x`. Python
      raises ValueError when `x` is absent; every caller passes a present `x`. */
  function Remove<T(==)>(s: seq<T>, x: T): (r: seq<T>)
    requires x in s
    ensures multiset(r) == multiset(s) - multiset{x}
    ensures |r| == |s| - 1
  {
    assert s == [s[0]] + s[1..];
    if s[0] == x then s[1..]
    else [s[0]] + Remove(s[1..], x)
  }

  /** Removing from a distinct sequence removes exactly that element. */
  lemma {:induction false} RemoveDistinct<T>(s: seq<T>, x: T)
    requires Distinct(s) && x in s
    ensures Distinct(Remove(s, x))
    ensures forall y :: y in Remove(s, x) <==> y in s && y != x
  {
    var t := s[1..];
    assert s == [s[0]] + t;
    assert Distinct(t);
    assert s[0] !in t;
    if s[0] != x {
      RemoveDistinct(t, x);
      var r := Remove(t, x);
      assert Remove(s, x) == [s[0]] + r;
      forall i, j | 0 <= i < j < |[s[0]] + r| ensures ([s[0]] + r)[i] != ([s[0]] + r)[j] {
        if i == 0 { assert ([s[0]] + r)[j] == r[j - 1]; }
      }
    }
  }

  /** In a distinct sequence every element occurs exactly once. */
  lemma {:induction false} DistinctCount<T>(s: seq<T>, k: int)
    requires Distinct(s) && 0 <= k < |s|
    ensures multiset(s)[s[k]] == 1
  {
    if k > 0 {
      assert s == [s[0]] + s[1..];
      DistinctCount(s[1..], k - 1);
    } else {
      assert s == [s[0]] + s[1..];
      assert s[0] !in s[1..];
    }
  }

  /** A sequence has at most as many distinct elements as entries, and
      exactly as many only when it is distinct. */
  lemma {:induction false} ElemsCard<T>(s: seq<T>)
    ensures |Elems(s)| <= |s|
    ensures |Elems(s)| == |s| <==> Distinct(s)
  {
    if s != [] {
      var t := s[1..];
      ElemsCard(t);
      assert Elems(s) == {s[0]} + Elems(t);
      if s[0] in t {
        assert Elems(s) == Elems(t);
        var j :| 0 <= j < |t| && t[j] == s[0];
        assert s[0] == s[j + 1];
      } else {
        assert |Elems(s)| == |Elems(t)| + 1;
        if Distinct(t) {
          forall i, j | 0 <= i < j < |s| ensures s[i] != s[j] {
            if i == 0 { assert s[j] == t[j - 1]; }
            else { assert s[i] == t[i - 1] && s[j] == t[j - 1]; }
          }
        } else {
          var i, j :| 0 <= i < j < |t| && t[i] == t[j];
          assert s[i + 1] == s[j + 1];
        }
      }
    }
  }

  /** An element occurs at most `|s|` times, and `|s|` times only when it is
      every entry. */
  lemma {:induction false} CountAll<T>(s: seq<T>, x: T)
    ensures multiset(s)[x] <= |s|
    ensures multiset(s)[x] == |s| ==> forall i :: 0 <= i < |s| ==> s[i] == x
  {
    if s != [] {
      assert s == [s[0]] + s[1..];
      CountAll(s[1..], x);
      if multiset(s)[x] == |s| {
        forall i | 0 <= i < |s| ensures s[i] == x {
          if i > 0 { assert s[i] == s[1..][i - 1]; }
        }
      }
    }
  }

  lemma WholeSlice<T>(s: seq<T>)
    ensures s[..|s|] == s
  {
  }

  lemma PrefixSnoc<T>(s: seq<T>, n: nat)
    requires n < |s|
    ensures s[..n + 1] == s[..n] + [s[n]]
  {
  }

  lemma SnocPrefix<T>(pre: seq<T>, s: seq<T>, n: nat)
    requires n < |s|
    ensures pre + s[..n] + [s[n]] == pre + s[..n + 1]
  {
    PrefixSnoc(s, n);
  }

  lemma Assoc<T>(a: seq<T>, b: seq<T>, c: seq<T>)
    ensures a + b + c == a + (b + c)
  {
  }

  /** Appending a new element keeps a sequence distinct. */
  lemma DistinctSnoc<T>(s: seq<T>, x: T)
    requires Distinct(s) && x !in s
    ensures Distinct(s + [x])
  {
    forall i, j | 0 <= i < j < |s + [x]| ensures (s + [x])[i] != (s + [x])[j] {
      if j == |s| { assert (s + [x])[i] == s[i]; }
      else { assert (s + [x])[i] == s[i] && (s + [x])[j] == s[j]; }
    }
  }

  /** An element at two positions occurs at least twice. */
  lemma TwoOccurrences<T>(s: seq<T>, i: int, j: int)
    requires 0 <= i < j < |s| && s[i] == s[j]
    ensures multiset(s)[s[i]] >= 2
  {
    assert s == s[..j] + s[j..];
    assert s[i] == s[..j][i];
    assert s[j] == s[j..][0];
  }
}
