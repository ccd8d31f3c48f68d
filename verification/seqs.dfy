/** Order-preserving selection from sequences, shared by the instance filter and the cleanup partition. */
module Seqs {

  /** `a` can be obtained from `b` by deleting elements: `a` keeps `b`'s order. */
  predicate IsSubsequence<T(==)>(a: seq<T>, b: seq<T>)
    decreases |b|
  {
    if a == [] then true
    else if b == [] then false
    else (a[0] == b[0] && IsSubsequence(a[1..], b[1..])) || IsSubsequence(a, b[1..])
  }

  /** The elements of `s` satisfying `keep`, in the order they occur in `s`. */
  function Filter<T(!new)>(s: seq<T>, keep: T -> bool): (r: seq<T>)
    ensures |r| <= |s|
    ensures forall x :: x in r <==> x in s && keep(x)
  {
    if s == [] then []
    else if keep(s[0]) then [s[0]] + Filter(s[1..], keep)
    else Filter(s[1..], keep)
  }

  /** Filtering keeps each selected element as often as it occurs, and drops the rest. */
  lemma {:induction false} FilterCount<T(!new)>(s: seq<T>, keep: T -> bool)
    ensures forall x :: multiset(Filter(s, keep))[x] == if keep(x) then multiset(s)[x] else 0
    decreases |s|
  {
    if s != [] {
      assert s == [s[0]] + s[1..];
      FilterCount(s[1..], keep);
    }
  }

  /** Filtering only deletes elements: the result keeps the order of `s`. */
  lemma {:induction false} FilterSubsequence<T(!new)>(s: seq<T>, keep: T -> bool)
    ensures IsSubsequence(Filter(s, keep), s)
    decreases |s|
  {
    if s != [] {
      FilterSubsequence(s[1..], keep);
      var tail := Filter(s[1..], keep);
      if keep(s[0]) {
        assert ([s[0]] + tail)[0] == s[0];
        assert ([s[0]] + tail)[1..] == tail;
      }
    }
  }

  /** Filtering distributes over concatenation, so it never reorders elements. */
  lemma {:induction false} FilterAppend<T(!new)>(a: seq<T>, b: seq<T>, keep: T -> bool)
    ensures Filter(a + b, keep) == Filter(a, keep) + Filter(b, keep)
    decreases |a|
  {
    if a == [] {
      assert a + b == b;
    } else {
      var ab := a + b;
      assert ab[0] == a[0];
      assert ab[1..] == a[1..] + b;
      FilterAppend(a[1..], b, keep);
      var rest := Filter(a[1..], keep) + Filter(b, keep);
      assert Filter(ab[1..], keep) == rest;
      if keep(a[0]) {
        assert Filter(ab, keep) == [a[0]] + rest;
        assert Filter(a, keep) == [a[0]] + Filter(a[1..], keep);
      } else {
        assert Filter(ab, keep) == rest;
        assert Filter(a, keep) == Filter(a[1..], keep);
      }
    }
  }

  /** Filtering twice with the same test changes nothing. */
  lemma {:induction false} FilterIdempotent<T(!new)>(s: seq<T>, keep: T -> bool)
    ensures Filter(Filter(s, keep), keep) == Filter(s, keep)
    decreases |s|
  {
    if s != [] {
      FilterIdempotent(s[1..], keep);
      var tail := Filter(s[1..], keep);
      if keep(s[0]) {
        assert ([s[0]] + tail)[0] == s[0];
        assert ([s[0]] + tail)[1..] == tail;
      }
    }
  }

  /** Splitting by a test and its negation loses and invents nothing. */
  lemma PartitionComplete<T(!new)>(s: seq<T>, keep: T -> bool, drop: T -> bool)
    requires forall x :: drop(x) == !keep(x)
    ensures multiset(Filter(s, keep)) + multiset(Filter(s, drop)) == multiset(s)
  {
    var a := Filter(s, keep);
    var b := Filter(s, drop);
    FilterCount(s, keep);
    FilterCount(s, drop);
    forall x ensures (multiset(a) + multiset(b))[x] == multiset(s)[x] {
      assert multiset(a)[x] == if keep(x) then multiset(s)[x] else 0;
      assert multiset(b)[x] == if drop(x) then multiset(s)[x] else 0;
    }
    assert multiset(a) + multiset(b) == multiset(s);
  }
}
