/**
 * Python's `sorted(xs, key=..., reverse=...)` and `list.sort(...)` as used by
 * the standings: a sort by a total preorder `le`, where `le(a, b)` means that
 * `a` may come before `b`. The model is an insertion sort; what the rest of
 * the model relies on is that the result is ordered and a permutation, so
 * ties are left in an unspecified order, as in the source.
 */
module Sorting {

  /** `le` is total and transitive: a ranking key compared with >= or <=. */
  ghost predicate TotalPreorder<T(!new)>(le: (T, T) -> bool) {
    && (forall a, b :: le(a, b) || le(b, a))
    && (forall a, b, c :: le(a, b) && le(b, c) ==> le(a, c))
  }

  predicate SortedBy<T>(s: seq<T>, le: (T, T) -> bool) {
    forall i, j :: 0 <= i < j < |s| ==> le(s[i], s[j])
  }

  /** No two elements share a key (the keys of a dictionary's items). */
  predicate DistinctBy<T, K(==)>(s: seq<T>, key: T -> K) {
    forall i, j :: 0 <= i < j < |s| ==> key(s[i]) != key(s[j])
  }

  function Insert<T>(x: T, s: seq<T>, le: (T, T) -> bool): (r: seq<T>)
    ensures |r| == |s| + 1
    ensures multiset(r) == multiset{x} + multiset(s)
    decreases |s|
  {
    if s == [] then [x]
    else if le(x, s[0]) then [x] + s
    else
      assert s == [s[0]] + s[1..];
      [s[0]] + Insert(x, s[1..], le)
  }

  function SortBy<T>(s: seq<T>, le: (T, T) -> bool): (r: seq<T>)
    ensures |r| == |s|
    ensures multiset(r) == multiset(s)
    decreases |s|
  {
    if s == [] then []
    else
      assert s == [s[0]] + s[1..];
      Insert(s[0], SortBy(s[1..], le), le)
  }

  lemma {:induction false} InsertSorted<T(!new)>(x: T, s: seq<T>, le: (T, T) -> bool)
    requires TotalPreorder(le) && SortedBy(s, le)
    ensures SortedBy(Insert(x, s, le), le)
    decreases |s|
  {
    if s != [] && !le(x, s[0]) {
      InsertSorted(x, s[1..], le);
      var t := Insert(x, s[1..], le);
      forall z | z in t ensures le(s[0], z) {
        assert z in multiset(t);
        if z != x {
          assert z in s[1..];
        }
      }
    }
  }

  /** The sort's output is ordered by `le`. */
  lemma {:induction false} SortBySorted<T(!new)>(s: seq<T>, le: (T, T) -> bool)
    requires TotalPreorder(le)
    ensures SortedBy(SortBy(s, le), le)
    decreases |s|
  {
    if s != [] {
      SortBySorted(s[1..], le);
      InsertSorted(s[0], SortBy(s[1..], le), le);
    }
  }

  lemma {:induction false} InsertDistinct<T, K>(x: T, s: seq<T>, le: (T, T) -> bool, key: T -> K)
    requires DistinctBy(s, key)
    requires forall y :: y in s ==> key(y) != key(x)
    ensures DistinctBy(Insert(x, s, le), key)
    decreases |s|
  {
    if s != [] && !le(x, s[0]) {
      InsertDistinct(x, s[1..], le, key);
      var t := Insert(x, s[1..], le);
      forall z | z in t ensures key(s[0]) != key(z) {
        assert z in multiset(t);
        if z != x {
          assert z in s[1..];
        }
      }
    }
  }

  /** Sorting items whose keys are distinct keeps their keys distinct. */
  lemma {:induction false} SortByDistinct<T, K>(s: seq<T>, le: (T, T) -> bool, key: T -> K)
    requires DistinctBy(s, key)
    ensures DistinctBy(SortBy(s, le), key)
    decreases |s|
  {
    if s != [] {
      SortByDistinct(s[1..], le, key);
      var t := SortBy(s[1..], le);
      forall y | y in t ensures key(y) != key(s[0]) {
        assert y in multiset(t);
      }
      InsertDistinct(s[0], t, le, key);
    }
  }

  /**
   * When `le` orders no two different elements both ways, a sequence has
   * exactly one ordering: two sorted permutations of it are equal.
   */
  lemma {:induction false} SortedUnique<T>(a: seq<T>, b: seq<T>, le: (T, T) -> bool)
    requires multiset(a) == multiset(b)
    requires SortedBy(a, le) && SortedBy(b, le)
    requires forall x, y :: x in a && y in a && le(x, y) && le(y, x) ==> x == y
    ensures a == b
    decreases |a|
  {
    assert |a| == |multiset(a)| == |b|;
    if a != [] {
      SortedSameHead(a, b, le);
      SameTail(a, b);
      forall x, y | x in a[1..] && y in a[1..] && le(x, y) && le(y, x) ensures x == y {
        assert x in a && y in a;
      }
      SortedUnique(a[1..], b[1..], le);
      assert a == [a[0]] + a[1..] && b == [b[0]] + b[1..];
    }
  }

  lemma {:induction false} SortedSameHead<T>(a: seq<T>, b: seq<T>, le: (T, T) -> bool)
    requires a != [] && multiset(a) == multiset(b)
    requires SortedBy(a, le) && SortedBy(b, le)
    requires forall x, y :: x in a && y in a && le(x, y) && le(y, x) ==> x == y
    ensures b != [] && a[0] == b[0]
  {
    assert a[0] in multiset(b) && b[0] in multiset(a);
    if a[0] != b[0] {
      assert false;
    }
  }

  lemma {:induction false} SameTail<T>(a: seq<T>, b: seq<T>)
    requires a != [] && b != [] && a[0] == b[0] && multiset(a) == multiset(b)
    ensures multiset(a[1..]) == multiset(b[1..])
  {
    assert a == [a[0]] + a[1..] && b == [b[0]] + b[1..];
    assert multiset(a[1..]) == multiset(a) - multiset{a[0]};
    assert multiset(b[1..]) == multiset(b) - multiset{b[0]};
  }

  /** The sum of an integer attribute over a sequence. */
  function SumBy<T>(s: seq<T>, f: T -> int): int
    decreases |s|
  {
    if s == [] then 0 else f(s[0]) + SumBy(s[1..], f)
  }

  lemma {:induction false} InsertSum<T>(x: T, s: seq<T>, le: (T, T) -> bool, f: T -> int)
    ensures SumBy(Insert(x, s, le), f) == f(x) + SumBy(s, f)
    decreases |s|
  {
    if s != [] && !le(x, s[0]) {
      InsertSum(x, s[1..], le, f);
    } else if s != [] {
      assert ([x] + s)[1..] == s;
    }
  }

  /** Sorting does not change a sum over the sequence. */
  lemma {:induction false} SortBySum<T>(s: seq<T>, le: (T, T) -> bool, f: T -> int)
    ensures SumBy(SortBy(s, le), f) == SumBy(s, f)
    decreases |s|
  {
    if s != [] {
      SortBySum(s[1..], le, f);
      InsertSum(s[0], SortBy(s[1..], le), le, f);
    }
  }

  lemma {:induction false} SumByAppend<T>(s: seq<T>, x: T, f: T -> int)
    ensures SumBy(s + [x], f) == SumBy(s, f) + f(x)
    decreases |s|
  {
    if s != [] {
      assert (s + [x])[1..] == s[1..] + [x];
      SumByAppend(s[1..], x, f);
    }
  }

  lemma {:induction false} SumByConcat<T>(u: seq<T>, v: seq<T>, f: T -> int)
    ensures SumBy(u + v, f) == SumBy(u, f) + SumBy(v, f)
    decreases |u|
  {
    if u == [] {
      assert u + v == v;
    } else {
      assert (u + v)[1..] == u[1..] + v;
      assert (u + v)[0] == u[0];
      SumByConcat(u[1..], v, f);
    }
  }

  /** Taking one element out of a sequence. */
  lemma {:induction false} RemoveAt<T>(b: seq<T>, j: nat, f: T -> int)
    requires j < |b|
    ensures multiset(b[..j] + b[j + 1..]) == multiset(b) - multiset{b[j]}
    ensures SumBy(b, f) == f(b[j]) + SumBy(b[..j] + b[j + 1..], f)
  {
    var u, x, v := b[..j], b[j], b[j + 1..];
    assert b == u + ([x] + v);
    RemoveAtSum(u, x, v, f);
    RemoveAtMultiset(u, x, v);
  }

  lemma {:induction false} RemoveAtMultiset<T>(u: seq<T>, x: T, v: seq<T>)
    ensures multiset(u + v) == multiset(u + ([x] + v)) - multiset{x}
  {
    assert multiset(u + ([x] + v)) == multiset(u) + multiset{x} + multiset(v);
    assert multiset(u + v) == multiset(u) + multiset(v);
  }

  lemma {:induction false} RemoveAtSum<T>(u: seq<T>, x: T, v: seq<T>, f: T -> int)
    ensures SumBy(u + ([x] + v), f) == f(x) + SumBy(u + v, f)
  {
    SumByConcat(u, [x] + v, f);
    SumByConcat(u, v, f);
    assert ([x] + v)[1..] == v;
  }

  /** A sum does not depend on the order of its terms. */
  lemma {:induction false} SumByPermutation<T>(a: seq<T>, b: seq<T>, f: T -> int)
    requires multiset(a) == multiset(b)
    ensures SumBy(a, f) == SumBy(b, f)
    decreases |a|
  {
    assert |a| == |multiset(a)| == |b|;
    if a != [] {
      var x := a[0];
      assert x in multiset(b);
      var j :| 0 <= j < |b| && b[j] == x;
      RemoveAt(b, j, f);
      assert a == [x] + a[1..];
      assert multiset(a[1..]) == multiset(a) - multiset{x};
      SumByPermutation(a[1..], b[..j] + b[j + 1..], f);
    }
  }

  /** An element at two positions is counted at least twice. */
  lemma {:induction false} TwiceCounted<T>(o: seq<T>, p: nat, q: nat)
    requires p < q < |o| && o[p] == o[q]
    ensures multiset(o)[o[p]] >= 2
  {
    var x := o[p];
    assert o == o[..q] + [x] + o[q + 1..];
    assert x in o[..q];
    assert multiset(o) == multiset(o[..q]) + multiset{x} + multiset(o[q + 1..]);
  }

  /** Distinct keys mean distinct elements: each occurs at most once. */
  lemma {:induction false} DistinctOnce<T, K>(s: seq<T>, key: T -> K, x: T)
    requires DistinctBy(s, key)
    ensures multiset(s)[x] <= 1
    decreases |s|
  {
    if s != [] {
      assert s == [s[0]] + s[1..];
      DistinctOnce(s[1..], key, x);
      if s[0] == x {
        forall y | y in s[1..] ensures y != x {
          var j :| 0 <= j < |s[1..]| && s[1..][j] == y;
          assert key(s[0]) != key(s[j + 1]);
        }
      }
    }
  }

  /** Reordering a sequence with distinct keys keeps its keys distinct. */
  lemma {:induction false} PermutationDistinct<T, K>(a: seq<T>, b: seq<T>, key: T -> K)
    requires multiset(a) == multiset(b) && DistinctBy(b, key)
    ensures DistinctBy(a, key)
  {
    forall i, j | 0 <= i < j < |a| ensures key(a[i]) != key(a[j]) {
      if a[i] == a[j] {
        TwiceCounted(a, i, j);
        DistinctOnce(b, key, a[i]);
        assert false;
      }
      assert a[i] in multiset(b) && a[j] in multiset(b);
      var p :| 0 <= p < |b| && b[p] == a[i];
      var q :| 0 <= q < |b| && b[q] == a[j];
      if p < q {
        assert key(b[p]) != key(b[q]);
      } else {
        assert key(b[q]) != key(b[p]);
      }
    }
  }
}
