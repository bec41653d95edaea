/**
 * The dictionary accumulations of the standings: rows are grouped by a key
 * (a club name, an athlete id), the groups appear in the order in which
 * their key is first seen (Python dicts keep insertion order), and each group
 * carries the sum of an integer attribute over its rows.
 */
module Grouping {
  import opened Sorting

  predicate HasKey<T(==), K(==)>(p: seq<T>, key: T -> K, k: K) {
    exists y :: y in p && key(y) == k
  }

  /** The first row of every group, in order of first appearance. */
  function Firsts<T(==), K(==)>(s: seq<T>, key: T -> K): seq<T>
    decreases |s|
  {
    if s == [] then []
    else
      var n := |s| - 1;
      var p := Firsts(s[..n], key);
      if HasKey(p, key, key(s[n])) then p else p + [s[n]]
  }

  /** The sum of `f` over the rows whose key is `k`. */
  function Total<T(==), K(==)>(s: seq<T>, key: T -> K, k: K, f: T -> int): int
    decreases |s|
  {
    if s == [] then 0
    else
      var n := |s| - 1;
      Total(s[..n], key, k, f) + (if key(s[n]) == k then f(s[n]) else 0)
  }

  /** The sum of the group totals of the groups named by the rows of `g`. */
  function GroupSum<T(==), K(==)>(g: seq<T>, s: seq<T>, key: T -> K, f: T -> int): int
    decreases |g|
  {
    if g == [] then 0 else Total(s, key, key(g[0]), f) + GroupSum(g[1..], s, key, f)
  }

  lemma {:induction false} FirstsSnoc<T, K>(s: seq<T>, x: T, key: T -> K)
    ensures Firsts(s + [x], key) ==
      if HasKey(Firsts(s, key), key, key(x)) then Firsts(s, key) else Firsts(s, key) + [x]
  {
    assert (s + [x])[..|s|] == s;
  }

  lemma {:induction false} TotalSnoc<T, K>(s: seq<T>, x: T, key: T -> K, k: K, f: T -> int)
    ensures Total(s + [x], key, k, f) == Total(s, key, k, f) + (if key(x) == k then f(x) else 0)
  {
    assert (s + [x])[..|s|] == s;
  }

  /**
   * One group per key: the group heads have distinct keys, come from the
   * rows, and every row's key has a head.
   */
  lemma {:induction false} FirstsFacts<T, K>(s: seq<T>, key: T -> K)
    ensures DistinctBy(Firsts(s, key), key)
    ensures forall y :: y in Firsts(s, key) ==> y in s
    ensures forall i :: 0 <= i < |s| ==> HasKey(Firsts(s, key), key, key(s[i]))
    decreases |s|
  {
    if s != [] {
      var n := |s| - 1;
      var p := Firsts(s[..n], key);
      FirstsFacts(s[..n], key);
      assert forall i :: 0 <= i < n ==> s[..n][i] == s[i];
      forall y | y in Firsts(s, key) ensures y in s {
        if y in p {
          assert y in s[..n];
        }
      }
      forall i | 0 <= i < |s| ensures HasKey(Firsts(s, key), key, key(s[i])) {
        if i < n {
          assert HasKey(p, key, key(s[..n][i]));
        } else if !HasKey(p, key, key(s[n])) {
          assert s[n] in Firsts(s, key);
        }
      }
      if !HasKey(p, key, key(s[n])) {
        var f := p + [s[n]];
        forall i, j | 0 <= i < j < |f| ensures key(f[i]) != key(f[j]) {
          if j == |p| {
            assert f[i] in p;
          } else {
            assert key(p[i]) != key(p[j]);
          }
        }
      }
    }
  }

  /** A group head is the earliest row with its key. */
  lemma {:induction false} FirstsAreEarliest<T, K>(s: seq<T>, key: T -> K, y: T)
    requires y in Firsts(s, key)
    ensures exists j :: 0 <= j < |s| && s[j] == y && forall i :: 0 <= i < j ==> key(s[i]) != key(y)
    decreases |s|
  {
    var n := |s| - 1;
    var p := Firsts(s[..n], key);
    assert forall i :: 0 <= i < n ==> s[..n][i] == s[i];
    if y in p {
      FirstsAreEarliest(s[..n], key, y);
      var j :| 0 <= j < n && s[..n][j] == y && forall i :: 0 <= i < j ==> key(s[..n][i]) != key(y);
      assert s[j] == y;
    } else {
      assert y == s[n] && !HasKey(p, key, key(s[n]));
      FirstsFacts(s[..n], key);
      forall i | 0 <= i < n ensures key(s[i]) != key(y) {
        assert HasKey(p, key, key(s[..n][i]));
      }
    }
  }

  lemma {:induction false} TotalAbsent<T, K>(s: seq<T>, key: T -> K, k: K, f: T -> int)
    requires forall i :: 0 <= i < |s| ==> key(s[i]) != k
    ensures Total(s, key, k, f) == 0
    decreases |s|
  {
    if s != [] {
      var n := |s| - 1;
      assert forall i :: 0 <= i < n ==> s[..n][i] == s[i];
      TotalAbsent(s[..n], key, k, f);
    }
  }

  lemma {:induction false} GroupSumAppend<T, K>(g: seq<T>, y: T, s: seq<T>, key: T -> K, f: T -> int)
    ensures GroupSum(g + [y], s, key, f) == GroupSum(g, s, key, f) + Total(s, key, key(y), f)
    decreases |g|
  {
    if g != [] {
      assert (g + [y])[1..] == g[1..] + [y];
      GroupSumAppend(g[1..], y, s, key, f);
    }
  }

  /** Adding a row to the data adds its amount to exactly one of distinct groups, if any. */
  lemma {:induction false} GroupSumGrow<T, K>(g: seq<T>, s: seq<T>, x: T, key: T -> K, f: T -> int)
    requires DistinctBy(g, key)
    ensures GroupSum(g, s + [x], key, f) ==
      GroupSum(g, s, key, f) + (if HasKey(g, key, key(x)) then f(x) else 0)
    decreases |g|
  {
    if g != [] {
      assert (s + [x])[..|s|] == s;
      GroupSumGrow(g[1..], s, x, key, f);
      if key(g[0]) == key(x) {
        forall y | y in g[1..] ensures key(y) != key(x) {
          var j :| 0 <= j < |g[1..]| && g[1..][j] == y;
          assert key(g[0]) != key(g[j + 1]);
        }
      } else {
        assert HasKey(g, key, key(x)) == HasKey(g[1..], key, key(x)) by {
          if HasKey(g, key, key(x)) {
            var y :| y in g && key(y) == key(x);
            assert y in g[1..];
          }
        }
      }
    }
  }

  /** The group totals add up to the total over all rows: no row is lost or counted twice. */
  lemma {:induction false} TotalsAddUp<T, K>(s: seq<T>, key: T -> K, f: T -> int)
    ensures GroupSum(Firsts(s, key), s, key, f) == SumBy(s, f)
    decreases |s|
  {
    if s != [] {
      var n := |s| - 1;
      var p := Firsts(s[..n], key);
      var x := s[n];
      assert s == s[..n] + [x];
      TotalsAddUp(s[..n], key, f);
      FirstsFacts(s[..n], key);
      SumByAppend(s[..n], x, f);
      GroupSumGrow(p, s[..n], x, key, f);
      if !HasKey(p, key, key(x)) {
        GroupSumAppend(p, x, s, key, f);
        forall i | 0 <= i < n ensures key(s[..n][i]) != key(x) {
          assert HasKey(p, key, key(s[..n][i]));
        }
        TotalAbsent(s[..n], key, key(x), f);
      }
    }
  }

  // ------------------------------------------------ the dictionary of a loop

  /** The keys of the dictionary after the rows `done`, in insertion order. */
  ghost predicate KeysOf<T, K>(done: seq<T>, key: T -> K, keys: seq<K>) {
    var heads := Firsts(done, key);
    |keys| == |heads| && forall p :: 0 <= p < |keys| ==> keys[p] == key(heads[p])
  }

  /** A dictionary entry holding, per key, the sum of `f` over the rows with that key. */
  ghost predicate SumsOf<T, K>(done: seq<T>, key: T -> K, f: T -> int, keys: seq<K>, acc: map<K, int>) {
    && acc.Keys == KeySet(keys)
    && (forall p :: 0 <= p < |keys| ==> keys[p] in acc && acc[keys[p]] == Total(done, key, keys[p], f))
  }

  /** A dictionary entry holding, per key, the attribute `g` of the first row with that key. */
  ghost predicate FirstOf<T, K, V>(done: seq<T>, key: T -> K, g: T -> V, keys: seq<K>, m: map<K, V>) {
    && KeysOf(done, key, keys)
    && m.Keys == KeySet(keys)
    && (forall p :: 0 <= p < |keys| ==> keys[p] in m && m[keys[p]] == g(Firsts(done, key)[p]))
  }

  ghost function KeySet<K>(keys: seq<K>): set<K> {
    set k | k in keys
  }

  /** The keys after one more row: a new key goes to the end. */
  ghost function Grown<K>(keys: seq<K>, k: K): seq<K> {
    if k in keys then keys else keys + [k]
  }

  /** `acc.get(k, 0)`. */
  ghost function Get<K>(acc: map<K, int>, k: K): int {
    if k in acc then acc[k] else 0
  }

  lemma {:induction false} GrownKeys<K>(keys: seq<K>, k: K)
    ensures KeySet(Grown(keys, k)) == KeySet(keys) + {k}
  {
  }

  lemma {:induction false} KeysKnown<T, K>(done: seq<T>, key: T -> K, keys: seq<K>, k: K)
    requires KeysOf(done, key, keys)
    ensures HasKey(Firsts(done, key), key, k) <==> k in keys
  {
    var heads := Firsts(done, key);
    if HasKey(heads, key, k) {
      var y :| y in heads && key(y) == k;
      var p :| 0 <= p < |heads| && heads[p] == y;
      assert keys[p] == k;
    }
    if k in keys {
      var p :| 0 <= p < |keys| && keys[p] == k;
      assert heads[p] in heads;
    }
  }

  /** One more row keeps the keys in insertion order. */
  lemma {:induction false} KeysGrow<T, K>(done: seq<T>, x: T, key: T -> K, keys: seq<K>)
    requires KeysOf(done, key, keys)
    ensures KeysOf(done + [x], key, Grown(keys, key(x)))
  {
    KeysKnown(done, key, keys, key(x));
    FirstsSnoc(done, x, key);
  }

  /** A key that no row carries yet has a zero total. */
  lemma {:induction false} TotalUnseen<T, K>(done: seq<T>, key: T -> K, keys: seq<K>, k: K, f: T -> int)
    requires KeysOf(done, key, keys) && k !in keys
    ensures Total(done, key, k, f) == 0
  {
    KeysKnown(done, key, keys, k);
    FirstsFacts(done, key);
    forall i | 0 <= i < |done| ensures key(done[i]) != k {
      assert HasKey(Firsts(done, key), key, key(done[i]));
    }
    TotalAbsent(done, key, k, f);
  }

  /** One more row adds its amount to its own key, opening the key at 0 when it is new. */
  lemma {:induction false} SumsGrow<T, K>(done: seq<T>, x: T, key: T -> K, f: T -> int, keys: seq<K>, acc: map<K, int>)
    requires KeysOf(done, key, keys) && SumsOf(done, key, f, keys, acc)
    ensures SumsOf(done + [x], key, f, Grown(keys, key(x)), acc[key(x) := Get(acc, key(x)) + f(x)])
  {
    if key(x) !in keys {
      TotalUnseen(done, key, keys, key(x), f);
    }
    GrownKeys(keys, key(x));
    assert acc[key(x) := Get(acc, key(x)) + f(x)].Keys == acc.Keys + {key(x)};
    var g := Grown(keys, key(x));
    forall p | 0 <= p < |g| {
      TotalSnoc(done, x, key, g[p], f);
    }
  }

  /** One more row records its attribute only when its key is new. */
  lemma {:induction false} FirstGrow<T, K, V>(done: seq<T>, x: T, key: T -> K, g: T -> V, keys: seq<K>, m: map<K, V>)
    requires FirstOf(done, key, g, keys, m)
    ensures FirstOf(done + [x], key, g, Grown(keys, key(x)), if key(x) in m then m else m[key(x) := g(x)])
  {
    KeysKnown(done, key, keys, key(x));
    FirstsSnoc(done, x, key);
    KeysGrow(done, x, key, keys);
    GrownKeys(keys, key(x));
    assert m[key(x) := g(x)].Keys == m.Keys + {key(x)};
  }

  /** The keys of the dictionary filled by a loop over `s`, in insertion order. */
  ghost function Keys<T, K>(s: seq<T>, key: T -> K): seq<K>
    decreases |s|
  {
    if s == [] then [] else Grown(Keys(s[..|s| - 1], key), key(s[|s| - 1]))
  }

  /** The counters of that dictionary: each row does `d[k] = d.get(k, 0) + f(row)`. */
  ghost function Tally<T, K>(s: seq<T>, key: T -> K, f: T -> int): map<K, int>
    decreases |s|
  {
    if s == [] then map[]
    else
      var m := Tally(s[..|s| - 1], key, f);
      var k := key(s[|s| - 1]);
      m[k := Get(m, k) + f(s[|s| - 1])]
  }

  /** An attribute recorded when a key is first inserted and never overwritten. */
  ghost function FirstMap<T, K, V>(s: seq<T>, key: T -> K, g: T -> V): map<K, V>
    decreases |s|
  {
    if s == [] then map[]
    else
      var m := FirstMap(s[..|s| - 1], key, g);
      var k := key(s[|s| - 1]);
      if k in m then m else m[k := g(s[|s| - 1])]
  }

  lemma {:induction false} KeysFacts<T, K>(s: seq<T>, key: T -> K)
    ensures KeysOf(s, key, Keys(s, key))
    decreases |s|
  {
    if s == [] {
    } else {
      var n := |s| - 1;
      KeysFacts(s[..n], key);
      KeysGrow(s[..n], s[n], key, Keys(s[..n], key));
      assert s[..n] + [s[n]] == s;
    }
  }

  /**
   * The counters hold, per key, the total over the rows with that key, and
   * exactly the keys seen are present.
   */
  lemma {:induction false} TallyFacts<T, K>(s: seq<T>, key: T -> K, f: T -> int)
    ensures SumsOf(s, key, f, Keys(s, key), Tally(s, key, f))
    decreases |s|
  {
    if s == [] {
    } else {
      var n := |s| - 1;
      TallyFacts(s[..n], key, f);
      KeysFacts(s[..n], key);
      SumsGrow(s[..n], s[n], key, f, Keys(s[..n], key), Tally(s[..n], key, f));
      assert s[..n] + [s[n]] == s;
    }
  }

  /** The recorded attribute is that of the first row with the key. */
  lemma {:induction false} FirstMapFacts<T, K, V>(s: seq<T>, key: T -> K, g: T -> V)
    ensures FirstOf(s, key, g, Keys(s, key), FirstMap(s, key, g))
    decreases |s|
  {
    if s == [] {
    } else {
      var n := |s| - 1;
      FirstMapFacts(s[..n], key, g);
      FirstGrow(s[..n], s[n], key, g, Keys(s[..n], key), FirstMap(s[..n], key, g));
      assert s[..n] + [s[n]] == s;
    }
  }

  /** The dictionaries after one more row (the unfolding a loop body needs). */
  lemma {:induction false} DictSnoc<T, K, V>(s: seq<T>, x: T, key: T -> K, f: T -> int, g: T -> V)
    ensures Keys(s + [x], key) == Grown(Keys(s, key), key(x))
    ensures Tally(s + [x], key, f) == Tally(s, key, f)[key(x) := Get(Tally(s, key, f), key(x)) + f(x)]
    ensures FirstMap(s + [x], key, g) == if key(x) in FirstMap(s, key, g) then FirstMap(s, key, g)
                                         else FirstMap(s, key, g)[key(x) := g(x)]
  {
    assert (s + [x])[..|s|] == s;
  }

  /** Opening a counter at 0 when missing, then adding `n` to it, is adding `n` to `get(k, 0)`. */
  lemma {:induction false} OpenThenAdd<K>(before: map<K, int>, ready: map<K, int>, after: map<K, int>, k: K, n: int, added: bool)
    requires ready == if k in before then before else before[k := 0]
    requires after == if added then ready[k := ready[k] + n] else ready
    requires added || n == 0
    ensures after == before[k := Get(before, k) + n]
  {
    if k in before && !added {
      assert before[k := Get(before, k) + n] == before;
    }
  }

  /** One more element of a prefix: the dictionaries of `s[..i + 1]` in terms of those of `s[..i]`. */
  lemma {:induction false} PrefixSnoc<T, K, V>(s: seq<T>, i: nat, key: T -> K, f: T -> int, g: T -> V)
    requires i < |s|
    ensures Keys(s[..i + 1], key) == Grown(Keys(s[..i], key), key(s[i]))
    ensures Tally(s[..i + 1], key, f) == Tally(s[..i], key, f)[key(s[i]) := Get(Tally(s[..i], key, f), key(s[i])) + f(s[i])]
    ensures FirstMap(s[..i + 1], key, g) == if key(s[i]) in FirstMap(s[..i], key, g) then FirstMap(s[..i], key, g)
                                            else FirstMap(s[..i], key, g)[key(s[i]) := g(s[i])]
    ensures Tally(s[..i], key, f).Keys == FirstMap(s[..i], key, g).Keys == KeySet(Keys(s[..i], key))
  {
    assert s[..i + 1] == s[..i] + [s[i]];
    DictSnoc(s[..i], s[i], key, f, g);
    TallyKeys(s[..i], key, f);
    FirstMapKeys(s[..i], key, g);
  }

  /** The counters of a tally carry exactly the keys seen. */
  lemma {:induction false} TallyKeys<T, K>(s: seq<T>, key: T -> K, f: T -> int)
    ensures Tally(s, key, f).Keys == KeySet(Keys(s, key))
  {
    TallyFacts(s, key, f);
  }

  lemma {:induction false} FirstMapKeys<T, K, V>(s: seq<T>, key: T -> K, g: T -> V)
    ensures FirstMap(s, key, g).Keys == KeySet(Keys(s, key))
  {
    FirstMapFacts(s, key, g);
  }

  lemma {:induction false} TotalConcat<T, K>(u: seq<T>, v: seq<T>, key: T -> K, k: K, f: T -> int)
    ensures Total(u + v, key, k, f) == Total(u, key, k, f) + Total(v, key, k, f)
    decreases |v|
  {
    if v == [] {
      assert u + v == u;
    } else {
      var n := |v| - 1;
      assert (u + v)[..|u| + n] == u + v[..n];
      assert (u + v)[|u| + n] == v[n];
      TotalConcat(u, v[..n], key, k, f);
    }
  }
}
