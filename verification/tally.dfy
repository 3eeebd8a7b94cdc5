/**
 * Counting labels: the occurrence count of one value in a column, pandas'
 * `value_counts().to_dict()`, sums of count tables, and the position of
 * a value in a list (what `list.index` and `list.remove` look for).
 */
module Tally {

  /** The position of the first occurrence of `x` in `s`, or `|s|` when there is none. */
  function IndexOf<T(==)>(s: seq<T>, x: T): (i: nat)
    ensures i <= |s|
    ensures i < |s| ==> s[i] == x
    ensures forall j :: 0 <= j < i ==> s[j] != x
  {
    if s == [] then 0 else if s[0] == x then 0 else 1 + IndexOf(s[1..], x)
  }

  /** How many entries of `s` equal `x`. */
  function Count<T(==)>(s: seq<T>, x: T): (n: nat)
    ensures n <= |s|
    ensures n == 0 <==> x !in s
  {
    if s == [] then 0
    else Count(s[..|s| - 1], x) + (if s[|s| - 1] == x then 1 else 0)
  }

  lemma CountAppend<T>(s: seq<T>, y: T, x: T)
    ensures Count(s + [y], x) == Count(s, x) + (if y == x then 1 else 0)
  {
    assert (s + [y])[..|s|] == s;
  }

  /** `x`, found at `i`, occurs once in `s` exactly when no other entry equals it. */
  lemma {:induction false} CountOnce<T>(s: seq<T>, i: nat, x: T)
    requires i < |s| && s[i] == x
    ensures Count(s, x) == 1 <==> forall j :: 0 <= j < |s| && j != i ==> s[j] != x
  {
    var p := s[..|s| - 1];
    if i < |s| - 1 {
      assert p[i] == x;
      CountOnce(p, i, x);
    } else {
      assert forall j :: 0 <= j < |p| ==> p[j] == s[j];
    }
  }

  /** `pd.Series(s).value_counts().to_dict()`: every value seen, with its number of occurrences. */
  function ValueCounts<T(==)>(s: seq<T>): (m: map<T, nat>)
    ensures m.Keys == set x | x in s
    ensures forall x :: x in m ==> 1 <= m[x] == Count(s, x)
  {
    map x | x in s :: Count(s, x)
  }

  /** The count of a label that may be absent from the table: `m.get(k, 0)`. */
  function Get<K>(m: map<K, nat>, k: K): nat {
    if k in m then m[k] else 0
  }

  /** Sum of the counts of the labels in `ks`. */
  ghost function SumKeys<K>(m: map<K, nat>, ks: set<K>): nat
    requires ks <= m.Keys
  {
    if ks == {} then 0
    else
      var k :| k in ks;
      m[k] + SumKeys(m, ks - {k})
  }

  /** Sum of all the counts in a table. */
  ghost function MapSum<K>(m: map<K, nat>): nat {
    SumKeys(m, m.Keys)
  }

  /** The sum does not depend on which label is taken out first. */
  lemma {:induction false} SumKeysRemove<K>(m: map<K, nat>, ks: set<K>, k: K)
    requires ks <= m.Keys && k in ks
    ensures SumKeys(m, ks) == m[k] + SumKeys(m, ks - {k})
    decreases ks
  {
    var j :| j in ks && SumKeys(m, ks) == m[j] + SumKeys(m, ks - {j});
    if j != k {
      SumKeysRemove(m, ks - {j}, k);
      SumKeysRemove(m, ks - {k}, j);
      assert ks - {j} - {k} == ks - {k} - {j};
    }
  }

  /** Only the counts of the summed labels matter. */
  lemma {:induction false} SumKeysAgree<K>(m: map<K, nat>, m': map<K, nat>, ks: set<K>)
    requires ks <= m.Keys && ks <= m'.Keys
    requires forall k :: k in ks ==> m[k] == m'[k]
    ensures SumKeys(m, ks) == SumKeys(m', ks)
    decreases ks
  {
    if ks != {} {
      var j :| j in ks && SumKeys(m, ks) == m[j] + SumKeys(m, ks - {j});
      SumKeysRemove(m', ks, j);
      SumKeysAgree(m, m', ks - {j});
    }
  }

  /** Incrementing one entry (or adding it with count 1) raises the sum by one. */
  lemma MapSumIncrement<K>(m: map<K, nat>, k: K)
    ensures MapSum(m[k := Get(m, k) + 1]) == MapSum(m) + 1
  {
    var m' := m[k := Get(m, k) + 1];
    var rest := m.Keys - {k};
    SumKeysRemove(m', m'.Keys, k);
    assert m'.Keys - {k} == rest;
    SumKeysAgree(m, m', rest);
    if k in m {
      SumKeysRemove(m, m.Keys, k);
    } else {
      assert m.Keys == rest;
    }
  }

  lemma ValueCountsAppend<T>(s: seq<T>, x: T)
    ensures ValueCounts(s + [x]) == ValueCounts(s)[x := Get(ValueCounts(s), x) + 1]
  {
    var a, b := ValueCounts(s + [x]), ValueCounts(s)[x := Get(ValueCounts(s), x) + 1];
    forall y | y in a
      ensures y in b && a[y] == b[y]
    {
      CountAppend(s, x, y);
    }
    forall y | y in b
      ensures y in a
    {
      CountAppend(s, x, y);
    }
  }

  /** The counts of `value_counts` add up to the number of entries. */
  lemma {:induction false} ValueCountsSum<T>(s: seq<T>)
    ensures MapSum(ValueCounts(s)) == |s|
  {
    if s == [] {
      assert ValueCounts(s).Keys == {};
    } else {
      var init := s[..|s| - 1];
      assert s == init + [s[|s| - 1]];
      ValueCountsSum(init);
      ValueCountsAppend(init, s[|s| - 1]);
      MapSumIncrement(ValueCounts(init), s[|s| - 1]);
    }
  }

  /** The entries of `s` other than `skip`, in order. */
  function Without<T(==)>(s: seq<T>, skip: T): (r: seq<T>)
    ensures |r| <= |s|
    ensures forall k :: 0 <= k < |r| ==> r[k] != skip
  {
    if s == [] then []
    else Without(s[..|s| - 1], skip) + (if s[|s| - 1] != skip then [s[|s| - 1]] else [])
  }

  /** `m[x] = m.get(x, 0) + 1` unless `x` is the value to skip. */
  function CountUnless<T>(m: map<T, nat>, x: T, skip: T): map<T, nat> {
    if x != skip then m[x := Get(m, x) + 1] else m
  }

  lemma WithoutStep<T>(s: seq<T>, x: T, skip: T)
    ensures Without(s + [x], skip) == Without(s, skip) + (if x != skip then [x] else [])
  {
    assert (s + [x])[..|s|] == s;
  }

  /** Counting one more entry, unless it is the skipped value. */
  lemma ValueCountsWithoutAppend<T>(s: seq<T>, x: T, skip: T)
    ensures ValueCounts(Without(s + [x], skip)) == CountUnless(ValueCounts(Without(s, skip)), x, skip)
  {
    var n := Without(s, skip);
    var n' := Without(s + [x], skip);
    WithoutStep(s, x, skip);
    if x != skip {
      assert n' == n + [x];
      ValueCountsAppend(n, x);
      assert CountUnless(ValueCounts(n), x, skip) == ValueCounts(n)[x := Get(ValueCounts(n), x) + 1];
    } else {
      assert n' == n;
    }
  }

  /** `sum(m.get(k, 0) for k in keys)`. */
  function SumOver<K>(keys: seq<K>, m: map<K, nat>): nat {
    if keys == [] then 0 else Get(m, keys[0]) + SumOver(keys[1..], m)
  }

  /** `sum(t[i] for t in tables)`: one column of a list of count tables. */
  function SumColumn<K>(tables: seq<map<K, nat>>, k: K): nat {
    if tables == [] then 0 else SumColumn(tables[..|tables| - 1], k) + Get(tables[|tables| - 1], k)
  }

  /** Sum of a sequence of naturals. */
  function Sum(xs: seq<nat>): nat {
    if xs == [] then 0 else Sum(xs[..|xs| - 1]) + xs[|xs| - 1]
  }

  lemma {:induction false} SumConcat(a: seq<nat>, b: seq<nat>)
    ensures Sum(a + b) == Sum(a) + Sum(b)
    decreases |b|
  {
    if b == [] {
      assert a + b == a;
    } else {
      assert (a + b)[..|a + b| - 1] == a + b[..|b| - 1];
      SumConcat(a, b[..|b| - 1]);
    }
  }

  lemma {:induction false} SumColumnConcat<K>(a: seq<map<K, nat>>, b: seq<map<K, nat>>, k: K)
    ensures SumColumn(a + b, k) == SumColumn(a, k) + SumColumn(b, k)
    decreases |b|
  {
    if b == [] {
      assert a + b == a;
    } else {
      assert (a + b)[..|a + b| - 1] == a + b[..|b| - 1];
      SumColumnConcat(a, b[..|b| - 1], k);
    }
  }

  /** Number of entries of `s` that equal one of `keys`. */
  function CountIn<T(==)>(s: seq<T>, keys: seq<T>): nat {
    if s == [] then 0 else CountIn(s[..|s| - 1], keys) + (if s[|s| - 1] in keys then 1 else 0)
  }

  function CountsOver<T(==)>(keys: seq<T>, s: seq<T>): nat {
    if keys == [] then 0 else Count(s, keys[0]) + CountsOver(keys[1..], s)
  }

  lemma {:induction false} CountsOverAppend<T>(keys: seq<T>, s: seq<T>, y: T)
    requires forall i, j :: 0 <= i < j < |keys| ==> keys[i] != keys[j]
    ensures CountsOver(keys, s + [y]) == CountsOver(keys, s) + (if y in keys then 1 else 0)
  {
    if keys != [] {
      CountAppend(s, y, keys[0]);
      CountsOverAppend(keys[1..], s, y);
      assert y in keys <==> y == keys[0] || y in keys[1..] by {
        assert keys == [keys[0]] + keys[1..];
      }
    }
  }

  /**
   * Counting each of several distinct labels separately and adding up gives
   * the number of entries carrying one of them, so never more than `|s|`.
   */
  lemma {:induction false} CountsOverDistinct<T>(keys: seq<T>, s: seq<T>)
    requires forall i, j :: 0 <= i < j < |keys| ==> keys[i] != keys[j]
    ensures CountsOver(keys, s) == CountIn(s, keys) <= |s|
    decreases |s|
  {
    if s == [] {
      assert CountsOver(keys, s) == 0 by { CountsOverEmpty(keys); }
    } else {
      var init := s[..|s| - 1];
      assert s == init + [s[|s| - 1]];
      CountsOverDistinct(keys, init);
      CountsOverAppend(keys, init, s[|s| - 1]);
    }
  }

  lemma {:induction false} CountsOverEmpty<T>(keys: seq<T>)
    ensures CountsOver(keys, []) == 0
  {
    if keys != [] {
      CountsOverEmpty(keys[1..]);
    }
  }
}
