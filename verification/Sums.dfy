/** Totals over a sequence and over the entries of a map. */
module Sums {

  function Sum<T>(s: seq<T>, f: T -> int): int {
    if s == [] then 0 else f(s[0]) + Sum(s[1..], f)
  }

  lemma {:induction false} SumConcat<T>(s: seq<T>, t: seq<T>, f: T -> int)
    ensures Sum(s + t, f) == Sum(s, f) + Sum(t, f)
    decreases |s|
  {
    if s == [] {
      assert s + t == t;
    } else {
      assert (s + t)[1..] == s[1..] + t;
      SumConcat(s[1..], t, f);
    }
  }

  lemma SumAppend<T>(s: seq<T>, x: T, f: T -> int)
    ensures Sum(s + [x], f) == Sum(s, f) + f(x)
  {
    SumConcat(s, [x], f);
    assert Sum([x], f) == f(x) + Sum([x][1..], f);
  }

  lemma {:induction false} SumUpdate<T>(s: seq<T>, i: nat, x: T, f: T -> int)
    requires i < |s|
    ensures Sum(s[i := x], f) == Sum(s, f) - f(s[i]) + f(x)
    decreases |s|
  {
    if i == 0 {
      assert s[i := x][1..] == s[1..];
    } else {
      assert s[i := x][1..] == s[1..][i - 1 := x];
      SumUpdate(s[1..], i - 1, x, f);
    }
  }

  function RemoveAt<T>(s: seq<T>, i: nat): (r: seq<T>)
    requires i < |s|
    ensures |r| == |s| - 1
    ensures forall j :: 0 <= j < i ==> r[j] == s[j]
    ensures forall j :: i <= j < |r| ==> r[j] == s[j + 1]
  {
    s[..i] + s[i + 1..]
  }

  lemma {:induction false} SumRemove<T>(s: seq<T>, i: nat, f: T -> int)
    requires i < |s|
    ensures Sum(RemoveAt(s, i), f) == Sum(s, f) - f(s[i])
    decreases |s|
  {
    if i == 0 {
      assert RemoveAt(s, i) == s[1..];
    } else {
      assert RemoveAt(s, i)[1..] == RemoveAt(s[1..], i - 1);
      SumRemove(s[1..], i - 1, f);
    }
  }

  lemma {:induction false} SumZero<T>(s: seq<T>, f: T -> int)
    requires forall i :: 0 <= i < |s| ==> f(s[i]) == 0
    ensures Sum(s, f) == 0
  {
    if s != [] {
      SumZero(s[1..], f);
    }
  }

  lemma {:induction false} SumNonNegative<T>(s: seq<T>, f: T -> int)
    requires forall x :: x in s ==> f(x) >= 0
    ensures Sum(s, f) >= 0
  {
    if s != [] {
      assert s[0] in s;
      forall x | x in s[1..] ensures f(x) >= 0 {
        assert x in s;
      }
      SumNonNegative(s[1..], f);
    }
  }

  /** One element of a total of non-negative parts. */
  lemma SumMember<T>(s: seq<T>, i: nat, f: T -> int)
    requires i < |s|
    requires forall x :: x in s ==> f(x) >= 0
    ensures f(s[i]) <= Sum(s, f)
  {
    SumRemove(s, i, f);
    var r := RemoveAt(s, i);
    forall x | x in r ensures f(x) >= 0 {
      assert x in s;
    }
    SumNonNegative(r, f);
  }

  /** Two elements of a total of non-negative parts. */
  lemma SumPair<T>(s: seq<T>, i: nat, j: nat, f: T -> int)
    requires i < j < |s|
    requires forall x :: x in s ==> f(x) >= 0
    ensures f(s[i]) + f(s[j]) <= Sum(s, f)
  {
    SumRemove(s, j, f);
    SumMember(RemoveAt(s, j), i, f);
  }

  // ------------------------------------------------------------------ totals over a map

  lemma SameMap<K, V>(a: map<K, V>, b: map<K, V>)
    requires a.Keys == b.Keys && forall x :: x in a ==> a[x] == b[x]
    ensures a == b
  {
  }

  /** Finite maps read with a default of zero, as operator[] of the source's maps does. */
  function Get<K>(m: map<K, nat>, k: K): nat {
    if k in m then m[k] else 0
  }

  /** Sum of f(k, m[k]) over the keys. */
  ghost function MapSum<K(!new)>(m: map<K, nat>, f: (K, nat) -> int): int
    decreases |m|
  {
    if m == map[] then 0
    else
      var k :| k in m;
      f(k, m[k]) + MapSum(m - {k}, f)
  }

  lemma {:induction false} MapSumPick<K(!new)>(m: map<K, nat>, k: K, f: (K, nat) -> int)
    requires k in m
    ensures MapSum(m, f) == f(k, m[k]) + MapSum(m - {k}, f)
    decreases |m|
  {
    var j :| j in m && MapSum(m, f) == f(j, m[j]) + MapSum(m - {j}, f);
    if j != k {
      MapSumPick(m - {j}, k, f);
      MapSumPick(m - {k}, j, f);
      assert m - {j} - {k} == m - {k} - {j};
    }
  }

  /** Writing one key moves the total by the difference of its terms. */
  lemma MapSumWrite<K(!new)>(m: map<K, nat>, k: K, v: nat, f: (K, nat) -> int)
    requires f(k, 0) == 0
    ensures MapSum(m[k := v], f) == MapSum(m, f) - f(k, Get(m, k)) + f(k, v)
  {
    MapSumPick(m[k := v], k, f);
    assert m[k := v] - {k} == m - {k};
    if k in m {
      MapSumPick(m, k, f);
    } else {
      assert m - {k} == m;
    }
  }
}
