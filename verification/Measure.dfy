/** Sizes of finite sets and maps, and how one change moves them. */
module Measure {

  ghost function SumOver<T(!new)>(s: set<T>, f: T -> int): int {
    if s == {} then 0
    else
      var x :| x in s;
      f(x) + SumOver(s - {x}, f)
  }

  /** Any element may be taken out first. */
  lemma {:induction false} SumTakeOut<T(!new)>(s: set<T>, f: T -> int, x: T)
    requires x in s
    ensures SumOver(s, f) == f(x) + SumOver(s - {x}, f)
    decreases s
  {
    var y :| y in s && SumOver(s, f) == f(y) + SumOver(s - {y}, f);
    if y != x {
      SumTakeOut(s - {y}, f, x);
      SumTakeOut(s - {x}, f, y);
      assert s - {y} - {x} == s - {x} - {y};
    }
  }

  lemma {:induction false} SumAgree<T(!new)>(s: set<T>, f: T -> int, g: T -> int)
    requires forall x :: x in s ==> f(x) == g(x)
    ensures SumOver(s, f) == SumOver(s, g)
    decreases s
  {
    if s != {} {
      var x :| x in s;
      SumTakeOut(s, f, x);
      SumTakeOut(s, g, x);
      SumAgree(s - {x}, f, g);
    }
  }

  lemma {:induction false} SumAtMost<T(!new)>(s: set<T>, f: T -> int, bound: int)
    requires forall x :: x in s ==> f(x) <= bound
    ensures SumOver(s, f) <= |s| * bound
    decreases s
  {
    if s != {} {
      var x :| x in s;
      SumTakeOut(s, f, x);
      SumAtMost(s - {x}, f, bound);
      assert |s| * bound == (|s| - 1) * bound + bound;
    }
  }

  lemma {:induction false} SumNonnegative<T(!new)>(s: set<T>, f: T -> int)
    requires forall x :: x in s ==> 0 <= f(x)
    ensures 0 <= SumOver(s, f)
    decreases s
  {
    if s != {} {
      var x :| x in s;
      SumTakeOut(s, f, x);
      SumNonnegative(s - {x}, f);
    }
  }

  /** The sum of `f` over a map's entries. */
  ghost function Total<K(!new), V(!new)>(m: map<K, V>, f: (K, V) -> int): int {
    SumOver(m.Keys, (k: K) => if k in m then f(k, m[k]) else 0)
  }

  lemma {:induction false} TotalRemove<K(!new), V(!new)>(m: map<K, V>, f: (K, V) -> int, k: K)
    requires k in m
    ensures Total(m, f) == Total(m - {k}, f) + f(k, m[k])
  {
    var m' := m - {k};
    var g := (x: K) => if x in m then f(x, m[x]) else 0;
    SumTakeOut(m.Keys, g, k);
    assert m'.Keys == m.Keys - {k};
    SumAgree(m'.Keys, g, (x: K) => if x in m' then f(x, m'[x]) else 0);
  }

  lemma {:induction false} TotalPut<K(!new), V(!new)>(m: map<K, V>, f: (K, V) -> int, k: K, v: V)
    ensures Total(m[k := v], f) == Total(m, f) - (if k in m then f(k, m[k]) else 0) + f(k, v)
  {
    var p := m[k := v];
    TotalRemove(p, f, k);
    if k in m {
      TotalRemove(m, f, k);
      assert p - {k} == m - {k};
    } else {
      assert p - {k} == m;
    }
  }

  lemma {:induction false} TotalEmpty<K(!new), V(!new)>(f: (K, V) -> int)
    ensures Total(map[], f) == 0
  {}

  lemma {:induction false} TotalAtMost<K(!new), V(!new)>(m: map<K, V>, f: (K, V) -> int, bound: int)
    requires forall k :: k in m ==> f(k, m[k]) <= bound
    ensures Total(m, f) <= |m| * bound
  {
    SumAtMost(m.Keys, (k: K) => if k in m then f(k, m[k]) else 0, bound);
    assert |m.Keys| == |m|;
  }
}
