/** Occurrence counts in sequences. */
module Counting {

  ghost function Count(s: seq<int>, x: int): nat {
    if s == [] then 0
    else Count(s[..|s| - 1], x) + (if s[|s| - 1] == x then 1 else 0)
  }

  lemma {:induction false} CountAppend(s: seq<int>, y: int, x: int)
    ensures Count(s + [y], x) == Count(s, x) + (if y == x then 1 else 0)
  {
    assert (s + [y])[..|s|] == s;
  }

  lemma {:induction false} CountConcat(s: seq<int>, t: seq<int>, x: int)
    ensures Count(s + t, x) == Count(s, x) + Count(t, x)
    decreases |t|
  {
    if t == [] {
      assert s + t == s;
    } else {
      var n := |t| - 1;
      CountConcat(s, t[..n], x);
      CountAppend(s + t[..n], t[n], x);
      assert s + t == (s + t[..n]) + [t[n]];
    }
  }

  lemma {:induction false} CountUpdate(s: seq<int>, c: nat, v: int, x: int)
    requires c < |s|
    ensures Count(s[c := v], x)
            == Count(s, x) - (if s[c] == x then 1 else 0) + (if v == x then 1 else 0)
  {
    var n := |s| - 1;
    if c == n {
      assert s[c := v][..n] == s[..n];
    } else {
      CountUpdate(s[..n], c, v, x);
      assert s[c := v][..n] == s[..n][c := v];
    }
  }

  lemma {:induction false} CountPositive(s: seq<int>, x: int)
    ensures 0 < Count(s, x) <==> x in s
  {
    if s != [] {
      CountPositive(s[..|s| - 1], x);
      assert s == s[..|s| - 1] + [s[|s| - 1]];
    }
  }

  lemma {:induction false} CountAll(s: seq<int>, x: int)
    requires forall k :: 0 <= k < |s| ==> s[k] == x
    ensures Count(s, x) == |s|
  {
    if s != [] {
      CountAll(s[..|s| - 1], x);
    }
  }

  /** A prefix holds no more of anything. */
  lemma {:induction false} CountPrefix(s: seq<int>, t: seq<int>, x: int)
    requires s <= t
    ensures Count(s, x) <= Count(t, x)
  {
    CountConcat(s, t[|s|..], x);
    assert t == s + t[|s|..];
  }

  /** The sum of `f` below `n`. */
  ghost function SumTo(n: nat, f: nat -> int): int {
    if n == 0 then 0 else SumTo(n - 1, f) + f(n - 1)
  }

  lemma {:induction false} SumToEqual(n: nat, f: nat -> int, g: nat -> int)
    requires forall i :: 0 <= i < n ==> f(i) == g(i)
    ensures SumTo(n, f) == SumTo(n, g)
  {
    if n != 0 {
      SumToEqual(n - 1, f, g);
    }
  }

  /** Changing one summand changes the sum by as much. */
  lemma {:induction false} SumToUpdate(n: nat, f: nat -> int, g: nat -> int, k: nat)
    requires k < n && forall i :: 0 <= i < n && i != k ==> g(i) == f(i)
    ensures SumTo(n, g) == SumTo(n, f) - f(k) + g(k)
  {
    if k == n - 1 {
      SumToEqual(n - 1, f, g);
    } else {
      SumToUpdate(n - 1, f, g, k);
    }
  }

  lemma {:induction false} SumToBounds(n: nat, f: nat -> int, lo: int, hi: int)
    requires forall i :: 0 <= i < n ==> lo <= f(i) <= hi
    ensures n * lo <= SumTo(n, f) <= n * hi
  {
    if n != 0 {
      SumToBounds(n - 1, f, lo, hi);
      assert n * lo == (n - 1) * lo + lo;
      assert n * hi == (n - 1) * hi + hi;
    }
  }

  ghost function CountsOf(s: seq<int>): nat -> int {
    (i: nat) => Count(s, i)
  }

  /** Counts over all the values a sequence holds add up to its length. */
  lemma {:induction false} SumOfCounts(s: seq<nat>, n: nat)
    requires forall k :: 0 <= k < |s| ==> s[k] < n
    ensures SumTo(n, CountsOf(s)) == |s|
  {
    if s == [] {
      SumToBounds(n, CountsOf(s), 0, 0);
    } else {
      var front, last := s[..|s| - 1], s[|s| - 1];
      SumOfCounts(front, n);
      SumToUpdate(n, CountsOf(front), CountsOf(s), last);
    }
  }
}
