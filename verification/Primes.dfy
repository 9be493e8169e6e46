/** Primality of the Maglev table size, and the modular inverses it provides. */
module Primes {
  import opened Arith

  predicate Divides(d: int, n: int)
    requires 0 < d
  {
    n % d == 0
  }

  ghost predicate Prime(n: nat) {
    2 <= n && forall d :: 2 <= d < n ==> !Divides(d, n)
  }

  lemma {:induction false} PrimeIsAtLeastTwo(n: nat)
    requires Prime(n)
    ensures 2 <= n
  {}

  /** A proper divisor comes with a cofactor that also divides. */
  lemma {:induction false} Cofactor(d: nat, n: nat) returns (e: nat)
    requires 2 <= d < n && Divides(d, n)
    ensures e == n / d && d * e == n && 2 <= e < n && Divides(e, n)
  {
    e := n / d;
    assert d * e == n;
    assert e != 0 && e != 1;
    assert 2 * e <= n by { MulMono(2, d, e); }
    DivModUnique(n, e, d, 0);
  }

  /** Without a divisor up to its square root, `n` has none at all. */
  lemma {:induction false} NoSmallDivisor(n: nat, d: nat)
    requires 2 <= n && 2 <= d && n < d * d
    requires forall e :: 2 <= e < d ==> !(e < n && Divides(e, n))
    ensures Prime(n)
  {
    forall e | 2 <= e < n ensures !Divides(e, n) {
      if Divides(e, n) {
        var f := Cofactor(e, n);
        SmallFactor(e, f, d);
      }
    }
  }

  lemma {:induction false} SmallFactor(e: nat, f: nat, d: nat)
    requires e * f < d * d
    ensures e < d || f < d
  {
    if d <= e && d <= f {
      MulMono(d, e, d);
      MulMono(d, f, e);
    }
  }

  lemma {:induction false} EvenDivisor(n: nat, h: nat)
    requires 1 <= h && Divides(2 * h, n)
    ensures Divides(2, n)
  {
    assert n == 2 * (h * (n / (2 * h)));
  }

  lemma {:induction false} TwoIsSmallest(n: nat)
    requires 2 <= n && Divides(2, n)
    ensures Prime(n) <==> n == 2
  {}

  /** Trial division by 2 and the odd numbers up to the square root decides primality. */
  method IsPrime(n: nat) returns (r: bool)
    ensures r <==> Prime(n)
  {
    if n < 2 {
      return false;
    }
    if Divides(2, n) {
      TwoIsSmallest(n);
      return n == 2;
    }
    hide Divides, Prime;
    var d := 3;
    ghost var h := 1;
    while d * d <= n
      invariant 1 <= h && d == 2 * h + 1
      invariant forall e :: 2 <= e < d ==> !(e < n && Divides(e, n))
      decreases n - d
    {
      MulMono(3, d, d);
      if Divides(d, n) {
        DivisorMeansComposite(n, d);
        return false;
      }
      if Divides(d + 1, n) {
        EvenDivisor(n, h + 1);
      }
      d, h := d + 2, h + 1;
    }
    NoSmallDivisor(n, d);
    return true;
  }

  lemma {:induction false} DivisorMeansComposite(n: nat, d: nat)
    requires 2 <= d < n && Divides(d, n)
    ensures !Prime(n)
  {}

  /** Every non-zero residue of a prime has an inverse. */
  lemma {:induction false} HasInverse(a: nat, p: nat) returns (inv: nat)
    requires Prime(p) && 0 < a < p
    ensures a * inv % p == 1
    decreases a
  {
    if a == 1 {
      inv := 1;
    } else {
      // p == q * a + r, so -q * a and r are congruent; an inverse of r gives one of a
      var q, r := p / a, p % a;
      assert !Divides(a, p);
      var s := HasInverse(r, p);
      var k: int := -(q * s);
      Substitute(a, p, q, r, s);
      InverseFromCongruence(a, k, r * s, s, p);
      inv := k % p;
    }
  }

  lemma {:induction false} InverseFromCongruence(a: int, k: int, t: int, s: int, p: int)
    requires 0 < p && k * a == t + (-s) * p && t % p == 1
    ensures a * (k % p) % p == 1
  {
    ModMulLeft(k, a, p);
    ModAddMultiple(t, -s, p);
  }

  lemma {:induction false} Substitute(a: int, p: int, q: int, r: int, s: int)
    requires p == a * q + r
    ensures -(q * s) * a == r * s + (-s) * p
  {
    assert p * s == a * q * s + r * s;
  }
}
