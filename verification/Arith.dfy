/** Integer facts shared by the other modules. */
module Arith {

  lemma {:induction false} MulMono(a: int, b: int, c: int)
    requires a <= b && 0 <= c
    ensures a * c <= b * c
  {}

  lemma {:induction false} Distribute(a: int, b: int, c: int)
    ensures (a + b) * c == a * c + b * c
  {}

  /** Quotient and remainder are determined by the division equation. */
  lemma {:induction false} DivModUnique(x: int, d: int, q: int, r: int)
    requires 0 < d && 0 <= r < d && x == q * d + r
    ensures x / d == q && x % d == r
  {
    var q', r' := x / d, x % d;
    assert x == d * q' + r';
    assert (q - q') * d == r' - r by {
      assert q * d + r == d * q' + r';
      assert (q - q') * d == q * d - q' * d;
    }
    if q > q' {
      assert (q - q') * d >= d by { MulMono(1, q - q', d); }
    } else if q < q' {
      assert (q' - q) * d >= d by { MulMono(1, q' - q, d); }
    }
  }

  /** Dividing twice is dividing by the product. */
  lemma {:induction false} DivTwice(x: nat, a: nat, b: nat)
    requires 0 < a && 0 < b
    ensures 0 < a * b && x / a / b == x / (a * b)
  {
    var q, r := x / a, x % a;
    assert x == q * a + r && q == q / b * b + q % b;
    assert q % b * a + r < a * b by { MulMono(q % b + 1, b, a); Distribute(q % b, 1, a); }
    assert q * a == q / b * (a * b) + q % b * a by { Distribute(q / b * b, q % b, a); }
    DivModUnique(x, a * b, q / b, q % b * a + r);
  }

  lemma {:induction false} SmallMod(x: int, m: int)
    requires 0 <= x < m
    ensures x % m == x
  {
    DivModUnique(x, m, 0, x);
  }

  lemma {:induction false} ModAddMultiple(x: int, k: int, m: int)
    requires 0 < m
    ensures (x + k * m) % m == x % m
  {
    assert x == m * (x / m) + x % m;
    assert x + k * m == (x / m + k) * m + x % m by {
      assert (x / m + k) * m == (x / m) * m + k * m;
    }
    DivModUnique(x + k * m, m, x / m + k, x % m);
  }

  lemma {:induction false} ModAddLeft(x: int, y: int, m: int)
    requires 0 < m
    ensures (x % m + y) % m == (x + y) % m
  {
    assert x % m + y == (x + y) + (-(x / m)) * m by {
      assert x == m * (x / m) + x % m;
      assert (-(x / m)) * m == -(m * (x / m));
    }
    ModAddMultiple(x + y, -(x / m), m);
  }

  lemma {:induction false} ModMulLeft(x: int, y: int, m: int)
    requires 0 < m
    ensures (x % m * y) % m == (x * y) % m
  {
    var q := x / m;
    assert x % m == x - q * m;
    assert x % m * y == x * y + (-(q * y)) * m by {
      assert (x - q * m) * y == x * y - q * m * y;
      assert q * m * y == q * y * m;
      assert (-(q * y)) * m == -(q * y * m);
    }
    ModAddMultiple(x * y, -(q * y), m);
  }

  /** Two numbers are congruent exactly when the modulus divides their difference. */
  lemma {:induction false} ModEqual(x: int, y: int, m: int)
    requires 0 < m
    ensures x % m == y % m <==> (x - y) % m == 0
  {
    var d := x - y;
    if x % m == y % m {
      assert d == (x / m - y / m) * m by {
        assert x == m * (x / m) + x % m;
        assert y == m * (y / m) + y % m;
        assert (x / m - y / m) * m == (x / m) * m - (y / m) * m;
      }
      DivModUnique(d, m, x / m - y / m, 0);
    }
    if d % m == 0 {
      assert x == y + (d / m) * m;
      ModAddMultiple(y, d / m, m);
    }
  }

  lemma {:induction false} DivBounds(x: int, d: int)
    requires 0 < d
    ensures x / d * d <= x < x / d * d + d
  {}

  /** `x / d` is at least `q` exactly when `q * d` fits in `x`. */
  lemma {:induction false} DivAtLeast(x: int, d: int, q: int)
    requires 0 < d
    ensures q <= x / d <==> q * d <= x
  {
    var p := x / d;
    DivBounds(x, d);
    if q <= p {
      MulMono(q, p, d);
    } else {
      MulMono(p + 1, q, d);
      Distribute(p, 1, d);
    }
  }

  /** Multiplying by `g` and then by its inverse changes nothing modulo `m`. */
  lemma {:induction false} InverseFactor(d: int, g: int, inv: int, m: int)
    requires 0 < m && g * inv % m == 1
    ensures d * g % m * inv % m == d % m
  {
    var p := g * inv;
    ModMulLeft(d * g, inv, m);
    assert d * g * inv == p * d;
    ModMulLeft(p, d, m);
  }

  /** Stepping `d * inv` times by `g` modulo `m` adds `d` when `inv` is the inverse of `g`. */
  lemma {:induction false} InverseSteps(start: int, d: int, g: int, inv: int, m: int)
    requires 0 < m && g * inv % m == 1
    ensures (start + d * inv % m * g) % m == (start + d) % m
  {
    var k := d * inv % m;
    assert inv * g == g * inv;
    InverseFactor(d, inv, g, m);
    ModAddLeft(k * g, start, m);
    ModAddLeft(d, start, m);
  }

  /** Only multiples of `m` are carried to multiples of `m` by an invertible factor. */
  lemma {:induction false} UndoMultiple(d: int, g: int, inv: int, m: int)
    requires 0 < m && g * inv % m == 1 && d * g % m == 0
    ensures d % m == 0
  {
    InverseFactor(d, g, inv, m);
  }

  /** Steps by an invertible `g` from one start meet only at congruent step counts. */
  lemma {:induction false} InvertibleStepsInjective(start: int, j: int, k: int, g: int, inv: int, m: int)
    requires 0 < m && g * inv % m == 1
    requires (start + j * g) % m == (start + k * g) % m
    ensures j % m == k % m
  {
    var d := j - k;
    ModEqual(start + j * g, start + k * g, m);
    assert (start + j * g) - (start + k * g) == d * g;
    UndoMultiple(d, g, inv, m);
    ModEqual(j, k, m);
  }

  /** The number of integers in a half-open interval. */
  lemma {:induction false} IntervalSize(s: set<int>, lo: int, hi: int)
    requires lo <= hi
    requires forall d :: d in s <==> lo <= d < hi
    ensures |s| == hi - lo
    decreases hi - lo
  {
    if lo == hi {
      assert forall d :: d !in s;
    } else {
      IntervalSize(s - {hi - 1}, lo, hi - 1);
    }
  }

  /** A one-to-one map of `s` onto `t` preserves size. */
  lemma {:induction false} BijectionSize<S(!new), T(!new)>(s: set<S>, t: set<T>, f: S -> T, g: T -> S)
    requires forall x :: x in s ==> f(x) in t && g(f(x)) == x
    requires forall y :: y in t ==> g(y) in s && f(g(y)) == y
    ensures |s| == |t|
    decreases s
  {
    if s == {} {
      assert forall y :: y in t ==> g(y) in s;
      assert t == {};
    } else {
      var x :| x in s;
      BijectionSize(s - {x}, t - {f(x)}, f, g);
    }
  }

  ghost function Product<S, T>(s: set<S>, t: set<T>): set<(S, T)> {
    set x, y | x in s && y in t :: (x, y)
  }

  lemma {:induction false} RowSize<S, T>(x: S, t: set<T>)
    ensures |Product({x}, t)| == |t|
    decreases t
  {
    if t == {} {
      assert Product({x}, t) == {};
    } else {
      var y :| y in t;
      RowSize(x, t - {y});
      assert Product({x}, t) == Product({x}, t - {y}) + {(x, y)};
    }
  }

  lemma {:induction false} ProductSplit<S, T>(s: set<S>, t: set<T>, x: S)
    requires x in s
    ensures |Product(s, t)| == |Product(s - {x}, t)| + |t|
  {
    RowSize(x, t);
    assert Product(s, t) == Product(s - {x}, t) + Product({x}, t);
    assert Product(s - {x}, t) !! Product({x}, t);
  }

  lemma {:induction false} ProductSize<S, T>(s: set<S>, t: set<T>)
    ensures |Product(s, t)| == |s| * |t|
    decreases s
  {
    hide Product;
    if s == {} {
      EmptyProduct<S, T>(t);
    } else {
      var x :| x in s;
      ProductSize(s - {x}, t);
      ProductSplit(s, t, x);
      Distribute(|s| - 1, 1, |t|);
    }
  }

  lemma {:induction false} EmptyProduct<S, T>(t: set<T>)
    ensures |Product<S, T>({}, t)| == 0
  {
    assert Product<S, T>({}, t) == {};
  }

  /** A common factor cancels in a quotient. */
  lemma {:induction false} DivCancel(k: int, a: int, b: int)
    requires 0 < k && 0 < b
    ensures (k * a) / (k * b) == a / b
  {
    var q, r := a / b, a % b;
    assert a == q * b + r;
    assert k * a == q * (k * b) + k * r;
    assert k * r < k * b by { MulMono(r + 1, b, k); }
    DivModUnique(k * a, k * b, q, k * r);
  }
}
