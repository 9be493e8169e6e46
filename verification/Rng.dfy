/** SplitMix64 and Lemire's bounded sampling (plecto/crates/control/src/rng.rs). */
module Rng {
  import opened Arith
  import opened Words

  /** SplitMix64's additive step and the two multipliers of its finalizer. */
  const GOLDEN_GAMMA: u64 := 0x9E37_79B9_7F4A_7C15
  const MIX1: u64 := 0xBF58_476D_1CE4_E5B9
  const MIX2: u64 := 0x94D0_49BB_1331_11EB

  /** The inverses of those three constants modulo 2^64. */
  const GAMMA_INV: u64 := 0xF1DE_83E1_9937_733D
  const MIX1_INV: u64 := 0x96DE_1B17_3F11_9089
  const MIX2_INV: u64 := 0x3196_42B2_D24D_8EC3

  // ---------- machine words ----------

  function WrappingMul(a: u64, b: u64): u64 {
    a * b % TWO64
  }

  /** Bitwise exclusive or. */
  function Xor(a: nat, b: nat): nat
    decreases a + b
  {
    if a == 0 then b
    else if b == 0 then a
    else (if a % 2 != b % 2 then 1 else 0) + 2 * Xor(a / 2, b / 2)
  }

  /** Logical shift right by `k` bits. */
  function Shr(z: nat, k: nat): nat
    decreases k
  {
    if k == 0 then z else Shr(z / 2, k - 1)
  }

  function Pow2(k: nat): nat {
    if k == 0 then 1 else 2 * Pow2(k - 1)
  }

  /** `Xor` one bit at a time, also where one side has run out of bits. */
  lemma {:induction false} XorBit(a: nat, b: nat)
    ensures Xor(a, b) % 2 == (if a % 2 != b % 2 then 1 else 0)
    ensures Xor(a, b) / 2 == Xor(a / 2, b / 2)
  {
    if a != 0 && b != 0 {
      DivModUnique(Xor(a, b), 2, Xor(a / 2, b / 2), if a % 2 != b % 2 then 1 else 0);
    }
  }

  lemma {:induction false} XorComm(a: nat, b: nat)
    ensures Xor(a, b) == Xor(b, a)
    decreases a
  {
    if a != 0 && b != 0 {
      XorComm(a / 2, b / 2);
    }
  }

  lemma {:induction false} XorSelf(a: nat)
    ensures Xor(a, a) == 0 && Xor(0, a) == a
  {
    if a != 0 {
      XorSelf(a / 2);
    }
  }

  /** Numbers are equal when their last bits and the rest agree. */
  lemma {:induction false} BitsEqual(x: nat, y: nat)
    requires x % 2 == y % 2 && x / 2 == y / 2
    ensures x == y
  {}

  lemma {:induction false} XorAssoc(a: nat, b: nat, c: nat)
    ensures Xor(Xor(a, b), c) == Xor(a, Xor(b, c))
    decreases a + b + c
  {
    if a != 0 && b != 0 && c != 0 {
      XorAssoc(a / 2, b / 2, c / 2);
      XorBit(a, b);
      XorBit(b, c);
      XorBit(Xor(a, b), c);
      XorBit(a, Xor(b, c));
      BitsEqual(Xor(Xor(a, b), c), Xor(a, Xor(b, c)));
    }
  }

  lemma {:induction false} XorBelow(a: nat, b: nat, k: nat)
    requires a < Pow2(k) && b < Pow2(k)
    ensures Xor(a, b) < Pow2(k)
    decreases k
  {
    if a != 0 && b != 0 {
      XorBelow(a / 2, b / 2, k - 1);
    }
  }

  lemma {:induction false} ShrXor(a: nat, b: nat, k: nat)
    ensures Shr(Xor(a, b), k) == Xor(Shr(a, k), Shr(b, k))
    decreases k
  {
    if k != 0 {
      XorBit(a, b);
      ShrXor(a / 2, b / 2, k - 1);
    }
  }

  lemma {:induction false} ShrShr(z: nat, j: nat, k: nat)
    ensures Shr(Shr(z, j), k) == Shr(z, j + k)
    decreases j
  {
    if j != 0 {
      ShrShr(z / 2, j - 1, k);
    }
  }

  lemma {:induction false} ShrZero(k: nat)
    ensures Shr(0, k) == 0
  {
    if k != 0 {
      ShrZero(k - 1);
    }
  }

  lemma {:induction false} ShrAll(z: nat, j: nat, k: nat)
    requires z < Pow2(j) && j <= k
    ensures Shr(z, k) == 0
    decreases j
  {
    if j == 0 {
      ShrZero(k);
    } else {
      ShrAll(z / 2, j - 1, k - 1);
    }
  }

  lemma {:induction false} ShrAtMost(z: nat, k: nat)
    ensures Shr(z, k) <= z
    decreases k
  {
    if k != 0 {
      ShrAtMost(z / 2, k - 1);
    }
  }

  lemma {:induction false} Pow2Of64()
    ensures Pow2(64) == TWO64
  {
    assert Pow2(8) == 256;
    assert Pow2(16) == 65536 by { PowAdd(8, 8); }
    assert Pow2(32) == 0x1_0000_0000 by { PowAdd(16, 16); }
    PowAdd(32, 32);
  }

  lemma {:induction false} PowAdd(a: nat, b: nat)
    ensures Pow2(a + b) == Pow2(a) * Pow2(b)
  {
    if a != 0 {
      PowAdd(a - 1, b);
    }
  }

  // ---------- the finalizer permutes the 64-bit words ----------

  /** `z ^ (z >> k)` */
  function XorShift(z: u64, k: nat): u64 {
    Pow2Of64();
    ShrAtMost(z, k);
    XorBelow(z, Shr(z, k), 64);
    Xor(z, Shr(z, k))
  }

  /** `y ^ (y >> k) ^ (y >> 2k)`: undoes `XorShift` when `3k >= 64`. */
  function UnXorShift(y: u64, k: nat): u64 {
    Pow2Of64();
    ShrAtMost(y, k);
    ShrAtMost(y, 2 * k);
    XorBelow(y, Shr(y, k), 64);
    XorBelow(Xor(y, Shr(y, k)), Shr(y, 2 * k), 64);
    Xor(Xor(y, Shr(y, k)), Shr(y, 2 * k))
  }

  /** `(a ^ b) ^ (b ^ c) == a ^ c` */
  lemma {:induction false} XorTelescope(a: nat, b: nat, c: nat)
    ensures Xor(Xor(a, b), Xor(b, c)) == Xor(a, c)
  {
    XorAssoc(a, b, Xor(b, c));
    XorAssoc(b, b, c);
    XorSelf(b);
  }

  lemma {:induction false} XorShiftInverse(z: u64, k: nat)
    requires 64 <= 3 * k
    ensures UnXorShift(XorShift(z, k), k) == z
    ensures XorShift(UnXorShift(z, k), k) == z
  {
    Pow2Of64();
    ShrAll(z, 64, 3 * k);
    XorComm(z, 0);
    UndoTelescopes(z, k);
    RedoTelescopes(z, k);
  }

  lemma {:induction false} UndoTelescopes(z: nat, k: nat)
    ensures var y := Xor(z, Shr(z, k));
            Xor(Xor(y, Shr(y, k)), Shr(y, 2 * k)) == Xor(z, Shr(z, 3 * k))
  {
    hide Xor, Shr;
    var s1, s2, s3 := Shr(z, k), Shr(z, 2 * k), Shr(z, 3 * k);
    ShrShr(z, k, k);
    ShrShr(z, k, 2 * k);
    ShrXor(z, s1, k);
    ShrXor(z, s1, 2 * k);
    XorTelescope(z, s1, s2);
    XorTelescope(z, s2, s3);
  }

  lemma {:induction false} RedoTelescopes(z: nat, k: nat)
    ensures var u := Xor(Xor(z, Shr(z, k)), Shr(z, 2 * k)); Xor(u, Shr(u, k)) == Xor(z, Shr(z, 3 * k))
  {
    hide Xor, Shr;
    var s1, s2, s3 := Shr(z, k), Shr(z, 2 * k), Shr(z, 3 * k);
    ShrShr(z, k, k);
    ShrShr(z, 2 * k, k);
    var x := Xor(z, s1);
    ShrXor(z, s1, k);
    ShrXor(x, s2, k);
    calc {
      Xor(Xor(x, s2), Xor(Xor(s1, s2), s3));
      { XorAssoc(x, s2, Xor(Xor(s1, s2), s3)); XorAssoc(s2, Xor(s1, s2), s3); }
      Xor(x, Xor(Xor(s2, Xor(s1, s2)), s3));
      { XorComm(s1, s2); XorAssoc(s2, s2, s1); XorSelf(s2); XorSelf(s1); }
      Xor(x, Xor(s1, s3));
      { XorTelescope(z, s1, s3); }
      Xor(z, s3);
    }
  }

  /** Multiplying by an odd constant is undone by multiplying by its inverse. */
  lemma {:induction false} MulInverse(z: u64, c: u64, inv: u64)
    requires c * inv % TWO64 == 1
    ensures WrappingMul(WrappingMul(z, c), inv) == z
    ensures WrappingMul(WrappingMul(z, inv), c) == z
  {
    MulUndone(z, c, inv);
    assert inv * c == c * inv;
    MulUndone(z, inv, c);
  }

  lemma {:induction false} MulUndone(z: u64, c: u64, inv: u64)
    requires c * inv % TWO64 == 1
    ensures z * c % TWO64 * inv % TWO64 == z
  {
    InverseFactor(z, c, inv, TWO64);
  }

  lemma {:induction false} Inverses()
    ensures MIX1 * MIX1_INV % TWO64 == 1
    ensures MIX2 * MIX2_INV % TWO64 == 1
    ensures GOLDEN_GAMMA * GAMMA_INV % TWO64 == 1
  {}

  function Mix(z: u64): u64 {
    XorShift(WrappingMul(XorShift(WrappingMul(XorShift(z, 30), MIX1), 27), MIX2), 31)
  }

  function Unmix(y: u64): u64 {
    UnXorShift(WrappingMul(UnXorShift(WrappingMul(UnXorShift(y, 31), MIX2_INV), 27), MIX1_INV), 30)
  }

  /** The finalizer is a bijection on 64-bit words: `Unmix` is its two-sided inverse. */
  lemma {:induction false} MixIsPermutation(z: u64)
    ensures Unmix(Mix(z)) == z
    ensures Mix(Unmix(z)) == z
  {
    Inverses();
    var x := XorShift(z, 30);
    var a := WrappingMul(x, MIX1);
    var p := XorShift(a, 27);
    var b := WrappingMul(p, MIX2);
    XorShiftInverse(b, 31);
    MulInverse(p, MIX2, MIX2_INV);
    XorShiftInverse(a, 27);
    MulInverse(x, MIX1, MIX1_INV);
    XorShiftInverse(z, 30);

    var q := UnXorShift(z, 31);
    var b' := WrappingMul(q, MIX2_INV);
    var p' := UnXorShift(b', 27);
    var a' := WrappingMul(p', MIX1_INV);
    XorShiftInverse(a', 30);
    MulInverse(p', MIX1, MIX1_INV);
    XorShiftInverse(b', 27);
    MulInverse(q, MIX2, MIX2_INV);
    XorShiftInverse(z, 31);
  }

  // ---------- the finalizer, bit by bit ----------

  /** Bit `j` of `n`. */
  function BitOf(n: nat, j: nat): nat
    decreases j
  {
    if j == 0 then n % 2 else BitOf(n / 2, j - 1)
  }

  lemma {:induction false} XorBits(a: nat, b: nat, j: nat)
    ensures BitOf(Xor(a, b), j) == (BitOf(a, j) + BitOf(b, j)) % 2
    decreases j
  {
    assert Xor(a, b) / 2 == Xor(a / 2, b / 2);
    if j != 0 {
      XorBits(a / 2, b / 2, j - 1);
    }
  }

  lemma {:induction false} ShrBits(z: nat, k: nat, j: nat)
    ensures BitOf(Shr(z, k), j) == BitOf(z, j + k)
    decreases k
  {
    if k != 0 {
      ShrBits(z / 2, k - 1, j);
    }
  }

  /** Each bit of `x` is that of `z`, exclusive-or the one `k` places up. */
  ghost predicate FoldsDown(z: u64, k: nat, x: u64) {
    forall j: nat :: BitOf(x, j) == (BitOf(z, j) + BitOf(z, j + k)) % 2
  }

  lemma {:induction false} XorShiftFolds(z: u64, k: nat)
    ensures FoldsDown(z, k, XorShift(z, k))
  {
    forall j: nat ensures BitOf(XorShift(z, k), j) == (BitOf(z, j) + BitOf(z, j + k)) % 2 {
      XorBits(z, Shr(z, k), j);
      ShrBits(z, k, j);
    }
  }

  /** The finalizer in bits and products: three folds, with a wrapping multiplication between each two. */
  lemma {:induction false} MixInBits(z: u64) returns (x: u64, a: u64, p: u64, b: u64)
    ensures FoldsDown(z, 30, x) && a == x * 0xBF58_476D_1CE4_E5B9 % TWO64
    ensures FoldsDown(a, 27, p) && b == p * 0x94D0_49BB_1331_11EB % TWO64
    ensures FoldsDown(b, 31, Mix(z))
  {
    x := XorShift(z, 30);
    a := WrappingMul(x, MIX1);
    p := XorShift(a, 27);
    b := WrappingMul(p, MIX2);
    XorShiftFolds(z, 30);
    XorShiftFolds(a, 27);
    XorShiftFolds(b, 31);
  }

  // ---------- the stream visits every word exactly once a period ----------

  /** The state `k` steps after `seed`. */
  function StateAt(seed: u64, k: nat): u64 {
    (seed + k * GOLDEN_GAMMA) % TWO64
  }

  /** The word the k-th call draws, counting from 1. */
  function Draw(seed: u64, k: nat): u64 {
    Mix(StateAt(seed, k))
  }

  /** The position in one period at which `word` is drawn. */
  function Position(seed: u64, word: u64): u64 {
    Steps(seed, Unmix(word))
  }

  /** How many steps lead from the state `seed` to the state `target`. */
  function Steps(seed: u64, target: u64): u64 {
    (target - seed) * GAMMA_INV % TWO64
  }

  lemma {:induction false} StateAtPosition(seed: u64, target: u64)
    ensures StateAt(seed, Steps(seed, target)) == target
  {
    Inverses();
    InverseSteps(seed, target - seed, GOLDEN_GAMMA, GAMMA_INV, TWO64);
  }

  lemma {:induction false} StateAtInjective(seed: u64, j: u64, k: u64)
    requires StateAt(seed, j) == StateAt(seed, k)
    ensures j == k
  {
    Inverses();
    InvertibleStepsInjective(seed, j, k, GOLDEN_GAMMA, GAMMA_INV, TWO64);
  }

  /** Composing the injective state sequence with a permutation gives a permutation. */
  lemma {:induction false} ThroughPermutation(mix: u64 -> u64, unmix: u64 -> u64, seed: u64, word: u64, k: u64)
    requires forall z: u64 :: unmix(mix(z)) == z
    requires mix(unmix(word)) == word
    ensures mix(StateAt(seed, Steps(seed, unmix(word)))) == word
    ensures mix(StateAt(seed, k)) == word <==> k == Steps(seed, unmix(word))
  {
    var p := Steps(seed, unmix(word));
    StateAtPosition(seed, unmix(word));
    if mix(StateAt(seed, k)) == word {
      assert unmix(mix(StateAt(seed, k))) == StateAt(seed, k);
      StateAtInjective(seed, k, p);
    }
  }

  /** From any seed, the 2^64 draws of one period are a permutation of the 64-bit words. */
  lemma {:induction false} StreamIsPermutation(seed: u64, word: u64, k: u64)
    ensures Draw(seed, Position(seed, word)) == word
    ensures Draw(seed, k) == word <==> k == Position(seed, word)
  {
    forall z: u64 ensures Unmix(Mix(z)) == z && Mix(Unmix(z)) == z {
      MixIsPermutation(z);
    }
    ThroughPermutation(Mix, Unmix, seed, word, k);
  }

  lemma {:induction false} DrawPeriodic(seed: u64, k: nat)
    ensures Draw(seed, k + TWO64) == Draw(seed, k)
  {
    assert seed + (k + TWO64) * GOLDEN_GAMMA == seed + k * GOLDEN_GAMMA + GOLDEN_GAMMA * TWO64;
    ModAddMultiple(seed + k * GOLDEN_GAMMA, GOLDEN_GAMMA, TWO64);
  }

  // ---------- Lemire's bounded integer ----------

  /** The high word of the 128-bit product: the value a draw stands for. */
  function Value(n: nat, draw: u64): nat {
    draw * n / TWO64
  }

  /** The low word of the product. */
  function Low(n: nat, draw: u64): u64 {
    draw * n % TWO64
  }

  /** `n.wrapping_neg() % n` */
  function Threshold(n: nat): nat
    requires 0 < n <= U32_MAX
  {
    (TWO64 - n) % n
  }

  /** The draws the rejection test keeps. */
  predicate Accepted(n: nat, draw: u64)
    requires 0 < n <= U32_MAX
  {
    Threshold(n) <= Low(n, draw)
  }

  lemma {:induction false} ThresholdIsRemainder(n: nat)
    requires 0 < n <= U32_MAX
    ensures Threshold(n) == TWO64 % n < n
  {
    ModAddMultiple(TWO64, -1, n);
  }

  /** Only draws whose low word is below `n` can be rejected, so the division may wait. */
  lemma {:induction false} ShortcutIsExact(n: nat, draw: u64)
    requires 0 < n <= U32_MAX
    ensures n <= Low(n, draw) ==> Accepted(n, draw)
  {
    ThresholdIsRemainder(n);
  }

  lemma {:induction false} ValueInRange(n: nat, draw: u64)
    requires 0 < n
    ensures Value(n, draw) < n
  {
    DivAtLeast(draw * n, TWO64, n);
    assert draw * n < TWO64 * n;
  }

  /** The draw 1 is accepted whatever the bound is. */
  lemma {:induction false} OneIsAccepted(n: nat)
    requires 0 < n <= U32_MAX
    ensures Accepted(n, 1)
  {
    ThresholdIsRemainder(n);
    assert Low(n, 1) == n;
  }

  /** Every seed leads to an accepted draw within one period. */
  lemma {:induction false} SomeDrawIsAccepted(seed: u64, n: nat) returns (last: nat)
    requires 0 < n <= U32_MAX
    ensures 1 <= last <= TWO64 && Accepted(n, Draw(seed, last))
  {
    hide Mix, Unmix;
    var p := Position(seed, 1);
    StreamIsPermutation(seed, 1, p);
    DrawPeriodic(seed, 0);
    OneIsAccepted(n);
    last := if p == 0 then TWO64 else p;
  }

  // ---------- `below` is exactly unbiased ----------

  /**
    With `q` whole copies of `n` in `w`, the draws kept for `v` are `q` consecutive integers
    ending below the first one whose product reaches `(v + 1) * w`.
   */
  lemma {:induction false} KeptDraws(n: nat, w: nat, q: nat, v: nat, last: nat, d: nat)
    requires 0 < n && 0 < w && q == w / n && last == ((v + 1) * w + n - 1) / n
    ensures d * n / w == v && w % n <= d * n % w <==> last - q <= d < last
  {
    var top := (v + 1) * w;
    assert v * w == top - w;
    assert w == n * q + w % n;
    // d * n / w == v && w % n <= d * n % w  <==>  top - n * q <= d * n < top
    DivAtLeast(d * n, w, v);
    DivAtLeast(d * n, w, v + 1);
    assert d * n == w * (d * n / w) + d * n % w;
    assert v * w == w * v;
    // d * n < top <==> d < last
    DivAtLeast(top + n - 1, n, d + 1);
    assert (d + 1) * n == d * n + n;
    // top <= (d + q) * n <==> last <= d + q
    DivAtLeast(top + n - 1, n, d + q + 1);
    assert (d + q + 1) * n == d * n + n * q + n;
  }

  ghost function DrawsFor(n: nat, v: nat): set<int>
    requires 0 < n <= U32_MAX
  {
    set d: int | 0 <= d < TWO64 && Accepted(n, d) && Value(n, d) == v
  }

  /** Exactly `2^64 / n` of the 2^64 draws are accepted and mean `v`, for every `v < n`. */
  lemma {:induction false} BelowIsUnbiased(n: nat, v: nat)
    requires 0 < n <= U32_MAX && v < n
    ensures |DrawsFor(n, v)| == TWO64 / n
  {
    var q := TWO64 / n;
    var top := (v + 1) * TWO64;
    var last := (top + n - 1) / n;
    ThresholdIsRemainder(n);
    assert q <= last by {
      DivAtLeast(TWO64, n, q);
      DivAtLeast(top + n - 1, n, q);
    }
    assert last <= TWO64 by {
      MulMono(v + 1, n, TWO64);
      DivAtLeast(top + n - 1, n, TWO64 + 1);
      assert (TWO64 + 1) * n == n * TWO64 + n;
    }
    forall d: int ensures d in DrawsFor(n, v) <==> last - q <= d < last {
      if 0 <= d < TWO64 {
        KeptDraws(n, TWO64, q, v, last, d);
      }
    }
    IntervalSize(DrawsFor(n, v), last - q, last);
  }

  ghost function PositionsFor(seed: u64, n: nat, v: nat): set<int>
    requires 0 < n <= U32_MAX
  {
    set k: int | 0 <= k < TWO64 && Accepted(n, Draw(seed, k)) && Value(n, Draw(seed, k)) == v
  }

  /** Over one period of the generator, from any seed, every value is offered equally often. */
  lemma {:induction false} PeriodIsUnbiased(seed: u64, n: nat, v: nat)
    requires 0 < n <= U32_MAX && v < n
    ensures |PositionsFor(seed, n, v)| == TWO64 / n
  {
    hide Mix, Unmix, StateAt, Steps, Accepted, Value;
    var f := (k: int) => if 0 <= k < TWO64 then Draw(seed, k) else 0;
    var g := (d: int) => if 0 <= d < TWO64 then Position(seed, d) else 0;
    forall k: int | k in PositionsFor(seed, n, v) ensures f(k) in DrawsFor(n, v) && g(f(k)) == k {
      StreamIsPermutation(seed, Draw(seed, k), k);
    }
    forall d: int | d in DrawsFor(n, v) ensures g(d) in PositionsFor(seed, n, v) && f(g(d)) == d {
      StreamIsPermutation(seed, d, Position(seed, d));
    }
    BijectionSize(PositionsFor(seed, n, v), DrawsFor(n, v), f, g);
    BelowIsUnbiased(n, v);
  }

  // ---------- two distinct indices ----------

  /** The pair `two_distinct_below` makes of its two draws. */
  function SkipPast(i: nat, j: nat): (nat, nat) {
    (i, if j >= i then j + 1 else j)
  }

  function SkipBack(p: (nat, nat)): (nat, nat)
    requires p.0 != p.1
  {
    (p.0, if p.1 > p.0 then p.1 - 1 else p.1)
  }

  /** The values `[0, n) x [0, n - 1)` map one-to-one onto the ordered pairs of distinct indices. */
  lemma {:induction false} DistinctPairsBijection(n: nat, i: nat, j: nat, p: (nat, nat))
    requires 2 <= n
    ensures i < n && j < n - 1 ==>
              var q := SkipPast(i, j); q.0 < n && q.1 < n && q.0 != q.1 && SkipBack(q) == (i, j)
    ensures p.0 < n && p.1 < n && p.0 != p.1 ==>
              var b := SkipBack(p); b.0 < n && b.1 < n - 1 && SkipPast(b.0, b.1) == p
  {}

  /** The pairs of words that are both accepted, for `n` and for `n - 1`, and mean the indices `p`. */
  ghost function DrawPairsFor(n: nat, p: (nat, nat)): set<(int, int)>
    requires 2 <= n <= U32_MAX
  {
    set c: int, d: int | 0 <= c < TWO64 && 0 <= d < TWO64 && Accepted(n, c) && Accepted(n - 1, d)
                         && SkipPast(Value(n, c), Value(n - 1, d)) == p :: (c, d)
  }

  /** Every ordered pair of distinct indices stands for the same number of pairs of accepted draws. */
  lemma {:induction false} DistinctPairsAreUnbiased(n: nat, p: (nat, nat))
    requires 2 <= n <= U32_MAX && p.0 < n && p.1 < n && p.0 != p.1
    ensures |DrawPairsFor(n, p)| == (TWO64 / n) * (TWO64 / (n - 1))
  {
    var b := SkipBack(p);
    BelowIsUnbiased(n, b.0);
    BelowIsUnbiased(n - 1, b.1);
    ProductSize(DrawsFor(n, b.0), DrawsFor(n - 1, b.1));
    hide Accepted, Value;
    assert DrawPairsFor(n, p) == Product(DrawsFor(n, b.0), DrawsFor(n - 1, b.1));
  }

  /** The worker's generator (`STATE`). */
  class SplitMix64 {
    var state: u64

    constructor (seed: u64)
      ensures state == seed
    {
      state := seed;
    }

    method NextU64() returns (word: u64)
      modifies this
      ensures state == (old(state) + 0x9E37_79B9_7F4A_7C15) % TWO64
      ensures word == Mix(state)
    {
      state := (state + GOLDEN_GAMMA) % TWO64;
      word := Mix(state);
    }

    /** The (k+1)-st call since the state was `seed`. */
    method NextDraw(ghost seed: u64, ghost k: nat) returns (word: u64)
      requires state == StateAt(seed, k)
      modifies this
      ensures state == StateAt(seed, k + 1)
      ensures word == Draw(seed, k + 1)
    {
      ModAddLeft(seed + k * GOLDEN_GAMMA, GOLDEN_GAMMA, TWO64);
      assert (k + 1) * GOLDEN_GAMMA == k * GOLDEN_GAMMA + GOLDEN_GAMMA;
      word := NextU64();
    }

    /**
      The rejection loop stops within one period: it returns the value of the first accepted
      draw, having consumed exactly the rejected ones before it.
     */
    method Below(n: nat) returns (r: nat, ghost k: nat)
      requires 0 < n <= U32_MAX
      modifies this
      ensures 1 <= k <= TWO64
      ensures state == StateAt(old(state), k)
      ensures forall j :: 1 <= j < k ==> !Accepted(n, Draw(old(state), j))
      ensures Accepted(n, Draw(old(state), k))
      ensures r == Value(n, Draw(old(state), k)) < n
    {
      ghost var seed := state;
      hide Mix;
      ghost var last := SomeDrawIsAccepted(seed, n);
      assert StateAt(seed, 0) == seed;
      var word := NextDraw(seed, 0);
      k := 1;
      var l := Low(n, word);
      if l < n {
        var threshold := Threshold(n);
        while l < threshold
          invariant 1 <= k <= last
          invariant state == StateAt(seed, k)
          invariant word == Draw(seed, k) && l == Low(n, word)
          invariant forall j :: 1 <= j < k ==> !Accepted(n, Draw(seed, j))
          decreases last - k
        {
          word := NextDraw(seed, k);
          l := Low(n, word);
          k := k + 1;
        }
      } else {
        ShortcutIsExact(n, word);
      }
      r := Value(n, word);
      ValueInRange(n, word);
    }

    /**
      Two distinct indices: the second is drawn from one fewer and skips past the first. Each comes
      from the first accepted draw, the second from where the first left the generator.
     */
    method TwoDistinctBelow(n: nat) returns (i: nat, j: nat, ghost k1: nat, ghost k2: nat)
      requires 2 <= n <= U32_MAX
      modifies this
      ensures i < n && j < n && i != j
      ensures 1 <= k1 <= TWO64 && 1 <= k2 <= TWO64
      ensures forall k :: 1 <= k < k1 ==> !Accepted(n, Draw(old(state), k))
      ensures Accepted(n, Draw(old(state), k1))
      ensures ghost var mid := StateAt(old(state), k1);
              && (forall k :: 1 <= k < k2 ==> !Accepted(n - 1, Draw(mid, k)))
              && Accepted(n - 1, Draw(mid, k2)) && state == StateAt(mid, k2)
              && (i, j) == SkipPast(Value(n, Draw(old(state), k1)), Value(n - 1, Draw(mid, k2)))
    {
      hide Mix;
      i, k1 := Below(n);
      j, k2 := Below(n - 1);
      if j >= i {
        j := j + 1;
      }
    }
  }
}
