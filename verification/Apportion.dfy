/**
  The maximum-deficit rule behind weighted traffic splits (plecto/crates/control/src/weighted.rs):
  the unbounded stateful rule, its periodicity and its fairness.
 */
module Apportion {
  import opened Arith

  // ---------- sums ----------

  function Sum(s: seq<int>): int {
    if s == [] then 0 else Sum(s[..|s| - 1]) + s[|s| - 1]
  }

  lemma {:induction false} SumUpdate(s: seq<int>, k: nat, v: int)
    requires k < |s|
    ensures Sum(s[k := v]) == Sum(s) - s[k] + v
  {
    var n := |s| - 1;
    if k == n {
      assert s[k := v][..n] == s[..n];
    } else {
      SumUpdate(s[..n], k, v);
      assert s[k := v][..n] == s[..n][k := v];
    }
  }

  lemma {:induction false} SumAtMost(s: seq<int>, bound: int)
    requires forall i :: 0 <= i < |s| ==> s[i] <= bound
    ensures Sum(s) <= |s| * bound
  {
    if s != [] {
      SumAtMost(s[..|s| - 1], bound);
      Distribute(|s| - 1, 1, bound);
    }
  }

  lemma {:induction false} SumAtLeast(s: seq<int>, bound: int)
    requires forall i :: 0 <= i < |s| ==> bound <= s[i]
    ensures |s| * bound <= Sum(s)
  {
    if s != [] {
      SumAtLeast(s[..|s| - 1], bound);
      Distribute(|s| - 1, 1, bound);
    }
  }

  lemma {:induction false} SumZero(s: seq<int>)
    requires Sum(s) == 0 && forall i :: 0 <= i < |s| ==> 0 <= s[i]
    ensures forall i :: 0 <= i < |s| ==> s[i] == 0
  {
    if s != [] {
      SumAtLeast(s[..|s| - 1], 0);
      SumZero(s[..|s| - 1]);
    }
  }

  // ---------- the rule ----------

  /** Backend weights of which at least one is positive. */
  ghost predicate Weights(w: seq<nat>) {
    w != [] && 0 < Sum(w)
  }

  /** Every backend is credited its weight. */
  function Credit(d: seq<int>, w: seq<nat>): (e: seq<int>)
    requires |d| == |w|
    ensures |e| == |w|
  {
    seq(|w|, i requires 0 <= i < |w| => d[i] + w[i])
  }

  /** `b` has the greatest value, and the lowest index among those that do. */
  predicate IsBest(e: seq<int>, b: nat) {
    && b < |e|
    && (forall i :: 0 <= i < |e| ==> e[i] <= e[b])
    && (forall i :: 0 <= i < b ==> e[i] < e[b])
  }

  function Best(e: seq<int>): (b: nat)
    requires e != []
    ensures IsBest(e, b)
  {
    if |e| == 1 then 0
    else
      var n := |e| - 1;
      var b := Best(e[..n]);
      assert forall i :: 0 <= i < n ==> e[i] == e[..n][i];
      if e[n] > e[b] then n else b
  }

  lemma {:induction false} BestIsUnique(e: seq<int>, b: nat)
    requires IsBest(e, b)
    ensures Best(e) == b
  {}

  /** Serve the backend with the largest deficit and debit it the total. */
  function Step(d: seq<int>, w: seq<nat>): (d': seq<int>)
    requires |d| == |w| && w != []
    ensures |d'| == |w|
  {
    var e := Credit(d, w);
    var b := Best(e);
    e[b := e[b] - Sum(w)]
  }

  /** The deficits after `t` steps of the rule. */
  ghost function Deficits(w: seq<nat>, t: nat): (d: seq<int>)
    requires w != []
    ensures |d| == |w|
  {
    if t == 0 then seq(|w|, _ => 0) else Step(Deficits(w, t - 1), w)
  }

  /** The backend served by step `t`, counting from 0. */
  ghost function Choice(w: seq<nat>, t: nat): (b: nat)
    requires w != []
    ensures b < |w|
  {
    Best(Credit(Deficits(w, t), w))
  }

  /** How often backend `i` has been served in the first `t` steps. */
  ghost function Served(w: seq<nat>, t: nat, i: nat): nat
    requires w != []
  {
    if t == 0 then 0 else Served(w, t - 1, i) + (if Choice(w, t - 1) == i then 1 else 0)
  }

  // ---------- one step ----------

  lemma {:induction false} CreditSum(d: seq<int>, w: seq<nat>)
    requires |d| == |w|
    ensures Sum(Credit(d, w)) == Sum(d) + Sum(w)
  {
    if w != [] {
      var n := |w| - 1;
      CreditSum(d[..n], w[..n]);
      assert Credit(d, w)[..n] == Credit(d[..n], w[..n]);
    }
  }

  /** The served backend's deficit was positive before it was debited. */
  lemma {:induction false} BestIsPositive(e: seq<int>)
    requires e != [] && 0 < Sum(e)
    ensures 0 < e[Best(e)]
  {
    if e[Best(e)] <= 0 {
      SumAtMost(e, 0);
    }
  }

  // ---------- over whole runs ----------

  lemma {:induction false} DeficitsSumToZero(w: seq<nat>, t: nat)
    requires Weights(w)
    ensures Sum(Deficits(w, t)) == 0
  {
    hide Sum, Best, Credit;
    if t == 0 {
      SumAtMost(Deficits(w, 0), 0);
      SumAtLeast(Deficits(w, 0), 0);
    } else {
      DeficitsSumToZero(w, t - 1);
      StepKeepsSum(Deficits(w, t - 1), w);
    }
  }

  /** What a step credits in all, it debits from the backend it serves. */
  lemma {:induction false} StepKeepsSum(d: seq<int>, w: seq<nat>)
    requires |d| == |w| && w != []
    ensures Sum(Step(d, w)) == Sum(d)
  {
    hide Sum, Best;
    var e := Credit(d, w);
    CreditSum(d, w);
    SumUpdate(e, Best(e), e[Best(e)] - Sum(w));
  }

  lemma {:induction false} DeficitStart(w: seq<nat>, i: nat)
    requires w != [] && i < |w|
    ensures Deficits(w, 0)[i] == 0
  {}

  /** One step, backend by backend. */
  lemma {:induction false} StepDeficit(w: seq<nat>, t: nat, i: nat)
    requires w != [] && i < |w|
    ensures Deficits(w, t + 1)[i]
            == Deficits(w, t)[i] + w[i] - (if Choice(w, t) == i then Sum(w) else 0)
    ensures Deficits(w, t)[i] + w[i] <= Deficits(w, t)[Choice(w, t)] + w[Choice(w, t)]
  {
    hide Best, Sum;
  }

  /** The served backend was owed something: credited deficits add up to the total weight. */
  lemma {:induction false} ServedWasOwed(w: seq<nat>, t: nat)
    requires Weights(w)
    ensures Sum(Credit(Deficits(w, t), w)) == Sum(w)
    ensures 0 < Deficits(w, t)[Choice(w, t)] + w[Choice(w, t)]
  {
    DeficitsSumToZero(w, t);
    CreditSum(Deficits(w, t), w);
    BestIsPositive(Credit(Deficits(w, t), w));
  }

  /** A deficit measures how far a backend is behind: `t * w[i] - total * served`. */
  lemma {:induction false} DeficitIsDeviation(w: seq<nat>, t: nat, i: nat)
    requires w != [] && i < |w|
    ensures Deficits(w, t)[i] == t * w[i] - Sum(w) * Served(w, t, i)
  {
    hide Choice, Sum, Deficits;
    DeficitStart(w, i);
    if t != 0 {
      DeficitIsDeviation(w, t - 1, i);
      StepDeficit(w, t - 1, i);
      Distribute(t - 1, 1, w[i]);
      var c := Served(w, t - 1, i);
      assert Sum(w) * (c + 1) == Sum(w) * c + Sum(w);
    }
  }

  /** No backend is ever a whole request ahead of its share, however many backends there are. */
  lemma {:induction false} NeverAWholeRequestAhead(w: seq<nat>, t: nat, i: nat)
    requires Weights(w) && i < |w|
    ensures -Sum(w) < Deficits(w, t)[i]
    ensures Sum(w) * Served(w, t, i) < t * w[i] + Sum(w)
    decreases t
  {
    hide Choice, Sum, Deficits, Served, Credit;
    DeficitIsDeviation(w, t, i);
    DeficitStart(w, i);
    if t != 0 {
      NeverAWholeRequestAhead(w, t - 1, i);
      ServedWasOwed(w, t - 1);
      StepDeficit(w, t - 1, i);
    }
  }

  /**
    How far a backend can fall behind: with `n` backends less than `(n - 1) / 2` requests, and
    less than one request when `n <= 3`.
   */
  lemma {:induction false} BehindBound(w: seq<nat>, t: nat, i: nat)
    requires Weights(w) && i < |w|
    ensures 2 * Deficits(w, t)[i] < BehindLimit(|w|) * Sum(w)
    decreases t
  {
    if t == 0 {
      MulMono(1, BehindLimit(|w|), Sum(w));
    } else {
      BehindBound(w, t - 1, i);
      BehindStep(w, t - 1, i);
    }
  }

  lemma {:induction false} BehindStep(w: seq<nat>, t: nat, i: nat)
    requires Weights(w) && i < |w| && 2 * Deficits(w, t)[i] < BehindLimit(|w|) * Sum(w)
    ensures 2 * Deficits(w, t + 1)[i] < BehindLimit(|w|) * Sum(w)
  {
    hide Choice, Sum, Deficits, Served;
    var n, total := |w|, Sum(w);
    var e, b := Credit(Deficits(w, t), w), Choice(w, t);
    StepDeficit(w, t, i);
    WeightAtMostTotal(w, i);
    if b != i {
      ServedWasOwed(w, t);
      forall k | 0 <= k < n ensures -total < e[k] {
        NeverAWholeRequestAhead(w, t, k);
      }
      UnservedBound(e, b, i, total);
    }
  }

  function BehindLimit(n: nat): nat {
    if n <= 3 then 2 else n - 1
  }

  lemma {:induction false} WeightAtMostTotal(w: seq<nat>, i: nat)
    requires i < |w|
    ensures w[i] <= Sum(w)
  {
    if i < |w| - 1 {
      WeightAtMostTotal(w[..|w| - 1], i);
    } else {
      SumAtLeast(w[..|w| - 1], 0);
    }
  }

  /** A backend passed over is no larger than the one served, and the rest exceed `-total`. */
  lemma {:induction false} UnservedBound(e: seq<int>, b: nat, i: nat, total: int)
    requires b < |e| && i < |e| && b != i && e[i] <= e[b] && 0 < total && Sum(e) == total
    requires forall k :: 0 <= k < |e| ==> -total < e[k]
    ensures 2 * e[i] < BehindLimit(|e|) * total
  {
    hide Sum;
    var lo := 1 - total;
    var f := e[b := lo];
    SumUpdate(e, b, lo);
    SumUpdate(f, i, lo);
    SumAtLeast(f[i := lo], lo);
    UnservedArithmetic(|e|, e[b], e[i], total, lo);
  }

  lemma {:induction false} UnservedArithmetic(n: nat, x: int, y: int, total: int, lo: int)
    requires 2 <= n && y <= x && 0 < total && lo == 1 - total && n * lo <= total - x - y + 2 * lo
    ensures 2 * y < BehindLimit(n) * total
  {
    assert n * lo == n - n * total;
    assert (n - 1) * total == n * total - total;
    if n <= 3 {
      MulMono(n - 1, 2, total);
    }
  }

  // ---------- the rule is periodic ----------

  /** After as many steps as the weights add up to, each backend has had exactly its weight. */
  lemma {:induction false} FullPeriod(w: seq<nat>)
    requires Weights(w)
    ensures Deficits(w, Sum(w)) == seq(|w|, _ => 0)
    ensures forall i :: 0 <= i < |w| ==> Served(w, Sum(w), i) == w[i]
  {
    hide Choice, Deficits, Served;
    var total := Sum(w);
    var d := Deficits(w, total);
    forall i | 0 <= i < |w| ensures 0 <= d[i] && (d[i] == 0 ==> Served(w, total, i) == w[i]) {
      DeficitIsDeviation(w, total, i);
      NeverAWholeRequestAhead(w, total, i);
      MultipleAbove(total, w[i], Served(w, total, i));
    }
    DeficitsSumToZero(w, total);
    SumZero(d);
  }

  lemma {:induction false} MultipleAbove(total: int, a: int, c: int)
    requires 0 < total && -total < total * a - total * c
    ensures 0 <= total * a - total * c
    ensures total * a - total * c == 0 ==> a == c
  {
    assert total * a - total * c == (a - c) * total;
    if a < c {
      MulMono(a - c, -1, total);
    } else if c < a {
      MulMono(1, a - c, total);
    }
  }

  lemma {:induction false} StartIsZero(w: seq<nat>)
    requires w != []
    ensures Deficits(w, 0) == seq(|w|, _ => 0)
  {}

  /** The deficits determine the next choice and the next deficits. */
  lemma {:induction false} SameDeficits(w: seq<nat>, s: nat, t: nat)
    requires w != [] && Deficits(w, s) == Deficits(w, t)
    ensures Choice(w, s) == Choice(w, t) && Deficits(w, s + 1) == Deficits(w, t + 1)
  {
    hide Step, Best, Credit;
  }

  lemma {:induction false} DeficitsPeriodic(w: seq<nat>, t: nat)
    requires Weights(w)
    ensures Deficits(w, t + Sum(w)) == Deficits(w, t)
    ensures Choice(w, t + Sum(w)) == Choice(w, t)
  {
    hide Sum, Deficits, Choice;
    if t == 0 {
      FullPeriod(w);
      StartIsZero(w);
    } else {
      DeficitsPeriodic(w, t - 1);
    }
    SameDeficits(w, if t == 0 then 0 else t - 1, if t == 0 then Sum(w) else t - 1 + Sum(w));
    SameDeficits(w, t, t + Sum(w));
  }

  lemma {:induction false} ChoicePeriodic(w: seq<nat>, t: nat)
    requires Weights(w)
    ensures Choice(w, t % Sum(w)) == Choice(w, t)
  {
    hide Choice, Sum;
    var total := Sum(w);
    if t < total {
      SmallMod(t, total);
    } else {
      ChoicePeriodic(w, t - total);
      DeficitsPeriodic(w, t - total);
      ModAddMultiple(t - total, 1, total);
    }
  }

  /** Any window of one period, wherever it starts, serves each backend exactly its weight. */
  lemma {:induction false} WindowIsFair(w: seq<nat>, t: nat, i: nat)
    requires Weights(w) && i < |w|
    ensures Served(w, t + Sum(w), i) == Served(w, t, i) + w[i]
  {
    hide Choice, Deficits, Served, Sum;
    var total := Sum(w);
    DeficitIsDeviation(w, t, i);
    DeficitIsDeviation(w, t + total, i);
    DeficitsPeriodic(w, t);
    WindowArithmetic(t, total, w[i], Served(w, t, i), Served(w, t + total, i));
  }

  lemma {:induction false} WindowArithmetic(t: int, total: int, a: int, c: int, c': int)
    requires 0 < total && t * a - total * c == (t + total) * a - total * c'
    ensures c' == c + a
  {
    Distribute(t, total, a);
    var x := c' - c - a;
    assert total * x == total * c' - total * c - total * a;
    if x > 0 {
      MulMono(1, x, total);
    } else if x < 0 {
      MulMono(x, -1, total);
    }
  }

  // ---------- only the ratio of the weights matters ----------

  function Scaled(w: seq<nat>, k: nat): (s: seq<nat>)
    ensures |s| == |w|
  {
    seq(|w|, i requires 0 <= i < |w| => k * w[i])
  }

  lemma {:induction false} ScaledSum(w: seq<nat>, k: nat)
    ensures Sum(Scaled(w, k)) == k * Sum(w)
  {
    if w != [] {
      var n := |w| - 1;
      ScaledSum(w[..n], k);
      assert Scaled(w, k)[..n] == Scaled(w[..n], k);
      Distribute(Sum(w[..n]), w[n], k);
    }
  }

  /** A common factor of the weights scales the deficits and changes no choice, ties included. */
  lemma {:induction false} ScalingKeepsChoices(w: seq<nat>, k: nat, t: nat)
    requires w != [] && 0 < k
    ensures forall i :: 0 <= i < |w| ==> Deficits(Scaled(w, k), t)[i] == k * Deficits(w, t)[i]
    ensures Choice(Scaled(w, k), t) == Choice(w, t)
  {
    hide Choice, Sum, Deficits;
    var v := Scaled(w, k);
    forall i | 0 <= i < |w| ensures Deficits(v, t)[i] == k * Deficits(w, t)[i] {
      DeficitStart(w, i);
      DeficitStart(v, i);
      if t != 0 {
        ScalingKeepsChoices(w, k, t - 1);
        ScaledSum(w, k);
        StepDeficit(w, t - 1, i);
        StepDeficit(v, t - 1, i);
        Spread(k, Deficits(w, t - 1)[i], w[i], if Choice(w, t - 1) == i then Sum(w) else 0);
      }
    }
    ScaledChoice(w, k, t);
  }

  lemma {:induction false} ScaledChoice(w: seq<nat>, k: nat, t: nat)
    requires w != [] && 0 < k
    requires forall i :: 0 <= i < |w| ==> Deficits(Scaled(w, k), t)[i] == k * Deficits(w, t)[i]
    ensures Choice(Scaled(w, k), t) == Choice(w, t)
  {
    hide Best, Deficits;
    var v := Scaled(w, k);
    var e, f := Credit(Deficits(w, t), w), Credit(Deficits(v, t), v);
    forall i | 0 <= i < |w| ensures f[i] == k * e[i] {
      Spread(k, Deficits(w, t)[i], w[i], 0);
    }
    ScaledBest(e, f, k);
  }

  lemma {:induction false} Spread(k: int, x: int, y: int, z: int)
    ensures k * x + k * y - k * z == k * (x + y - z)
  {}

  lemma {:induction false} ScaledBest(e: seq<int>, f: seq<int>, k: nat)
    requires 0 < k && |e| == |f| && e != [] && forall i :: 0 <= i < |e| ==> f[i] == k * e[i]
    ensures Best(f) == Best(e)
  {
    var b := Best(e);
    forall i | 0 <= i < |e| ensures f[i] <= f[b] && (i < b ==> f[i] < f[b]) {
      MulMono(e[i], e[b], k);
      if i < b {
        MulMono(e[i] + 1, e[b], k);
        Distribute(e[i], 1, k);
      }
    }
    BestIsUnique(f, b);
  }

  // ---------- drained backends ----------

  /** The indices of the backends with a positive weight, in order. */
  function Kept(w: seq<nat>): (k: seq<nat>)
    ensures forall j :: 0 <= j < |k| ==> k[j] < |w|
  {
    if w == [] then []
    else
      var n := |w| - 1;
      if 0 < w[n] then Kept(w[..n]) + [n] else Kept(w[..n])
  }

  /** The weights of those backends. */
  function Nonzero(w: seq<nat>): (v: seq<nat>)
    ensures |v| == |Kept(w)|
  {
    if w == [] then []
    else
      var n := |w| - 1;
      if 0 < w[n] then Nonzero(w[..n]) + [w[n]] else Nonzero(w[..n])
  }

  lemma {:induction false} KeptIncreasing(w: seq<nat>, i: nat, j: nat)
    requires i < j < |Kept(w)|
    ensures Kept(w)[i] < Kept(w)[j]
  {
    var n := |w| - 1;
    if j < |Kept(w[..n])| {
      KeptIncreasing(w[..n], i, j);
    }
  }

  lemma {:induction false} NonzeroIsKept(w: seq<nat>, j: nat)
    requires j < |Kept(w)|
    ensures 0 < Nonzero(w)[j] == w[Kept(w)[j]]
  {
    var n := |w| - 1;
    if j < |Kept(w[..n])| {
      NonzeroIsKept(w[..n], j);
    }
  }

  lemma {:induction false} KeptIsComplete(w: seq<nat>, i: nat) returns (j: nat)
    requires i < |w| && 0 < w[i]
    ensures j < |Kept(w)| && Kept(w)[j] == i
  {
    var n := |w| - 1;
    if i < n {
      j := KeptIsComplete(w[..n], i);
    } else {
      j := |Kept(w[..n])|;
    }
  }

  lemma {:induction false} NonzeroSum(w: seq<nat>)
    ensures Sum(Nonzero(w)) == Sum(w)
  {
    hide Kept;
    if w != [] {
      var n := |w| - 1;
      NonzeroSum(w[..n]);
      var front := Nonzero(w[..n]);
      assert (front + [w[n]])[..|front|] == front;
    }
  }

  lemma {:induction false} NonzeroWeights(w: seq<nat>)
    requires Weights(w)
    ensures Weights(Nonzero(w)) && w != [] && Nonzero(w) != []
  {
    NonzeroSum(w);
  }

  /** Deficits of the kept backends, read off the full list. */
  ghost predicate Agree(w: seq<nat>, t: nat)
    requires Weights(w) && Weights(Nonzero(w))
  {
    && (forall i :: 0 <= i < |w| && w[i] == 0 ==> Deficits(w, t)[i] == 0)
    && (forall j :: 0 <= j < |Nonzero(w)| ==> Deficits(Nonzero(w), t)[j] == Deficits(w, t)[Kept(w)[j]])
  }

  /**
    A backend of weight 0 is never chosen, and leaving such backends out changes nothing: the
    shorter list makes the same choices.
   */
  lemma {:induction false} DrainedNeverChosen(w: seq<nat>, t: nat)
    requires Weights(w)
    ensures Weights(Nonzero(w)) && Agree(w, t)
    ensures 0 < w[Choice(w, t)] && Kept(w)[Choice(Nonzero(w), t)] == Choice(w, t)
  {
    hide *;
    NonzeroWeights(w);
    if t == 0 {
      AgreeStart(w);
    } else {
      DrainedNeverChosen(w, t - 1);
      AgreeStep(w, t - 1);
    }
    AgreeChoice(w, t);
  }

  lemma {:induction false} AgreeStart(w: seq<nat>)
    requires Weights(w) && Weights(Nonzero(w))
    ensures Agree(w, 0)
  {
    hide Deficits, Sum, Kept, Nonzero;
    forall i | 0 <= i < |w| ensures Deficits(w, 0)[i] == 0 { DeficitStart(w, i); }
    var v := Nonzero(w);
    forall j | 0 <= j < |v| ensures Deficits(v, 0)[j] == 0 { DeficitStart(v, j); }
  }

  lemma {:induction false} AgreeStep(w: seq<nat>, t: nat)
    requires Weights(w) && Weights(Nonzero(w)) && Agree(w, t)
    requires 0 < w[Choice(w, t)] && Kept(w)[Choice(Nonzero(w), t)] == Choice(w, t)
    ensures Agree(w, t + 1)
  {
    hide Choice, Deficits, Sum, Kept, Nonzero;
    var v := Nonzero(w);
    NonzeroSum(w);
    forall i | 0 <= i < |w| && w[i] == 0 ensures Deficits(w, t + 1)[i] == 0 {
      StepDeficit(w, t, i);
    }
    forall j | 0 <= j < |v| ensures Deficits(v, t + 1)[j] == Deficits(w, t + 1)[Kept(w)[j]] {
      StepDeficit(v, t, j);
      StepDeficit(w, t, Kept(w)[j]);
      NonzeroIsKept(w, j);
      var b := Choice(v, t);
      if j < b {
        KeptIncreasing(w, j, b);
      } else if b < j {
        KeptIncreasing(w, b, j);
      }
    }
  }

  lemma {:induction false} AgreeChoice(w: seq<nat>, t: nat)
    requires Weights(w) && Weights(Nonzero(w)) && Agree(w, t)
    ensures 0 < w[Choice(w, t)] && Kept(w)[Choice(Nonzero(w), t)] == Choice(w, t)
  {
    hide Best, Deficits, Sum, Kept, Nonzero;
    ServedWasOwed(w, t);
    var v, k, b := Nonzero(w), Kept(w), Choice(w, t);
    var e, f := Credit(Deficits(w, t), w), Credit(Deficits(v, t), v);
    var j := KeptIsComplete(w, b);
    forall i | 0 <= i < |f| ensures f[i] <= f[j] && (i < j ==> f[i] < f[j]) {
      NonzeroIsKept(w, i);
      NonzeroIsKept(w, j);
      assert f[i] == e[k[i]] && f[j] == e[b];
      if i < j {
        KeptIncreasing(w, i, j);
      }
    }
    BestIsUnique(f, j);
  }

  // ---------- within one request: exactly for at most three backends ----------

  /** Every split over `n` undrained backends stays within one request of every ideal count. */
  ghost predicate AlwaysWithinOne(n: nat) {
    forall w: seq<nat>, t: nat, i: nat :: Weights(w) && |Nonzero(w)| == n && i < |w| ==>
      -Sum(w) < Deficits(w, t)[i] < Sum(w)
  }

  /** Drained backends do not count towards the bound. */
  lemma {:induction false} BehindBoundUndrained(w: seq<nat>, t: nat, i: nat)
    requires Weights(w) && i < |w|
    ensures 2 * Deficits(w, t)[i] < BehindLimit(|Nonzero(w)|) * Sum(w)
  {
    hide Deficits, Sum, Kept, Nonzero, Choice;
    DrainedNeverChosen(w, t);
    NonzeroSum(w);
    if w[i] == 0 {
      MulMono(1, BehindLimit(|Nonzero(w)|), Sum(w));
    } else {
      var j := KeptIsComplete(w, i);
      BehindBound(Nonzero(w), t, j);
    }
  }

  /** The weights `v` scaled by `k`, joined by `m` backends of weight 1. */
  function Joined(v: seq<nat>, k: nat, m: nat): (w: seq<nat>)
    ensures |w| == |v| + m
  {
    Scaled(v, k) + seq(m, _ => 1)
  }

  lemma {:induction false} JoinedSum(v: seq<nat>, k: nat, m: nat)
    ensures Sum(Joined(v, k, m)) == k * Sum(v) + m
    decreases m
  {
    var w := Joined(v, k, m);
    if m == 0 {
      assert w == Scaled(v, k);
      ScaledSum(v, k);
    } else {
      JoinedSum(v, k, m - 1);
      assert w[..|w| - 1] == Joined(v, k, m - 1);
    }
  }

  lemma {:induction false} PositiveIsKept(w: seq<nat>)
    requires forall i :: 0 <= i < |w| ==> 0 < w[i]
    ensures |Nonzero(w)| == |w|
  {
    if w != [] {
      PositiveIsKept(w[..|w| - 1]);
    }
  }

  lemma {:induction false} ServedAtMost(w: seq<nat>, t: nat, i: nat)
    requires w != []
    ensures Served(w, t, i) <= t
  {
    hide Choice;
    if t != 0 {
      ServedAtMost(w, t - 1, i);
    }
  }

  /** The deficits of `v`'s backends and of the newcomers, as long as no newcomer is served. */
  ghost predicate NewcomersWait(v: seq<nat>, k: nat, m: nat, t: nat)
    requires v != []
  {
    ghost var d := Deficits(Joined(v, k, m), t);
    && (forall i :: 0 <= i < |v| ==> d[i] == k * Deficits(v, t)[i] - m * Served(v, t, i))
    && (forall i :: |v| <= i < |v| + m ==> d[i] == t)
  }

  /**
    Light newcomers beside heavy backends in ascending order change none of the first choices:
    for as many steps as the scale allows, the heavy backends are served as if alone.
   */
  lemma {:induction false} LightNewcomersWait(v: seq<nat>, k: nat, m: nat, t: nat)
    requires Weights(v) && (forall i, j :: 0 <= i < j < |v| ==> v[i] <= v[j]) && (m + 1) * (t + 1) <= k
    ensures NewcomersWait(v, k, m, t) && Choice(Joined(v, k, m), t) == Choice(v, t)
  {
    hide Deficits, Choice, Served, Sum;
    if t == 0 {
      NewcomersStart(v, k, m);
    } else {
      Distribute(t, 1, m + 1);
      LightNewcomersWait(v, k, m, t - 1);
      NewcomersStep(v, k, m, t - 1);
    }
    NewcomersChoice(v, k, m, t);
  }

  lemma {:induction false} NewcomersStart(v: seq<nat>, k: nat, m: nat)
    requires v != []
    ensures NewcomersWait(v, k, m, 0)
  {}

  lemma {:induction false} NewcomersStep(v: seq<nat>, k: nat, m: nat, t: nat)
    requires v != [] && NewcomersWait(v, k, m, t) && Choice(Joined(v, k, m), t) == Choice(v, t)
    ensures NewcomersWait(v, k, m, t + 1)
  {
    hide Deficits, Choice, Sum;
    var w := Joined(v, k, m);
    JoinedSum(v, k, m);
    var d := Deficits(w, t + 1);
    forall i | 0 <= i < |v| ensures d[i] == k * Deficits(v, t + 1)[i] - m * Served(v, t + 1, i) {
      StepDeficit(w, t, i);
      StepDeficit(v, t, i);
      Spread(k, Deficits(v, t)[i], v[i], if Choice(v, t) == i then Sum(v) else 0);
      Distribute(Served(v, t, i), 1, m);
    }
    forall i | |v| <= i < |w| ensures d[i] == t + 1 {
      StepDeficit(w, t, i);
    }
  }

  lemma {:induction false} NewcomersChoice(v: seq<nat>, k: nat, m: nat, t: nat)
    requires Weights(v) && (forall i, j :: 0 <= i < j < |v| ==> v[i] <= v[j]) && (m + 1) * (t + 1) <= k
    requires NewcomersWait(v, k, m, t)
    ensures Choice(Joined(v, k, m), t) == Choice(v, t)
  {
    hide Deficits, Sum, Best, Served;
    var w, b := Joined(v, k, m), Choice(v, t);
    var e, f := Credit(Deficits(v, t), v), Credit(Deficits(w, t), w);
    ServedWasOwed(v, t);
    ServedAtMost(v, t, b);
    forall i | 0 <= i < |f| ensures f[i] <= f[b] && (i < b ==> f[i] < f[b]) {
      Spread(k, Deficits(v, t)[b], v[b], 0);
      if i < |v| {
        Spread(k, Deficits(v, t)[i], v[i], 0);
        if e[i] == e[b] {
          LaterTieServedMore(v, t, b, i);
        }
        NewcomersArithmetic(k, m, t, e[i], e[b], Served(v, t, i), Served(v, t, b));
      } else {
        NewcomersArithmetic(k, m, t, e[b], e[b], Served(v, t, b), Served(v, t, b));
      }
    }
    BestIsUnique(f, b);
  }

  /** Of two tied backends the heavier has been served at least as often. */
  lemma {:induction false} LaterTieServedMore(v: seq<nat>, t: nat, b: nat, i: nat)
    requires Weights(v) && b < |v| && i < |v| && v[b] <= v[i]
    requires Deficits(v, t)[i] + v[i] == Deficits(v, t)[b] + v[b]
    ensures Served(v, t, b) <= Served(v, t, i)
  {
    hide Deficits, Sum, Served;
    DeficitIsDeviation(v, t, b);
    DeficitIsDeviation(v, t, i);
    MulMono(v[b], v[i], t);
    var total, x, y := Sum(v), Served(v, t, b), Served(v, t, i);
    if y < x {
      MulMono(y + 1, x, total);
      Distribute(y, 1, total);
    }
  }

  lemma {:induction false} NewcomersArithmetic(k: nat, m: nat, t: nat, x: int, y: int, cx: nat, cy: nat)
    requires (m + 1) * (t + 1) <= k && x <= y && 0 < y && cy <= t && (x == y ==> cy <= cx)
    ensures k * x - m * cx <= k * y - m * cy
    ensures x < y ==> k * x - m * cx < k * y - m * cy
    ensures t + 1 <= k * y - m * cy
  {
    assert m * t + m + t + 1 <= k by { Distribute(m, 1, t + 1); }
    assert m * cy <= m * t by { MulMono(cy, t, m); }
    assert k <= k * y by { MulMono(1, y, k); }
    if x == y {
      assert m * cy <= m * cx by { MulMono(cy, cx, m); }
    } else {
      assert k * x + k <= k * y by { MulMono(x + 1, y, k); Distribute(x, 1, k); }
      assert 0 <= m * cx;
    }
  }

  const FOUR: seq<nat> := [1, 9, 37, 37]

  lemma {:induction false} FourSum()
    ensures Sum(FOUR) == 84
  {
    assert FOUR[..3] == [1, 9, 37] && [1, 9, 37][..2] == [1, 9] && [1, 9][..1] == [1];
    assert Sum([1]) == 1 && Sum([1, 9]) == 10;
  }

  /** The greatest of four values, the first of them on a tie, is the k-th. */
  predicate BestOfFour(x: int, y: int, z: int, u: int, k: nat) {
    match k
    case 0 => x >= y && x >= z && x >= u
    case 1 => y > x && y >= z && y >= u
    case 2 => z > x && z > y && z >= u
    case 3 => u > x && u > y && u > z
    case _ => false
  }

  /** One step of the run of `FOUR`, serving backend `k`. */
  lemma {:induction false} FourStep(t: nat, x: int, y: int, z: int, u: int, k: nat)
    requires Deficits(FOUR, t) == [x, y, z, u] && BestOfFour(x + 1, y + 9, z + 37, u + 37, k)
    ensures Deficits(FOUR, t + 1) == [x + 1 - (if k == 0 then 84 else 0), y + 9 - (if k == 1 then 84 else 0),
                                      z + 37 - (if k == 2 then 84 else 0), u + 37 - (if k == 3 then 84 else 0)]
  {
    hide Best, Sum, Deficits;
    FourSum();
    var e := Credit([x, y, z, u], FOUR);
    assert e == [x + 1, y + 9, z + 37, u + 37];
    BestIsUnique(e, k);
    StepDeficit(FOUR, t, 0);
    StepDeficit(FOUR, t, 1);
    StepDeficit(FOUR, t, 2);
    StepDeficit(FOUR, t, 3);
  }

  lemma {:induction false} FourStart()
    ensures Deficits(FOUR, 0) == [0, 0, 0, 0]
  {}

  lemma {:induction false} FourToFive()
    ensures Deficits(FOUR, 5) == [5, -39, 17, 17]
  {
    hide Deficits;
    FourStart();
    FourStep(0, 0, 0, 0, 0, 2);
    FourStep(1, 1, 9, -47, 37, 3);
    FourStep(2, 2, 18, -10, -10, 1);
    FourStep(3, 3, -57, 27, 27, 2);
    FourStep(4, 4, -48, -20, 64, 3);
  }

  lemma {:induction false} FourToTen()
    ensures Deficits(FOUR, 10) == [10, 6, -50, 34]
  {
    hide Deficits;
    FourToFive();
    FourStep(5, 5, -39, 17, 17, 2);
    FourStep(6, 6, -30, -30, 54, 3);
    FourStep(7, 7, -21, 7, 7, 2);
    FourStep(8, 8, -12, -40, 44, 3);
    FourStep(9, 9, -3, -3, -3, 2);
  }

  lemma {:induction false} FourToFifteen()
    ensures Deficits(FOUR, 15) == [15, -33, -33, 51]
  {
    hide Deficits;
    FourToTen();
    FourStep(10, 10, 6, -50, 34, 3);
    FourStep(11, 11, 15, -13, -13, 1);
    FourStep(12, 12, -60, 24, 24, 2);
    FourStep(13, 13, -51, -23, 61, 3);
    FourStep(14, 14, -42, 14, 14, 2);
  }

  lemma {:induction false} FourToTwenty()
    ensures Deficits(FOUR, 20) == [20, 12, -16, -16]
  {
    hide Deficits;
    FourToFifteen();
    FourStep(15, 15, -33, -33, 51, 3);
    FourStep(16, 16, -24, 4, 4, 2);
    FourStep(17, 17, -15, -43, 41, 3);
    FourStep(18, 18, -6, -6, -6, 2);
    FourStep(19, 19, 3, -53, 31, 3);
  }

  /** Twenty-five steps on, the last backend is owed more than a whole request. */
  lemma {:induction false} FourBehind()
    ensures Deficits(FOUR, 25) == [-59, -27, 1, 85]
  {
    hide Deficits;
    FourToTwenty();
    FourStep(20, 20, 12, -16, -16, 0);
    FourStep(21, -63, 21, 21, 21, 2);
    FourStep(22, -62, 30, -26, 58, 3);
    FourStep(23, -61, 39, 11, 11, 1);
    FourStep(24, -60, -36, 48, 48, 2);
  }

  /**
    With four or more backends, all of positive weight, one can fall a whole request behind. Up to
    32 backends the schedule of these weights fits the table.
   */
  lemma {:induction false} AWholeRequestBehind(n: nat) returns (w: seq<nat>)
    requires 4 <= n
    ensures |w| == n && Weights(w) && forall i :: 0 <= i < n ==> 0 < w[i]
    ensures Sum(w) <= Deficits(w, 25)[3]
    ensures n <= 32 ==> Sum(w) <= 65_536
  {
    hide Deficits, Sum, Choice, Served;
    var m := n - 4;
    var k := (m + 1) * 26;
    w := Joined(FOUR, k, m);
    FourSum();
    FourBehind();
    JoinedSum(FOUR, k, m);
    LightNewcomersWait(FOUR, k, m, 25);
    ServedAtMost(FOUR, 25, 3);
    MulMono(Served(FOUR, 25, 3), 25, m);
  }

  /** The two-sided bound holds for all splits exactly when at most three backends are undrained. */
  lemma {:induction false} WithinOneExactlyUpToThree(n: nat)
    ensures AlwaysWithinOne(n) <==> n <= 3
  {
    hide Deficits, Sum, Nonzero, Kept;
    if n <= 3 {
      forall w: seq<nat>, t: nat, i: nat | Weights(w) && |Nonzero(w)| == n && i < |w|
        ensures -Sum(w) < Deficits(w, t)[i] < Sum(w)
      {
        NeverAWholeRequestAhead(w, t, i);
        BehindBoundUndrained(w, t, i);
      }
    } else {
      var w := AWholeRequestBehind(n);
      PositiveIsKept(w);
      assert Sum(w) <= Deficits(w, 25)[3];
    }
  }
}
