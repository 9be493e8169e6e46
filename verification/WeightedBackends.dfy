/** The precomputed schedule and its lock-free cursor (plecto/crates/control/src/weighted.rs). */
module WeightedBackends {
  import opened Arith
  import opened Primes
  import opened Apportion
  import opened Words

  const MAX_BACKEND_WEIGHT: nat := 1_000_000
  const MAX_TABLE_LEN: nat := 65_536

  datatype SplitError = NoBackends | WeightTooLarge(weight: nat) | AllDrained | TableTooLong(length: nat)
  datatype Result<T> = Ok(value: T) | Err(error: SplitError)

  // ---------- the common divisor ----------

  ghost predicate CommonDivisor(c: nat, a: nat, b: nat) {
    0 < c && Divides(c, a) && Divides(c, b)
  }

  /** The positive common divisor that every other common divisor divides. */
  ghost predicate IsGcd(g: nat, a: nat, b: nat) {
    CommonDivisor(g, a, b) && forall c: nat :: CommonDivisor(c, a, b) ==> Divides(c, g)
  }

  lemma {:induction false} EuclidStep(c: nat, a: nat, b: nat)
    requires 0 < b
    ensures CommonDivisor(c, a, b) <==> CommonDivisor(c, b, a % b)
  {
    if 0 < c && Divides(c, b) {
      var q := a / b;
      assert a == b * q + a % b;
      assert b * q == (b / c * q) * c;
      ModAddMultiple(a % b, b / c * q, c);
    }
  }

  lemma {:induction false} EuclidEnds(a: nat)
    requires 0 < a
    ensures IsGcd(a, a, 0)
  {
    assert Divides(a, a);
  }

  /** Euclid's algorithm. */
  method Gcd(a0: nat, b0: nat) returns (g: nat)
    ensures 0 < a0 || 0 < b0 ==> IsGcd(g, a0, b0)
    ensures a0 == b0 == 0 ==> g == 0
  {
    hide Divides;
    var a, b := a0, b0;
    while b != 0
      invariant forall c: nat :: CommonDivisor(c, a, b) <==> CommonDivisor(c, a0, b0)
      invariant (0 < a || 0 < b) <==> (0 < a0 || 0 < b0)
      decreases b
    {
      forall c: nat ensures CommonDivisor(c, a, b) <==> CommonDivisor(c, b, a % b) {
        EuclidStep(c, a, b);
      }
      a, b := b, a % b;
    }
    if 0 < a {
      EuclidEnds(a);
    }
    g := a;
  }

  ghost predicate DividesAll(c: nat, w: seq<nat>) {
    0 < c && forall i :: 0 <= i < |w| ==> Divides(c, w[i])
  }

  /** The greatest common divisor of a non-empty list of positive weights. */
  ghost predicate IsDivisor(g: nat, w: seq<nat>) {
    DividesAll(g, w) && forall c: nat :: DividesAll(c, w) ==> Divides(c, g)
  }

  method Divisor(w: seq<nat>) returns (g: nat)
    requires w != [] && forall i :: 0 <= i < |w| ==> 0 < w[i]
    ensures IsDivisor(g, w)
  {
    hide Divides;
    g := w[0];
    SelfDivides(g);
    for i := 1 to |w|
      invariant 0 < g
      invariant forall c: nat :: DividesAll(c, w[..i]) <==> 0 < c && Divides(c, g)
    {
      var h := Gcd(g, w[i]);
      forall c: nat ensures DividesAll(c, w[..i + 1]) <==> 0 < c && Divides(c, h) {
        ExtendDivisor(c, w, i, g, h);
      }
      g := h;
    }
    assert w[..|w|] == w;
    SelfDivides(g);
  }

  lemma {:induction false} SelfDivides(g: nat)
    requires 0 < g
    ensures Divides(g, g)
  {}

  lemma {:induction false} ExtendDivisor(c: nat, w: seq<nat>, i: nat, g: nat, h: nat)
    requires 0 < i < |w| && 0 < g && IsGcd(h, g, w[i])
    requires DividesAll(c, w[..i]) <==> 0 < c && Divides(c, g)
    ensures DividesAll(c, w[..i + 1]) <==> 0 < c && Divides(c, h)
  {
    hide Divides;
    if 0 < c {
      assert w[..i + 1] == w[..i] + [w[i]];
      assert DividesAll(c, w[..i + 1]) <==> DividesAll(c, w[..i]) && Divides(c, w[i]) by {
        if DividesAll(c, w[..i + 1]) {
          forall k | 0 <= k < i ensures Divides(c, w[..i][k]) {
            assert w[..i][k] == w[..i + 1][k];
          }
          assert w[..i + 1][i] == w[i];
        }
      }
      if Divides(c, h) {
        DividesTransitive(c, h, g);
        DividesTransitive(c, h, w[i]);
      }
      assert CommonDivisor(c, g, w[i]) ==> Divides(c, h);
    }
  }

  lemma {:induction false} DividesTransitive(c: nat, h: nat, g: nat)
    requires 0 < c && 0 < h && Divides(c, h) && Divides(h, g)
    ensures Divides(c, g)
  {
    assert g == (h / c * (g / h)) * c;
    DivModUnique(g, c, h / c * (g / h), 0);
  }

  /** The weights divided by their common divisor. */
  function Reduced(w: seq<nat>, g: nat): (r: seq<nat>)
    requires 0 < g
    ensures |r| == |w|
  {
    seq(|w|, i requires 0 <= i < |w| => w[i] / g)
  }

  lemma {:induction false} ReducedScaledBack(w: seq<nat>, g: nat)
    requires DividesAll(g, w)
    ensures Scaled(Reduced(w, g), g) == w
  {
    forall i | 0 <= i < |w| ensures g * (w[i] / g) == w[i] {
      assert Divides(g, w[i]);
    }
  }

  lemma {:induction false} ReducedSum(w: seq<nat>, g: nat)
    requires 0 < g
    ensures Sum(Reduced(Nonzero(w), g)) == Sum(Reduced(w, g))
  {
    if w != [] {
      var n := |w| - 1;
      ReducedSum(w[..n], g);
      assert Reduced(w, g)[..n] == Reduced(w[..n], g);
      var v := Nonzero(w);
      if 0 < w[n] {
        assert Reduced(v, g)[..|v| - 1] == Reduced(Nonzero(w[..n]), g);
      } else {
        assert 0 / g == 0;
      }
    }
  }

  lemma {:induction false} ReducedIsPositive(w: seq<nat>, g: nat)
    requires Weights(w) && DividesAll(g, Nonzero(w))
    ensures ghost var red := Reduced(Nonzero(w), g);
            Weights(red) && forall j :: 0 <= j < |red| ==> 0 < red[j]
  {
    NonzeroWeights(w);
    var v := Nonzero(w);
    var red := Reduced(v, g);
    forall j | 0 <= j < |v| ensures 0 < red[j] {
      NonzeroIsKept(w, j);
      assert Divides(g, v[j]);
      DivAtLeast(v[j], g, 1);
      if v[j] < g {
        SmallMod(v[j], g);
      }
    }
    SumAtLeast(red, 1);
  }

  // ---------- one period is the whole schedule ----------

  /**
    The table position `t mod L`, mapped back to the manifest, is the choice step `t` of the
    unbounded rule makes on the raw manifest weights.
   */
  lemma {:induction false} TableServesTheRule(w: seq<nat>, g: nat, t: nat)
    requires Weights(w) && DividesAll(g, Nonzero(w))
    ensures ghost var red := Reduced(Nonzero(w), g);
            && Weights(red)
            && Choice(red, t % Sum(red)) < |Kept(w)|
            && Kept(w)[Choice(red, t % Sum(red))] == Choice(w, t)
  {
    hide Choice, Sum, Kept, Nonzero;
    var red := Reduced(Nonzero(w), g);
    ReducedIsPositive(w, g);
    ChoicePeriodic(red, t);
    ScalingKeepsChoices(red, g, t);
    ReducedScaledBack(Nonzero(w), g);
    DrainedNeverChosen(w, t);
  }

  /** Over one table every group is served, exactly its reduced weight. */
  lemma {:induction false} EveryGroupOccurs(red: seq<nat>, j: nat)
    requires Weights(red) && j < |red| && 0 < red[j]
    ensures exists t :: 0 <= t < Sum(red) && Choice(red, t) == j
  {
    FullPeriod(red);
    ServedSomewhere(red, Sum(red), j);
  }

  lemma {:induction false} ServedSomewhere(w: seq<nat>, t: nat, j: nat)
    requires w != [] && 0 < Served(w, t, j)
    ensures exists s :: 0 <= s < t && Choice(w, s) == j
  {
    hide Choice;
    if Choice(w, t - 1) != j {
      ServedSomewhere(w, t - 1, j);
    }
  }

  // ---------- the schedule ----------

  /** One pass of the inner loop: credit everyone and find the greatest deficit. */
  method CreditAll(deficit: array<int>, weights: seq<nat>) returns (best: nat)
    requires deficit.Length == |weights| > 0
    modifies deficit
    ensures deficit[..] == Credit(old(deficit[..]), weights)
    ensures best == Best(deficit[..])
  {
    hide Best;
    ghost var d := deficit[..];
    ghost var e := Credit(d, weights);
    best := 0;
    for i := 0 to |weights|
      invariant best <= i && (0 < i ==> best == Best(e[..i]))
      invariant i == 0 ==> best == 0
      invariant forall k :: 0 <= k < i ==> deficit[k] == e[k]
      invariant forall k :: i <= k < |weights| ==> deficit[k] == d[k]
    {
      deficit[i] := deficit[i] + weights[i];
      BestExtends(e, i);
      if deficit[i] > deficit[best] {
        best := i;
      }
    }
    assert e[..|weights|] == e;
    assert deficit[..] == e;
  }

  lemma {:induction false} BestExtends(e: seq<int>, i: nat)
    requires i < |e|
    ensures Best(e[..i + 1]) == if 0 < i && e[i] <= e[Best(e[..i])] then Best(e[..i]) else i
  {
    assert e[..i + 1][..i] == e[..i];
  }

  /** One period of the maximum-deficit rule. */
  method Schedule(weights: seq<nat>) returns (table: seq<nat>)
    requires Weights(weights) && |weights| <= 0x1_0000
    ensures |table| == Sum(weights)
    ensures forall t :: 0 <= t < |table| ==> table[t] == Choice(weights, t)
  {
    hide Best, Sum;
    var total := Sum(weights);
    var deficit := new int[|weights|](_ => 0);
    table := [];
    for t := 0 to total
      invariant deficit[..] == Deficits(weights, t)
      invariant |table| == t && forall s :: 0 <= s < t ==> table[s] == Choice(weights, s)
    {
      var best := CreditAll(deficit, weights);
      deficit[best] := deficit[best] - total;
      // the entries are stored as 16-bit words
      table := table + [best % 0x1_0000];
    }
  }

  // ---------- validation ----------

  ghost predicate ValidSplit(w: seq<nat>, g: nat) {
    && w != [] && (forall i :: 0 <= i < |w| ==> w[i] <= 1_000_000)
    && Nonzero(w) != [] && IsDivisor(g, Nonzero(w))
    && Sum(Reduced(w, g)) <= 65_536
  }

  /** Accepts exactly the splits whose reduced schedule fits, and returns its length. */
  method ValidateSplit(w: seq<nat>) returns (r: Result<nat>, g: nat)
    ensures r.Ok? ==> ValidSplit(w, g) && r.value == Sum(Reduced(w, g))
    ensures r.Err? ==> forall h: nat :: !ValidSplit(w, h)
    ensures r.Err? && r.error.NoBackends? ==> w == []
    ensures r.Err? && r.error.WeightTooLarge? ==> r.error.weight in w && r.error.weight > MAX_BACKEND_WEIGHT
    ensures r.Err? && r.error.AllDrained? ==> Nonzero(w) == []
    ensures r.Err? && r.error.TableTooLong? ==>
              IsDivisor(g, Nonzero(w)) && MAX_TABLE_LEN < r.error.length == Sum(Reduced(w, g))
  {
    hide IsDivisor, Sum, Kept;
    g := 1;
    if |w| == 0 {
      return Err(NoBackends), g;
    }
    for i := 0 to |w|
      invariant forall k :: 0 <= k < i ==> w[k] <= MAX_BACKEND_WEIGHT
    {
      if w[i] > MAX_BACKEND_WEIGHT {
        return Err(WeightTooLarge(w[i])), g;
      }
    }
    var v := Nonzero(w);
    if v == [] {
      return Err(AllDrained), g;
    }
    forall j | 0 <= j < |v| ensures 0 < v[j] {
      NonzeroIsKept(w, j);
    }
    g := Divisor(v);
    DivisorIsPositive(g, v);
    SumAtLeast(Reduced(w, g), 0);
    var total: nat := Sum(Reduced(w, g));
    if total > MAX_TABLE_LEN {
      forall h: nat ensures !ValidSplit(w, h) {
        if ValidSplit(w, h) {
          DivisorIsUnique(g, h, v);
        }
      }
      return Err(TableTooLong(total)), g;
    }
    return Ok(total), g;
  }

  lemma {:induction false} DivisorIsPositive(g: nat, v: seq<nat>)
    requires IsDivisor(g, v)
    ensures 0 < g
  {}

  lemma {:induction false} DivisorIsUnique(g: nat, h: nat, v: seq<nat>)
    requires IsDivisor(g, v) && IsDivisor(h, v)
    ensures g == h
  {
    assert Divides(g, h) && Divides(h, g);
    if g < h {
      SmallMod(g, h);
    } else if h < g {
      SmallMod(h, g);
    }
  }

  // ---------- the compiled set of backends ----------

  /** The groups of the targets with a positive weight, in manifest order. */
  function KeptGroups<G>(targets: seq<(G, nat)>): seq<G> {
    if targets == [] then []
    else
      var n := |targets| - 1;
      if 0 < targets[n].1 then KeptGroups(targets[..n]) + [targets[n].0] else KeptGroups(targets[..n])
  }

  function TargetWeights<G>(targets: seq<(G, nat)>): (w: seq<nat>)
    ensures |w| == |targets|
  {
    seq(|targets|, i requires 0 <= i < |targets| => targets[i].1)
  }

  lemma {:induction false} KeptGroupsAreKept<G>(targets: seq<(G, nat)>)
    ensures ghost var k := Kept(TargetWeights(targets));
            && |KeptGroups(targets)| == |k|
            && forall j :: 0 <= j < |k| ==> KeptGroups(targets)[j] == targets[k[j]].0
  {
    if targets != [] {
      var n := |targets| - 1;
      KeptGroupsAreKept(targets[..n]);
      var w, front := TargetWeights(targets), TargetWeights(targets[..n]);
      assert w[..n] == front;
      assert Kept(w) == if 0 < w[n] then Kept(front) + [n] else Kept(front);
      hide Kept;
    }
  }

  class Backends<G> {
    const groups: seq<G>
    const table: seq<nat>
    var cursor: nat
    /** The manifest's targets, drained ones included. */
    ghost const targets: seq<(G, nat)>

    /** The table serves the rule on the raw weights, and every group occurs in it. */
    ghost predicate Valid() {
      && Weights(TargetWeights(targets))
      && groups == KeptGroups(targets)
      && table != [] && |table| <= MAX_TABLE_LEN
      && (forall t :: 0 <= t < |table| ==> table[t] < |groups|)
      && (forall j :: 0 <= j < |groups| ==> j in table)
      && forall t: nat :: Serves(t)
    }

    /** Table position `t mod L` serves what step `t` of the rule serves. */
    ghost predicate Serves(t: nat)
      requires Weights(TargetWeights(targets)) && table != []
    {
      && table[t % |table|] < |groups|
      && groups[table[t % |table|]] == RuleChoice(targets, t)
    }

    constructor (targets: seq<(G, nat)>, g: nat, table: seq<nat>)
      requires ghost var w := TargetWeights(targets);
               && Weights(w) && DividesAll(g, Nonzero(w))
               && |table| == Sum(Reduced(Nonzero(w), g)) <= MAX_TABLE_LEN
               && Weights(Reduced(Nonzero(w), g))
               && forall t :: 0 <= t < |table| ==> table[t] == Choice(Reduced(Nonzero(w), g), t)
      ensures Valid() && cursor == 0 && this.targets == targets && this.table == table
    {
      this.targets := targets;
      this.groups := KeptGroups(targets);
      this.table := table;
      this.cursor := 0;
      new;
      TableIsValid(targets, g, table);
    }

    /**
      One pick: the first eligible group at or after the cursor, in the order of the unbounded
      rule on the manifest weights; nothing, and no advance, exactly when none is eligible.
     */
    method Pick(eligible: G -> bool) returns (r: Option<G>)
      requires Valid()
      modifies this`cursor
      ensures r.None? <==> forall j :: 0 <= j < |groups| ==> !eligible(groups[j])
      ensures r.None? ==> cursor == old(cursor)
      ensures r.Some? ==> cursor == old(cursor) + 1
      ensures r.Some? ==> exists off: nat :: off < |table| && FirstEligible(targets, eligible, old(cursor), off, r.value)
    {
      hide Valid, RuleChoice, Weights, Serves, TargetWeights;
      r := None;
      var anyEligible := exists j :: 0 <= j < |groups| && eligible(groups[j]);
      if !anyEligible {
        return;
      }
      ghost var c := cursor;
      AtStep(c, 0);
      var len := |table|;
      var start := cursor % len;
      cursor := cursor + 1;
      for off := 0 to len
        invariant cursor == c + 1
        invariant forall s: nat :: c <= s < c + off ==> !eligible(RuleChoice(targets, s))
      {
        AtStep(c, off);
        var backend := table[(start + off) % len];
        if eligible(groups[backend]) {
          assert FirstEligible(targets, eligible, c, off, groups[backend]);
          return Some(groups[backend]);
        }
      }
      NothingEligible(eligible, c);
      assert false;
    }

    lemma {:induction false} AtStep(c: nat, off: nat)
      requires Valid()
      ensures Weights(TargetWeights(targets)) && table != []
      ensures table[(c % |table| + off) % |table|] < |groups|
      ensures groups[table[(c % |table| + off) % |table|]] == RuleChoice(targets, c + off)
    {
      ModAddLeft(c, off, |table|);
      assert Serves(c + off);
    }

    /** A whole turn of the table without an eligible group means there is none. */
    lemma {:induction false} NothingEligible(eligible: G -> bool, c: nat)
      requires Valid()
      requires forall s: nat :: c <= s < c + |table| ==> !eligible(RuleChoice(targets, s))
      ensures forall j :: 0 <= j < |groups| ==> !eligible(groups[j])
    {
      forall j | 0 <= j < |groups| ensures !eligible(groups[j]) {
        assert j in table;
        var p :| 0 <= p < |table| && table[p] == j;
        var o := Reaches(c, p, |table|);
        assert Serves(c + o);
      }
    }
  }

  /** The group step `t` of the rule on the manifest weights serves. */
  ghost function RuleChoice<G>(targets: seq<(G, nat)>, t: nat): G
    requires Weights(TargetWeights(targets))
  {
    targets[Choice(TargetWeights(targets), t)].0
  }

  /** Step `from + off` of the rule is the first from step `from` on to serve an eligible group. */
  ghost predicate FirstEligible<G>(targets: seq<(G, nat)>, eligible: G -> bool, from: nat, off: nat, g: G)
    requires Weights(TargetWeights(targets))
  {
    && g == RuleChoice(targets, from + off) && eligible(g)
    && forall s: nat :: from <= s < from + off ==> !eligible(RuleChoice(targets, s))
  }

  /** Every position of a cycle is reached within one turn from any other. */
  lemma {:induction false} Reaches(c: nat, p: nat, len: nat) returns (o: nat)
    requires p < len
    ensures o < len && (c + o) % len == p
  {
    o := (p - c) % len;
    ModAddLeft(p - c, c, len);
    SmallMod(p, len);
  }

  lemma {:induction false} TableIsValid<G>(targets: seq<(G, nat)>, g: nat, table: seq<nat>)
    requires ghost var w := TargetWeights(targets);
             && Weights(w) && DividesAll(g, Nonzero(w))
             && Weights(Reduced(Nonzero(w), g)) && |table| == Sum(Reduced(Nonzero(w), g))
             && forall t :: 0 <= t < |table| ==> table[t] == Choice(Reduced(Nonzero(w), g), t)
    ensures table != []
    ensures forall t :: 0 <= t < |table| ==> table[t] < |KeptGroups(targets)|
    ensures forall j :: 0 <= j < |KeptGroups(targets)| ==> j in table
    ensures forall t: nat :: table[t % |table|] < |KeptGroups(targets)|
                             && KeptGroups(targets)[table[t % |table|]] == RuleChoice(targets, t)
  {
    hide Choice, Sum, Kept, Nonzero;
    var w := TargetWeights(targets);
    var red := Reduced(Nonzero(w), g);
    KeptGroupsAreKept(targets);
    ReducedIsPositive(w, g);
    forall j | 0 <= j < |KeptGroups(targets)| ensures j in table {
      EveryGroupOccurs(red, j);
      var t :| 0 <= t < Sum(red) && Choice(red, t) == j;
      assert table[t] == j;
    }
    forall t: nat ensures table[t % |table|] < |KeptGroups(targets)|
                          && KeptGroups(targets)[table[t % |table|]] == RuleChoice(targets, t) {
      TableServesTheRule(w, g, t);
    }
  }

  /** Compile a route's targets: validate, reduce by the common divisor, precompute one period. */
  method New<G>(targets: seq<(G, nat)>) returns (r: Result<Backends<G>>)
    ensures r.Ok? ==> r.value.Valid() && r.value.targets == targets && r.value.cursor == 0 && fresh(r.value)
    ensures r.Ok? <==> exists g: nat :: ValidSplit(TargetWeights(targets), g)
  {
    var w := TargetWeights(targets);
    var v, g := ValidateSplit(w);
    if v.Err? {
      return Err(v.error);
    }
    ValidMeansWeights(w, g);
    hide Choice, Sum, Kept, Nonzero;
    var table := Schedule(Reduced(Nonzero(w), g));
    var b := new Backends(targets, g, table);
    return Ok(b);
  }

  lemma {:induction false} ValidMeansWeights(w: seq<nat>, g: nat)
    requires ValidSplit(w, g)
    ensures 0 < g && Weights(w) && DividesAll(g, Nonzero(w))
    ensures ghost var red := Reduced(Nonzero(w), g);
            Weights(red) && |red| <= Sum(red) <= MAX_TABLE_LEN
  {
    NonzeroSum(w);
    forall j | 0 <= j < |Nonzero(w)| ensures 1 <= Nonzero(w)[j] {
      NonzeroIsKept(w, j);
    }
    SumAtLeast(Nonzero(w), 1);
    ReducedIsPositive(w, g);
    SumAtLeast(Reduced(Nonzero(w), g), 1);
    ReducedSum(w, g);
  }
}
