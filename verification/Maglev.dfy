/** Weighted Maglev consistent hashing (plecto/crates/control/src/maglev.rs). */
module Maglev {
  import opened Arith
  import opened Counting
  import opened Primes
  import opened Words

  const MAX_HASH_TABLE_SIZE: nat := 5_000_011

  /** One instance: the two 64-bit hash words of its name, and its weight. */
  datatype Entry = Entry(h1: nat, h2: nat, weight: nat)

  const EMPTY: int := -1

  // ---------- an instance's permutation of the slots ----------

  function Offset(e: Entry, m: nat): (o: nat)
    requires 2 <= m
    ensures o < m
  {
    e.h1 % m
  }

  function Skip(e: Entry, m: nat): (s: nat)
    requires 2 <= m
    ensures 1 <= s < m
  {
    e.h2 % (m - 1) + 1
  }

  /** The instance's j-th most preferred slot. */
  function Slot(e: Entry, m: nat, j: nat): (c: nat)
    requires 2 <= m
    ensures c < m
  {
    (Offset(e, m) + j * Skip(e, m)) % m
  }

  /** In hash words: the first preference is `h1`, each next one `1 + h2 mod (m - 1)` further, around the table. */
  lemma {:induction false} SlotFromHashes(e: Entry, m: nat, j: nat)
    requires 2 <= m
    ensures Slot(e, m, j) == (e.h1 + j * (1 + e.h2 % (m - 1))) % m
  {
    ModAddLeft(e.h1, j * Skip(e, m), m);
  }

  /** Two instances prefer all slots in the same order exactly when their hash words agree modulo `m` and `m - 1`. */
  lemma {:induction false} SamePreferencesExactlyWhen(e: Entry, f: Entry, m: nat)
    requires 2 <= m
    ensures (forall j: nat :: Slot(e, m, j) == Slot(f, m, j))
            <==> e.h1 % m == f.h1 % m && e.h2 % (m - 1) == f.h2 % (m - 1)
  {
    if forall j: nat :: Slot(e, m, j) == Slot(f, m, j) {
      assert Slot(e, m, 0) == Slot(f, m, 0) && Slot(e, m, 1) == Slot(f, m, 1);
      FirstTwoPreferences(e, m);
      FirstTwoPreferences(f, m);
      hide Slot;
      ModEqual(Offset(e, m) + Skip(e, m), Offset(e, m) + Skip(f, m), m);
      SmallStep(Skip(e, m), Skip(f, m), m);
    } else {
      var j: nat :| Slot(e, m, j) != Slot(f, m, j);
      assert Offset(e, m) != Offset(f, m) || Skip(e, m) != Skip(f, m);
    }
  }

  lemma {:induction false} FirstTwoPreferences(e: Entry, m: nat)
    requires 2 <= m
    ensures Slot(e, m, 0) == Offset(e, m) && Slot(e, m, 1) == (Offset(e, m) + Skip(e, m)) % m
  {
    SmallMod(Offset(e, m), m);
  }

  lemma {:induction false} SmallStep(x: int, y: int, m: int)
    requires 0 <= x < m && 0 <= y < m && (x - y) % m == 0
    ensures x == y
  {
    SmallMod(x, m);
    SmallMod(y, m);
    ModEqual(x, y, m);
  }

  /** A prime table size makes the preference list a permutation: it is one-to-one ... */
  lemma {:induction false} SlotInjective(e: Entry, m: nat, j: nat, k: nat)
    requires Prime(m) && j < m && k < m && Slot(e, m, j) == Slot(e, m, k)
    ensures j == k
  {
    var inv := HasInverse(Skip(e, m), m);
    hide Offset, Skip, Prime;
    InvertibleStepsInjective(Offset(e, m), j, k, Skip(e, m), inv, m);
    SmallMod(j, m);
    SmallMod(k, m);
  }

  /** ... and it reaches every slot. */
  lemma {:induction false} SlotSurjective(e: Entry, m: nat, c: nat) returns (j: nat)
    requires Prime(m) && c < m
    ensures j < m && Slot(e, m, j) == c
  {
    var inv := HasInverse(Skip(e, m), m);
    hide Offset, Skip, Prime;
    j := (c - Offset(e, m)) * inv % m;
    InverseSteps(Offset(e, m), c - Offset(e, m), Skip(e, m), inv, m);
    SmallMod(c, m);
  }

  // ---------- claiming slots ----------

  /** The index, from `j` on, of the first empty slot on the preference list. */
  function FirstFree(t: seq<int>, e: Entry, j: nat): (k: nat)
    requires 2 <= |t|
    ensures j <= k
    ensures forall x :: j <= x < k ==> t[Slot(e, |t|, x)] != EMPTY
    decreases |t| - j
  {
    if j >= |t| || t[Slot(e, |t|, j)] == EMPTY then j else FirstFree(t, e, j + 1)
  }

  /** Instance `i` takes its most preferred empty slot. */
  function Claim(t: seq<int>, e: Entry, i: nat): (t': seq<int>)
    requires 2 <= |t|
    ensures |t'| == |t|
  {
    t[Slot(e, |t|, FirstFree(t, e, 0)) := i]
  }

  /** The table after the instances named in `order` have each claimed a slot, in that order. */
  function Fill(entries: seq<Entry>, m: nat, order: seq<nat>): (t: seq<int>)
    requires 2 <= m && forall k :: 0 <= k < |order| ==> order[k] < |entries|
    ensures |t| == m
  {
    if order == [] then seq(m, _ => EMPTY)
    else
      var i := order[|order| - 1];
      Claim(Fill(entries, m, order[..|order| - 1]), entries[i], i)
  }

  /** While a slot is empty, every instance's preference list reaches an empty one. */
  lemma {:induction false} FirstFreeFound(t: seq<int>, e: Entry, j: nat, c: nat)
    requires Prime(|t|) && c < |t| && t[c] == EMPTY
    requires forall x :: 0 <= x < j ==> t[Slot(e, |t|, x)] != EMPTY
    ensures FirstFree(t, e, j) < |t| && t[Slot(e, |t|, FirstFree(t, e, j))] == EMPTY
    ensures j < |t| && FirstFree(t, e, j) == FirstFree(t, e, 0)
  {
    var k := SlotSurjective(e, |t|, c);
    FirstFreeStops(t, e, j, k);
    FirstFreeStops(t, e, 0, k);
    FirstFreeUnique(t, e, j);
  }

  lemma {:induction false} FirstFreeStops(t: seq<int>, e: Entry, j: nat, k: nat)
    requires 2 <= |t| && j <= k < |t| && t[Slot(e, |t|, k)] == EMPTY
    ensures FirstFree(t, e, j) <= k && t[Slot(e, |t|, FirstFree(t, e, j))] == EMPTY
    decreases k - j
  {
    if t[Slot(e, |t|, j)] != EMPTY {
      FirstFreeStops(t, e, j + 1, k);
    }
  }

  /** Slots already known to be taken can be skipped: the saved position gives the same slot. */
  lemma {:induction false} FirstFreeUnique(t: seq<int>, e: Entry, j: nat)
    requires 2 <= |t| && j <= |t|
    requires forall x :: 0 <= x < j ==> t[Slot(e, |t|, x)] != EMPTY
    ensures FirstFree(t, e, j) == FirstFree(t, e, 0)
  {
    if j != 0 {
      FirstFreeUnique(t, e, j - 1);
    }
  }

  // ---------- whose turn it is ----------

  ghost function MaxWeight(entries: seq<Entry>): nat {
    if entries == [] then 1
    else
      var w := MaxWeight(entries[..|entries| - 1]);
      if entries[|entries| - 1].weight > w then entries[|entries| - 1].weight else w
  }

  lemma {:induction false} MaxWeightBounds(entries: seq<Entry>, i: nat)
    requires i < |entries|
    ensures entries[i].weight <= MaxWeight(entries)
  {
    if i < |entries| - 1 {
      MaxWeightBounds(entries[..|entries| - 1], i);
    }
  }

  lemma {:induction false} MaxWeightPositive(entries: seq<Entry>)
    ensures 1 <= MaxWeight(entries)
  {
    if entries != [] {
      MaxWeightPositive(entries[..|entries| - 1]);
    }
  }

  lemma {:induction false} MaxWeightAttained(entries: seq<Entry>)
    requires exists i :: 0 <= i < |entries| && 0 < entries[i].weight
    ensures exists i :: 0 <= i < |entries| && entries[i].weight == MaxWeight(entries)
  {
    var n := |entries| - 1;
    var front := entries[..n];
    if entries[n].weight > MaxWeight(front) {
    } else if exists i :: 0 <= i < |front| && 0 < front[i].weight {
      MaxWeightAttained(front);
      var i :| 0 <= i < |front| && front[i].weight == MaxWeight(front);
      assert entries[i].weight == MaxWeight(entries);
    } else {
      AllZero(front);
    }
  }

  lemma {:induction false} AllZero(entries: seq<Entry>)
    requires forall i :: 0 <= i < |entries| ==> entries[i].weight == 0
    ensures MaxWeight(entries) == 1
  {
    if entries != [] {
      AllZero(entries[..|entries| - 1]);
    }
  }

  /** How many turns an instance of weight `w` takes in `r` full rounds. */
  function TurnsTaken(w: nat, maxW: nat, r: nat): nat
    requires 0 < maxW
  {
    if w == 0 || r == 0 then 0 else (r - 1) * w / maxW + 1
  }

  /** The instance takes a turn in round `r`: its due count grows there. */
  predicate Due(w: nat, maxW: nat, r: nat)
    requires 0 < maxW && 1 <= r
  {
    TurnsTaken(w, maxW, r) > TurnsTaken(w, maxW, r - 1)
  }

  /** In one round an instance gains one turn or none. */
  lemma {:induction false} AtMostOneTurn(w: nat, maxW: nat, r: nat)
    requires 0 < maxW && w <= maxW && 1 <= r
    ensures TurnsTaken(w, maxW, r) == TurnsTaken(w, maxW, r - 1) + (if Due(w, maxW, r) then 1 else 0)
  {
    if w != 0 && r != 1 {
      var a := (r - 2) * w;
      assert (r - 1) * w == a + w by { Distribute(r - 2, 1, w); }
      DivAtLeast(a + w, maxW, a / maxW);
      DivAtLeast(a + w, maxW, a / maxW + 2);
      Distribute(a / maxW, 2, maxW);
      DivBounds(a, maxW);
    } else if r == 1 {
      assert 0 * w / maxW == 0;
    }
  }

  /** The populate loop's test of `target`, which holds `w + taken * maxW`, is exactly `Due`. */
  lemma {:induction false} TargetTest(w: nat, maxW: nat, r: nat)
    requires 0 < maxW && 0 < w <= maxW && 1 <= r
    ensures r * w < w + TurnsTaken(w, maxW, r - 1) * maxW <==> !Due(w, maxW, r)
  {
    var k := TurnsTaken(w, maxW, r - 1);
    AtMostOneTurn(w, maxW, r);
    Distribute(r - 1, 1, w);
    DivAtLeast((r - 1) * w, maxW, k);
  }

  /** The instances below `n` that take a turn in round `r`, in index order. */
  ghost function RoundTurns(entries: seq<Entry>, r: nat, n: nat): (s: seq<nat>)
    requires n <= |entries| && 1 <= r
    ensures forall k :: 0 <= k < |s| ==> s[k] < n
  {
    MaxWeightPositive(entries);
    if n == 0 then []
    else RoundTurns(entries, r, n - 1)
         + (if Due(entries[n - 1].weight, MaxWeight(entries), r) then [n - 1] else [])
  }

  /** All turns of the first `r` rounds. */
  ghost function Turns(entries: seq<Entry>, r: nat): (s: seq<nat>)
    ensures forall k :: 0 <= k < |s| ==> s[k] < |entries|
  {
    if r == 0 then [] else Turns(entries, r - 1) + RoundTurns(entries, r, |entries|)
  }

  lemma {:induction false} RoundTurnsCount(entries: seq<Entry>, r: nat, n: nat, i: nat)
    requires n <= |entries| && 1 <= r && i < |entries|
    ensures 0 < MaxWeight(entries)
    ensures Count(RoundTurns(entries, r, n), i)
            == if i < n && Due(entries[i].weight, MaxWeight(entries), r) then 1 else 0
  {
    hide Due, MaxWeight;
    MaxWeightPositive(entries);
    if n != 0 {
      RoundTurnsCount(entries, r, n - 1, i);
      var front := RoundTurns(entries, r, n - 1);
      CountAppend(front, n - 1, i);
      assert front + [] == front;
    }
  }

  /** After `r` full rounds instance `i` has taken exactly `TurnsTaken` turns. */
  lemma {:induction false} TurnsCount(entries: seq<Entry>, r: nat, i: nat)
    requires i < |entries|
    ensures 0 < MaxWeight(entries)
    ensures Count(Turns(entries, r), i) == TurnsTaken(entries[i].weight, MaxWeight(entries), r)
  {
    hide Due, MaxWeight;
    MaxWeightPositive(entries);
    if r != 0 {
      TurnsCount(entries, r - 1, i);
      RoundTurnsCount(entries, r, |entries|, i);
      MaxWeightBounds(entries, i);
      AtMostOneTurn(entries[i].weight, MaxWeight(entries), r);
      CountConcat(Turns(entries, r - 1), RoundTurns(entries, r, |entries|), i);
    }
  }

  // ---------- the order of the turns ----------

  ghost predicate SomePositive(entries: seq<Entry>) {
    exists i :: 0 <= i < |entries| && 0 < entries[i].weight
  }

  lemma {:induction false} RoundTurnsPrefix(entries: seq<Entry>, r: nat, i: nat, n: nat)
    requires i <= n <= |entries| && 1 <= r
    ensures RoundTurns(entries, r, i) <= RoundTurns(entries, r, n)
    decreases n
  {
    if i < n {
      RoundTurnsPrefix(entries, r, i, n - 1);
    }
  }

  lemma {:induction false} TurnsPrefix(entries: seq<Entry>, r: nat, s: nat)
    requires r <= s
    ensures Turns(entries, r) <= Turns(entries, s)
    decreases s
  {
    if r < s {
      TurnsPrefix(entries, r, s - 1);
    }
  }

  /** The heaviest instance takes a turn in every round, so no round is empty. */
  lemma {:induction false} RoundIsNotEmpty(entries: seq<Entry>, r: nat)
    requires SomePositive(entries) && 1 <= r
    ensures RoundTurns(entries, r, |entries|) != []
  {
    MaxWeightPositive(entries);
    MaxWeightAttained(entries);
    var w := MaxWeight(entries);
    var i :| 0 <= i < |entries| && entries[i].weight == w;
    RoundTurnsCount(entries, r, |entries|, i);
    DivModUnique((r - 1) * w, w, r - 1, 0);
    if r > 1 {
      DivModUnique((r - 2) * w, w, r - 2, 0);
    }
    assert Due(w, w, r);
    CountPositive(RoundTurns(entries, r, |entries|), i);
  }

  lemma {:induction false} AtLeastOneTurnPerRound(entries: seq<Entry>, r: nat)
    requires SomePositive(entries)
    ensures r <= |Turns(entries, r)|
  {
    if r != 0 {
      AtLeastOneTurnPerRound(entries, r - 1);
      RoundIsNotEmpty(entries, r);
    }
  }

  /** The instances that claim the `m` slots, in the order they claim them. */
  ghost function Order(entries: seq<Entry>, m: nat): (order: seq<nat>)
    requires SomePositive(entries)
    ensures |order| == m && forall k :: 0 <= k < m ==> order[k] < |entries|
  {
    AtLeastOneTurnPerRound(entries, m);
    Turns(entries, m)[..m]
  }

  /** Any `m` leading turns are the `m` turns of `Order`. */
  lemma {:induction false} OrderIsPrefix(entries: seq<Entry>, m: nat, r: nat, i: nat, order: seq<nat>)
    requires SomePositive(entries) && 1 <= r <= m && i <= |entries| && |order| == m
    requires order == Turns(entries, r - 1) + RoundTurns(entries, r, i)
    ensures order == Order(entries, m)
  {
    RoundTurnsPrefix(entries, r, i, |entries|);
    TurnsPrefix(entries, r, m);
    assert order <= Turns(entries, r) <= Turns(entries, m);
  }

  /** The populated table. */
  ghost function FinalTable(entries: seq<Entry>, m: nat): (t: seq<int>)
    requires SomePositive(entries) && 2 <= m
    ensures |t| == m
  {
    Fill(entries, m, Order(entries, m))
  }

  // ---------- counting slots ----------

  /** Each turn fills one empty slot with the instance whose turn it was. */
  lemma {:induction false} FillCount(entries: seq<Entry>, m: nat, order: seq<nat>, v: int)
    requires Prime(m) && |order| <= m && forall k :: 0 <= k < |order| ==> order[k] < |entries|
    requires EMPTY <= v
    ensures Count(Fill(entries, m, order), v) == if v == EMPTY then m - |order| else Count(order, v)
  {
    assert 2 <= m;
    hide Prime, Slot;
    if order == [] {
      CountAll(seq(m, _ => EMPTY), EMPTY);
      CountPositive(seq(m, _ => EMPTY), v);
    } else {
      var n := |order| - 1;
      var i, t := order[n], Fill(entries, m, order[..n]);
      FillCount(entries, m, order[..n], v);
      FillCount(entries, m, order[..n], EMPTY);
      CountPositive(t, EMPTY);
      var c :| 0 <= c < m && t[c] == EMPTY;
      FirstFreeFound(t, entries[i], 0, c);
      CountUpdate(t, Slot(entries[i], m, FirstFree(t, entries[i], 0)), i, v);
    }
  }

  /** `m` turns leave no slot empty. */
  lemma {:induction false} FillIsFull(entries: seq<Entry>, m: nat, order: seq<nat>)
    requires Prime(m) && |order| == m && forall k :: 0 <= k < |order| ==> order[k] < |entries|
    ensures forall c :: 0 <= c < m ==> 0 <= Fill(entries, m, order)[c] < |entries|
  {
    FillCount(entries, m, order, EMPTY);
    FillEntries(entries, m, order);
    hide Prime, Fill, Count;
    CountPositive(Fill(entries, m, order), EMPTY);
    assert forall c :: 0 <= c < m ==> Fill(entries, m, order)[c] != EMPTY;
  }

  /** The finished table has no empty slot, and each instance has a slot a turn. */
  lemma {:induction false} FullTable(entries: seq<Entry>, m: nat, i: nat)
    requires Prime(m) && SomePositive(entries) && i < |entries|
    ensures forall c :: 0 <= c < m ==> 0 <= FinalTable(entries, m)[c] < |entries|
    ensures Count(FinalTable(entries, m), i) == Count(Order(entries, m), i)
  {
    hide Prime, Fill, Order, Count, SomePositive;
    FillCount(entries, m, Order(entries, m), i);
    FillIsFull(entries, m, Order(entries, m));
  }

  lemma {:induction false} FillEntries(entries: seq<Entry>, m: nat, order: seq<nat>)
    requires 2 <= m && forall k :: 0 <= k < |order| ==> order[k] < |entries|
    ensures forall c :: 0 <= c < m ==> EMPTY <= Fill(entries, m, order)[c] < |entries|
  {
    if order != [] {
      FillEntries(entries, m, order[..|order| - 1]);
    }
  }

  // ---------- the populate loop ----------

  /** The slot as computed, with a product that wraps at 64 bits. */
  function WrappingSlot(e: Entry, m: nat, j: nat): nat
    requires 2 <= m
  {
    (Offset(e, m) + j * Skip(e, m) % TWO64) % m
  }

  /** Within the admitted table sizes the product never wraps. */
  lemma {:induction false} NoWrap(e: Entry, m: nat, j: nat)
    requires 2 <= m <= MAX_HASH_TABLE_SIZE && j <= m
    ensures WrappingSlot(e, m, j) == Slot(e, m, j)
    ensures Offset(e, m) + j * Skip(e, m) < TWO64
  {
    MulMono(j, m, Skip(e, m));
    MulMono(Skip(e, m), m, m);
    MulMono(m, MAX_HASH_TABLE_SIZE, m);
    SmallMod(j * Skip(e, m), TWO64);
  }

  /** The preferences already passed over are all taken. */
  ghost predicate Passed(t: seq<int>, e: Entry, next: nat)
    requires 2 <= |t|
  {
    forall x :: 0 <= x < next ==> t[Slot(e, |t|, x)] != EMPTY
  }

  /** One turn: probe from the saved position, take the first empty slot, save the position. */
  method TakeTurn(entry: array<int>, next: array<nat>, e: Entry, i: nat)
    requires Prime(entry.Length) && entry.Length <= MAX_HASH_TABLE_SIZE
    requires i < next.Length && EMPTY in entry[..] && Passed(entry[..], e, next[i])
    modifies entry, next
    ensures entry[..] == Claim(old(entry[..]), e, i)
    ensures next[..] == old(next[..])[i := FirstFree(old(entry[..]), e, 0) + 1]
    ensures next[i] <= entry.Length
  {
    var m := entry.Length;
    assert 2 <= m;
    hide Prime, Slot;
    ghost var t := entry[..];
    ghost var free :| 0 <= free < m && t[free] == EMPTY;
    FirstFreeFound(t, e, next[i], free);
    NoWrap(e, m, next[i]);
    var c := WrappingSlot(e, m, next[i]);
    while entry[c] != EMPTY
      invariant entry[..] == t
      invariant next[i] <= FirstFree(t, e, 0) < m && Passed(t, e, next[i])
      invariant c == Slot(e, m, next[i])
      invariant next[..] == old(next[..])[i := next[i]]
      decreases m - next[i]
    {
      next[i] := next[i] + 1;
      FirstFreeFound(t, e, next[i], free);
      NoWrap(e, m, next[i]);
      c := WrappingSlot(e, m, next[i]);
    }
    FirstFreeFound(t, e, next[i], free);
    entry[c] := i;
    next[i] := next[i] + 1;
  }

  ghost predicate PopulateInvariant(entries: seq<Entry>, m: nat, t: seq<int>, next: seq<nat>, order: seq<nat>)
    requires 2 <= m
  {
    && |t| == m && |next| == |entries|
    && (forall k :: 0 <= k < |order| ==> order[k] < |entries|)
    && t == Fill(entries, m, order)
    && forall k :: 0 <= k < |entries| ==> next[k] <= m && Passed(t, entries[k], next[k])
  }

  lemma {:induction false} ClaimKeepsInvariant(entries: seq<Entry>, m: nat, t: seq<int>, next: seq<nat>, order: seq<nat>, i: nat)
    requires 2 <= m && PopulateInvariant(entries, m, t, next, order) && i < |entries|
    requires FirstFree(t, entries[i], 0) < m
    ensures PopulateInvariant(entries, m, Claim(t, entries[i], i),
                              next[i := FirstFree(t, entries[i], 0) + 1], order + [i])
  {
    hide Slot;
    assert (order + [i])[..|order|] == order;
    var k := FirstFree(t, entries[i], 0);
    var t' := Claim(t, entries[i], i);
    assert t'[Slot(entries[i], m, k)] != EMPTY;
    assert Passed(t', entries[i], k + 1);
  }

  /** A turn is possible as long as fewer than `m` have been taken. */
  lemma {:induction false} EmptySlotLeft(entries: seq<Entry>, m: nat, order: seq<nat>)
    requires Prime(m) && |order| < m && forall k :: 0 <= k < |order| ==> order[k] < |entries|
    ensures EMPTY in Fill(entries, m, order)
  {
    FillCount(entries, m, order, EMPTY);
    CountPositive(Fill(entries, m, order), EMPTY);
  }

  /** `target` after the instances below `i` have been considered in `round`. */
  ghost predicate TargetInvariant(entries: seq<Entry>, maxW: nat, target: seq<nat>, round: nat, i: nat)
    requires 0 < maxW && 1 <= round
  {
    && |target| == |entries|
    && (forall k :: 0 <= k < i && k < |entries| ==>
          target[k] == entries[k].weight + TurnsTaken(entries[k].weight, maxW, round) * maxW)
    && (forall k :: i <= k < |entries| ==>
          target[k] == entries[k].weight + TurnsTaken(entries[k].weight, maxW, round - 1) * maxW)
  }

  method HeaviestWeight(entries: seq<Entry>) returns (maxW: nat)
    ensures maxW == MaxWeight(entries)
  {
    maxW := 1;
    for i := 0 to |entries|
      invariant maxW == MaxWeight(entries[..i])
    {
      assert entries[..i + 1][..i] == entries[..i];
      if entries[i].weight > maxW {
        maxW := entries[i].weight;
      }
    }
    assert entries[..|entries|] == entries;
  }

  /** Considering instance `i` in `round`: the test decides `Due`, and `target` stays in step. */
  lemma {:induction false} Considered(entries: seq<Entry>, maxW: nat, target: seq<nat>, round: nat, i: nat)
    requires 0 < maxW && 1 <= round && i < |entries| && entries[i].weight <= maxW
    requires TargetInvariant(entries, maxW, target, round, i)
    ensures ghost var w := entries[i].weight;
            ghost var turn := w != 0 && target[i] <= round * w;
            && turn == Due(w, maxW, round)
            && TargetInvariant(entries, maxW, if turn then target[i := target[i] + maxW] else target, round, i + 1)
  {
    var w := entries[i].weight;
    if w != 0 {
      TargetTest(w, maxW, round);
    }
    AtMostOneTurn(w, maxW, round);
    hide Due, TurnsTaken;
    Distribute(TurnsTaken(w, maxW, round - 1), 1, maxW);
  }

  lemma {:induction false} NextTurn(entries: seq<Entry>, round: nat, i: nat)
    requires 1 <= round && i < |entries|
    ensures 0 < MaxWeight(entries)
    ensures RoundTurns(entries, round, i + 1)
            == RoundTurns(entries, round, i)
               + if Due(entries[i].weight, MaxWeight(entries), round) then [i] else []
  {
    MaxWeightPositive(entries);
  }

  /** A table size fit for the permutations, and weights of which one at least is positive. */
  ghost predicate Buildable(entries: seq<Entry>, m: nat) {
    && Prime(m) && m <= MAX_HASH_TABLE_SIZE
    && |entries| <= U16_MAX && SomePositive(entries)
    && forall k :: 0 <= k < |entries| ==> entries[k].weight <= U32_MAX
  }

  lemma {:induction false} NoOverflow(entries: seq<Entry>, m: nat, round: nat, i: nat)
    requires Buildable(entries, m) && i < |entries| && round <= m
    ensures round * entries[i].weight + MaxWeight(entries) < TWO64
  {
    hide Prime, SomePositive;
    MulMono(round, MAX_HASH_TABLE_SIZE, entries[i].weight);
    MaxWeightBelow(entries, U32_MAX);
  }

  lemma {:induction false} MaxWeightBelow(entries: seq<Entry>, bound: nat)
    requires 1 <= bound && forall k :: 0 <= k < |entries| ==> entries[k].weight <= bound
    ensures MaxWeight(entries) <= bound
  {
    if entries != [] {
      MaxWeightBelow(entries[..|entries| - 1], bound);
    }
  }

  /** Everything the populate loop maintains, before instance `i` is considered in `round`. */
  ghost predicate Populating(entries: seq<Entry>, m: nat, t: seq<int>, next: seq<nat>, target: seq<nat>,
                             round: nat, i: nat, order: seq<nat>)
  {
    && Buildable(entries, m) && 1 <= round && i <= |entries|
    && 0 < MaxWeight(entries)
    && order == Turns(entries, round - 1) + RoundTurns(entries, round, i)
    && PopulateInvariant(entries, m, t, next, order)
    && TargetInvariant(entries, MaxWeight(entries), target, round, i)
  }

  lemma {:induction false} PopulatingStarts(entries: seq<Entry>, m: nat)
    requires Buildable(entries, m)
    ensures 2 <= m
    ensures Populating(entries, m, seq(m, _ => EMPTY), seq(|entries|, _ => 0),
                       seq(|entries|, k requires 0 <= k < |entries| => entries[k].weight), 1, 0, [])
  {
    assert 2 <= m;
    MaxWeightPositive(entries);
    hide Prime, SomePositive;
    assert Turns(entries, 0) + RoundTurns(entries, 1, 0) == [];
  }

  lemma {:induction false} NextRound(entries: seq<Entry>, m: nat, t: seq<int>, next: seq<nat>, target: seq<nat>,
                  round: nat, order: seq<nat>)
    requires Populating(entries, m, t, next, target, round, |entries|, order)
    ensures Populating(entries, m, t, next, target, round + 1, 0, order)
  {
    hide Buildable, PopulateInvariant, TurnsTaken;
    assert order == Turns(entries, round) + RoundTurns(entries, round + 1, 0);
  }

  /** With `m` slots filled the table is the final one. */
  lemma {:induction false} PopulatingEnds(entries: seq<Entry>, m: nat, t: seq<int>, next: seq<nat>, target: seq<nat>,
                       round: nat, i: nat, order: seq<nat>)
    requires Populating(entries, m, t, next, target, round, i, order) && |order| == m && round <= m
    ensures SomePositive(entries) && 2 <= m && t == FinalTable(entries, m)
  {
    OrderIsPrefix(entries, m, round, i, order);
  }

  /** A round that has been gone through has filled a slot. */
  lemma {:induction false} RoundGrows(entries: seq<Entry>, m: nat, t: seq<int>, next: seq<nat>, target: seq<nat>,
                   round: nat, i: nat, order: seq<nat>)
    requires Populating(entries, m, t, next, target, round, i, order)
    ensures |Turns(entries, round - 1)| <= |order|
    ensures i == 0 ==> |Turns(entries, round - 1)| == |order|
    ensures i == |entries| ==> |Turns(entries, round - 1)| < |order|
  {
    RoundIsNotEmpty(entries, round);
  }

  /** There have been no more rounds than turns. */
  lemma {:induction false} RoundsSoFar(entries: seq<Entry>, m: nat, t: seq<int>, next: seq<nat>, target: seq<nat>,
                    round: nat, i: nat, order: seq<nat>)
    requires Populating(entries, m, t, next, target, round, i, order)
    ensures round - 1 <= |order| && (i == |entries| ==> round <= |order|)
  {
    AtLeastOneTurnPerRound(entries, round - 1);
    AtLeastOneTurnPerRound(entries, round);
  }

  lemma {:induction false} SkipStep(entries: seq<Entry>, m: nat, t: seq<int>, next: seq<nat>, target: seq<nat>,
                 round: nat, i: nat, order: seq<nat>)
    requires Populating(entries, m, t, next, target, round, i, order) && i < |entries|
    requires |target| == |entries|
    requires entries[i].weight == 0 || round * entries[i].weight < target[i]
    ensures Populating(entries, m, t, next, target, round, i + 1, order)
  {
    MaxWeightBounds(entries, i);
    Considered(entries, MaxWeight(entries), target, round, i);
    NextTurn(entries, round, i);
    hide Due, MaxWeight, TargetInvariant, PopulateInvariant, Buildable, RoundTurns;
    assert RoundTurns(entries, round, i + 1) == RoundTurns(entries, round, i);
  }

  lemma {:induction false} Appended(s: seq<nat>, t: seq<nat>, i: nat)
    ensures (s + t) + [i] == s + (t + [i])
  {}

  lemma {:induction false} ClaimStep(entries: seq<Entry>, m: nat, t: seq<int>, next: seq<nat>, target: seq<nat>,
                  round: nat, i: nat, order: seq<nat>)
    requires Populating(entries, m, t, next, target, round, i, order) && i < |entries|
    requires |t| == m && 2 <= m && |next| == |target| == |entries|
    requires entries[i].weight != 0 && target[i] <= round * entries[i].weight
    requires FirstFree(t, entries[i], 0) < m
    ensures Populating(entries, m, Claim(t, entries[i], i), next[i := FirstFree(t, entries[i], 0) + 1],
                       target[i := target[i] + MaxWeight(entries)], round, i + 1, order + [i])
  {
    hide Due, MaxWeight, TargetInvariant, PopulateInvariant, Buildable, RoundTurns, Claim, FirstFree, Turns;
    MaxWeightBounds(entries, i);
    Considered(entries, MaxWeight(entries), target, round, i);
    NextTurn(entries, round, i);
    ClaimKeepsInvariant(entries, m, t, next, order, i);
    Appended(Turns(entries, round - 1), RoundTurns(entries, round, i), i);
  }

  /** The sizes of the loop's arrays, and that a turn finds an empty slot. */
  lemma {:induction false} CanClaim(entries: seq<Entry>, m: nat, t: seq<int>, next: seq<nat>, target: seq<nat>,
                 round: nat, i: nat, order: seq<nat>)
    requires Populating(entries, m, t, next, target, round, i, order) && i < |entries| && |order| < m
    ensures 2 <= m == |t| && |next| == |target| == |entries|
    ensures round * entries[i].weight + MaxWeight(entries) < TWO64
    ensures EMPTY in t && Passed(t, entries[i], next[i]) && Prime(m) && m <= MAX_HASH_TABLE_SIZE
    ensures FirstFree(t, entries[i], 0) < m
  {
    RoundsSoFar(entries, m, t, next, target, round, i, order);
    NoOverflow(entries, m, round, i);
    EmptySlotLeft(entries, m, order);
    hide MaxWeight, TargetInvariant, Fill, RoundTurns, Turns, SomePositive;
    var free :| 0 <= free < m && t[free] == EMPTY;
    FirstFreeFound(t, entries[i], 0, free);
  }

  /** The body of the inner loop, up to the count of filled slots. */
  method Consider(entries: seq<Entry>, m: nat, maxW: nat, entry: array<int>, next: array<nat>, target: array<nat>,
                  round: nat, i: nat, ghost order: seq<nat>)
    returns (took: bool)
    requires next != target && i < |entries| && maxW == MaxWeight(entries) && |order| < m
    requires Populating(entries, m, entry[..], next[..], target[..], round, i, order)
    modifies entry, next, target
    ensures Populating(entries, m, entry[..], next[..], target[..], round, i + 1, if took then order + [i] else order)
  {
    hide *;
    ghost var t, nx, tg := entry[..], next[..], target[..];
    CanClaim(entries, m, t, nx, tg, round, i, order);
    var w := entries[i].weight;
    if w == 0 {
      SkipStep(entries, m, t, nx, tg, round, i, order);
      return false;
    }
    if round * w < target[i] {
      SkipStep(entries, m, t, nx, tg, round, i, order);
      return false;
    }
    ClaimStep(entries, m, t, nx, tg, round, i, order);
    target[i] := target[i] + maxW;
    assert target[..] == tg[i := tg[i] + maxW];
    TakeTurn(entry, next, entries[i], i);
    return true;
  }

  /** The two nested loops: they end with the table filled in `Order`. */
  method Populate(entries: seq<Entry>, m: nat) returns (entry: array<int>)
    requires Buildable(entries, m)
    ensures entry.Length == m && 2 <= m && entry[..] == FinalTable(entries, m)
  {
    hide *;
    var n := |entries|;
    var maxW := HeaviestWeight(entries);
    var target := new nat[n](k requires 0 <= k < n => entries[k].weight);
    var next := new nat[n](_ => 0);
    entry := new int[m](_ => EMPTY);
    var filled, round := 0, 0;
    ghost var order: seq<nat> := [];
    PopulatingStarts(entries, m);
    assert target[..] == seq(n, k requires 0 <= k < n => entries[k].weight);
    assert next[..] == seq(n, _ => 0);
    assert entry[..] == seq(m, _ => EMPTY);
    label fill: while filled < m
      invariant filled == |order| < m
      invariant Populating(entries, m, entry[..], next[..], target[..], round + 1, 0, order)
      decreases m - filled
    {
      round := round + 1;
      RoundGrows(entries, m, entry[..], next[..], target[..], round, 0, order);
      for i := 0 to n
        invariant filled == |order| < m
        invariant Populating(entries, m, entry[..], next[..], target[..], round, i, order)
      {
        RoundsSoFar(entries, m, entry[..], next[..], target[..], round, i, order);
        var took := Consider(entries, m, maxW, entry, next, target, round, i, order);
        if took {
          order := order + [i];
          filled := filled + 1;
          if filled == m {
            PopulatingEnds(entries, m, entry[..], next[..], target[..], round, i + 1, order);
            break fill;
          }
        }
      }
      RoundGrows(entries, m, entry[..], next[..], target[..], round, n, order);
      NextRound(entries, m, entry[..], next[..], target[..], round, order);
    }
  }

  /**
    Building terminates, every slot names an instance, and the table is the one in which the
    instances take turns by weight, each claiming its most preferred empty slot.
   */
  method Build(entries: seq<Entry>, m: nat) returns (table: seq<nat>)
    requires Buildable(entries, m)
    ensures |table| == m && forall c :: 0 <= c < m ==> table[c] < |entries|
    ensures SomePositive(entries) && 2 <= m && table == FinalTable(entries, m)
  {
    hide Prime, FinalTable, SomePositive;
    var entry := Populate(entries, m);
    EntriesFit(entries, m);
    var e := entry[..];
    // the entries are stored as 16-bit words
    table := seq(m, c requires 0 <= c < m => e[c] % 0x1_0000);
  }

  /** Every entry names an instance, and so fits in 16 bits. */
  lemma {:induction false} EntriesFit(entries: seq<Entry>, m: nat)
    requires Buildable(entries, m) && 2 <= m
    ensures SomePositive(entries) && |entries| < 0x1_0000
    ensures forall c :: 0 <= c < m ==> 0 <= FinalTable(entries, m)[c] < |entries|
  {
    var i :| 0 <= i < |entries| && 0 < entries[i].weight;
    hide Prime, FinalTable, SomePositive;
    FullTable(entries, m, i);
  }

  /** A request key's hash picks a slot; only an empty table has no answer. */
  function Lookup(table: seq<nat>, keyHash: nat): (r: Option<nat>)
    ensures r.None? <==> table == []
    ensures r.Some? ==> r.value in table
  {
    if |table| == 0 then None else Some(table[keyHash % |table|])
  }

  /** A hash below the table's length is answered by that slot, and adding the length changes nothing. */
  lemma {:induction false} LookupIsPeriodic(table: seq<nat>, keyHash: nat)
    ensures keyHash < |table| ==> Lookup(table, keyHash) == Some(table[keyHash])
    ensures Lookup(table, keyHash + |table|) == Lookup(table, keyHash)
  {
    if table != [] {
      ModAddMultiple(keyHash, 1, |table|);
      if keyHash < |table| {
        SmallMod(keyHash, |table|);
      }
    }
  }

  /** The hashes among `|table|` consecutive ones that are served by `i`. */
  ghost function ServedBy(table: seq<nat>, from: nat, i: nat): set<nat> {
    set h: nat | from <= h < from + |table| && Lookup(table, h) == Some(i)
  }

  ghost function SlotsOf(table: seq<nat>, n: nat, i: nat): set<nat>
    requires n <= |table|
  {
    set c: nat | c < n && table[c] == i
  }

  lemma {:induction false} SlotsOfSize(table: seq<nat>, n: nat, i: nat)
    requires n <= |table|
    ensures |SlotsOf(table, n, i)| == Count(table[..n], i)
  {
    if n == 0 {
      assert SlotsOf(table, 0, i) == {};
    } else {
      SlotsOfSize(table, n - 1, i);
      assert table[..n][..n - 1] == table[..n - 1];
      if table[n - 1] == i {
        assert SlotsOf(table, n, i) == SlotsOf(table, n - 1, i) + {n - 1};
      } else {
        assert SlotsOf(table, n, i) == SlotsOf(table, n - 1, i);
      }
    }
  }

  lemma {:induction false} FirstWindow(table: seq<nat>, i: nat)
    ensures ServedBy(table, 0, i) == SlotsOf(table, |table|, i)
  {
    forall h: nat | h < |table| ensures Lookup(table, h) == Some(table[h]) {
      LookupIsPeriodic(table, h);
    }
    hide Lookup;
  }

  /** Moving a window on by one trades a number for another. */
  lemma {:induction false} Traded(before: set<nat>, now: set<nat>, x: nat, y: nat)
    requires x in before && x !in now && y !in before && y in now
    requires forall h: nat | h != x && h != y :: h in now <==> h in before
    ensures |now| == |before|
  {
    var both := before - {x};
    assert before == both + {x};
    assert now == both + {y};
  }

  /** The hash that leaves the window and the one that enters it are answered alike. */
  lemma {:induction false} NextWindow(table: seq<nat>, from: nat, i: nat)
    ensures |ServedBy(table, from + 1, i)| == |ServedBy(table, from, i)|
  {
    hide Lookup;
    LookupIsPeriodic(table, from);
    var before, now, m := ServedBy(table, from, i), ServedBy(table, from + 1, i), |table|;
    if m > 0 && Lookup(table, from) == Some(i) {
      Traded(before, now, from, from + m);
    } else {
      assert now == before;
    }
  }

  /** Among any `|table|` consecutive key hashes, `i` serves exactly as many as it has slots. */
  lemma {:induction false} KeysFollowSlots(table: seq<nat>, from: nat, i: nat)
    ensures |ServedBy(table, from, i)| == Count(table, i)
    decreases from
  {
    hide ServedBy;
    if from == 0 {
      FirstWindow(table, i);
      SlotsOfSize(table, |table|, i);
      assert table[..|table|] == table;
    } else {
      KeysFollowSlots(table, from - 1, i);
      NextWindow(table, from - 1, i);
    }
  }

  /** Every key is served by an instance of the list the table was built from. */
  method BuildThenLookup(entries: seq<Entry>, m: nat, keyHash: nat) returns (i: nat)
    requires Buildable(entries, m)
    ensures i < |entries|
  {
    var table := Build(entries, m);
    assert m == |table| > 0;
    i := Lookup(table, keyHash).value;
  }

  // ---------- weighted shares ----------

  /** The round in which the table becomes full. */
  lemma {:induction false} LastRound(entries: seq<Entry>, m: nat, hi: nat) returns (r: nat)
    requires 1 <= m <= |Turns(entries, hi)|
    ensures 1 <= r <= hi && |Turns(entries, r - 1)| < m <= |Turns(entries, r)|
    decreases hi
  {
    if |Turns(entries, hi - 1)| < m {
      r := hi;
    } else {
      r := LastRound(entries, m, hi - 1);
    }
  }

  ghost predicate FullAfter(entries: seq<Entry>, m: nat, r: nat) {
    1 <= r <= m && |Turns(entries, r - 1)| < m <= |Turns(entries, r)|
  }

  lemma {:induction false} SomeLastRound(entries: seq<Entry>, m: nat) returns (r: nat)
    requires SomePositive(entries) && 1 <= m
    ensures FullAfter(entries, m, r) && 1 <= r <= m
  {
    AtLeastOneTurnPerRound(entries, m);
    r := LastRound(entries, m, m);
  }

  lemma {:induction false} OrderBetween(entries: seq<Entry>, m: nat, r: nat)
    requires SomePositive(entries) && FullAfter(entries, m, r)
    ensures Turns(entries, r - 1) <= Order(entries, m) <= Turns(entries, r)
  {
    hide Turns;
    TurnsPrefix(entries, r - 1, m);
    TurnsPrefix(entries, r, m);
  }

  /** The number of slots of instance `i` in the finished table. */
  ghost function Slots(entries: seq<Entry>, m: nat, i: nat): nat
    requires SomePositive(entries) && 2 <= m
  {
    Count(FinalTable(entries, m), i)
  }

  /**
    One round number `r` explains every share: an instance of weight `w` has the turns of the
    rounds before `r`, and perhaps its turn of round `r`. Its count is within one of
    `(r - 1) * w / maxW`.
   */
  lemma {:induction false} WeightedShare(entries: seq<Entry>, m: nat, r: nat, i: nat)
    requires Prime(m) && SomePositive(entries) && FullAfter(entries, m, r) && i < |entries|
    ensures 0 < MaxWeight(entries)
    ensures ghost var w, maxW, c := entries[i].weight, MaxWeight(entries), Slots(entries, m, i);
            && TurnsTaken(w, maxW, r - 1) <= c <= TurnsTaken(w, maxW, r)
            && (0 < w ==> (c - 1) * maxW <= (r - 1) * w < (c + 1) * maxW)
  {
    hide Prime, Turns, Order, Count;
    PrimeIsAtLeastTwo(m);
    var w, maxW, c := entries[i].weight, MaxWeight(entries), Slots(entries, m, i);
    FullTable(entries, m, i);
    OrderBetween(entries, m, r);
    CountPrefix(Turns(entries, r - 1), Order(entries, m), i);
    CountPrefix(Order(entries, m), Turns(entries, r), i);
    TurnsCount(entries, r - 1, i);
    TurnsCount(entries, r, i);
    MaxWeightBounds(entries, i);
    hide MaxWeight;
    if 0 < w {
      ShareBounds(w, maxW, r, c);
    }
  }

  /** The weighted share holds of the keys: of any `m` consecutive hashes, instance `i` serves its share. */
  lemma {:induction false} KeysAreShared(entries: seq<Entry>, m: nat, r: nat, from: nat, i: nat)
    requires Prime(m) && SomePositive(entries) && FullAfter(entries, m, r) && i < |entries|
    ensures 2 <= m && |FinalTable(entries, m)| == m && forall c :: 0 <= c < m ==> 0 <= FinalTable(entries, m)[c]
    ensures ghost var table: seq<nat> := FinalTable(entries, m);
            ghost var w, maxW, c := entries[i].weight, MaxWeight(entries), |ServedBy(table, from, i)|;
            && c == Slots(entries, m, i)
            && (0 < w ==> (c - 1) * maxW <= (r - 1) * w < (c + 1) * maxW)
  {
    hide Prime, Count, ServedBy, MaxWeight;
    PrimeIsAtLeastTwo(m);
    FullTable(entries, m, i);
    WeightedShare(entries, m, r, i);
    KeysFollowSlots(FinalTable(entries, m), from, i);
  }

  lemma {:induction false} ShareBounds(w: nat, maxW: nat, r: nat, c: nat)
    requires 0 < w <= maxW && 1 <= r && TurnsTaken(w, maxW, r - 1) <= c <= TurnsTaken(w, maxW, r)
    ensures (c - 1) * maxW <= (r - 1) * w < (c + 1) * maxW
  {
    DivAtLeast((r - 1) * w, maxW, c - 1);
    DivAtLeast((r - 1) * w, maxW, c + 1);
    AtMostOneTurn(w, maxW, r);
  }

  lemma {:induction false} RoundTurnsLength(entries: seq<Entry>, r: nat, n: nat)
    requires n <= |entries| && 1 <= r
    ensures |RoundTurns(entries, r, n)| <= n
  {
    hide Due;
    if n != 0 {
      RoundTurnsLength(entries, r, n - 1);
    }
  }

  /** With at least as many slots as instances, every positive weight gets a slot. */
  lemma {:induction false} EveryInstanceHasASlot(entries: seq<Entry>, m: nat, i: nat)
    requires Prime(m) && SomePositive(entries) && |entries| <= m && i < |entries| && 0 < entries[i].weight
    ensures 1 <= Slots(entries, m, i)
  {
    hide *;
    PrimeIsAtLeastTwo(m);
    var r := SomeLastRound(entries, m);
    WeightedShare(entries, m, r, i);
    AtLeastOneSlot(entries, m, r, i);
  }

  lemma {:induction false} PositiveTurns(w: nat, maxW: nat, r: nat)
    requires 0 < w && 0 < maxW && 1 <= r
    ensures 1 <= TurnsTaken(w, maxW, r) && (2 <= r ==> 1 <= TurnsTaken(w, maxW, r - 1))
  {
    DivAtLeast((r - 1) * w, maxW, 0);
    if 2 <= r {
      DivAtLeast((r - 2) * w, maxW, 0);
    }
  }

  lemma {:induction false} AtLeastOneSlot(entries: seq<Entry>, m: nat, r: nat, i: nat)
    requires Prime(m) && 2 <= m && SomePositive(entries) && |entries| <= m && i < |entries|
    requires 0 < entries[i].weight && FullAfter(entries, m, r) && 0 < MaxWeight(entries)
    requires TurnsTaken(entries[i].weight, MaxWeight(entries), r - 1) <= Slots(entries, m, i)
    ensures 1 <= Slots(entries, m, i)
  {
    hide Prime, Order, Count, MaxWeight, SomePositive, FinalTable, TurnsTaken, RoundTurns;
    PositiveTurns(entries[i].weight, MaxWeight(entries), r);
    if r == 1 {
      // the first round alone filled the table, so all its turns were used
      RoundTurnsLength(entries, 1, |entries|);
      OrderBetween(entries, m, 1);
      assert Turns(entries, 1) == RoundTurns(entries, 1, |entries|);
      assert Order(entries, m) == Turns(entries, 1);
      TurnsCount(entries, 1, i);
      FullTable(entries, m, i);
    }
  }

  /** Shares are proportional to weights up to less than one turn each. */
  lemma {:induction false} SharesAreProportional(entries: seq<Entry>, m: nat, i: nat, j: nat)
    requires Prime(m) && SomePositive(entries) && i < |entries| && j < |entries|
    requires 0 < entries[i].weight && 0 < entries[j].weight
    ensures ghost var wi, wj := entries[i].weight, entries[j].weight;
            ghost var ci, cj := Slots(entries, m, i), Slots(entries, m, j);
            -(wi + wj) < ci * wj - cj * wi < wi + wj
  {
    var r := SomeLastRound(entries, m);
    WeightedShare(entries, m, r, i);
    WeightedShare(entries, m, r, j);
    hide *;
    var wi, wj := entries[i].weight, entries[j].weight;
    var ci, cj := Slots(entries, m, i), Slots(entries, m, j);
    CrossShares(wi, wj, ci, cj, MaxWeight(entries), r - 1);
    CrossShares(wj, wi, cj, ci, MaxWeight(entries), r - 1);
  }

  lemma {:induction false} CrossShares(wi: nat, wj: nat, ci: nat, cj: nat, maxW: nat, q: nat)
    requires 0 < wi && 0 < wj && 0 < maxW
    requires (ci - 1) * maxW <= q * wi && q * wj < (cj + 1) * maxW
    ensures ci * wj - cj * wi < wi + wj
  {
    var a, b := (ci - 1) * wj, (cj + 1) * wi;
    assert a * maxW <= q * wi * wj by {
      MulMono((ci - 1) * maxW, q * wi, wj);
      assert (ci - 1) * maxW * wj == a * maxW;
    }
    assert q * wi * wj < b * maxW by {
      StrictMono(q * wj, (cj + 1) * maxW, wi);
      assert q * wj * wi == q * wi * wj;
      assert (cj + 1) * maxW * wi == b * maxW;
    }
    if b <= a {
      MulMono(b, a, maxW);
    }
    assert a == ci * wj - wj && b == cj * wi + wi;
  }

  lemma {:induction false} StrictMono(x: int, y: int, k: int)
    requires x < y && 0 < k
    ensures x * k < y * k
  {
    MulMono(x + 1, y, k);
    Distribute(x, 1, k);
  }

  lemma {:induction false} EqualMaxWeight(entries: seq<Entry>, w: nat)
    requires 0 < w && entries != [] && forall k :: 0 <= k < |entries| ==> entries[k].weight == w
    ensures SomePositive(entries) && MaxWeight(entries) == w
  {
    assert entries[0].weight > 0;
    MaxWeightAttained(entries);
  }

  /** Equal weights share the slots evenly: `m / n` rounded down or up. */
  lemma {:induction false} EqualShares(entries: seq<Entry>, m: nat, w: nat, i: nat)
    requires Prime(m) && 0 < w && i < |entries|
    requires forall k :: 0 <= k < |entries| ==> entries[k].weight == w
    ensures SomePositive(entries) && 2 <= m
    ensures m / |entries| <= Slots(entries, m, i) <= (m + |entries| - 1) / |entries|
  {
    PrimeIsAtLeastTwo(m);
    EqualMaxWeight(entries, w);
    var n, order := |entries|, Order(entries, m);
    hide Prime, Order, Count, MaxWeight, SomePositive, SumTo, Slots, FullAfter;
    var r := SomeLastRound(entries, m);
    var f := CountsOf(order);
    forall k: nat | k < n ensures r - 1 <= f(k) <= r && f(k) == Slots(entries, m, k) {
      EqualShare(entries, m, w, r, k);
    }
    SumOfCounts(order, n);
    EvenSplit(n, f, m, r, i);
  }

  lemma {:induction false} EqualShare(entries: seq<Entry>, m: nat, w: nat, r: nat, k: nat)
    requires Prime(m) && 2 <= m && 0 < w && k < |entries| && entries[k].weight == w
    requires SomePositive(entries) && MaxWeight(entries) == w && FullAfter(entries, m, r)
    ensures 1 <= r && r - 1 <= Slots(entries, m, k) <= r
    ensures Slots(entries, m, k) == Count(Order(entries, m), k)
  {
    WeightedShare(entries, m, r, k);
    FullTable(entries, m, k);
    hide Prime, MaxWeight, Count, Order, FinalTable, SomePositive, FullAfter, Turns;
    DivModUnique((r - 1) * w, w, r - 1, 0);
    if r > 1 {
      DivModUnique((r - 2) * w, w, r - 2, 0);
    }
  }

  /** `n` numbers of `r - 1` or `r` that add up to `m` are `m / n` rounded down or up. */
  lemma {:induction false} EvenSplit(n: nat, f: nat -> int, m: nat, r: nat, i: nat)
    requires i < n && 1 <= r && SumTo(n, f) == m && forall k :: 0 <= k < n ==> r - 1 <= f(k) <= r
    ensures m / n <= f(i) <= (m + n - 1) / n
  {
    hide SumTo;
    var lo := (k: nat) => if k == i then r - 1 else f(k);
    var hi := (k: nat) => if k == i then r else f(k);
    SumToUpdate(n, f, lo, i);
    SumToUpdate(n, f, hi, i);
    SumToBounds(n, lo, r - 1, r);
    SumToBounds(n, hi, r - 1, r);
    EvenBounds(n, m, r, f(i));
  }

  lemma {:induction false} EvenBounds(n: nat, m: nat, r: nat, c: nat)
    requires 0 < n && r - 1 <= c <= r
    requires n * (r - 1) + c - (r - 1) <= m <= n * r - (r - c)
    ensures m / n <= c <= (m + n - 1) / n
  {
    assert n * (r - 1) == n * r - n;
    DivAtLeast(m, n, c + 1);
    DivAtLeast(m + n - 1, n, c);
    if c == r {
      assert c * n == n * r;
      Distribute(c, 1, n);
    } else {
      assert c * n == n * r - n;
      Distribute(c, 1, n);
    }
  }

  // ---------- only the ratio of the weights matters ----------

  ghost function Scaled(entries: seq<Entry>, k: nat): seq<Entry> {
    seq(|entries|, i requires 0 <= i < |entries| => entries[i].(weight := k * entries[i].weight))
  }

  /** Multiplying all weights by a common factor leaves the table unchanged. */
  lemma {:induction false} ScalingKeepsTable(entries: seq<Entry>, m: nat, k: nat)
    requires SomePositive(entries) && 2 <= m && 0 < k
    ensures SomePositive(Scaled(entries, k))
    ensures FinalTable(Scaled(entries, k), m) == FinalTable(entries, m)
  {
    ScaledMaxWeight(entries, k);
    ScaledTurns(entries, k, m);
    AtLeastOneTurnPerRound(entries, m);
    FillIgnoresWeights(Scaled(entries, k), entries, m, Order(entries, m));
  }

  lemma {:induction false} ScaledMaxWeight(entries: seq<Entry>, k: nat)
    requires SomePositive(entries) && 0 < k
    ensures SomePositive(Scaled(entries, k))
    ensures MaxWeight(Scaled(entries, k)) == k * MaxWeight(entries)
  {
    var scaled := Scaled(entries, k);
    var p :| 0 <= p < |entries| && 0 < entries[p].weight;
    assert 0 < k * entries[p].weight == scaled[p].weight;
    MaxWeightAttained(entries);
    MaxWeightAttained(scaled);
    hide MaxWeight;
    var i :| 0 <= i < |entries| && entries[i].weight == MaxWeight(entries);
    var j :| 0 <= j < |scaled| && scaled[j].weight == MaxWeight(scaled);
    MaxWeightBounds(scaled, i);
    MaxWeightBounds(entries, j);
    MulMono(entries[j].weight, MaxWeight(entries), k);
    assert scaled[i].weight == k * entries[i].weight && scaled[j].weight == k * entries[j].weight;
  }

  lemma {:induction false} ScaledTurnsTaken(w: nat, maxW: nat, k: nat, r: nat)
    requires 0 < k && 0 < maxW
    ensures 0 < k * maxW && TurnsTaken(k * w, k * maxW, r) == TurnsTaken(w, maxW, r)
  {
    assert k <= k * maxW by { MulMono(1, maxW, k); }
    if w != 0 && r != 0 {
      assert k <= k * w by { MulMono(1, w, k); }
      assert (r - 1) * (k * w) == k * ((r - 1) * w);
      DivCancel(k, (r - 1) * w, maxW);
    }
  }

  lemma {:induction false} ScaledRoundTurns(entries: seq<Entry>, k: nat, r: nat, n: nat)
    requires 0 < k && 1 <= r && n <= |entries|
    requires MaxWeight(Scaled(entries, k)) == k * MaxWeight(entries)
    ensures RoundTurns(Scaled(entries, k), r, n) == RoundTurns(entries, r, n)
  {
    if n != 0 {
      hide MaxWeight;
      ScaledRoundTurns(entries, k, r, n - 1);
      MaxWeightPositive(entries);
      var w := entries[n - 1].weight;
      assert Scaled(entries, k)[n - 1].weight == k * w;
      ScaledTurnsTaken(w, MaxWeight(entries), k, r);
      ScaledTurnsTaken(w, MaxWeight(entries), k, r - 1);
    }
  }

  lemma {:induction false} ScaledTurns(entries: seq<Entry>, k: nat, r: nat)
    requires 0 < k && MaxWeight(Scaled(entries, k)) == k * MaxWeight(entries)
    ensures Turns(Scaled(entries, k), r) == Turns(entries, r)
  {
    if r != 0 {
      hide MaxWeight, RoundTurns;
      ScaledTurns(entries, k, r - 1);
      ScaledRoundTurns(entries, k, r, |entries|);
    }
  }

  lemma {:induction false} SlotIgnoresWeight(e: Entry, f: Entry, m: nat, j: nat)
    requires 2 <= m && e.h1 == f.h1 && e.h2 == f.h2
    ensures Slot(e, m, j) == Slot(f, m, j)
  {}

  lemma {:induction false} FirstFreeIgnoresWeights(t: seq<int>, e: Entry, f: Entry, j: nat)
    requires 2 <= |t| && e.h1 == f.h1 && e.h2 == f.h2
    ensures FirstFree(t, e, j) == FirstFree(t, f, j)
    decreases |t| - j
  {
    hide Slot;
    SlotIgnoresWeight(e, f, |t|, j);
    if j < |t| {
      FirstFreeIgnoresWeights(t, e, f, j + 1);
    }
  }

  lemma {:induction false} ClaimIgnoresWeights(t: seq<int>, e: Entry, f: Entry, i: nat)
    requires 2 <= |t| && e.h1 == f.h1 && e.h2 == f.h2
    ensures Claim(t, e, i) == Claim(t, f, i)
  {
    hide Slot, FirstFree;
    FirstFreeIgnoresWeights(t, e, f, 0);
    SlotIgnoresWeight(e, f, |t|, FirstFree(t, e, 0));
  }

  lemma {:induction false} FillIgnoresWeights(es: seq<Entry>, fs: seq<Entry>, m: nat, order: seq<nat>)
    requires 2 <= m && |es| == |fs| && forall k :: 0 <= k < |order| ==> order[k] < |es|
    requires forall k :: 0 <= k < |es| ==> es[k].h1 == fs[k].h1 && es[k].h2 == fs[k].h2
    ensures Fill(es, m, order) == Fill(fs, m, order)
  {
    hide Claim;
    if order != [] {
      var n := |order| - 1;
      var i := order[n];
      FillIgnoresWeights(es, fs, m, order[..n]);
      ClaimIgnoresWeights(Fill(fs, m, order[..n]), es[i], fs[i], i);
    }
  }
}
