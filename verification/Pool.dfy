/** The trusted instance pool's lock-protected state (plecto/crates/host/src/lib.rs). */
module Pool {
  import opened Words

  const TRAP_BREAKER_THRESHOLD: nat := 3
  const TRAP_COOLDOWN_MS: nat := 500

  /** A pooled instance and the requests it has served since it was initialised. */
  datatype Instance = Instance(id: nat, served: nat)

  /** The interior behind the pool's lock. */
  datatype Inner = Inner(idle: seq<Instance>, live: nat, traps: nat, cooldownUntil: nat)

  datatype Verdict = Use(instance: Instance) | Build | Wait | Unavailable

  function Decrement(x: nat): nat {
    if x == 0 then 0 else x - 1
  }

  /** The decision a checkout makes under the lock. */
  function CheckOut(g: Inner, cap: nat, now: nat): (Inner, Verdict) {
    if now < g.cooldownUntil then (g, Unavailable)
    else if g.idle != [] then
      (g.(idle := g.idle[..|g.idle| - 1]), Use(g.idle[|g.idle| - 1]))
    else if g.live < cap then (g.(live := g.live + 1), Build)
    else (g, Wait)
  }

  /** A failed build gives its slot back. */
  function RollBack(g: Inner): Inner {
    g.(live := Decrement(g.live))
  }

  function ClearBreaker(g: Inner): Inner {
    g.(traps := 0, cooldownUntil := 0)
  }

  /** A success: the instance is recycled, or goes back to the idle list. */
  function CheckIn(g: Inner, returned: seq<Instance>): Inner {
    var h := ClearBreaker(g);
    if returned == [] then h.(live := Decrement(h.live)) else h.(idle := h.idle + returned)
  }

  /** When a cooldown opened at `now` ends. */
  function Expiry(now: nat): nat {
    Min(now + TRAP_COOLDOWN_MS, U64_MAX)
  }

  /** A trap: the slot is released and the breaker bumped, opening a cooldown at the threshold. */
  function RecordTrap(g: Inner, now: nat): Inner {
    var traps := Min(g.traps + 1, U32_MAX);
    Inner(g.idle, Decrement(g.live), traps,
          if traps >= TRAP_BREAKER_THRESHOLD then Expiry(now) else g.cooldownUntil)
  }

  // ---------- what the lock sections keep ----------

  /**
    `live` is exact and within the cap: every slot is an idle instance, or reserved by a request
    that is building, using or releasing one.
   */
  ghost predicate Accounted(g: Inner, reserved: int, cap: nat) {
    g.live == |g.idle| + reserved && g.live <= cap
  }

  /** A checkout takes its instance or its slot out of the pool exactly when it is let through. */
  lemma {:induction false} CheckOutAccounts(g: Inner, reserved: nat, cap: nat, now: nat)
    requires Accounted(g, reserved, cap)
    ensures ghost var (h, v) := CheckOut(g, cap, now);
            && Accounted(h, if v.Use? || v.Build? then reserved + 1 else reserved, cap)
            && (v.Unavailable? <==> now < g.cooldownUntil)
            && (v.Wait? <==> g.cooldownUntil <= now && g.idle == [] && reserved == cap)
            && (v.Use? ==> h.idle + [v.instance] == g.idle)
  {}

  /** Whoever holds a slot gives it back by an exact decrement, and a return keeps it as idle. */
  lemma {:induction false} GivingBackAccounts(g: Inner, reserved: nat, cap: nat, now: nat, i: Instance)
    requires Accounted(g, reserved, cap) && 0 < reserved
    ensures Accounted(RollBack(g), reserved - 1, cap) && RollBack(g).live == g.live - 1
    ensures Accounted(CheckIn(g, []), reserved - 1, cap) && CheckIn(g, []).live == g.live - 1
    ensures Accounted(CheckIn(g, [i]), reserved - 1, cap) && CheckIn(g, [i]).live == g.live
    ensures Accounted(RecordTrap(g, now), reserved - 1, cap) && RecordTrap(g, now).live == g.live - 1
  {}

  /** Slots are only ever given back by a request that holds one: `reserved` counts those. */
  class PoolInner {
    var idle: seq<Instance>
    var live: nat
    var traps: nat
    var cooldownUntil: nat
    ghost var reserved: nat

    ghost function View(): Inner
      reads this
    {
      Inner(idle, live, traps, cooldownUntil)
    }

    ghost predicate Valid(cap: nat)
      reads this
    {
      Accounted(View(), reserved, cap) && traps <= U32_MAX && cooldownUntil <= U64_MAX
    }

    /** One instance is built eagerly. */
    constructor (first: Instance, ghost cap: nat)
      requires 1 <= cap
      ensures Valid(cap) && reserved == 0 && View() == Inner([first], 1, 0, 0)
    {
      idle, live, traps, cooldownUntil := [first], 1, 0, 0;
      reserved := 0;
    }

    /** Refused exactly during a cooldown, kept waiting exactly when all slots are reserved. */
    method LockedCheckOut(cap: nat, now: nat) returns (v: Verdict)
      requires Valid(cap)
      modifies this
      ensures Valid(cap) && (View(), v) == CheckOut(old(View()), cap, now)
      ensures reserved == old(reserved) + (if v.Use? || v.Build? then 1 else 0)
      ensures v.Unavailable? <==> now < old(cooldownUntil)
      ensures v.Wait? <==> old(cooldownUntil) <= now && old(reserved) == cap
      ensures old(idle) == if v.Use? then idle + [v.instance] else idle
    {
      if now < cooldownUntil {
        return Unavailable;
      }
      if |idle| > 0 {
        v := Use(idle[|idle| - 1]);
        idle := idle[..|idle| - 1];
        reserved := reserved + 1;
      } else if live < cap {
        live := live + 1;
        reserved := reserved + 1;
        v := Build;
      } else {
        v := Wait;
      }
    }

    /** The saturating decrement, which never saturates for a request that holds a slot. */
    method ReleaseSlot(ghost cap: nat)
      requires Valid(cap) && 0 < reserved
      modifies this`live, this`reserved
      ensures Valid(cap) && live == old(live) - 1 && reserved == old(reserved) - 1
    {
      live := Decrement(live);
      reserved := reserved - 1;
    }

    method LockedRollBack(ghost cap: nat)
      requires Valid(cap) && 0 < reserved
      modifies this`live, this`reserved
      ensures Valid(cap) && live == old(live) - 1 && reserved == old(reserved) - 1
      ensures View() == RollBack(old(View()))
    {
      ReleaseSlot(cap);
    }

    method Clear()
      modifies this`traps, this`cooldownUntil
      ensures traps == 0 && cooldownUntil == 0
    {
      traps := 0;
      cooldownUntil := 0;
    }

    method LockedRecycle(ghost cap: nat)
      requires Valid(cap) && 0 < reserved
      modifies this
      ensures Valid(cap) && live == old(live) - 1 && reserved == old(reserved) - 1
      ensures View() == CheckIn(old(View()), [])
    {
      Clear();
      ReleaseSlot(cap);
    }

    /** The slot is kept: the request's reservation becomes an idle instance. */
    method LockedReturn(pooled: Instance, ghost cap: nat)
      requires Valid(cap) && 0 < reserved
      modifies this
      ensures Valid(cap) && live == old(live) && reserved == old(reserved) - 1
      ensures View() == CheckIn(old(View()), [pooled])
    {
      Clear();
      idle := idle + [pooled];
      reserved := reserved - 1;
    }

    method LockedTrap(now: nat, ghost cap: nat)
      requires Valid(cap) && 0 < reserved
      modifies this
      ensures Valid(cap) && live == old(live) - 1 && reserved == old(reserved) - 1
      ensures View() == RecordTrap(old(View()), now)
    {
      ReleaseSlot(cap);
      traps := Min(traps + 1, U32_MAX);
      if traps >= TRAP_BREAKER_THRESHOLD {
        cooldownUntil := Expiry(now);
      }
    }
  }
}
