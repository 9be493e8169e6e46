/** Every interleaving of requests through the trusted instance pool. */
module PoolRuns {
  import opened Arith
  import opened Measure
  import opened Pool
  import opened Words

  datatype Config = Config(cap: nat, maxRequests: nat)

  // ---------- threads ----------

  /** Where a request's thread stands; a thread without a request is not listed. */
  datatype Pc =
    | Checkout                          // about to take the lock
    | Waiting                           // in the timed wait for a free instance
    | Building                          // slot reserved, instantiating outside the lock
    | BuildFailed                       // about to give the slot back
    | Running(instance: Instance)       // the guest call is in progress
    | Finished(instance: Instance, ok: bool)
    | Returning(instance: Instance)     // about to push it to the idle list
    | Dropped(ok: bool)                 // instance dropped, slot not yet released

  datatype Event =
    | Admitted(now: nat)                // a checkout popped an instance or reserved a slot
    | Handed(id: nat)                   // an instance started a call
    | Trapped(id: nat)                  // an instance's call trapped
    | Success                           // a success was recorded under the lock
    | Trap(now: nat)                    // a trap was recorded under the lock

  type Tid = nat

  datatype State = State(inner: Inner, threads: map<Tid, Pc>, nextId: nat, log: seq<Event>)

  datatype Action =
    | Begin(t: Tid)
    | Lock(t: Tid, now: nat)
    | Wake(t: Tid)
    | TimeOut(t: Tid)
    | BuildDone(t: Tid, ok: bool)
    | GiveUp(t: Tid)
    | CallEnds(t: Tid, ok: bool)
    | Settle(t: Tid)
    | PutBack(t: Tid)
    | Release(t: Tid, now: nat)

  function Init(): State {
    State(Inner([Instance(0, 0)], 1, 0, 0), map[], 1, [])
  }

  function At(s: State, t: Tid, pc: Pc): State {
    s.(threads := s.threads[t := pc])
  }

  function Leave(s: State, t: Tid): State {
    s.(threads := s.threads - {t})
  }

  /** One step of one thread; an action that is not enabled changes nothing. */
  function Step(cfg: Config, s: State, a: Action): State {
    match a
    case Begin(t) => if t in s.threads then s else At(s, t, Checkout)
    case Lock(t, now) => if t in s.threads && s.threads[t].Checkout? then LockStep(cfg, s, t, now) else s
    case Wake(t) => if t in s.threads && s.threads[t].Waiting? then At(s, t, Checkout) else s
    case TimeOut(t) => if t in s.threads && s.threads[t].Waiting? then Leave(s, t) else s
    case BuildDone(t, ok) =>
      if t in s.threads && s.threads[t].Building? then
        if ok then
          At(s, t, Running(Instance(s.nextId, 0))).(nextId := s.nextId + 1, log := s.log + [Handed(s.nextId)])
        else At(s, t, BuildFailed)
      else s
    case GiveUp(t) =>
      if t in s.threads && s.threads[t].BuildFailed? then Leave(s, t).(inner := RollBack(s.inner)) else s
    case CallEnds(t, ok) =>
      if t in s.threads && s.threads[t].Running? then
        var i := s.threads[t].instance;
        At(s, t, Finished(i, ok)).(log := s.log + if ok then [] else [Trapped(i.id)])
      else s
    case Settle(t) =>
      if t in s.threads && s.threads[t].Finished? then At(s, t, Settled(cfg, s.threads[t])) else s
    case PutBack(t) =>
      if t in s.threads && s.threads[t].Returning? then
        Leave(s, t).(inner := CheckIn(s.inner, [s.threads[t].instance]), log := s.log + [Success])
      else s
    case Release(t, now) =>
      if t in s.threads && s.threads[t].Dropped? then
        if s.threads[t].ok then Leave(s, t).(inner := CheckIn(s.inner, []), log := s.log + [Success])
        else Leave(s, t).(inner := RecordTrap(s.inner, now), log := s.log + [Trap(now)])
      else s
  }

  function LockStep(cfg: Config, s: State, t: Tid, now: nat): State {
    var (g, v) := CheckOut(s.inner, cfg.cap, now);
    match v
    case Use(i) => At(s, t, Running(i)).(inner := g, log := s.log + [Admitted(now), Handed(i.id)])
    case Build => At(s, t, Building).(inner := g, log := s.log + [Admitted(now)])
    case Wait => At(s, t, Waiting).(inner := g)
    case Unavailable => Leave(s, t).(inner := g)
  }

  /** After the call: recycle at the request limit, return below it, discard on a trap. */
  function Settled(cfg: Config, pc: Pc): Pc
    requires pc.Finished?
  {
    if !pc.ok then Dropped(false)
    else
      var i := Instance(pc.instance.id, pc.instance.served + 1);
      if i.served >= cfg.maxRequests then Dropped(true) else Returning(i)
  }

  ghost function Run(cfg: Config, actions: seq<Action>): State {
    if actions == [] then Init()
    else Step(cfg, Run(cfg, actions[..|actions| - 1]), actions[|actions| - 1])
  }

  // ---------- slots ----------

  /** The thread accounts for one of the pool's slots. */
  function Reserves(pc: Pc): int {
    match pc
    case Checkout => 0
    case Waiting => 0
    case _ => 1
  }

  /** The thread's instance physically exists, or may be coming into existence. */
  function Exists(pc: Pc): int {
    match pc
    case Building => 1
    case Running(_) => 1
    case Finished(_, _) => 1
    case Returning(_) => 1
    case _ => 0
  }

  ghost function ReservesOf(): (Tid, Pc) -> int {
    (t: Tid, pc: Pc) => Reserves(pc)
  }

  ghost function ExistsOf(): (Tid, Pc) -> int {
    (t: Tid, pc: Pc) => Exists(pc)
  }

  /** `live` is exact, and within the cap. */
  ghost predicate SlotsExact(cfg: Config, s: State) {
    Accounted(s.inner, Total(s.threads, ReservesOf()), cfg.cap)
  }

  lemma {:induction false} LeaveReserves(s: State, t: Tid)
    requires t in s.threads
    ensures Total(s.threads - {t}, ReservesOf()) == Total(s.threads, ReservesOf()) - Reserves(s.threads[t])
  {
    TotalRemove(s.threads, ReservesOf(), t);
  }

  lemma {:induction false} AtReserves(s: State, t: Tid, pc: Pc)
    ensures Total(s.threads[t := pc], ReservesOf())
            == Total(s.threads, ReservesOf()) - (if t in s.threads then Reserves(s.threads[t]) else 0) + Reserves(pc)
  {
    TotalPut(s.threads, ReservesOf(), t, pc);
  }

  lemma {:induction false} ReservesNonnegative(threads: map<Tid, Pc>)
    ensures 0 <= Total(threads, ReservesOf())
    ensures Total(threads, ExistsOf()) <= Total(threads, ReservesOf())
    decreases threads.Keys
  {
    if threads.Keys == {} {
      assert threads == map[];
      TotalEmpty(ReservesOf());
      TotalEmpty(ExistsOf());
    } else {
      var t :| t in threads;
      TotalRemove(threads, ReservesOf(), t);
      TotalRemove(threads, ExistsOf(), t);
      ReservesNonnegative(threads - {t});
    }
  }

  /** A slot is only given back by a thread that holds one, so no decrement saturates. */
  lemma {:induction false} NoDecrementSaturates(cfg: Config, s: State, t: Tid)
    requires SlotsExact(cfg, s) && t in s.threads && Reserves(s.threads[t]) == 1
    ensures 1 <= s.inner.live
  {
    LeaveReserves(s, t);
    ReservesNonnegative(s.threads - {t});
  }

  lemma {:induction false} StepKeepsSlots(cfg: Config, s: State, a: Action)
    requires SlotsExact(cfg, s)
    ensures SlotsExact(cfg, Step(cfg, s, a))
  {
    hide Total;
    var t, s' := a.t, Step(cfg, s, a);
    if t in s.threads {
      LeaveReserves(s, t);
      AtReserves(s, t, Checkout);
      AtReserves(s, t, Waiting);
      AtReserves(s, t, Building);
      AtReserves(s, t, BuildFailed);
      if Reserves(s.threads[t]) == 1 {
        NoDecrementSaturates(cfg, s, t);
      }
      if t in s'.threads {
        AtReserves(s, t, s'.threads[t]);
      }
    } else {
      AtReserves(s, t, Checkout);
    }
  }

  // ---------- instances ----------

  predicate Holds(pc: Pc) {
    pc.Running? || pc.Finished? || pc.Returning?
  }

  /** Every instance is in one place: once in the idle list, or with one thread. */
  ghost predicate Exclusive(idle: seq<Instance>, threads: map<Tid, Pc>, nextId: nat) {
    && (forall i :: 0 <= i < |idle| ==> idle[i].id < nextId)
    && (forall i, j :: 0 <= i < j < |idle| ==> idle[i].id != idle[j].id)
    && (forall t :: t in threads && Holds(threads[t]) ==> threads[t].instance.id < nextId)
    && (forall t, u :: t in threads && u in threads && t != u && Holds(threads[t]) && Holds(threads[u]) ==>
          threads[t].instance.id != threads[u].instance.id)
    && (forall t, i :: t in threads && Holds(threads[t]) && 0 <= i < |idle| ==>
          threads[t].instance.id != idle[i].id)
  }

  /** A thread moves on with the instance it had, or with none. */
  lemma {:induction false} MoveKeepsExclusive(idle: seq<Instance>, threads: map<Tid, Pc>, nextId: nat, t: Tid, pc: Pc)
    requires Exclusive(idle, threads, nextId)
    requires Holds(pc) ==> t in threads && Holds(threads[t]) && threads[t].instance.id == pc.instance.id
    ensures Exclusive(idle, threads[t := pc], nextId)
  {}

  lemma {:induction false} LeaveKeepsExclusive(idle: seq<Instance>, threads: map<Tid, Pc>, nextId: nat, t: Tid)
    requires Exclusive(idle, threads, nextId)
    ensures Exclusive(idle, threads - {t}, nextId)
  {}

  lemma {:induction false} PopKeepsExclusive(idle: seq<Instance>, threads: map<Tid, Pc>, nextId: nat, t: Tid)
    requires Exclusive(idle, threads, nextId) && idle != []
    ensures Exclusive(idle[..|idle| - 1], threads[t := Running(idle[|idle| - 1])], nextId)
  {}

  lemma {:induction false} NewKeepsExclusive(idle: seq<Instance>, threads: map<Tid, Pc>, nextId: nat, t: Tid)
    requires Exclusive(idle, threads, nextId)
    ensures Exclusive(idle, threads[t := Running(Instance(nextId, 0))], nextId + 1)
  {}

  lemma {:induction false} PutBackKeepsExclusive(idle: seq<Instance>, threads: map<Tid, Pc>, nextId: nat, t: Tid)
    requires Exclusive(idle, threads, nextId) && t in threads && Holds(threads[t])
    ensures Exclusive(idle + [threads[t].instance], threads - {t}, nextId)
  {}

  lemma {:induction false} StepKeepsExclusive(cfg: Config, s: State, a: Action)
    requires Exclusive(s.inner.idle, s.threads, s.nextId)
    ensures ghost var s' := Step(cfg, s, a); Exclusive(s'.inner.idle, s'.threads, s'.nextId)
  {
    hide Exclusive;
    var t, s', idle := a.t, Step(cfg, s, a), s.inner.idle;
    LeaveKeepsExclusive(idle, s.threads, s.nextId, t);
    if a.PutBack? && t in s.threads && s.threads[t].Returning? {
      PutBackKeepsExclusive(idle, s.threads, s.nextId, t);
    } else if a.BuildDone? && t in s.threads && s.threads[t].Building? && a.ok {
      NewKeepsExclusive(idle, s.threads, s.nextId, t);
    } else if a.Lock? && t in s.threads && s.threads[t].Checkout? && CheckOut(s.inner, cfg.cap, a.now).1.Use? {
      PopKeepsExclusive(idle, s.threads, s.nextId, t);
    } else if s' != s && t in s'.threads {
      MoveKeepsExclusive(idle, s.threads, s.nextId, t, s'.threads[t]);
    }
  }

  // ---------- how often an instance is used ----------

  /** How many calls instance `id` has been given. */
  ghost function HandedCount(log: seq<Event>, id: nat): nat {
    if log == [] then 0
    else HandedCount(log[..|log| - 1], id) + (if log[|log| - 1] == Handed(id) then 1 else 0)
  }

  lemma {:induction false} HandedAppend(log: seq<Event>, e: Event, id: nat)
    ensures HandedCount(log + [e], id) == HandedCount(log, id) + (if e == Handed(id) then 1 else 0)
  {
    assert (log + [e])[..|log|] == log;
  }

  lemma {:induction false} HandedAppendTwo(log: seq<Event>, e: Event, f: Event, id: nat)
    ensures HandedCount(log + [e, f], id)
            == HandedCount(log, id) + (if e == Handed(id) then 1 else 0) + (if f == Handed(id) then 1 else 0)
  {
    HandedAppend(log, e, id);
    HandedAppend(log + [e], f, id);
    assert log + [e, f] == log + [e] + [f];
  }

  function Limit(cfg: Config): nat {
    if cfg.maxRequests < 1 then 1 else cfg.maxRequests
  }

  /** An instance's count of served requests agrees with the log, and stays below the limit. */
  ghost predicate CountsAgree(cfg: Config, idle: seq<Instance>, threads: map<Tid, Pc>, nextId: nat, log: seq<Event>) {
    && (forall i :: 0 <= i < |idle| ==> HandedCount(log, idle[i].id) == idle[i].served < Limit(cfg))
    && (forall t :: t in threads && Holds(threads[t]) ==> HolderAgrees(cfg, log, threads[t]))
    && (forall id: nat :: nextId <= id ==> HandedCount(log, id) == 0)
    && (forall id: nat :: HandedCount(log, id) <= Limit(cfg))
  }

  ghost predicate HolderAgrees(cfg: Config, log: seq<Event>, pc: Pc)
    requires Holds(pc)
  {
    && HandedCount(log, pc.instance.id) == pc.instance.served + (if pc.Returning? then 0 else 1)
    && pc.instance.served < Limit(cfg)
  }

  /** `log'` has one more hand-out, of instance `x`. */
  ghost predicate OneMore(log: seq<Event>, log': seq<Event>, x: nat) {
    forall id: nat :: HandedCount(log', id) == HandedCount(log, id) + (if id == x then 1 else 0)
  }

  ghost predicate SameCounts(log: seq<Event>, log': seq<Event>) {
    forall id: nat :: HandedCount(log', id) == HandedCount(log, id)
  }

  lemma {:induction false} MoveKeepsCounts(cfg: Config, idle: seq<Instance>, threads: map<Tid, Pc>, nextId: nat,
                        log: seq<Event>, log': seq<Event>, t: Tid, pc: Pc)
    requires CountsAgree(cfg, idle, threads, nextId, log) && SameCounts(log, log')
    requires Holds(pc) ==> HolderAgrees(cfg, log, pc)
    ensures CountsAgree(cfg, idle, threads[t := pc], nextId, log')
    ensures CountsAgree(cfg, idle, threads - {t}, nextId, log')
  {
    hide HandedCount;
  }

  lemma {:induction false} PopKeepsCounts(cfg: Config, idle: seq<Instance>, threads: map<Tid, Pc>, nextId: nat,
                       log: seq<Event>, log': seq<Event>, t: Tid)
    requires CountsAgree(cfg, idle, threads, nextId, log) && Exclusive(idle, threads, nextId)
    requires idle != [] && OneMore(log, log', idle[|idle| - 1].id)
    ensures CountsAgree(cfg, idle[..|idle| - 1], threads[t := Running(idle[|idle| - 1])], nextId, log')
  {
    hide HandedCount;
  }

  lemma {:induction false} NewKeepsCounts(cfg: Config, idle: seq<Instance>, threads: map<Tid, Pc>, nextId: nat,
                       log: seq<Event>, log': seq<Event>, t: Tid)
    requires CountsAgree(cfg, idle, threads, nextId, log) && Exclusive(idle, threads, nextId)
    requires OneMore(log, log', nextId)
    ensures CountsAgree(cfg, idle, threads[t := Running(Instance(nextId, 0))], nextId + 1, log')
  {
    hide HandedCount;
  }

  lemma {:induction false} PutBackKeepsCounts(cfg: Config, idle: seq<Instance>, threads: map<Tid, Pc>, nextId: nat,
                           log: seq<Event>, log': seq<Event>, t: Tid)
    requires CountsAgree(cfg, idle, threads, nextId, log) && SameCounts(log, log')
    requires t in threads && threads[t].Returning?
    ensures CountsAgree(cfg, idle + [threads[t].instance], threads - {t}, nextId, log')
  {
    hide HandedCount;
  }

  lemma {:induction false} OtherEvent(log: seq<Event>, e: Event)
    requires !e.Handed?
    ensures SameCounts(log, log + [e])
  {
    forall id: nat ensures HandedCount(log + [e], id) == HandedCount(log, id) {
      HandedAppend(log, e, id);
    }
  }

  lemma {:induction false} HandedEvent(log: seq<Event>, x: nat)
    ensures OneMore(log, log + [Handed(x)], x)
    ensures forall now :: OneMore(log, log + [Admitted(now), Handed(x)], x)
  {
    forall id: nat, now
      ensures HandedCount(log + [Handed(x)], id) == HandedCount(log, id) + (if id == x then 1 else 0)
      ensures HandedCount(log + [Admitted(now), Handed(x)], id) == HandedCount(log, id) + (if id == x then 1 else 0)
    {
      HandedAppend(log, Handed(x), id);
      HandedAppendTwo(log, Admitted(now), Handed(x), id);
    }
  }

  ghost predicate Counted(cfg: Config, s: State) {
    CountsAgree(cfg, s.inner.idle, s.threads, s.nextId, s.log)
  }

  /** The single event, if any, by which a step that hands out nothing grows the log. */
  lemma {:induction false} QuietStep(cfg: Config, s: State, a: Action)
    requires !HandsOut(cfg, s, a)
    ensures SameCounts(s.log, Step(cfg, s, a).log)
  {
    var log' := Step(cfg, s, a).log;
    assert s.log + [] == s.log;
    if log' != s.log {
      OtherEvent(s.log, log'[|s.log|]);
      assert log' == s.log + [log'[|s.log|]];
    }
  }

  ghost predicate HandsOut(cfg: Config, s: State, a: Action) {
    a.t in s.threads && match a
                        case Lock(t, now) => s.threads[t].Checkout? && CheckOut(s.inner, cfg.cap, now).1.Use?
                        case BuildDone(t, ok) => s.threads[t].Building? && ok
                        case _ => false
  }

  lemma {:induction false} StepKeepsCounts(cfg: Config, s: State, a: Action)
    requires Exclusive(s.inner.idle, s.threads, s.nextId) && Counted(cfg, s)
    ensures Counted(cfg, Step(cfg, s, a))
  {
    var t, s', idle := a.t, Step(cfg, s, a), s.inner.idle;
    if HandsOut(cfg, s, a) {
      hide HandedCount, CountsAgree, Exclusive, OneMore;
      if a.Lock? {
        HandedEvent(s.log, idle[|idle| - 1].id);
        PopKeepsCounts(cfg, idle, s.threads, s.nextId, s.log, s'.log, t);
      } else {
        HandedEvent(s.log, s.nextId);
        NewKeepsCounts(cfg, idle, s.threads, s.nextId, s.log, s'.log, t);
      }
    } else {
      QuietStep(cfg, s, a);
      QuietCounts(cfg, s, a);
    }
  }

  lemma {:induction false} QuietCounts(cfg: Config, s: State, a: Action)
    requires Counted(cfg, s) && !HandsOut(cfg, s, a) && SameCounts(s.log, Step(cfg, s, a).log)
    ensures Counted(cfg, Step(cfg, s, a))
  {
    var t, s', idle := a.t, Step(cfg, s, a), s.inner.idle;
    if t in s.threads && Holds(s.threads[t]) {
      assert HolderAgrees(cfg, s.log, s.threads[t]);
    }
    hide HandedCount, CountsAgree, SameCounts;
    if a.PutBack? && t in s.threads && s.threads[t].Returning? {
      PutBackKeepsCounts(cfg, idle, s.threads, s.nextId, s.log, s'.log, t);
    } else if s' != s {
      MoveKeepsCounts(cfg, idle, s.threads, s.nextId, s.log, s'.log, t,
                      if t in s'.threads then s'.threads[t] else Checkout);
    }
  }

  // ---------- trapped instances ----------

  /** The events a step logs. */
  ghost function Logged(cfg: Config, s: State, a: Action): (es: seq<Event>)
    ensures Step(cfg, s, a).log == s.log + es
  {
    var es := Step(cfg, s, a).log[|s.log|..];
    assert Step(cfg, s, a).log == s.log + es;
    es
  }

  /** No instance is handed out after its call has trapped. */
  ghost predicate NoReuse(log: seq<Event>) {
    forall i, j :: 0 <= i < j < |log| && log[i].Trapped? && log[j].Handed? ==> log[i].id != log[j].id
  }

  /** A trapped instance is out of the idle list, and at most waiting to be dropped. */
  ghost predicate Discarded(s: State, id: nat) {
    && (forall i :: 0 <= i < |s.inner.idle| ==> s.inner.idle[i].id != id)
    && (forall t :: t in s.threads && Holds(s.threads[t]) && s.threads[t].instance.id == id ==>
          s.threads[t].Finished? && !s.threads[t].ok)
    && id < s.nextId
  }

  ghost predicate TrapsDiscard(s: State) {
    NoReuse(s.log) && forall i :: 0 <= i < |s.log| && s.log[i].Trapped? ==> Discarded(s, s.log[i].id)
  }

  /** A discarded instance stays discarded, and a step does not hand it out. */
  lemma {:induction false} StaysDiscarded(cfg: Config, s: State, a: Action, id: nat)
    requires Discarded(s, id)
    ensures Discarded(Step(cfg, s, a), id) && Handed(id) !in Logged(cfg, s, a)
  {
    NotHandedOut(cfg, s, a, id);
  }

  lemma {:induction false} NotHandedOut(cfg: Config, s: State, a: Action, id: nat)
    requires Discarded(s, id)
    ensures Handed(id) !in Logged(cfg, s, a)
  {}

  lemma {:induction false} StepKeepsDiscards(cfg: Config, s: State, a: Action)
    requires Exclusive(s.inner.idle, s.threads, s.nextId) && TrapsDiscard(s)
    ensures TrapsDiscard(Step(cfg, s, a))
  {
    var s', es := Step(cfg, s, a), Logged(cfg, s, a);
    forall i | 0 <= i < |s.log| && s.log[i].Trapped?
      ensures Discarded(s', s.log[i].id) && Handed(s.log[i].id) !in es
    {
      StaysDiscarded(cfg, s, a, s.log[i].id);
    }
    NewTrap(cfg, s, a);
    hide Step, Discarded, Exclusive;
    forall i | 0 <= i < |s'.log| && s'.log[i].Trapped? ensures Discarded(s', s'.log[i].id) {
      if i >= |s.log| {
        assert s'.log[i] == es[i - |s.log|];
      }
    }
    forall i, j | 0 <= i < j < |s'.log| && s'.log[i].Trapped? && s'.log[j].Handed? ensures s'.log[i].id != s'.log[j].id {
      if j >= |s.log| {
        assert s'.log[j] == es[j - |s.log|];
      }
    }
  }

  /** A trap is logged on its own, when the instance is with its thread only. */
  lemma {:induction false} NewTrap(cfg: Config, s: State, a: Action)
    requires Exclusive(s.inner.idle, s.threads, s.nextId)
    ensures ghost var es := Logged(cfg, s, a);
            forall i :: 0 <= i < |es| && es[i].Trapped? ==> |es| == 1 && Discarded(Step(cfg, s, a), es[i].id)
  {}

  // ---------- when an instance leaves the pool ----------

  /** The thread keeps instance `id` and has not seen it trap. */
  predicate Keeps(pc: Pc, id: nat) {
    Holds(pc) && pc.instance.id == id && !(pc.Finished? && !pc.ok)
  }

  /** An instance that was built is still in the pool, has trapped, or has served its limit. */
  ghost predicate AccountedFor(cfg: Config, s: State, id: nat) {
    || (exists i :: 0 <= i < |s.inner.idle| && s.inner.idle[i].id == id)
    || (exists t :: t in s.threads && Keeps(s.threads[t], id))
    || Trapped(id) in s.log
    || HandedCount(s.log, id) == Limit(cfg)
  }

  ghost predicate NothingWasted(cfg: Config, s: State) {
    forall id: nat :: id < s.nextId ==> AccountedFor(cfg, s, id)
  }

  lemma {:induction false} HandedGrows(log: seq<Event>, es: seq<Event>, id: nat)
    ensures HandedCount(log, id) <= HandedCount(log + es, id)
    decreases |es|
  {
    if es == [] {
      assert log + es == log;
    } else {
      var n := |es| - 1;
      HandedGrows(log, es[..n], id);
      HandedAppend(log + es[..n], es[n], id);
      assert log + es == log + es[..n] + [es[n]];
    }
  }

  /** An idle instance stays idle or is handed to the thread that pops it. */
  lemma {:induction false} IdleStaysAccounted(cfg: Config, s: State, a: Action, i: nat)
    requires i < |s.inner.idle|
    ensures AccountedFor(cfg, Step(cfg, s, a), s.inner.idle[i].id)
  {
    var s', id := Step(cfg, s, a), s.inner.idle[i].id;
    if i < |s'.inner.idle| {
      assert s'.inner.idle[i].id == id;
    } else {
      assert a.t in s'.threads && Keeps(s'.threads[a.t], id);
    }
  }

  /** A kept instance stays kept, goes back to the idle list, traps, or has served its limit. */
  lemma {:induction false} KeptStaysAccounted(cfg: Config, s: State, a: Action, t: Tid)
    requires Counted(cfg, s) && t in s.threads && Holds(s.threads[t]) && Keeps(s.threads[t], s.threads[t].instance.id)
    ensures AccountedFor(cfg, Step(cfg, s, a), s.threads[t].instance.id)
  {
    var s', id := Step(cfg, s, a), s.threads[t].instance.id;
    assert HolderAgrees(cfg, s.log, s.threads[t]);
    hide HandedCount, CountsAgree;
    if t in s'.threads && Keeps(s'.threads[t], id) {
    } else if a.PutBack? {
      assert s'.inner.idle[|s.inner.idle|].id == id;
    } else if a.CallEnds? {
      assert s'.log[|s.log|] == Trapped(id);
    } else {
      assert s'.log == s.log;
    }
  }

  lemma {:induction false} GoneStaysAccounted(cfg: Config, s: State, a: Action, id: nat)
    requires Counted(cfg, Step(cfg, s, a)) && (Trapped(id) in s.log || HandedCount(s.log, id) == Limit(cfg))
    ensures AccountedFor(cfg, Step(cfg, s, a), id)
  {
    hide Step;
    var es := Logged(cfg, s, a);
    HandedGrows(s.log, es, id);
  }

  lemma {:induction false} StepWastesNothing(cfg: Config, s: State, a: Action)
    requires Counted(cfg, s) && Counted(cfg, Step(cfg, s, a)) && NothingWasted(cfg, s)
    ensures NothingWasted(cfg, Step(cfg, s, a))
  {
    hide Counted, HandedCount, Step;
    var s' := Step(cfg, s, a);
    forall id: nat | id < s'.nextId ensures AccountedFor(cfg, s', id) {
      if s.nextId <= id {
        NewIsKept(cfg, s, a, id);
      } else {
        assert AccountedFor(cfg, s, id);
        if i :| 0 <= i < |s.inner.idle| && s.inner.idle[i].id == id {
          IdleStaysAccounted(cfg, s, a, i);
        } else if t :| t in s.threads && Keeps(s.threads[t], id) {
          KeptStaysAccounted(cfg, s, a, t);
        } else {
          GoneStaysAccounted(cfg, s, a, id);
        }
      }
    }
  }

  lemma {:induction false} NewIsKept(cfg: Config, s: State, a: Action, id: nat)
    requires s.nextId <= id < Step(cfg, s, a).nextId
    ensures AccountedFor(cfg, Step(cfg, s, a), id)
  {
    var s' := Step(cfg, s, a);
    assert a.t in s'.threads && Keeps(s'.threads[a.t], id);
  }

  // ---------- the breaker ----------

  /** Recorded traps since the last recorded success. */
  ghost function TrapsSince(log: seq<Event>): nat {
    if log == [] then 0
    else
      match log[|log| - 1]
      case Success => 0
      case Trap(_) => TrapsSince(log[..|log| - 1]) + 1
      case _ => TrapsSince(log[..|log| - 1])
  }

  /** Until when the log says the breaker is open. */
  ghost function OpenUntil(log: seq<Event>): nat {
    if log == [] then 0
    else
      match log[|log| - 1]
      case Success => 0
      case Trap(now) =>
        if TrapsSince(log) >= TRAP_BREAKER_THRESHOLD then Expiry(now)
        else OpenUntil(log[..|log| - 1])
      case _ => OpenUntil(log[..|log| - 1])
  }

  /** The breaker's fields are what the log says, and nothing was admitted while it was open. */
  ghost predicate BreakerFollowsLog(s: State) {
    && s.inner.traps == Min(TrapsSince(s.log), U32_MAX)
    && s.inner.cooldownUntil == OpenUntil(s.log)
    && forall j :: 0 <= j < |s.log| && s.log[j].Admitted? ==> OpenUntil(s.log[..j]) <= s.log[j].now
  }

  lemma {:induction false} LogOne(log: seq<Event>, e: Event)
    ensures TrapsSince(log + [e]) == (if e.Success? then 0 else TrapsSince(log) + (if e.Trap? then 1 else 0))
    ensures OpenUntil(log + [e])
            == (if e.Success? then 0
                else if e.Trap? && TrapsSince(log) + 1 >= TRAP_BREAKER_THRESHOLD then Expiry(e.now)
                else OpenUntil(log))
  {
    assert (log + [e])[..|log|] == log;
  }

  ghost predicate AdmittedWhenClosed(log: seq<Event>) {
    forall j :: 0 <= j < |log| && log[j].Admitted? ==> OpenUntil(log[..j]) <= log[j].now
  }

  lemma {:induction false} AdmittedExtends(log: seq<Event>, e: Event)
    requires AdmittedWhenClosed(log) && (e.Admitted? ==> OpenUntil(log) <= e.now)
    ensures AdmittedWhenClosed(log + [e])
  {
    hide OpenUntil;
    var l := log + [e];
    forall j | 0 <= j < |l| && l[j].Admitted? ensures OpenUntil(l[..j]) <= l[j].now {
      if j < |log| {
        assert l[..j] == log[..j];
      } else {
        assert l[..j] == log;
      }
    }
  }

  /** One logged event matched by the inner state. */
  lemma {:induction false} OneEvent(s: State, g: Inner, e: Event)
    requires BreakerFollowsLog(s) && (e.Admitted? ==> s.inner.cooldownUntil <= e.now)
    requires e.Success? ==> g.traps == 0 && g.cooldownUntil == 0
    requires e.Trap? ==> g.traps == RecordTrap(s.inner, e.now).traps
                         && g.cooldownUntil == RecordTrap(s.inner, e.now).cooldownUntil
    requires !e.Success? && !e.Trap? ==> g.traps == s.inner.traps && g.cooldownUntil == s.inner.cooldownUntil
    ensures BreakerFollowsLog(State(g, s.threads, s.nextId, s.log + [e]))
  {
    LogOne(s.log, e);
    AdmittedExtends(s.log, e);
    hide TrapsSince, OpenUntil;
  }

  lemma {:induction false} StepKeepsBreaker(cfg: Config, s: State, a: Action)
    requires BreakerFollowsLog(s)
    ensures BreakerFollowsLog(Step(cfg, s, a))
  {
    var s' := Step(cfg, s, a);
    hide BreakerFollowsLog;
    if |s'.log| == |s.log| {
      QuietBreaker(cfg, s, a);
    } else if |s'.log| == |s.log| + 1 {
      OneEvent(s, s'.inner, s'.log[|s.log|]);
      assert s'.log == s.log + [s'.log[|s.log|]];
      SameBreaker(State(s'.inner, s.threads, s.nextId, s'.log), s');
    } else {
      var e, f := s'.log[|s.log|], s'.log[|s.log| + 1];
      OneEvent(s, s'.inner, e);
      OneEvent(State(s'.inner, s.threads, s.nextId, s.log + [e]), s'.inner, f);
      assert s'.log == s.log + [e] + [f];
      SameBreaker(State(s'.inner, s.threads, s.nextId, s'.log), s');
    }
  }

  /** The breaker predicate reads only the inner state and the log. */
  lemma {:induction false} SameBreaker(s: State, s': State)
    requires BreakerFollowsLog(s) && s.log == s'.log
    requires s.inner.traps == s'.inner.traps && s.inner.cooldownUntil == s'.inner.cooldownUntil
    ensures BreakerFollowsLog(s')
  {}

  lemma {:induction false} QuietBreaker(cfg: Config, s: State, a: Action)
    requires BreakerFollowsLog(s) && |Step(cfg, s, a).log| == |s.log|
    ensures BreakerFollowsLog(Step(cfg, s, a))
  {
    hide BreakerFollowsLog;
    var s' := Step(cfg, s, a);
    assert s'.log == s.log;
    SameBreaker(s, s');
  }

  // ---------- every run ----------

  ghost predicate Safe(cfg: Config, s: State) {
    && SlotsExact(cfg, s)
    && Exclusive(s.inner.idle, s.threads, s.nextId)
    && Counted(cfg, s)
    && TrapsDiscard(s)
    && BreakerFollowsLog(s)
    && NothingWasted(cfg, s)
  }

  lemma {:induction false} InitIsSafe(cfg: Config)
    requires 1 <= cfg.cap
    ensures Safe(cfg, Init())
  {
    TotalEmpty(ReservesOf());
    assert Init().inner.idle[0].id == 0;
  }

  /** Every interleaving of every set of requests keeps the pool safe. */
  lemma {:induction false} EveryRunIsSafe(cfg: Config, actions: seq<Action>)
    requires 1 <= cfg.cap
    ensures Safe(cfg, Run(cfg, actions))
  {
    hide SlotsExact, Exclusive, Counted, TrapsDiscard, BreakerFollowsLog, NothingWasted, Step;
    if actions == [] {
      InitIsSafe(cfg);
    } else {
      var s, a := Run(cfg, actions[..|actions| - 1]), actions[|actions| - 1];
      EveryRunIsSafe(cfg, actions[..|actions| - 1]);
      StepKeepsSlots(cfg, s, a);
      StepKeepsExclusive(cfg, s, a);
      StepKeepsCounts(cfg, s, a);
      StepKeepsDiscards(cfg, s, a);
      StepKeepsBreaker(cfg, s, a);
      StepWastesNothing(cfg, s, a);
    }
  }

  /**
    In every reachable state `live` counts exactly the idle, building, held and not yet released
    instances; the instances that physically exist never exceed the cap.
   */
  lemma {:induction false} CapIsNeverExceeded(cfg: Config, actions: seq<Action>)
    requires 1 <= cfg.cap
    ensures ghost var s := Run(cfg, actions);
            && s.inner.live == |s.inner.idle| + Total(s.threads, ReservesOf())
            && |s.inner.idle| + Total(s.threads, ExistsOf()) <= s.inner.live <= cfg.cap
            && forall t :: t in s.threads && Reserves(s.threads[t]) == 1 ==> 1 <= s.inner.live
  {
    EveryRunIsSafe(cfg, actions);
    var s := Run(cfg, actions);
    hide Run;
    ReservesNonnegative(s.threads);
    forall t | t in s.threads && Reserves(s.threads[t]) == 1 ensures 1 <= s.inner.live {
      NoDecrementSaturates(cfg, s, t);
    }
  }

  /** The breaker's counter is the number of traps recorded since the last recorded success. */
  lemma {:induction false} BreakerCountsTraps(cfg: Config, actions: seq<Action>)
    requires 1 <= cfg.cap
    ensures ghost var s := Run(cfg, actions);
            s.inner.traps == Min(TrapsSince(s.log), 0xFFFF_FFFF) && s.inner.cooldownUntil == OpenUntil(s.log)
  {
    EveryRunIsSafe(cfg, actions);
  }

  /** An instance is never with two requests, and never idle while it is with one. */
  lemma {:induction false} HeldByOneRequest(cfg: Config, actions: seq<Action>, t: Tid, u: Tid)
    requires 1 <= cfg.cap
    ensures ghost var s := Run(cfg, actions);
            (t in s.threads && u in s.threads && Holds(s.threads[t]) && Holds(s.threads[u])
             && s.threads[t].instance.id == s.threads[u].instance.id) ==> t == u
    ensures ghost var s := Run(cfg, actions);
            t in s.threads && Holds(s.threads[t]) ==>
              forall i :: 0 <= i < |s.inner.idle| ==> s.inner.idle[i].id != s.threads[t].instance.id
  {
    EveryRunIsSafe(cfg, actions);
    hide Run;
  }

  /** No instance is given more than `max(1, maxRequests)` calls, and none after a trap. */
  lemma {:induction false} BoundedReuse(cfg: Config, actions: seq<Action>, id: nat)
    requires 1 <= cfg.cap
    ensures HandedCount(Run(cfg, actions).log, id) <= Limit(cfg)
    ensures NoReuse(Run(cfg, actions).log)
  {
    EveryRunIsSafe(cfg, actions);
    hide Run;
  }

  /**
    The converse: an instance leaves the pool only by a trap or at its limit. Each one that was
    built is idle, with a thread, has trapped, or has been given exactly `max(1, maxRequests)` calls.
   */
  lemma {:induction false} LeavesOnlyWorn(cfg: Config, actions: seq<Action>, id: nat)
    requires 1 <= cfg.cap && id < Run(cfg, actions).nextId
    ensures ghost var s := Run(cfg, actions);
            || (exists i :: 0 <= i < |s.inner.idle| && s.inner.idle[i].id == id)
            || (exists t :: t in s.threads && Holds(s.threads[t]) && s.threads[t].instance.id == id)
            || Trapped(id) in s.log
            || HandedCount(s.log, id) == Limit(cfg)
  {
    EveryRunIsSafe(cfg, actions);
    hide Run, HandedCount, SlotsExact, Exclusive, Counted, TrapsDiscard, BreakerFollowsLog;
    assert AccountedFor(cfg, Run(cfg, actions), id);
  }

  // ---------- what a request's own steps do ----------

  /** The action is the thread's next step. */
  predicate Expects(pc: Pc, a: Action) {
    match pc
    case Checkout => a.Lock?
    case Waiting => a.Wake? || a.TimeOut?
    case Building => a.BuildDone?
    case BuildFailed => a.GiveUp?
    case Running(_) => a.CallEnds?
    case Finished(_, _) => a.Settle?
    case Returning(_) => a.PutBack?
    case Dropped(_) => a.Release?
  }

  function Stage(pc: Pc): nat {
    match pc
    case Checkout => 0
    case Waiting => 1
    case Building => 1
    case BuildFailed => 2
    case Running(_) => 2
    case Finished(_, _) => 3
    case Returning(_) => 4
    case Dropped(_) => 4
  }

  /**
    Only a thread's next step changes the pool, and it moves that thread alone: on by a stage, out
    of the pool, or from a wait back to the lock. So between waits a request takes at most five.
   */
  lemma {:induction false} EveryStepAdvances(cfg: Config, s: State, a: Action)
    ensures ghost var s' := Step(cfg, s, a);
            && (forall u :: u != a.t ==> (u in s'.threads <==> u in s.threads) && (u in s.threads ==> s'.threads[u] == s.threads[u]))
            && (if a.t !in s.threads then
                  if a.Begin? then s' == State(s.inner, s'.threads, s.nextId, s.log) && a.t in s'.threads && s'.threads[a.t] == Checkout
                  else s' == s
                else if !Expects(s.threads[a.t], a) then s' == s
                else if a.Wake? then a.t in s'.threads && s'.threads[a.t] == Checkout
                else a.t !in s'.threads || Stage(s.threads[a.t]) < Stage(s'.threads[a.t]) <= 4)
  {}

  /**
    A request that takes the lock leaves exactly when it is refused, is given the last idle
    instance exactly when there is one, and otherwise builds or, with every slot reserved, waits.
   */
  lemma {:induction false} LockExactly(cfg: Config, actions: seq<Action>, t: Tid, now: nat)
    requires 1 <= cfg.cap && t in Run(cfg, actions).threads && Run(cfg, actions).threads[t] == Checkout
    ensures ghost var s := Run(cfg, actions);
            ghost var s', idle := Step(cfg, s, Lock(t, now)), s.inner.idle;
            if now < OpenUntil(s.log) then t !in s'.threads && s'.inner == s.inner && s'.log == s.log
            else if idle != [] then
              && t in s'.threads && s'.threads[t] == Running(idle[|idle| - 1]) && s'.inner.idle == idle[..|idle| - 1]
              && s'.log == s.log + [Admitted(now), Handed(idle[|idle| - 1].id)]
            else if Total(s.threads, ReservesOf()) < cfg.cap then
              t in s'.threads && s'.threads[t] == Building && s'.log == s.log + [Admitted(now)]
            else t in s'.threads && s'.threads[t] == Waiting && s'.log == s.log
  {
    EveryRunIsSafe(cfg, actions);
    hide Run, HandedCount, Exclusive, Counted, TrapsDiscard, NothingWasted, Total;
  }

  // ---------- a single caller ----------

  /** One request from arrival to departure; the steps it does not need are not enabled and change nothing. */
  const SOLO_FRONT: seq<Action> := [Begin(0), Lock(0, 0), BuildDone(0, true), CallEnds(0, true)]
  const SOLO_BACK: seq<Action> := [Settle(0), PutBack(0), Release(0, 0)]

  /** `n` successful requests, one after the other. */
  ghost function Solo(n: nat): seq<Action> {
    if n == 0 then [] else Solo(n - 1) + SOLO_FRONT + SOLO_BACK
  }

  /** The pool after `n` such requests: no thread, no traps, and the instance they have come to. */
  ghost predicate SoloState(cfg: Config, s: State, n: nat) {
    && s.threads == map[] && s.inner.traps == 0 && s.inner.cooldownUntil == 0
    && if n > 0 && n % Limit(cfg) == 0 then
         s.inner.idle == [] && s.inner.live == 0 && s.nextId == n / Limit(cfg)
       else
         s.inner.idle == [Instance(n / Limit(cfg), n % Limit(cfg))] && s.inner.live == 1 && s.nextId == n / Limit(cfg) + 1
  }

  /** The call is over: the idle instance, or a new one, has run it. */
  lemma {:induction false} SoloFront(cfg: Config, s: State, n: nat)
    requires 1 <= cfg.cap && SoloState(cfg, s, n)
    ensures ghost var s' := Step(cfg, Step(cfg, Step(cfg, Step(cfg, s, Begin(0)), Lock(0, 0)), BuildDone(0, true)), CallEnds(0, true));
            ghost var l := Limit(cfg);
            && s'.threads == map[0 := Finished(Instance(n / l, n % l), true)]
            && s'.inner == Inner([], 1, 0, 0) && s'.nextId == n / l + 1
  {
    var s1 := Step(cfg, s, Begin(0));
    assert s1.threads == map[0 := Checkout];
    var s2 := Step(cfg, s1, Lock(0, 0));
    var s3 := Step(cfg, s2, BuildDone(0, true));
    assert s3.threads == map[0 := Running(Instance(n / Limit(cfg), n % Limit(cfg)))];
  }

  /** The instance goes back to the idle list, or is recycled at the limit. */
  lemma {:induction false} SoloBack(cfg: Config, s: State, n: nat)
    requires ghost var l := Limit(cfg);
             && s.threads == map[0 := Finished(Instance(n / l, n % l), true)]
             && s.inner == Inner([], 1, 0, 0) && s.nextId == n / l + 1
    ensures SoloState(cfg, Step(cfg, Step(cfg, Step(cfg, s, Settle(0)), PutBack(0)), Release(0, 0)), n + 1)
  {
    NextQuotient(n, Limit(cfg));
    var s1 := Step(cfg, s, Settle(0));
    assert s1.threads == map[0 := s1.threads[0]];
    var s2 := Step(cfg, s1, PutBack(0));
    var s3 := Step(cfg, s2, Release(0, 0));
    assert s3.threads == map[];
  }

  lemma {:induction false} NextQuotient(n: nat, l: nat)
    requires 0 < l
    ensures if n % l + 1 == l then (n + 1) % l == 0 && (n + 1) / l == n / l + 1
            else (n + 1) % l == n % l + 1 && (n + 1) / l == n / l
  {
    if n % l + 1 == l {
      DivModUnique(n + 1, l, n / l + 1, 0);
    } else {
      DivModUnique(n + 1, l, n / l, n % l + 1);
    }
  }

  /**
    A single caller reuses its instance for exactly `max(1, maxRequests)` requests: after `n`
    successful ones, one for each started batch of that many has been built.
   */
  lemma {:induction false} SingleCallerReuses(cfg: Config, n: nat)
    requires 1 <= cfg.cap
    ensures SoloState(cfg, Run(cfg, Solo(n)), n)
  {
    hide Step;
    if n == 0 {
      DivModUnique(0, Limit(cfg), 0, 0);
    } else {
      SingleCallerReuses(cfg, n - 1);
      var before := Solo(n - 1);
      SoloFront(cfg, Run(cfg, before), n - 1);
      FourMoreActions(cfg, before, Begin(0), Lock(0, 0), BuildDone(0, true), CallEnds(0, true));
      var middle := before + SOLO_FRONT;
      SoloBack(cfg, Run(cfg, middle), n - 1);
      OneMoreAction(cfg, middle, Settle(0));
      OneMoreAction(cfg, middle + [Settle(0)], PutBack(0));
      OneMoreAction(cfg, middle + [Settle(0)] + [PutBack(0)], Release(0, 0));
      assert middle + [Settle(0)] + [PutBack(0)] + [Release(0, 0)] == middle + SOLO_BACK;
    }
  }

  // ---------- how long the breaker stays open ----------

  /** The last recorded trap; -1 if there is none. */
  ghost function LastTrap(log: seq<Event>): (k: int)
    ensures -1 <= k < |log|
    ensures 0 <= k ==> log[k].Trap?
    ensures forall j :: k < j < |log| ==> !log[j].Trap?
  {
    if log == [] then -1
    else if log[|log| - 1].Trap? then |log| - 1
    else LastTrap(log[..|log| - 1])
  }

  /** The breaker is open until the expiry of the last of at least three traps in a row, and closed otherwise. */
  lemma {:induction false} OpenByLastTrap(log: seq<Event>)
    ensures TrapsSince(log) == 0 || 0 <= LastTrap(log)
    ensures OpenUntil(log)
            == if TrapsSince(log) >= TRAP_BREAKER_THRESHOLD then Expiry(log[LastTrap(log)].now) else 0
  {
    if log != [] {
      OpenByLastTrap(log[..|log| - 1]);
    }
  }

  ghost predicate Refused(cfg: Config, s: State, now: nat) {
    CheckOut(s.inner, cfg.cap, now).1.Unavailable?
  }

  /**
    The exact rule in every reachable state: a checkout at `now` is refused if and only if three
    or more traps were recorded since the last success and `now` is before the last one's expiry.
   */
  lemma {:induction false} RefusedExactlyWhen(cfg: Config, actions: seq<Action>, now: nat)
    requires 1 <= cfg.cap
    ensures ghost var log := Run(cfg, actions).log;
            && (TrapsSince(log) == 0 || 0 <= LastTrap(log))
            && (Refused(cfg, Run(cfg, actions), now)
                <==> TrapsSince(log) >= TRAP_BREAKER_THRESHOLD && now < Expiry(log[LastTrap(log)].now))
  {
    EveryRunIsSafe(cfg, actions);
    OpenByLastTrap(Run(cfg, actions).log);
    hide Run, Exclusive, Counted, TrapsDiscard, SlotsExact;
  }

  /** The trap at `i` found the breaker open or opened it, and no success has been recorded since. */
  ghost predicate Tripped(log: seq<Event>, i: nat) {
    && i < |log| && log[i].Trap? && TrapsSince(log[..i + 1]) >= TRAP_BREAKER_THRESHOLD
    && forall k :: i < k < |log| ==> !log[k].Success?
  }

  lemma {:induction false} StaysTripped(log: seq<Event>, i: nat)
    requires Tripped(log, i)
    ensures i <= LastTrap(log) && TrapsSince(log) >= TRAP_BREAKER_THRESHOLD
    ensures OpenUntil(log) == Expiry(log[LastTrap(log)].now)
    decreases |log|
  {
    OpenByLastTrap(log);
    var front := log[..|log| - 1];
    if i == |front| {
      assert log[..i + 1] == log;
    } else {
      assert front[..i + 1] == log[..i + 1];
      StaysTripped(front, i);
    }
  }

  /**
    Every checkout before the expiry of the trap at `i` is refused, if and only if the last trap
    since expires no sooner. (The last trap may be the one at `i`.)
   */
  lemma {:induction false} CooldownHoldsExactlyWhen(cfg: Config, actions: seq<Action>, i: nat)
    requires 1 <= cfg.cap && Tripped(Run(cfg, actions).log, i)
    ensures ghost var log := Run(cfg, actions).log;
            && i <= LastTrap(log)
            && ((forall now: nat :: now < Expiry(log[i].now) ==> Refused(cfg, Run(cfg, actions), now))
                <==> Expiry(log[i].now) <= Expiry(log[LastTrap(log)].now))
  {
    var s := Run(cfg, actions);
    StaysTripped(s.log, i);
    var until := Expiry(s.log[LastTrap(s.log)].now);
    forall now: nat ensures Refused(cfg, s, now) <==> now < until {
      RefusedExactlyWhen(cfg, actions, now);
    }
    hide Run, Refused, Expiry;
    if until < Expiry(s.log[i].now) {
      assert !Refused(cfg, s, until);
    }
  }

  // ---------- over the whole run ----------

  lemma {:induction false} LogGrows(cfg: Config, actions: seq<Action>, m: nat)
    requires m <= |actions|
    ensures Run(cfg, actions[..m]).log <= Run(cfg, actions).log
    decreases |actions|
  {
    hide Step;
    if m == |actions| {
      assert actions[..m] == actions;
    } else {
      var front := actions[..|actions| - 1];
      LogGrows(cfg, front, m);
      assert front[..m] == actions[..m];
      var es := Logged(cfg, Run(cfg, front), actions[|actions| - 1]);
    }
  }

  lemma {:induction false} TrapIsLoggedAlone(cfg: Config, s: State, a: Action, k: nat)
    requires |s.log| <= k < |Step(cfg, s, a).log| && Step(cfg, s, a).log[k].Trap?
    ensures |Step(cfg, s, a).log| == k + 1
  {}

  /** Some point of the run is just after a recorded trap. */
  lemma {:induction false} JustAfterTrap(cfg: Config, actions: seq<Action>, k: nat) returns (m: nat)
    requires k < |Run(cfg, actions).log| && Run(cfg, actions).log[k].Trap?
    ensures m <= |actions| && |Run(cfg, actions[..m]).log| == k + 1
    decreases |actions|
  {
    hide Step;
    var front := actions[..|actions| - 1];
    if k < |Run(cfg, front).log| {
      LogGrows(cfg, actions, |actions| - 1);
      m := JustAfterTrap(cfg, front, k);
      assert front[..m] == actions[..m];
    } else {
      m := |actions|;
      assert actions[..m] == actions;
      TrapIsLoggedAlone(cfg, Run(cfg, front), actions[|actions| - 1], k);
    }
  }

  /** At every point of the run after the trap at `i` and before a success, early checkouts are refused. */
  ghost predicate HoldsThroughout(cfg: Config, actions: seq<Action>, i: nat)
    requires i < |Run(cfg, actions).log| && Run(cfg, actions).log[i].Trap?
  {
    forall m: nat, now: nat ::
      (m <= |actions| && Tripped(Run(cfg, actions[..m]).log, i) && now < Expiry(Run(cfg, actions).log[i].now)) ==>
        Refused(cfg, Run(cfg, actions[..m]), now)
  }

  /**
    The breaker's promise over a whole run: it holds at every point if and only if no trap
    recorded after the one at `i`, and before a success, expires sooner.
   */
  lemma {:induction false} BreakerHoldsExactlyWhen(cfg: Config, actions: seq<Action>, i: nat)
    requires 1 <= cfg.cap
    requires ghost var log := Run(cfg, actions).log;
             i < |log| && log[i].Trap? && TrapsSince(log[..i + 1]) >= TRAP_BREAKER_THRESHOLD
    ensures ghost var log := Run(cfg, actions).log;
            HoldsThroughout(cfg, actions, i)
            <==> forall k :: i < k < |log| && log[k].Trap? && Tripped(log[..k], i) ==>
                   Expiry(log[i].now) <= Expiry(log[k].now)
  {
    var log := Run(cfg, actions).log;
    if HoldsThroughout(cfg, actions, i) {
      forall k | i < k < |log| && log[k].Trap? && Tripped(log[..k], i)
        ensures Expiry(log[i].now) <= Expiry(log[k].now)
      {
        TrapAfterKeeps(cfg, actions, i, k);
      }
    } else {
      var m: nat, now: nat :| m <= |actions| && Tripped(Run(cfg, actions[..m]).log, i)
                    && now < Expiry(log[i].now) && !Refused(cfg, Run(cfg, actions[..m]), now);
      TrapBeforeBreaks(cfg, actions, i, m, now);
    }
  }

  lemma {:induction false} TrapAfterKeeps(cfg: Config, actions: seq<Action>, i: nat, k: nat)
    requires 1 <= cfg.cap
    requires ghost var log := Run(cfg, actions).log;
             i < k < |log| && log[i].Trap? && log[k].Trap? && Tripped(log[..k], i)
    requires HoldsThroughout(cfg, actions, i)
    ensures ghost var log := Run(cfg, actions).log; Expiry(log[i].now) <= Expiry(log[k].now)
  {
    hide Step, Run;
    var log := Run(cfg, actions).log;
    var m := JustAfterTrap(cfg, actions, k);
    LogGrows(cfg, actions, m);
    var l := Run(cfg, actions[..m]).log;
    assert l == log[..k + 1] && l[..i + 1] == log[..k][..i + 1] && l[k] == log[k];
    assert Tripped(l, i) by {
      forall j | i < j < |l| ensures !l[j].Success? {
        if j < k {
          assert l[j] == log[..k][j];
        }
      }
    }
    CooldownHoldsExactlyWhen(cfg, actions[..m], i);
  }

  lemma {:induction false} TrapBeforeBreaks(cfg: Config, actions: seq<Action>, i: nat, m: nat, now: nat)
    requires 1 <= cfg.cap && m <= |actions| && Tripped(Run(cfg, actions[..m]).log, i)
    requires i < |Run(cfg, actions).log| && Run(cfg, actions).log[i].Trap?
    requires now < Expiry(Run(cfg, actions).log[i].now) && !Refused(cfg, Run(cfg, actions[..m]), now)
    ensures ghost var log := Run(cfg, actions).log;
            exists k :: i < k < |log| && log[k].Trap? && Tripped(log[..k], i) && Expiry(log[k].now) < Expiry(log[i].now)
  {
    hide Step, Run;
    var log, l := Run(cfg, actions).log, Run(cfg, actions[..m]).log;
    LogGrows(cfg, actions, m);
    CooldownHoldsExactlyWhen(cfg, actions[..m], i);
    var k := LastTrap(l);
    assert l[i] == log[i] && l[k] == log[k];
    assert i != k;
    assert log[..k] == l[..k] && l[..k][..i + 1] == l[..i + 1];
    assert Tripped(log[..k], i) by {
      forall j | i < j < k ensures !log[..k][j].Success? {
        assert log[..k][j] == l[j];
      }
    }
  }

  /**
    What an admission at `j` says of the traps before it, whatever the clocks did: with no success
    recorded since the trap at `i`, it is not before the last trap's expiry. Hence it is not before
    the expiry of the one at `i` when no later trap was recorded at a clock behind that one's.
   */
  lemma {:induction false} NothingAdmittedWhileOpen(cfg: Config, actions: seq<Action>, i: nat, j: nat)
    requires 1 <= cfg.cap
    requires ghost var log := Run(cfg, actions).log;
             j < |log| && log[j].Admitted? && Tripped(log[..j], i)
    ensures ghost var log := Run(cfg, actions).log;
            && i <= LastTrap(log[..j]) && Expiry(log[LastTrap(log[..j])].now) <= log[j].now
            && ((forall k :: i < k < j && log[k].Trap? ==> log[i].now <= log[k].now) ==>
                  Expiry(log[i].now) <= log[j].now)
  {
    EveryRunIsSafe(cfg, actions);
    var log := Run(cfg, actions).log;
    hide Run, Exclusive, Counted, TrapsDiscard, SlotsExact;
    StaysTripped(log[..j], i);
    var k := LastTrap(log[..j]);
    assert log[..j][k] == log[k];
  }

  // ---------- a run in which the cooldown ends early ----------

  const EARLY: Config := Config(4, 100)

  /** Four requests arrive and are admitted; three of them build an instance, and a fifth arrives. */
  const EARLY_BEGIN: seq<Action> := [Begin(0), Begin(1), Begin(2), Begin(3)]
  const EARLY_LOCK: seq<Action> := [Lock(0, 0), Lock(1, 0), Lock(2, 0), Lock(3, 0)]
  const EARLY_BUILD: seq<Action> := [BuildDone(1, true), BuildDone(2, true), BuildDone(3, true), Begin(4)]
  /** All four calls trap, and the instances are dropped. */
  const EARLY_CALL: seq<Action> := [CallEnds(0, false), CallEnds(1, false), CallEnds(2, false), CallEnds(3, false)]
  const EARLY_DROP: seq<Action> := [Settle(0), Settle(1), Settle(2), Settle(3)]
  /** Three traps are recorded at clock 1000, and one after the clock stepped back to 100. */
  const EARLY_TRAP: seq<Action> := [Release(0, 1000), Release(1, 1000), Release(2, 1000), Release(3, 100)]

  const EARLY_RUN: seq<Action> :=
    EARLY_BEGIN + EARLY_LOCK + EARLY_BUILD + EARLY_CALL + EARLY_DROP + EARLY_TRAP

  const EARLY_LOG: seq<Event> :=
    [Admitted(0), Handed(0), Admitted(0), Admitted(0), Admitted(0), Handed(1), Handed(2), Handed(3),
     Trapped(0), Trapped(1), Trapped(2), Trapped(3)]

  lemma {:induction false} OneMoreAction(cfg: Config, before: seq<Action>, a: Action)
    ensures Run(cfg, before + [a]) == Step(cfg, Run(cfg, before), a)
  {
    assert (before + [a])[..|before|] == before;
  }

  lemma {:induction false} FourMoreActions(cfg: Config, before: seq<Action>, a: Action, b: Action, c: Action, d: Action)
    ensures Run(cfg, before + [a, b, c, d])
            == Step(cfg, Step(cfg, Step(cfg, Step(cfg, Run(cfg, before), a), b), c), d)
  {
    hide Step, Run;
    OneMoreAction(cfg, before, a);
    OneMoreAction(cfg, before + [a], b);
    OneMoreAction(cfg, before + [a] + [b], c);
    OneMoreAction(cfg, before + [a] + [b] + [c], d);
    assert before + [a] + [b] + [c] + [d] == before + [a, b, c, d];
  }

  lemma {:induction false} EarlyBegins()
    ensures ghost var s := Run(EARLY, EARLY_BEGIN);
            && s == Init().(threads := s.threads)
            && s.threads == map[0 := Checkout, 1 := Checkout, 2 := Checkout, 3 := Checkout]
  {
    assert Run(EARLY, []) == Init();
    hide Run;
    FourMoreActions(EARLY, [], Begin(0), Begin(1), Begin(2), Begin(3));
    assert [] + EARLY_BEGIN == EARLY_BEGIN;
  }

  /** The first takes the idle instance, the others reserve slots. */
  lemma {:induction false} EarlyLocks()
    ensures ghost var s := Run(EARLY, EARLY_BEGIN + EARLY_LOCK);
            && s.inner == Inner([], 4, 0, 0) && s.nextId == 1 && s.log == EARLY_LOG[..5]
            && s.threads == map[0 := Running(Instance(0, 0)), 1 := Building, 2 := Building, 3 := Building]
  {
    hide Run;
    EarlyBegins();
    FourMoreActions(EARLY, EARLY_BEGIN, Lock(0, 0), Lock(1, 0), Lock(2, 0), Lock(3, 0));
    var s0 := Run(EARLY, EARLY_BEGIN);
    var s1 := Step(EARLY, s0, Lock(0, 0));
    assert s1 == State(Inner([], 1, 0, 0), s0.threads[0 := Running(Instance(0, 0))], 1, EARLY_LOG[..2]);
    EarlyReserves(s1, 1);
    var s2 := Step(EARLY, s1, Lock(1, 0));
    EarlyReserves(s2, 2);
    EarlyReserves(Step(EARLY, s2, Lock(2, 0)), 3);
    hide Step;
    assert EARLY_LOG[..2] + [Admitted(0)] + [Admitted(0)] + [Admitted(0)] == EARLY_LOG[..5];
  }

  lemma {:induction false} EarlyReserves(s: State, t: Tid)
    requires s.inner.idle == [] && s.inner.live < 4 && s.inner.cooldownUntil == 0
    requires t in s.threads && s.threads[t] == Checkout
    ensures Step(EARLY, s, Lock(t, 0))
            == State(s.inner.(live := s.inner.live + 1), s.threads[t := Building], s.nextId, s.log + [Admitted(0)])
  {}

  lemma {:induction false} EarlyBuilds()
    ensures ghost var s := Run(EARLY, EARLY_BEGIN + EARLY_LOCK + EARLY_BUILD);
            && s.inner == Inner([], 4, 0, 0) && s.log == EARLY_LOG[..8]
            && s.threads == map[0 := Running(Instance(0, 0)), 1 := Running(Instance(1, 0)),
                                2 := Running(Instance(2, 0)), 3 := Running(Instance(3, 0)), 4 := Checkout]
  {
    hide Run;
    EarlyLocks();
    FourMoreActions(EARLY, EARLY_BEGIN + EARLY_LOCK, BuildDone(1, true), BuildDone(2, true), BuildDone(3, true), Begin(4));
  }

  lemma {:induction false} EarlyCalls()
    ensures ghost var s := Run(EARLY, EARLY_BEGIN + EARLY_LOCK + EARLY_BUILD + EARLY_CALL);
            && s.inner == Inner([], 4, 0, 0) && s.log == EARLY_LOG
            && s.threads == map[0 := Finished(Instance(0, 0), false), 1 := Finished(Instance(1, 0), false),
                                2 := Finished(Instance(2, 0), false), 3 := Finished(Instance(3, 0), false), 4 := Checkout]
  {
    hide Run;
    EarlyBuilds();
    FourMoreActions(EARLY, EARLY_BEGIN + EARLY_LOCK + EARLY_BUILD,
                    CallEnds(0, false), CallEnds(1, false), CallEnds(2, false), CallEnds(3, false));
  }

  lemma {:induction false} EarlyDrops()
    ensures ghost var s := Run(EARLY, EARLY_BEGIN + EARLY_LOCK + EARLY_BUILD + EARLY_CALL + EARLY_DROP);
            && s.inner == Inner([], 4, 0, 0) && s.log == EARLY_LOG
            && s.threads == map[0 := Dropped(false), 1 := Dropped(false),
                                2 := Dropped(false), 3 := Dropped(false), 4 := Checkout]
  {
    hide Run;
    EarlyCalls();
    FourMoreActions(EARLY, EARLY_BEGIN + EARLY_LOCK + EARLY_BUILD + EARLY_CALL,
                    Settle(0), Settle(1), Settle(2), Settle(3));
  }

  lemma {:induction false} EarlyRelease(s: State, t: Tid, now: nat)
    requires t in s.threads && s.threads[t] == Dropped(false)
    ensures Step(EARLY, s, Release(t, now))
            == State(RecordTrap(s.inner, now), s.threads - {t}, s.nextId, s.log + [Trap(now)])
  {}

  lemma {:induction false} EarlyTraps()
    ensures ghost var s := Run(EARLY, EARLY_RUN);
            && s.inner == Inner([], 0, 4, 600) && s.threads == map[4 := Checkout]
            && s.log == EARLY_LOG + [Trap(1000), Trap(1000), Trap(1000), Trap(100)]
  {
    hide Run, Step;
    EarlyDrops();
    var before := EARLY_BEGIN + EARLY_LOCK + EARLY_BUILD + EARLY_CALL + EARLY_DROP;
    FourMoreActions(EARLY, before, Release(0, 1000), Release(1, 1000), Release(2, 1000), Release(3, 100));
    var s := Run(EARLY, before);
    EarlyRelease(s, 0, 1000);
    var s1 := Step(EARLY, s, Release(0, 1000));
    EarlyRelease(s1, 1, 1000);
    var s2 := Step(EARLY, s1, Release(1, 1000));
    EarlyRelease(s2, 2, 1000);
    var s3 := Step(EARLY, s2, Release(2, 1000));
    EarlyRelease(s3, 3, 100);
  }

  /**
    The documented cooldown can end early: the third trap opens it until 1500, the fourth, at a
    clock that stepped back, moves its end to 600, and a request is admitted at 700.
   */
  lemma {:induction false} BackwardClockAdmitsEarly()
    ensures ghost var log := Run(EARLY, EARLY_RUN + [Lock(4, 700)]).log;
            && log == EARLY_LOG + [Trap(1000), Trap(1000), Trap(1000), Trap(100), Admitted(700)]
            && Tripped(log[..16], 14) && 700 < Expiry(log[14].now) == 1500
  {
    hide Run;
    EarlyTraps();
    OneMoreAction(EARLY, EARLY_RUN, Lock(4, 700));
    hide Step;
    var log := EARLY_LOG + [Trap(1000), Trap(1000), Trap(1000), Trap(100), Admitted(700)];
    ThreeTraps(EARLY_LOG);
    assert log[..16][..15] == EARLY_LOG + [Trap(1000), Trap(1000), Trap(1000)];
  }

  lemma {:induction false} ThreeTraps(log: seq<Event>)
    ensures TrapsSince(log + [Trap(1000), Trap(1000), Trap(1000)]) >= TRAP_BREAKER_THRESHOLD
  {
    hide TrapsSince;
    LogOne(log, Trap(1000));
    LogOne(log + [Trap(1000)], Trap(1000));
    LogOne(log + [Trap(1000)] + [Trap(1000)], Trap(1000));
    assert log + [Trap(1000)] + [Trap(1000)] + [Trap(1000)] == log + [Trap(1000), Trap(1000), Trap(1000)];
  }
}
