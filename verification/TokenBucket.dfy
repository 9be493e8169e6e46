/** The token bucket shared by both rate limiters (plecto/crates/host/src/backend.rs). */
module TokenBucket {
  import opened Arith
  import opened Words

  datatype Bucket = Bucket(capacity: u64, refillTokens: u64, refillIntervalMs: u64) {
    predicate NoRefill() {
      refillIntervalMs == 0 || refillTokens == 0
    }
  }

  datatype State = State(tokens: u64, last: u64)

  datatype Acquire = Acquire(allowed: bool, remaining: u64, retryAfterMs: u64)

  // ---------- saturating arithmetic ----------

  function SatAdd(a: u64, b: u64): u64 {
    Min(a + b, U64_MAX)
  }

  function SatSub(a: u64, b: u64): u64 {
    if a >= b then a - b else 0
  }

  function SatMul(a: u64, b: u64): u64 {
    Min(a * b, U64_MAX)
  }

  /** The quotient rounded up. */
  function DivCeil(a: nat, b: nat): nat
    requires 0 < b
  {
    if a % b == 0 then a / b else a / b + 1
  }

  // ---------- the bucket as written, on 64-bit words ----------

  /** Tokens and refill time just before the cost is considered. */
  function Refill(state: Option<State>, spec: Bucket, now: u64): State {
    match state
    case None => State(spec.capacity, now)
    case Some(s) =>
      if spec.NoRefill() then State(Min(s.tokens, spec.capacity), s.last)
      else
        var intervals := SatSub(now, s.last) / spec.refillIntervalMs;
        State(Min(SatAdd(s.tokens, SatMul(intervals, spec.refillTokens)), spec.capacity),
              SatAdd(s.last, SatMul(intervals, spec.refillIntervalMs)))
  }

  /** The advisory wait for `needed` more tokens. */
  function RetryAfter(needed: u64, spec: Bucket): u64 {
    if spec.NoRefill() then U64_MAX
    else
      DivCeilFits(needed, spec.refillTokens);
      SatMul(DivCeil(needed, spec.refillTokens), spec.refillIntervalMs)
  }

  function ApplyBucket(state: Option<State>, cost: u64, spec: Bucket, now: u64): (State, Acquire) {
    var s := Refill(state, spec, now);
    if s.tokens >= cost then
      (State(s.tokens - cost, s.last), Acquire(true, s.tokens - cost, 0))
    else
      (s, Acquire(false, s.tokens, RetryAfter(cost - s.tokens, spec)))
  }

  lemma {:induction false} DivCeilFits(a: nat, b: nat)
    requires 0 < b
    ensures DivCeil(a, b) <= a
  {
    DivBounds(a, b);
    var q := a / b;
    assert q * b >= q by { MulMono(1, b, q); assert q * b == b * q; }
  }

  // ---------- the unbounded computation it stands for ----------

  /** Whole refill intervals between the last refill and `now`; none when the clock is behind. */
  function Intervals(s: State, spec: Bucket, now: nat): nat
    requires !spec.NoRefill()
  {
    if now <= s.last then 0 else (now - s.last) / spec.refillIntervalMs
  }

  lemma {:induction false} WholeIntervals(s: State, spec: Bucket, now: nat)
    requires !spec.NoRefill()
    ensures ghost var k := Intervals(s, spec, now);
            && k * spec.refillIntervalMs <= (if now <= s.last then 0 else now - s.last)
            && (s.last <= now ==> now - s.last < (k + 1) * spec.refillIntervalMs)
            && k <= (if now <= s.last then 0 else now - s.last)
  {
    var i := spec.refillIntervalMs;
    if s.last < now {
      var k := (now - s.last) / i;
      DivBounds(now - s.last, i);
      Distribute(k, 1, i);
      assert k <= k * i by { MulMono(1, i, k); assert k * i == i * k; }
    } else {
      assert 0 * i == 0 && 1 * i == i;
    }
  }

  /**
    The 64-bit refill equals the unbounded one capped at the capacity: saturation never shows,
    and the refill time advances by whole intervals without passing the clock.
   */
  lemma {:induction false} RefillIsExact(s: State, spec: Bucket, now: u64)
    requires !spec.NoRefill()
    ensures ghost var k := Intervals(s, spec, now);
            ghost var r := Refill(Some(s), spec, now);
            && r.tokens == Min(s.tokens + k * spec.refillTokens, spec.capacity)
            && r.last == s.last + k * spec.refillIntervalMs
            && r.last <= (if now <= s.last then s.last else now)
  {
    WholeIntervals(s, spec, now);
    var d := SatSub(now, s.last);
    if now <= s.last {
      assert 0 / spec.refillIntervalMs == 0;
    }
    assert d / spec.refillIntervalMs == Intervals(s, spec, now);
  }

  /** What an acquire answers and leaves, in unbounded terms: refill, cap, and spend if that is enough. */
  lemma {:induction false} AcquireExactly(s: State, cost: u64, spec: Bucket, now: u64)
    ensures ghost var (e, acq) := ApplyBucket(Some(s), cost, spec, now);
            ghost var refilled := if spec.NoRefill() then 0 else Intervals(s, spec, now) * spec.refillTokens;
            ghost var full := Min(s.tokens + refilled, spec.capacity);
            && (acq.allowed <==> cost <= full)
            && acq.remaining == e.tokens == (if cost <= full then full - cost else full)
            && (acq.allowed ==> acq.retryAfterMs == 0)
            && (!acq.allowed && spec.NoRefill() ==> acq.retryAfterMs == U64_MAX)
  {
    if !spec.NoRefill() {
      RefillIsExact(s, spec, now);
      hide Refill;
      assert 0 <= Intervals(s, spec, now) * spec.refillTokens;
    }
  }

  /** A bucket seen for the first time is full: it grants exactly what fits its capacity. */
  lemma {:induction false} FirstSight(cost: u64, spec: Bucket, now: u64)
    ensures ghost var (e, acq) := ApplyBucket(None, cost, spec, now);
            && (acq.allowed <==> cost <= spec.capacity) && e.last == now
            && acq.remaining == e.tokens == (if cost <= spec.capacity then spec.capacity - cost else spec.capacity)
            && (acq.allowed ==> acq.retryAfterMs == 0)
  {}

  // ---------- refilling composes ----------

  /** Consulting in between with cost 0 loses no fraction of an interval. */
  lemma {:induction false} RefillComposes(s: State, spec: Bucket, t1: u64, t2: u64)
    requires t1 <= t2
    ensures ghost var mid := ApplyBucket(Some(s), 0, spec, t1).0;
            forall cost: u64 :: ApplyBucket(Some(mid), cost, spec, t2) == ApplyBucket(Some(s), cost, spec, t2)
  {
    var mid := ApplyBucket(Some(s), 0, spec, t1).0;
    assert Refill(Some(mid), spec, t2) == Refill(Some(s), spec, t2) by {
      if !spec.NoRefill() {
        RefillTwice(s, spec, t1, t2);
      }
    }
  }

  lemma {:induction false} RefillTwice(s: State, spec: Bucket, t1: u64, t2: u64)
    requires t1 <= t2 && !spec.NoRefill()
    ensures Refill(Some(Refill(Some(s), spec, t1)), spec, t2) == Refill(Some(s), spec, t2)
  {
    var mid := Refill(Some(s), spec, t1);
    RefillIsExact(s, spec, t1);
    RefillIsExact(s, spec, t2);
    RefillIsExact(mid, spec, t2);
    hide Refill;
    var i, f := spec.refillIntervalMs, spec.refillTokens;
    var k1, k2, k := Intervals(s, spec, t1), Intervals(mid, spec, t2), Intervals(s, spec, t2);
    assert k == k1 + k2 by {
      IntervalsAdd(s, spec, t1, t2, mid);
    }
    Distribute(k1, k2, f);
    Distribute(k1, k2, i);
    assert 0 <= k2 * f;
  }

  lemma {:induction false} IntervalsAdd(s: State, spec: Bucket, t1: u64, t2: u64, mid: State)
    requires t1 <= t2 && !spec.NoRefill()
    requires mid.last == s.last + Intervals(s, spec, t1) * spec.refillIntervalMs
    ensures Intervals(s, spec, t2) == Intervals(s, spec, t1) + Intervals(mid, spec, t2)
  {
    var i := spec.refillIntervalMs;
    WholeIntervals(s, spec, t1);
    var k1 := Intervals(s, spec, t1);
    if s.last < t1 {
      var rest := t2 - mid.last;
      assert t2 - s.last == rest + k1 * i;
      DivBounds(rest, i);
      Distribute(rest / i, k1, i);
      DivModUnique(t2 - s.last, i, rest / i + k1, rest % i);
      if t2 == mid.last {
        assert 0 / i == 0;
      }
    } else {
      assert 0 * i == 0;
    }
  }

  // ---------- conservation over whole runs ----------

  datatype Request = Request(now: u64, cost: u64)

  /** The state after a sequence of requests, at whatever clock values they carry. */
  ghost function Run(s: State, spec: Bucket, reqs: seq<Request>): State {
    if reqs == [] then s
    else
      var p := Run(s, spec, reqs[..|reqs| - 1]);
      var r := reqs[|reqs| - 1];
      ApplyBucket(Some(p), r.cost, spec, r.now).0
  }

  /** The cost granted over the sequence. */
  ghost function Granted(s: State, spec: Bucket, reqs: seq<Request>): nat {
    if reqs == [] then 0
    else
      var p := Run(s, spec, reqs[..|reqs| - 1]);
      var r := reqs[|reqs| - 1];
      Granted(s, spec, reqs[..|reqs| - 1])
      + (if ApplyBucket(Some(p), r.cost, spec, r.now).1.allowed then r.cost else 0)
  }

  /** Tokens a refill could not add because the bucket was full. */
  ghost function Spilled(s: State, spec: Bucket, reqs: seq<Request>): nat {
    if reqs == [] then 0
    else
      var p := Run(s, spec, reqs[..|reqs| - 1]);
      Spilled(s, spec, reqs[..|reqs| - 1]) + Overflow(p, spec, reqs[|reqs| - 1].now)
  }

  ghost function Overflow(s: State, spec: Bucket, now: u64): nat {
    var full := s.tokens + (if spec.NoRefill() then 0 else Intervals(s, spec, now) * spec.refillTokens);
    if full <= spec.capacity then 0 else full - spec.capacity
  }

  /** How many intervals the refill time moved over the sequence. */
  ghost function Advanced(s: State, spec: Bucket, reqs: seq<Request>): nat {
    if reqs == [] || spec.NoRefill() then 0
    else
      var p := Run(s, spec, reqs[..|reqs| - 1]);
      Advanced(s, spec, reqs[..|reqs| - 1]) + Intervals(p, spec, reqs[|reqs| - 1].now)
  }

  /**
    Nothing is lost or made: what was granted, what is left and what overflowed add up to what
    there was plus `refillTokens` for every interval the refill time moved. Clocks may step back.
   */
  lemma {:induction false} Conservation(s: State, spec: Bucket, reqs: seq<Request>)
    ensures ghost var e := Run(s, spec, reqs);
            && Granted(s, spec, reqs) + e.tokens + Spilled(s, spec, reqs)
               == s.tokens + Advanced(s, spec, reqs) * (if spec.NoRefill() then 0 else spec.refillTokens)
            && e.last == s.last + Advanced(s, spec, reqs) * spec.refillIntervalMs
  {
    hide ApplyBucket, Intervals, Overflow;
    if reqs == [] {
      assert 0 * spec.refillIntervalMs == 0 && 0 * spec.refillTokens == 0;
    } else {
      var front, r := reqs[..|reqs| - 1], reqs[|reqs| - 1];
      Conservation(s, spec, front);
      var p := Run(s, spec, front);
      ConservationStep(p, spec, r);
      var a := Advanced(s, spec, front);
      if spec.NoRefill() {
        assert a == 0 && 0 * spec.refillIntervalMs == 0;
      } else {
        Distribute(a, Intervals(p, spec, r.now), spec.refillTokens);
        Distribute(a, Intervals(p, spec, r.now), spec.refillIntervalMs);
      }
    }
  }

  lemma {:induction false} ConservationStep(p: State, spec: Bucket, r: Request)
    ensures ghost var (e, acq) := ApplyBucket(Some(p), r.cost, spec, r.now);
            ghost var k := if spec.NoRefill() then 0 else Intervals(p, spec, r.now);
            && (if acq.allowed then r.cost else 0) + e.tokens + Overflow(p, spec, r.now)
               == p.tokens + (if spec.NoRefill() then 0 else k * spec.refillTokens)
            && e.last == p.last + (if spec.NoRefill() then 0 else k * spec.refillIntervalMs)
            && e.tokens <= spec.capacity
  {
    if !spec.NoRefill() {
      RefillIsExact(p, spec, r.now);
      hide Refill;
      assert 0 <= Intervals(p, spec, r.now) * spec.refillTokens;
    }
  }

  /** The refill time never passes both its start and the greatest clock seen. */
  lemma {:induction false} LastNeverAhead(s: State, spec: Bucket, reqs: seq<Request>, bound: nat)
    requires s.last <= bound && forall k :: 0 <= k < |reqs| ==> reqs[k].now <= bound
    ensures s.last <= Run(s, spec, reqs).last <= bound
  {
    if reqs != [] {
      var front, r := reqs[..|reqs| - 1], reqs[|reqs| - 1];
      LastNeverAhead(s, spec, front, bound);
      if !spec.NoRefill() {
        RefillIsExact(Run(s, spec, front), spec, r.now);
      }
    }
  }

  /**
    The rate limit: over any run, however the clock behaves, no more is granted than the tokens
    at hand plus the refills of the whole intervals from the refill time to the latest clock.
   */
  lemma {:induction false} GrantBound(s: State, spec: Bucket, reqs: seq<Request>, latest: nat)
    requires !spec.NoRefill() && s.last <= latest
    requires forall k :: 0 <= k < |reqs| ==> reqs[k].now <= latest
    ensures Granted(s, spec, reqs) <= s.tokens + (latest - s.last) / spec.refillIntervalMs * spec.refillTokens
  {
    Conservation(s, spec, reqs);
    LastNeverAhead(s, spec, reqs, latest);
    hide Run, Granted, Spilled, Advanced;
    var a := Advanced(s, spec, reqs);
    DivAtLeast(latest - s.last, spec.refillIntervalMs, a);
    MulMono(a, (latest - s.last) / spec.refillIntervalMs, spec.refillTokens);
  }

  /** A bucket first seen at `now` starts full, and then keeps to its rate from there. */
  lemma {:induction false} GrantBoundFromFirstSight(spec: Bucket, first: Request, reqs: seq<Request>, latest: nat)
    requires !spec.NoRefill() && first.now <= latest
    requires forall k :: 0 <= k < |reqs| ==> reqs[k].now <= latest
    ensures ghost var (s, acq) := ApplyBucket(None, first.cost, spec, first.now);
            (if acq.allowed then first.cost else 0) + Granted(s, spec, reqs)
            <= spec.capacity + (latest - first.now) / spec.refillIntervalMs * spec.refillTokens
  {
    hide Run, Granted;
    var s := ApplyBucket(None, first.cost, spec, first.now).0;
    assert s.last == first.now;
    GrantBound(s, spec, reqs, latest);
  }

  lemma {:induction false} FirstConsult(s: State, spec: Bucket, reqs: seq<Request>)
    requires reqs != []
    ensures ghost var e := ApplyBucket(Some(s), 0, spec, reqs[0].now).0;
            Run(e, spec, reqs) == Run(s, spec, reqs) && Granted(e, spec, reqs) == Granted(s, spec, reqs)
  {
    hide ApplyBucket;
    var front, r := reqs[..|reqs| - 1], reqs[|reqs| - 1];
    if front == [] {
      RefillComposes(s, spec, r.now, r.now);
    } else {
      FirstConsult(s, spec, front);
    }
  }

  /**
    The sliding-window law: in any stretch of requests, whatever came before, at most the
    capacity plus the refills of the intervals the stretch touches are granted.
   */
  lemma {:induction false} WindowBound(s: State, spec: Bucket, reqs: seq<Request>, latest: nat)
    requires !spec.NoRefill() && s.tokens <= spec.capacity && reqs != []
    requires forall k :: 0 <= k < |reqs| ==> reqs[k].now <= latest
    ensures Granted(s, spec, reqs)
            <= spec.capacity + ((latest - reqs[0].now) / spec.refillIntervalMs + 1) * spec.refillTokens
  {
    hide Run, Granted, ApplyBucket;
    var t0, i, f := reqs[0].now, spec.refillIntervalMs, spec.refillTokens;
    var q := (latest - t0) / i;
    DivAtLeast(latest - t0, i, 0);
    Distribute(q, 1, f);
    MulMono(0, q, f);
    if s.last <= t0 {
      var e := ApplyBucket(Some(s), 0, spec, t0).0;
      FirstConsult(s, spec, reqs);
      ConsultMovesClose(s, spec, t0);
      GrantBound(e, spec, reqs, latest);
      WithinOneInterval(latest - e.last, latest - t0, i);
      MulMono((latest - e.last) / i, q + 1, f);
    } else if s.last <= latest {
      GrantBound(s, spec, reqs, latest);
      DivAtLeast(latest - t0, i, (latest - s.last) / i);
      DivBounds(latest - s.last, i);
      MulMono((latest - s.last) / i, q, f);
    } else {
      GrantBound(s, spec, reqs, s.last);
      SmallDiv(i, f);
    }
  }

  lemma {:induction false} SmallDiv(i: nat, f: nat)
    requires 0 < i
    ensures 0 / i * f == 0
  {
    DivModUnique(0, i, 0, 0);
  }

  /** Consulting at `now` brings the refill time to within one interval of it. */
  lemma {:induction false} ConsultMovesClose(s: State, spec: Bucket, now: u64)
    requires !spec.NoRefill() && s.last <= now
    ensures ghost var e := ApplyBucket(Some(s), 0, spec, now).0;
            e.last <= now < e.last + spec.refillIntervalMs && e.tokens <= spec.capacity
  {
    RefillIsExact(s, spec, now);
    WholeIntervals(s, spec, now);
    Distribute(Intervals(s, spec, now), 1, spec.refillIntervalMs);
  }

  lemma {:induction false} WithinOneInterval(x: nat, y: nat, i: nat)
    requires 0 < i && x < y + i
    ensures x / i <= y / i + 1
  {
    DivAtLeast(x, i, y / i + 2);
    DivBounds(y, i);
    Distribute(y / i, 2, i);
  }

  /** Without refills a bucket grants what it holds and no more. */
  lemma {:induction false} OneShotBound(s: State, spec: Bucket, reqs: seq<Request>)
    requires spec.NoRefill()
    ensures Granted(s, spec, reqs) + Run(s, spec, reqs).tokens <= s.tokens
  {
    Conservation(s, spec, reqs);
    hide Run, Granted, Spilled;
    assert Advanced(s, spec, reqs) * 0 == 0;
  }

  // ---------- the retry hint ----------

  lemma {:induction false} DivCeilBounds(a: nat, b: nat)
    requires 0 < a && 0 < b
    ensures 1 <= DivCeil(a, b)
    ensures a <= DivCeil(a, b) * b
    ensures (DivCeil(a, b) - 1) * b < a
  {
    var q := a / b;
    DivBounds(a, b);
    Distribute(q, 1, b);
    Distribute(q, -1, b);
    if a % b == 0 {
      assert a == q * b;
    } else {
      assert a == q * b + a % b;
    }
  }

  /** The state a refused request leaves, and the exact hint it gets. */
  lemma {:induction false} Refused(s: State, cost: u64, spec: Bucket, now: u64)
    requires !spec.NoRefill() && !ApplyBucket(Some(s), cost, spec, now).1.allowed
    ensures ghost var (e, acq) := ApplyBucket(Some(s), cost, spec, now);
            && e == Refill(Some(s), spec, now) && e.tokens < cost && e.tokens <= spec.capacity
            && acq.retryAfterMs == Min(DivCeil(cost - e.tokens, spec.refillTokens) * spec.refillIntervalMs, U64_MAX)
            && (e.last <= now <==> s.last <= now)
            && (s.last <= now ==> now < e.last + spec.refillIntervalMs)
  {
    RefillIsExact(s, spec, now);
    WholeIntervals(s, spec, now);
    Distribute(Intervals(s, spec, now), 1, spec.refillIntervalMs);
    assert 0 <= Intervals(s, spec, now) * spec.refillIntervalMs;
  }

  /** The refusal can be cured by refills, and the wait for them fits in 64 bits. */
  ghost predicate HintIsExact(s: State, cost: u64, spec: Bucket, now: u64)
    requires Refill(Some(s), spec, now).tokens < cost
  {
    var needed := cost - Refill(Some(s), spec, now).tokens;
    !spec.NoRefill() && DivCeil(needed, spec.refillTokens) * spec.refillIntervalMs <= U64_MAX
  }

  /** The refused request is granted whenever it comes back after the hint, with no spending in between. */
  ghost predicate NeverTooEarly(s: State, cost: u64, spec: Bucket, now: u64) {
    ghost var (e, acq) := ApplyBucket(Some(s), cost, spec, now);
    forall later: u64 :: now + acq.retryAfterMs <= later ==> ApplyBucket(Some(e), cost, spec, later).1.allowed
  }

  /** Whether the request would be granted at `later`, with no spending in between. */
  lemma {:induction false} GrantedLater(e: State, cost: u64, spec: Bucket, later: u64)
    requires !spec.NoRefill() && e.tokens < cost
    ensures ApplyBucket(Some(e), cost, spec, later).1.allowed
            <==> cost <= spec.capacity && DivCeil(cost - e.tokens, spec.refillTokens) <= Intervals(e, spec, later)
  {
    RefillIsExact(e, spec, later);
    hide Refill;
    var need, k, f := cost - e.tokens, Intervals(e, spec, later), spec.refillTokens;
    DivCeilBounds(need, f);
    var c := DivCeil(need, f);
    if c <= k {
      MulMono(c, k, f);
    } else {
      MulMono(k, c - 1, f);
    }
  }

  /**
    The hint never invites a retry that is too early, exactly when the cost fits the bucket, the
    clock was not behind the refill time at the refusal and the hint was not cut off, or when no
    64-bit clock reaches the hinted time at all. At the hinted time itself the same is true.
   */
  lemma {:induction false} RetryHintIsSufficientExactlyWhen(s: State, cost: u64, spec: Bucket, now: u64)
    requires !ApplyBucket(Some(s), cost, spec, now).1.allowed
    ensures ghost var (e, acq) := ApplyBucket(Some(s), cost, spec, now);
            ghost var sound := cost <= spec.capacity && s.last <= now && HintIsExact(s, cost, spec, now);
            && (NeverTooEarly(s, cost, spec, now) <==> sound || U64_MAX < now + acq.retryAfterMs)
            && (now + acq.retryAfterMs <= U64_MAX ==>
                  (ApplyBucket(Some(e), cost, spec, now + acq.retryAfterMs).1.allowed <==> sound))
  {
    var (e, acq) := ApplyBucket(Some(s), cost, spec, now);
    var sound := cost <= spec.capacity && s.last <= now && HintIsExact(s, cost, spec, now);
    var hinted := now + acq.retryAfterMs;
    if hinted <= U64_MAX {
      AtHintedTime(s, cost, spec, now, hinted);
    }
    forall later: u64 | sound && hinted <= later ensures ApplyBucket(Some(e), cost, spec, later).1.allowed {
      AtHintedTime(s, cost, spec, now, later);
    }
    hide ApplyBucket, Refill, HintIsExact;
  }

  /** At the hinted time, and from then on if the hint is sound. */
  lemma {:induction false} AtHintedTime(s: State, cost: u64, spec: Bucket, now: u64, later: u64)
    requires !ApplyBucket(Some(s), cost, spec, now).1.allowed
    requires now + ApplyBucket(Some(s), cost, spec, now).1.retryAfterMs <= later
    ensures ghost var (e, acq) := ApplyBucket(Some(s), cost, spec, now);
            ghost var sound := cost <= spec.capacity && s.last <= now && HintIsExact(s, cost, spec, now);
            && (sound ==> ApplyBucket(Some(e), cost, spec, later).1.allowed)
            && (later == now + acq.retryAfterMs ==> (ApplyBucket(Some(e), cost, spec, later).1.allowed ==> sound))
  {
    if !spec.NoRefill() {
      Refused(s, cost, spec, now);
      var (e, acq) := ApplyBucket(Some(s), cost, spec, now);
      var c := DivCeil(cost - e.tokens, spec.refillTokens);
      GrantedLater(e, cost, spec, later);
      DivCeilBounds(cost - e.tokens, spec.refillTokens);
      hide ApplyBucket, Refill, DivCeil;
      if HintIsExact(s, cost, spec, now) {
        HintReaches(e.last, now, c, spec.refillIntervalMs, later);
      } else {
        CutOff(e, spec, later, c);
      }
    }
  }

  /** No 64-bit clock is late enough for a wait that does not fit in 64 bits. */
  lemma {:induction false} CutOff(e: State, spec: Bucket, later: u64, c: nat)
    requires !spec.NoRefill() && U64_MAX < c * spec.refillIntervalMs
    ensures Intervals(e, spec, later) < c
  {
    WholeIntervals(e, spec, later);
    if c <= Intervals(e, spec, later) {
      MulMono(c, Intervals(e, spec, later), spec.refillIntervalMs);
    }
  }

  /** `c` whole intervals of `i` fit between `last` and `now + c * i` exactly when `last <= now`. */
  lemma {:induction false} HintReaches(last: nat, now: nat, c: nat, i: nat, later: nat)
    requires 0 < i && 1 <= c && now + c * i <= later
    ensures ghost var k := if later <= last then 0 else (later - last) / i;
            (last <= now ==> c <= k) && (later == now + c * i && c <= k ==> last <= now)
  {
    MulMono(1, c, i);
    if last < later {
      DivAtLeast(later - last, i, c);
    }
  }

  /** The hint is late by less than one interval: any earlier by a whole interval still fails. */
  lemma {:induction false} RetryHintIsTight(s: State, cost: u64, spec: Bucket, now: u64, early: u64)
    requires !ApplyBucket(Some(s), cost, spec, now).1.allowed
    requires HintIsExact(s, cost, spec, now) && s.last <= now
    requires early + spec.refillIntervalMs <= now + ApplyBucket(Some(s), cost, spec, now).1.retryAfterMs
    ensures !ApplyBucket(Some(ApplyBucket(Some(s), cost, spec, now).0), cost, spec, early).1.allowed
  {
    Refused(s, cost, spec, now);
    var e := ApplyBucket(Some(s), cost, spec, now).0;
    GrantedLater(e, cost, spec, early);
    hide ApplyBucket, Refill;
    var c, i := DivCeil(cost - e.tokens, spec.refillTokens), spec.refillIntervalMs;
    WholeIntervals(e, spec, early);
    if c <= Intervals(e, spec, early) {
      MulMono(c, Intervals(e, spec, early), i);
      DivCeilBounds(cost - e.tokens, spec.refillTokens);
      MulMono(1, c, i);
    }
  }

  /** A backward clock step makes the hint too early: the documented promise fails here. */
  lemma {:induction false} HintTooEarlyExample()
    ensures ghost var spec := Bucket(1, 1, 1000);
            ghost var s := State(0, 5000);
            ghost var (e, acq) := ApplyBucket(Some(s), 1, spec, 4000);
            && !acq.allowed && acq.retryAfterMs == 1000
            && !ApplyBucket(Some(e), 1, spec, 4000 + acq.retryAfterMs).1.allowed
  {
    assert SatMul(0, 1) == 0 && SatMul(0, 1000) == 0;
    assert DivCeil(1, 1) == 1;
  }

  // ---------- the zero cell ----------

  /**
    A zero-initialised cell reads as a full bucket on first use exactly when the refills since
    the epoch reach the capacity; without refills, only when there is nothing to hold.
   */
  lemma {:induction false} ZeroCellIsFullExactlyWhen(spec: Bucket, now: u64)
    ensures Refill(Some(State(0, 0)), spec, now).tokens == spec.capacity
            <==> spec.capacity <= (if spec.NoRefill() then 0 else now / spec.refillIntervalMs * spec.refillTokens)
  {
    if !spec.NoRefill() {
      RefillIsExact(State(0, 0), spec, now);
      if now == 0 {
        assert 0 / spec.refillIntervalMs == 0;
      }
    }
  }

  /** A route's limiter with a burst of two thousand million at one token a second is not full in 2025. */
  lemma {:induction false} ZeroCellNotFullExample()
    ensures Refill(Some(State(0, 0)), Bucket(2_000_000_000, 1, 1000), 1_763_000_000_000).tokens == 1_763_000_000
  {
    assert SatMul(1_763_000_000, 1) == 1_763_000_000;
  }

  /** Without refills a zero cell stays empty: nothing is ever granted from it. */
  lemma {:induction false} ZeroCellStaysEmpty(spec: Bucket, reqs: seq<Request>)
    requires spec.NoRefill()
    ensures Granted(State(0, 0), spec, reqs) == 0
  {
    OneShotBound(State(0, 0), spec, reqs);
  }
}
