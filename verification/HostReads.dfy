/** What a filter reads back over every run of host calls. */
module HostReads {
  import opened Bytes
  import opened TokenBucket
  import opened Words
  import opened KvBackend
  import opened HostState
  import opened HostRuns

  /** A call on the entry that `id` keeps under `tag` and `key`. */
  predicate On(op: Op, id: seq<byte>, tag: byte, key: seq<byte>) {
    op.id == id && Tag(op.call) == tag && op.call.key == key
  }

  /** Calls on other entries leave an entry as it is. */
  lemma {:induction false} OtherEntries(ops: seq<Op>, id: seq<byte>, tag: byte, key: seq<byte>)
    requires ops != [] && ValidOps(ops) && ValidId(id) && !On(ops[|ops| - 1], id, tag, key)
    ensures Lookup(After(ops).store, NsKey(id, tag, key))
            == Lookup(After(ops[..|ops| - 1]).store, NsKey(id, tag, key))
  {
    hide Exec;
    var op := ops[|ops| - 1];
    CallsAreIsolated(After(ops[..|ops| - 1]), op.id, op.call, id, tag, key);
  }

  // ---------- counters ----------

  /** An increment is refused only when it would create the counter past a cap. */
  ghost predicate CounterAdmits(h: Host, id: seq<byte>, key: seq<byte>) {
    NsKey(id, TAG_COUNTER, key) in h.store || !OverCap(h.quota, Prefix(id), 1, |key| + 8)
  }

  /** The sum of the deltas of the counter's admitted increments. */
  ghost function DeltaSum(ops: seq<Op>, id: seq<byte>, key: seq<byte>): int {
    if ops == [] then 0
    else
      var front, op := ops[..|ops| - 1], ops[|ops| - 1];
      DeltaSum(front, id, key)
      + (if On(op, id, TAG_COUNTER, key) && CounterAdmits(After(front), id, key) then op.call.delta else 0)
  }

  ghost predicate Fits(sum: int) {
    -TWO63 <= sum < TWO63
  }

  /** One increment of an existing or admitted counter, and one that is refused. */
  lemma {:induction false} IncrementAnswers(h: Host, id: seq<byte>, key: seq<byte>, delta: i64)
    ensures ghost var (h', a) := Exec(h, id, CounterIncrement(key, delta));
            ghost var read, read' := Exec(h, id, CounterIncrement(key, 0)), Exec(h', id, CounterIncrement(key, 0));
            && read == (h, Counter(read.1.count)) && read'.0 == h'
            && (NsKey(id, TAG_COUNTER, key) !in h.store ==> read.1.count == 0)
            && (if delta != 0 && !CounterAdmits(h, id, key) then h' == h && a == Counter(0)
                else
                  ghost var sum := read.1.count + delta;
                  a == read'.1 == Counter(if sum >= TWO63 then TWO63 - 1 else if sum < -TWO63 then -TWO63 else sum))
  {
    CounterReadsBack(h.store, NsKey(id, TAG_COUNTER, key), delta);
    CounterReadsBack(h.store, NsKey(id, TAG_COUNTER, key), 0);
    hide Incremented, OverCap;
  }

  /** What a read of a counter answers depends on its stored value only. */
  lemma {:induction false} ReadOf(h: Host, id: seq<byte>, key: seq<byte>, g: Host)
    requires Lookup(h.store, NsKey(id, TAG_COUNTER, key)) == Lookup(g.store, NsKey(id, TAG_COUNTER, key))
    ensures Exec(h, id, CounterIncrement(key, 0)).1 == Exec(g, id, CounterIncrement(key, 0)).1
  {
    hide DecodeI64;
  }

  /**
    Over every run by any filters, a counter whose partial sums fit in 64 bits reads the plain sum
    of its admitted increments, and the last increment answered it.
   */
  lemma {:induction false} CounterIsTheSum(ops: seq<Op>, id: seq<byte>, key: seq<byte>)
    requires ValidOps(ops) && ValidId(id)
    requires forall n :: 0 <= n <= |ops| ==> Fits(DeltaSum(ops[..n], id, key))
    ensures Fits(DeltaSum(ops, id, key))
    ensures Exec(After(ops), id, CounterIncrement(key, 0)) == (After(ops), Counter(DeltaSum(ops, id, key)))
    ensures ops != [] && On(ops[|ops| - 1], id, TAG_COUNTER, key) ==>
              LastAnswer(ops) == Counter(if ops[|ops| - 1].call.delta == 0 || CounterAdmits(After(ops[..|ops| - 1]), id, key)
                                         then DeltaSum(ops, id, key) else 0)
  {
    assert ops[..|ops|] == ops;
    hide Exec, OverCap, CounterAdmits;
    if ops == [] {
      IncrementAnswers(EMPTY_HOST, id, key, 0);
    } else {
      var front, op := ops[..|ops| - 1], ops[|ops| - 1];
      forall n | 0 <= n <= |front| ensures Fits(DeltaSum(front[..n], id, key)) {
        assert front[..n] == ops[..n];
      }
      CounterIsTheSum(front, id, key);
      IncrementAnswers(After(ops), id, key, 0);
      if On(op, id, TAG_COUNTER, key) {
        IncrementAnswers(After(front), id, key, op.call.delta);
      } else {
        OtherEntries(ops, id, TAG_COUNTER, key);
        ReadOf(After(ops), id, key, After(front));
      }
    }
  }

  // ---------- values ----------

  /** A write is refused when it is oversized, or grows the usage past a cap. */
  ghost predicate WriteAdmits(h: Host, id: seq<byte>, key: seq<byte>, value: seq<byte>, previous: Option<seq<byte>>) {
    && |key| <= 1024 && |value| <= 256 * 1024
    && !match previous
       case None => OverCap(h.quota, Prefix(id), 1, |key| + |value|)
       case Some(v) => OverCap(h.quota, Prefix(id), 0, |value| - |v|)
  }

  /** What the filter last wrote under `key` and has not deleted since. */
  ghost function Written(ops: seq<Op>, id: seq<byte>, key: seq<byte>): Option<seq<byte>> {
    if ops == [] then None
    else
      var front, op := ops[..|ops| - 1], ops[|ops| - 1];
      var previous := Written(front, id, key);
      if !On(op, id, TAG_KV, key) then previous
      else match op.call
           case KvSet(_, v) => if WriteAdmits(After(front), id, key, v, previous) then Some(v) else previous
           case KvDelete(_) => None
           case _ => previous
  }

  lemma {:induction false} OwnKvCall(h: Host, id: seq<byte>, c: Call)
    requires Tag(c) == TAG_KV
    ensures ghost var k := NsKey(id, TAG_KV, c.key);
            ghost var previous, next := Lookup(h.store, k), Lookup(Exec(h, id, c).0.store, k);
            match c
            case KvSet(_, v) => next == if WriteAdmits(h, id, c.key, v, previous) then Some(v) else previous
            case KvDelete(_) => next == None
            case _ => next == previous
  {}

  /** Over every run by any filters, a read answers the filter's own last write. */
  lemma {:induction false} ReadsLastWrite(ops: seq<Op>, id: seq<byte>, key: seq<byte>)
    requires ValidOps(ops) && ValidId(id)
    ensures Lookup(After(ops).store, NsKey(id, TAG_KV, key)) == Written(ops, id, key)
    ensures Exec(After(ops), id, KvGet(key)) == (After(ops), Value(Written(ops, id, key)))
  {
    if ops != [] {
      var front, op := ops[..|ops| - 1], ops[|ops| - 1];
      ReadsLastWrite(front, id, key);
      hide Exec, WriteAdmits;
      if On(op, id, TAG_KV, key) {
        OwnKvCall(After(front), id, op.call);
      } else {
        OtherEntries(ops, id, TAG_KV, key);
      }
    }
  }

  // ---------- buckets ----------

  /** An acquire is refused outright only when it would create the bucket past a cap. */
  ghost predicate BucketAdmits(h: Host, id: seq<byte>, key: seq<byte>) {
    NsKey(id, TAG_RATELIMIT, key) in h.store || !OverCap(h.quota, Prefix(id), 1, |key| + 16)
  }

  /** The first acquire on a key is let through exactly when its cost fits the capacity. */
  lemma {:induction false} FirstAcquire(h: Host, id: seq<byte>, key: seq<byte>, cost: u64, spec: Bucket, now: u64)
    requires NsKey(id, TAG_RATELIMIT, key) !in h.store && BucketAdmits(h, id, key)
    ensures ghost var a := Exec(h, id, BucketAcquire(key, cost, Some(spec), now)).1;
            && a.Outcome? && (a.acquire.allowed <==> cost <= spec.capacity)
            && a.acquire.remaining == (if cost <= spec.capacity then spec.capacity - cost else spec.capacity)
  {
    hide OverCap;
    FirstSight(cost, spec, now);
  }

  /** Without a configured bucket, or past a quota, an acquire is denied and changes nothing. */
  lemma {:induction false} DeniedAcquire(h: Host, id: seq<byte>, key: seq<byte>, cost: u64, spec: Option<Bucket>, now: u64)
    requires spec.None? || !BucketAdmits(h, id, key)
    ensures Exec(h, id, BucketAcquire(key, cost, spec, now)) == (h, Outcome(Acquire(false, 0, 0)))
  {}

  /** The bucket stored under a key. */
  ghost function Stored(h: Host, id: seq<byte>, key: seq<byte>): Option<State> {
    var k := NsKey(id, TAG_RATELIMIT, key);
    if k in h.store then DecodeBucket(h.store[k]) else None
  }

  /** The acquires that reached the bucket, in order. */
  ghost function Consults(ops: seq<Op>, id: seq<byte>, key: seq<byte>): seq<Request> {
    if ops == [] then []
    else
      var front, op := ops[..|ops| - 1], ops[|ops| - 1];
      Consults(front, id, key)
      + (if On(op, id, TAG_RATELIMIT, key) && op.call.spec.Some? && BucketAdmits(After(front), id, key)
         then [Request(op.call.now, op.call.cost)] else [])
  }

  /** The cost of the acquires on the key that were answered with a grant. */
  ghost function GrantedTo(ops: seq<Op>, id: seq<byte>, key: seq<byte>): nat {
    if ops == [] then 0
    else
      var op := ops[|ops| - 1];
      GrantedTo(ops[..|ops| - 1], id, key)
      + (if On(op, id, TAG_RATELIMIT, key) && LastAnswer(ops).Outcome? && LastAnswer(ops).acquire.allowed
         then op.call.cost else 0)
  }

  /** The filter's acquires on the key all carry its one configured bucket, if any. */
  ghost predicate Configured(ops: seq<Op>, id: seq<byte>, key: seq<byte>, spec: Bucket) {
    forall k :: 0 <= k < |ops| && On(ops[k], id, TAG_RATELIMIT, key) ==> ops[k].call.spec in {None, Some(spec)}
  }

  /** The state after the first consult, and the cost it granted. */
  ghost function AfterFirst(spec: Bucket, first: Request): State {
    ApplyBucket(None, first.cost, spec, first.now).0
  }

  ghost function FirstGrant(spec: Bucket, first: Request): nat {
    if ApplyBucket(None, first.cost, spec, first.now).1.allowed then first.cost else 0
  }

  /** An acquire that reaches the bucket is one step of it. */
  lemma {:induction false} OwnAcquire(h: Host, id: seq<byte>, key: seq<byte>, cost: u64, spec: Bucket, now: u64)
    requires BucketAdmits(h, id, key)
    requires NsKey(id, TAG_RATELIMIT, key) in h.store ==> Stored(h, id, key).Some?
    ensures ghost var (h', a) := Exec(h, id, BucketAcquire(key, cost, Some(spec), now));
            ghost var (e, acq) := ApplyBucket(Stored(h, id, key), cost, spec, now);
            Stored(h', id, key) == Some(e) && NsKey(id, TAG_RATELIMIT, key) in h'.store && a == Outcome(acq)
  {
    hide OverCap, ApplyBucket, EncodeBucket, DecodeBucket;
    BucketRoundTrip(ApplyBucket(Stored(h, id, key), cost, spec, now).0);
  }

  /** The stored bucket and the cost granted are those of a bucket first seen and run on `reqs`. */
  ghost predicate Follows(stored: Option<State>, granted: int, spec: Bucket, reqs: seq<Request>) {
    if reqs == [] then stored == None && granted == 0
    else
      && stored == Some(Run(AfterFirst(spec, reqs[0]), spec, reqs[1..]))
      && granted == FirstGrant(spec, reqs[0]) + Granted(AfterFirst(spec, reqs[0]), spec, reqs[1..])
  }

  lemma {:induction false} FollowsOn(stored: Option<State>, granted: int, spec: Bucket, reqs: seq<Request>, r: Request)
    requires Follows(stored, granted, spec, reqs)
    ensures ghost var (e, acq) := ApplyBucket(stored, r.cost, spec, r.now);
            Follows(Some(e), granted + (if acq.allowed then r.cost else 0), spec, reqs + [r])
  {
    hide ApplyBucket;
    if reqs != [] {
      OneMoreConsult(spec, reqs, r);
    } else {
      assert (reqs + [r])[1..] == [];
    }
  }

  lemma {:induction false} StoredByLookup(h: Host, g: Host, id: seq<byte>, key: seq<byte>)
    requires Lookup(h.store, NsKey(id, TAG_RATELIMIT, key)) == Lookup(g.store, NsKey(id, TAG_RATELIMIT, key))
    ensures Stored(h, id, key) == Stored(g, id, key)
    ensures NsKey(id, TAG_RATELIMIT, key) in h.store <==> NsKey(id, TAG_RATELIMIT, key) in g.store
  {
    hide DecodeBucket;
  }

  /** The key is in the store exactly when its bucket was consulted, and the bucket is as `Follows` says. */
  ghost predicate BucketAgrees(ops: seq<Op>, id: seq<byte>, key: seq<byte>, spec: Bucket) {
    && Follows(Stored(After(ops), id, key), GrantedTo(ops, id, key), spec, Consults(ops, id, key))
    && (NsKey(id, TAG_RATELIMIT, key) in After(ops).store <==> Consults(ops, id, key) != [])
  }

  /** The last call, seen from the run before it: an acquire on the key that reaches the bucket, or not. */
  lemma {:induction false} LastConsult(ops: seq<Op>, id: seq<byte>, key: seq<byte>)
    requires ops != []
    ensures ghost var front, op := ops[..|ops| - 1], ops[|ops| - 1];
            ghost var (h, a) := Exec(After(front), op.id, op.call);
            && After(ops) == h
            && GrantedTo(ops, id, key)
               == GrantedTo(front, id, key)
                  + (if On(op, id, TAG_RATELIMIT, key) && a.Outcome? && a.acquire.allowed then op.call.cost else 0)
            && Consults(ops, id, key)
               == Consults(front, id, key)
                  + (if On(op, id, TAG_RATELIMIT, key) && op.call.spec.Some? && BucketAdmits(After(front), id, key)
                     then [Request(op.call.now, op.call.cost)] else [])
  {
    hide Exec, BucketAdmits;
  }

  lemma {:induction false} ConsultedIsStored(ops: seq<Op>, id: seq<byte>, key: seq<byte>, spec: Bucket)
    requires BucketAgrees(ops, id, key, spec)
    ensures NsKey(id, TAG_RATELIMIT, key) in After(ops).store ==> Stored(After(ops), id, key).Some?
  {
    hide After, Stored, Consults, GrantedTo, Run, Granted;
  }

  lemma {:induction false} BucketStep(ops: seq<Op>, id: seq<byte>, key: seq<byte>, spec: Bucket)
    requires ops != [] && On(ops[|ops| - 1], id, TAG_RATELIMIT, key) && ops[|ops| - 1].call.spec in {None, Some(spec)}
    requires BucketAgrees(ops[..|ops| - 1], id, key, spec)
    ensures BucketAgrees(ops, id, key, spec)
  {
    hide After, Consults, GrantedTo, Exec, BucketAdmits, Stored, Follows, ApplyBucket, NsKey, Prefix;
    var front, c := ops[..|ops| - 1], ops[|ops| - 1].call;
    assert c == BucketAcquire(key, c.cost, c.spec, c.now);
    LastConsult(ops, id, key);
    ConsultedIsStored(front, id, key, spec);
    var h := After(front);
    if c.spec.Some? && BucketAdmits(h, id, key) {
      OwnAcquire(h, id, key, c.cost, spec, c.now);
      FollowsOn(Stored(h, id, key), GrantedTo(front, id, key), spec, Consults(front, id, key), Request(c.now, c.cost));
    } else {
      DeniedAcquire(h, id, key, c.cost, c.spec, c.now);
      assert Consults(ops, id, key) == Consults(front, id, key);
    }
  }

  lemma {:induction false} BucketStart(id: seq<byte>, key: seq<byte>, spec: Bucket)
    ensures BucketAgrees([], id, key, spec)
  {}

  /** Over every run, the stored bucket and the grants are those of the bucket's own requests. */
  lemma {:induction false} BucketFollowsItsRequests(ops: seq<Op>, id: seq<byte>, key: seq<byte>, spec: Bucket)
    requires ValidOps(ops) && ValidId(id) && Configured(ops, id, key, spec)
    ensures BucketAgrees(ops, id, key, spec)
  {
    hide After, Consults, GrantedTo, Exec, BucketAdmits, Follows, Stored, NsKey, Prefix;
    if ops == [] {
      BucketStart(id, key, spec);
    } else {
      var front, op := ops[..|ops| - 1], ops[|ops| - 1];
      BucketFollowsItsRequests(front, id, key, spec);
      if On(op, id, TAG_RATELIMIT, key) {
        BucketStep(ops, id, key, spec);
      } else {
        LastConsult(ops, id, key);
        OtherEntries(ops, id, TAG_RATELIMIT, key);
        StoredByLookup(After(front), After(ops), id, key);
        assert Consults(ops, id, key) == Consults(front, id, key);
      }
    }
  }

  lemma {:induction false} OneMoreConsult(spec: Bucket, reqs: seq<Request>, r: Request)
    requires reqs != []
    ensures ghost var s, more := AfterFirst(spec, reqs[0]), (reqs + [r])[1..];
            ghost var (e, acq) := ApplyBucket(Some(Run(s, spec, reqs[1..])), r.cost, spec, r.now);
            && Run(s, spec, more) == e
            && Granted(s, spec, more) == Granted(s, spec, reqs[1..]) + (if acq.allowed then r.cost else 0)
  {
    hide ApplyBucket;
    var more := (reqs + [r])[1..];
    assert more[..|more| - 1] == reqs[1..] && more[|more| - 1] == r;
  }

  /**
    The rate limit over every run by any filters: a key's grants are at most the capacity plus the
    refills of the whole intervals from its first acquire to the latest clock.
   */
  lemma {:induction false} FilterIsLimited(ops: seq<Op>, id: seq<byte>, key: seq<byte>, spec: Bucket, latest: nat)
    requires ValidOps(ops) && ValidId(id) && Configured(ops, id, key, spec) && !spec.NoRefill()
    requires forall k :: 0 <= k < |Consults(ops, id, key)| ==> Consults(ops, id, key)[k].now <= latest
    ensures ghost var reqs := Consults(ops, id, key);
            if reqs == [] then GrantedTo(ops, id, key) == 0
            else GrantedTo(ops, id, key)
                 <= spec.capacity + (latest - reqs[0].now) / spec.refillIntervalMs * spec.refillTokens
  {
    hide Consults, GrantedTo, Granted, Run, ApplyBucket, After, Stored;
    BucketFollowsItsRequests(ops, id, key, spec);
    var reqs := Consults(ops, id, key);
    if reqs != [] {
      GrantBoundFromFirstSight(spec, reqs[0], reqs[1..], latest);
    }
  }
}
