/** Host-held filter state: key namespaces, quota accounting and the host calls
    (plecto/crates/host/src/lib.rs). */
module HostState {
  import opened Bytes
  import opened TokenBucket
  import opened Words
  import opened KvBackend

  const MAX_KV_VALUE_BYTES: nat := 256 * 1024
  const MAX_KV_KEY_BYTES: nat := 1024
  const MAX_NS_ENTRIES: nat := 100_000
  const MAX_NS_BYTES: nat := 67_108_864        // 64 << 20
  const MAX_TOTAL_ENTRIES: nat := 5_000_000
  const MAX_TOTAL_BYTES: nat := 1_073_741_824  // 1 << 30

  const DELIM: byte := 0x1f
  const TAG_KV: byte := 0x6b
  const TAG_COUNTER: byte := 0x63
  const TAG_RATELIMIT: byte := 0x72

  // ---------- namespaces ----------

  /** The filter ids a host loads: non-empty and free of the delimiter. */
  predicate ValidId(id: seq<byte>) {
    id != [] && DELIM !in id
  }

  function Prefix(id: seq<byte>): seq<byte> {
    id + [DELIM]
  }

  function NsKey(id: seq<byte>, tag: byte, key: seq<byte>): Key {
    Prefix(id) + [tag, DELIM] + key
  }

  /** The stored key: the id, a tag for the primitive between two unit separators, and the filter's key. */
  lemma {:induction false} KeyLayout(id: seq<byte>, key: seq<byte>)
    ensures NsKey(id, TAG_KV, key) == id + [0x1f, 'k' as int, 0x1f] + key
    ensures NsKey(id, TAG_COUNTER, key) == id + [0x1f, 'c' as int, 0x1f] + key
    ensures NsKey(id, TAG_RATELIMIT, key) == id + [0x1f, 'r' as int, 0x1f] + key
  {}

  /** The key lies in the namespace of `id`. */
  predicate Owns(id: seq<byte>, k: Key) {
    Prefix(id) <= k
  }

  /** The id of an owner ends at the key's first delimiter. */
  lemma {:induction false} FirstDelimiter(id: seq<byte>, k: Key)
    requires ValidId(id) && Owns(id, k)
    ensures |id| < |k| && k[|id|] == DELIM && k[..|id|] == id
    ensures forall j :: 0 <= j < |id| ==> k[j] != DELIM
  {
    assert k[..|id| + 1] == Prefix(id);
    assert k[..|id|] == Prefix(id)[..|id|] == id;
    forall j | 0 <= j < |id| ensures k[j] != DELIM {
      assert k[j] == id[j];
    }
  }

  lemma {:induction false} PrefixesAreDisjoint(a: seq<byte>, b: seq<byte>, k: Key)
    requires ValidId(a) && ValidId(b) && Owns(a, k) && Owns(b, k)
    ensures a == b
  {
    FirstDelimiter(a, k);
    FirstDelimiter(b, k);
  }

  /** Namespaced keys tell apart filters, primitives and the filter's own keys. */
  lemma {:induction false} NsKeyIsInjective(a: seq<byte>, s: byte, k: seq<byte>, b: seq<byte>, t: byte, l: seq<byte>)
    requires ValidId(a) && ValidId(b) && NsKey(a, s, k) == NsKey(b, t, l)
    ensures a == b && s == t && k == l
  {
    var x := NsKey(a, s, k);
    assert Owns(a, x) && Owns(b, x);
    PrefixesAreDisjoint(a, b, x);
    assert s == x[|a| + 1] == t;
    assert k == x[|a| + 3..] == l;
  }

  // ---------- the quota ----------

  datatype Usage = Usage(entries: nat, bytes: nat)

  datatype Quota = Quota(ns: map<seq<byte>, Usage>, totalEntries: nat, totalBytes: nat) {
    function Of(p: seq<byte>): Usage {
      if p in ns then ns[p] else Usage(0, 0)
    }
  }

  const EMPTY_QUOTA := Quota(map[], 0, 0)

  function Clamp(x: int): nat {
    if x < 0 then 0 else x
  }

  /** Whether the charge would push the namespace or the host past a cap; only growth can. */
  predicate OverCap(q: Quota, p: seq<byte>, entriesDelta: int, bytesDelta: int) {
    || (entriesDelta > 0 && (q.Of(p).entries + entriesDelta > MAX_NS_ENTRIES
                             || q.totalEntries + entriesDelta > MAX_TOTAL_ENTRIES))
    || (bytesDelta > 0 && (q.Of(p).bytes + bytesDelta > MAX_NS_BYTES
                           || q.totalBytes + bytesDelta > MAX_TOTAL_BYTES))
  }

  function Admit(q: Quota, p: seq<byte>, entriesDelta: int, bytesDelta: int): (Quota, bool) {
    if OverCap(q, p, entriesDelta, bytesDelta) then (q, false)
    else
      (Quota(q.ns[p := Usage(Clamp(q.Of(p).entries + entriesDelta), Clamp(q.Of(p).bytes + bytesDelta))],
             Clamp(q.totalEntries + entriesDelta), Clamp(q.totalBytes + bytesDelta)), true)
  }

  /**
    The caps in numbers: 100,000 entries and 64 MiB a namespace, 5,000,000 entries and 1 GiB in
    all. A charge that fits is recorded once in its namespace and once in the totals, never below 0.
   */
  lemma {:induction false} AdmitsExactlyWhen(q: Quota, p: seq<byte>, entriesDelta: int, bytesDelta: int)
    ensures Admit(q, p, entriesDelta, bytesDelta).1 <==>
            && (entriesDelta > 0 ==> q.Of(p).entries + entriesDelta <= 100_000 && q.totalEntries + entriesDelta <= 5_000_000)
            && (bytesDelta > 0 ==> q.Of(p).bytes + bytesDelta <= 64 * 1024 * 1024
                                   && q.totalBytes + bytesDelta <= 1024 * 1024 * 1024)
    ensures ghost var (q', ok) := Admit(q, p, entriesDelta, bytesDelta);
            ghost var e, b := q.Of(p).entries + entriesDelta, q.Of(p).bytes + bytesDelta;
            ghost var te, tb := q.totalEntries + entriesDelta, q.totalBytes + bytesDelta;
            && (!ok ==> q' == q)
            && (ok ==> q'.Of(p) == Usage(if e < 0 then 0 else e, if b < 0 then 0 else b)
                       && q'.totalEntries == (if te < 0 then 0 else te) && q'.totalBytes == (if tb < 0 then 0 else tb)
                       && forall r :: r != p ==> q'.Of(r) == q.Of(r))
  {}

  /** A charge is clamped: some count would have gone below zero. */
  predicate Clamps(q: Quota, p: seq<byte>, entriesDelta: int, bytesDelta: int) {
    || q.Of(p).entries + entriesDelta < 0 || q.Of(p).bytes + bytesDelta < 0
    || q.totalEntries + entriesDelta < 0 || q.totalBytes + bytesDelta < 0
  }

  ghost predicate WithinCaps(q: Quota) {
    && (forall p :: p in q.ns ==> q.ns[p].entries <= MAX_NS_ENTRIES && q.ns[p].bytes <= MAX_NS_BYTES)
    && q.totalEntries <= MAX_TOTAL_ENTRIES && q.totalBytes <= MAX_TOTAL_BYTES
  }

  datatype Charge = Charge(ns: seq<byte>, entriesDelta: int, bytesDelta: int)

  ghost function AdmitAll(q: Quota, charges: seq<Charge>): Quota {
    if charges == [] then q
    else
      var c := charges[|charges| - 1];
      Admit(AdmitAll(q, charges[..|charges| - 1]), c.ns, c.entriesDelta, c.bytesDelta).0
  }

  /** No sequence of charges and releases, in any order, takes recorded usage past a cap. */
  lemma {:induction false} CapsHold(charges: seq<Charge>)
    ensures WithinCaps(AdmitAll(EMPTY_QUOTA, charges))
  {
    if charges != [] {
      CapsHold(charges[..|charges| - 1]);
    }
  }

  class KvQuota {
    var ns: map<seq<byte>, Usage>
    var totalEntries: nat
    var totalBytes: nat

    ghost function View(): Quota
      reads this
    {
      Quota(ns, totalEntries, totalBytes)
    }

    constructor ()
      ensures View() == EMPTY_QUOTA
    {
      ns, totalEntries, totalBytes := map[], 0, 0;
    }

    method Charge(p: seq<byte>, entriesDelta: int, bytesDelta: int) returns (ok: bool)
      modifies this
      ensures (View(), ok) == Admit(old(View()), p, entriesDelta, bytesDelta)
    {
      var cur := if p in ns then ns[p] else Usage(0, 0);
      var nsEntries, nsBytes := cur.entries + entriesDelta, cur.bytes + bytesDelta;
      var newEntries, newBytes := totalEntries + entriesDelta, totalBytes + bytesDelta;
      if (entriesDelta > 0 && (nsEntries > MAX_NS_ENTRIES || newEntries > MAX_TOTAL_ENTRIES))
         || (bytesDelta > 0 && (nsBytes > MAX_NS_BYTES || newBytes > MAX_TOTAL_BYTES)) {
        return false;
      }
      ns := ns[p := Usage(Clamp(nsEntries), Clamp(nsBytes))];
      totalEntries, totalBytes := Clamp(newEntries), Clamp(newBytes);
      return true;
    }

    method Release(p: seq<byte>, entries: nat, bytes: nat)
      modifies this
      ensures View() == Admit(old(View()), p, 0 - entries, 0 - bytes).0
    {
      var _ := Charge(p, 0 - entries, 0 - bytes);
    }
  }

  // ---------- host calls, each one atomic step ----------

  datatype Host = Host(store: Store, quota: Quota)

  const EMPTY_HOST := Host(map[], EMPTY_QUOTA)

  datatype Call =
    | KvGet(key: seq<byte>)
    | KvSet(key: seq<byte>, value: seq<byte>)
    | KvDelete(key: seq<byte>)
    | CounterIncrement(key: seq<byte>, delta: i64)
    | BucketAcquire(key: seq<byte>, cost: u64, spec: Option<Bucket>, now: u64)

  datatype Answer = Done | Value(value: Option<seq<byte>>) | Counter(count: i64) | Outcome(acquire: Acquire)

  const DENIED := Acquire(false, 0, 0)

  /** The primitive a call works on. */
  function Tag(c: Call): byte {
    match c
    case CounterIncrement(_, _) => TAG_COUNTER
    case BucketAcquire(_, _, _, _) => TAG_RATELIMIT
    case _ => TAG_KV
  }

  /** What the call would charge, as `(entries, bytes)`. */
  function ChargeOf(h: Host, id: seq<byte>, c: Call): (int, int) {
    var k := NsKey(id, Tag(c), c.key);
    match c
    case KvGet(_) => (0, 0)
    case KvSet(key, v) => if k in h.store then (0, |v| - |h.store[k]|) else (1, |key| + |v|)
    case KvDelete(key) => if k in h.store then (-1, -(|key| + |h.store[k]|)) else (0, 0)
    case CounterIncrement(key, delta) => if delta == 0 || k in h.store then (0, 0) else (1, |key| + 8)
    case BucketAcquire(key, _, spec, _) => if spec.None? || k in h.store then (0, 0) else (1, |key| + 16)
  }

  /** Refused before any charge: an oversized write, or a limiter that is not configured. */
  predicate Dropped(c: Call) {
    match c
    case KvSet(key, v) => |key| > MAX_KV_KEY_BYTES || |v| > MAX_KV_VALUE_BYTES
    case BucketAcquire(_, _, spec, _) => spec.None?
    case _ => false
  }

  /** The call consults the quota. */
  predicate Charges(h: Host, id: seq<byte>, c: Call) {
    var k := NsKey(id, Tag(c), c.key);
    !Dropped(c) && match c
                   case KvGet(_) => false
                   case KvSet(_, _) => true
                   case KvDelete(_) => k in h.store
                   case CounterIncrement(_, delta) => delta != 0 && k !in h.store
                   case BucketAcquire(_, _, _, _) => k !in h.store
  }

  /** The effect of a call that is neither dropped nor over quota. */
  function Effect(store: Store, id: seq<byte>, c: Call): (Store, Answer) {
    var k := NsKey(id, Tag(c), c.key);
    match c
    case KvGet(_) => (store, Value(Lookup(store, k)))
    case KvSet(_, v) => (store[k := v], Done)
    case KvDelete(_) => (store - {k}, Done)
    case CounterIncrement(_, delta) =>
      var (s, n) := Incremented(store, k, delta);
      (s, Counter(n))
    case BucketAcquire(_, cost, spec, now) =>
      if spec.None? then (store, Outcome(DENIED))
      else
        var (s, a) := Acquired(store, k, cost, spec.value, now);
        (s, Outcome(a))
  }

  /** The answer of a call refused for size or quota. */
  function Refusal(c: Call): Answer {
    match c
    case CounterIncrement(_, _) => Counter(0)
    case BucketAcquire(_, _, _, _) => Outcome(DENIED)
    case _ => Done
  }

  function Exec(h: Host, id: seq<byte>, c: Call): (Host, Answer) {
    if Dropped(c) then (h, Refusal(c))
    else if Charges(h, id, c) then
      var (de, db) := ChargeOf(h, id, c);
      var (q, ok) := Admit(h.quota, Prefix(id), de, db);
      if ok then
        var (s, a) := Effect(h.store, id, c);
        (Host(s, q), a)
      else (h, Refusal(c))
    else
      var (s, a) := Effect(h.store, id, c);
      (Host(s, h.quota), a)
  }

  /** One filter's handle on the shared store and quota. */
  class FilterHandle {
    const kv: MemoryBackend
    const quota: KvQuota
    const id: seq<byte>
    const bucket: Option<Bucket>

    constructor (kv: MemoryBackend, quota: KvQuota, id: seq<byte>, bucket: Option<Bucket>)
      ensures this.kv == kv && this.quota == quota && this.id == id && this.bucket == bucket
    {
      this.kv, this.quota, this.id, this.bucket := kv, quota, id, bucket;
    }

    ghost function View(): Host
      reads kv, quota
    {
      Host(kv.entries, quota.View())
    }

    method KvGet(key: seq<byte>) returns (v: Option<seq<byte>>)
      ensures Exec(View(), id, Call.KvGet(key)) == (View(), Value(v))
    {
      v := kv.Get(NsKey(id, TAG_KV, key));
    }

    method KvSet(key: seq<byte>, value: seq<byte>)
      modifies kv, quota
      ensures (View(), Done) == Exec(old(View()), id, Call.KvSet(key, value))
    {
      if |key| > MAX_KV_KEY_BYTES || |value| > MAX_KV_VALUE_BYTES {
        return;
      }
      var k := NsKey(id, TAG_KV, key);
      var previous := kv.Get(k);
      var entriesDelta, bytesDelta := 1, |key| + |value|;
      if previous.Some? {
        entriesDelta, bytesDelta := 0, |value| - |previous.value|;
      }
      var ok := quota.Charge(Prefix(id), entriesDelta, bytesDelta);
      if !ok {
        return;
      }
      kv.Set(k, value);
    }

    method KvDelete(key: seq<byte>)
      modifies kv, quota
      ensures (View(), Done) == Exec(old(View()), id, Call.KvDelete(key))
    {
      var k := NsKey(id, TAG_KV, key);
      var previous := kv.Get(k);
      if previous.Some? {
        kv.Delete(k);
        quota.Release(Prefix(id), 1, |key| + |previous.value|);
      } else {
        assert kv.entries - {k} == kv.entries;
      }
    }

    method CounterIncrement(key: seq<byte>, delta: i64) returns (n: i64)
      modifies kv, quota
      ensures (View(), Counter(n)) == Exec(old(View()), id, Call.CounterIncrement(key, delta))
    {
      var k := NsKey(id, TAG_COUNTER, key);
      if delta == 0 {
        n := kv.Increment(k, 0);
        return;
      }
      var previous := kv.Get(k);
      if previous.None? {
        var ok := quota.Charge(Prefix(id), 1, |key| + 8);
        if !ok {
          return 0;
        }
      }
      n := kv.Increment(k, delta);
    }

    method TryAcquire(key: seq<byte>, cost: u64, now: u64) returns (a: Acquire)
      modifies kv, quota
      ensures (View(), Outcome(a)) == Exec(old(View()), id, BucketAcquire(key, cost, bucket, now))
    {
      if bucket.None? {
        return DENIED;
      }
      var k := NsKey(id, TAG_RATELIMIT, key);
      var previous := kv.Get(k);
      if previous.None? {
        var ok := quota.Charge(Prefix(id), 1, |key| + 16);
        if !ok {
          return DENIED;
        }
      }
      a := kv.TryAcquire(k, cost, bucket.value, now);
    }
  }
}
