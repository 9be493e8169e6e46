/** The in-memory store behind host-held state (plecto/crates/host/src/backend.rs). */
module KvBackend {
  import opened Bytes
  import opened TokenBucket
  import opened Words

  type Key = seq<byte>
  type Store = map<Key, seq<byte>>

  const TWO63: int := 0x8000_0000_0000_0000

  type i64 = x: int | -TWO63 <= x < TWO63

  // ---------- encodings ----------

  function EncodeI64(v: i64): (s: seq<byte>)
    ensures |s| == 8
  {
    ToLe(if v < 0 then v + TWO64 else v, 8)
  }

  /** A short value is padded with zero bytes, a long one cut to eight. */
  function DecodeI64(s: seq<byte>): i64 {
    var b := if |s| >= 8 then s[..8] else s + seq(8 - |s|, _ => 0);
    Pow256Of8();
    FromLeBelow(b);
    var u := FromLe(b);
    if u < TWO63 then u else u - TWO64
  }

  lemma {:induction false} I64RoundTrip(v: i64)
    ensures DecodeI64(EncodeI64(v)) == v
  {
    Pow256Of8();
    LeRoundTrip(if v < 0 then v + TWO64 else v, 8);
    assert EncodeI64(v)[..8] == EncodeI64(v);
  }

  function EncodeBucket(s: State): (b: seq<byte>)
    ensures |b| == 16
  {
    ToLe(s.tokens, 8) + ToLe(s.last, 8)
  }

  function DecodeBucket(b: seq<byte>): Option<State> {
    if |b| != 16 then None
    else
      Pow256Of8();
      FromLeBelow(b[..8]);
      FromLeBelow(b[8..]);
      Some(State(FromLe(b[..8]), FromLe(b[8..])))
  }

  lemma {:induction false} BucketRoundTrip(s: State)
    ensures DecodeBucket(EncodeBucket(s)) == Some(s)
  {
    Pow256Of8();
    LeRoundTrip(s.tokens, 8);
    LeRoundTrip(s.last, 8);
    assert EncodeBucket(s)[..8] == ToLe(s.tokens, 8) && EncodeBucket(s)[8..] == ToLe(s.last, 8);
  }

  /** An absent bucket starts full; malformed bytes count as an empty one as of now. */
  function BucketInput(raw: Option<seq<byte>>, now: u64): Option<State> {
    match raw
    case None => None
    case Some(b) =>
      match DecodeBucket(b)
      case Some(s) => Some(s)
      case None => Some(State(0, now))
  }

  /** Corrupt bucket bytes are denied, never granted: only a free request passes. */
  lemma {:induction false} CorruptBucketFailsClosed(b: seq<byte>, cost: u64, spec: Bucket, now: u64)
    requires |b| != 16
    ensures ApplyBucket(BucketInput(Some(b), now), cost, spec, now).1.allowed <==> cost == 0
  {
    if !spec.NoRefill() {
      RefillIsExact(State(0, now), spec, now);
      assert 0 * spec.refillTokens == 0;
    }
  }

  // ---------- operations ----------

  function Lookup(m: Store, k: Key): Option<seq<byte>> {
    if k in m then Some(m[k]) else None
  }

  function SatAddI64(a: i64, b: i64): i64 {
    if a + b >= TWO63 then TWO63 - 1 else if a + b < -TWO63 then -TWO63 else a + b
  }

  function Incremented(m: Store, k: Key, delta: i64): (Store, i64) {
    var cur := DecodeI64(if k in m then m[k] else []);
    if delta == 0 then (m, cur)
    else
      var next := SatAddI64(cur, delta);
      (m[k := EncodeI64(next)], next)
  }

  function Acquired(m: Store, k: Key, cost: u64, spec: Bucket, now: u64): (Store, Acquire) {
    var (next, acq) := ApplyBucket(BucketInput(Lookup(m, k), now), cost, spec, now);
    (m[k := EncodeBucket(next)], acq)
  }

  lemma {:induction false} FromLeZeros(n: nat)
    ensures FromLe(seq(n, _ => 0)) == 0
  {
    if n != 0 {
      assert seq(n, _ => 0)[1..] == seq(n - 1, _ => 0);
      FromLeZeros(n - 1);
    }
  }

  /**
    An increment answers the sum of what a read answered before and the delta, or the nearer end
    of the 64-bit range; a read then answers that, and changes nothing. An absent counter reads 0.
   */
  lemma {:induction false} CounterReadsBack(m: Store, k: Key, delta: i64)
    ensures ghost var cur := Incremented(m, k, 0).1;
            ghost var (m', next) := Incremented(m, k, delta);
            && (k !in m ==> cur == 0)
            && (-TWO63 <= cur + delta < TWO63 ==> next == cur + delta)
            && (TWO63 <= cur + delta ==> next == TWO63 - 1)
            && (cur + delta < -TWO63 ==> next == -TWO63)
            && Incremented(m', k, 0) == (m', next)
  {
    I64RoundTrip(Incremented(m, k, delta).1);
    FromLeZeros(8);
    assert [] + seq(8, _ => 0) == seq(8, _ => 0);
  }

  /** A stored bucket resumes from the state its last acquire left. */
  lemma {:induction false} BucketResumes(m: Store, k: Key, c1: u64, c2: u64, spec: Bucket, t1: u64, t2: u64)
    ensures ghost var m1 := Acquired(m, k, c1, spec, t1).0;
            ghost var s1 := ApplyBucket(BucketInput(Lookup(m, k), t1), c1, spec, t1).0;
            Acquired(m1, k, c2, spec, t2).1 == ApplyBucket(Some(s1), c2, spec, t2).1
  {
    hide ApplyBucket;
    BucketRoundTrip(ApplyBucket(BucketInput(Lookup(m, k), t1), c1, spec, t1).0);
  }

  class MemoryBackend {
    var entries: Store

    constructor ()
      ensures entries == map[]
    {
      entries := map[];
    }

    method Get(key: Key) returns (v: Option<seq<byte>>)
      ensures v == Lookup(entries, key)
    {
      v := if key in entries then Some(entries[key]) else None;
    }

    method Set(key: Key, value: seq<byte>)
      modifies this
      ensures entries == old(entries)[key := value]
    {
      entries := entries[key := value];
    }

    method Delete(key: Key)
      modifies this
      ensures entries == old(entries) - {key}
    {
      entries := entries - {key};
    }

    method Increment(key: Key, delta: i64) returns (r: i64)
      modifies this
      ensures (entries, r) == Incremented(old(entries), key, delta)
    {
      var cur := DecodeI64(if key in entries then entries[key] else []);
      if delta == 0 {
        return cur;
      }
      r := SatAddI64(cur, delta);
      entries := entries[key := EncodeI64(r)];
    }

    method TryAcquire(key: Key, cost: u64, spec: Bucket, now: u64) returns (acq: Acquire)
      modifies this
      ensures (entries, acq) == Acquired(old(entries), key, cost, spec, now)
    {
      var raw := Get(key);
      var (next, a) := ApplyBucket(BucketInput(raw, now), cost, spec, now);
      entries := entries[key := EncodeBucket(next)];
      acq := a;
    }
  }
}
