/** The native per-route rate limiter (plecto/crates/control/src/ratelimit.rs). */
module NativeRateLimit {
  import opened Arith
  import opened Bytes
  import opened TokenBucket
  import opened Words

  const IP_SLOTS: nat := 65_536

  datatype Decision = Allow | Limit(retryAfterMs: u64)

  // ---------- the client key ----------

  type Octets4 = s: seq<byte> | |s| == 4 witness [0, 0, 0, 0]
  type Octets16 = s: seq<byte> | |s| == 16
    witness [0, 0, 0, 0, 0, 0, 0, 0, 0, 0, 0, 0, 0, 0, 0, 0]

  datatype IpAddr = V4(octets4: Octets4) | V6(octets16: Octets16)

  /** `::ffff:a.b.c.d` */
  predicate IsMapped(o: Octets16) {
    (forall k :: 0 <= k < 10 ==> o[k] == 0) && o[10] == 255 && o[11] == 255
  }

  function KeyBytes(peer: IpAddr): (k: seq<byte>)
    ensures |k| == 8
  {
    match peer
    case V4(o) => o + [0, 0, 0, 0]
    case V6(o) => if IsMapped(o) then o[12..16] + [0, 0, 0, 0] else o[..8]
  }

  /** Whom a key stands for: a v4 address, mapped or not, or the /64 network of a v6 address. */
  datatype Client = Host4(address: seq<byte>) | Net64(network: seq<byte>)

  function ClientOf(peer: IpAddr): Client {
    match peer
    case V4(o) => Host4(o)
    case V6(o) => if IsMapped(o) then Host4(o[12..16]) else Net64(o[..8])
  }

  /** A v6 network whose last four octets are zero has the key of the v4 host its first four spell. */
  predicate Coincide(host: Client, net: Client) {
    host.Host4? && net.Net64? && net.network == host.address + [0, 0, 0, 0]
  }

  /**
    Two peers share a key exactly when they are the same client, or a v4 host and the one v6
    network that coincides with it. So rotating inside a /64 is no escape.
   */
  lemma {:induction false} SameKeyExactlyWhen(a: IpAddr, b: IpAddr)
    ensures ghost var c, d := ClientOf(a), ClientOf(b);
            KeyBytes(a) == KeyBytes(b) <==> c == d || Coincide(c, d) || Coincide(d, c)
  {
    KeyOfClient(a);
    KeyOfClient(b);
    hide KeyBytes, ClientOf;
    var c, d := ClientOf(a), ClientOf(b);
    if c.Host4? && d.Host4? && KeyBytes(a) == KeyBytes(b) {
      assert c.address == KeyBytes(a)[..4] == d.address;
    }
  }

  lemma {:induction false} KeyOfClient(a: IpAddr)
    ensures ghost var c := ClientOf(a);
            && (c.Host4? ==> |c.address| == 4 && KeyBytes(a) == c.address + [0, 0, 0, 0])
            && (c.Net64? ==> KeyBytes(a) == c.network)
  {}

  const MAPPED: seq<byte> := [0, 0, 0, 0, 0, 0, 0, 0, 0, 0, 255, 255]

  /** A v4 host is seen as itself, or as `::ffff:` and its address, and in no other way. */
  lemma {:induction false} HostsExactly(peer: IpAddr, address: Octets4)
    ensures ClientOf(peer) == Host4(address) <==> peer == V4(address) || peer == V6(MAPPED + address)
  {
    if peer.V6? {
      var o := peer.octets16;
      if IsMapped(o) {
        assert o == MAPPED + o[12..16];
      }
      if o == MAPPED + address {
        assert forall k :: 0 <= k < 12 ==> o[k] == MAPPED[k];
        assert o[12..16] == address;
      }
    }
  }

  /** The v4 host 32.1.13.184 and the v6 network 2001:db8::/64 are two clients with one key. */
  lemma {:induction false} CoincidenceExample()
    ensures ghost var a := V4([32, 1, 13, 184]);
            ghost var b := V6([32, 1, 13, 184, 0, 0, 0, 0, 0, 0, 0, 0, 0, 0, 0, 1]);
            ClientOf(a) != ClientOf(b) && KeyBytes(a) == KeyBytes(b)
  {
    var o: Octets16 := [32, 1, 13, 184, 0, 0, 0, 0, 0, 0, 0, 0, 0, 0, 0, 1];
    assert o[0] == 32 && !IsMapped(o);
  }

  // ---------- runs over a table of buckets ----------

  /** A request that hashed to `slot`, at clock `now`. */
  datatype Hit = Hit(slot: nat, now: u64)

  ghost function RunAll(cells: seq<State>, spec: Bucket, hits: seq<Hit>): (r: seq<State>)
    ensures |r| == |cells|
  {
    if hits == [] then cells
    else
      var p := RunAll(cells, spec, hits[..|hits| - 1]);
      var h := hits[|hits| - 1];
      if h.slot < |p| then p[h.slot := ApplyBucket(Some(p[h.slot]), 1, spec, h.now).0] else p
  }

  /** Whether the last request of a run is let through. */
  ghost predicate LastAllowed(cells: seq<State>, spec: Bucket, hits: seq<Hit>)
    requires hits != []
  {
    var h := hits[|hits| - 1];
    && h.slot < |cells|
    && ApplyBucket(Some(RunAll(cells, spec, hits[..|hits| - 1])[h.slot]), 1, spec, h.now).1.allowed
  }

  /** How many of the requests that hit `slot` were let through. */
  ghost function AllowedAt(cells: seq<State>, spec: Bucket, hits: seq<Hit>, slot: nat): nat {
    if hits == [] then 0
    else AllowedAt(cells, spec, hits[..|hits| - 1], slot)
         + (if hits[|hits| - 1].slot == slot && LastAllowed(cells, spec, hits) then 1 else 0)
  }

  /** The requests that hit `slot`, as that slot's bucket sees them. */
  ghost function Seen(hits: seq<Hit>, slot: nat): seq<Request> {
    if hits == [] then []
    else
      var front := Seen(hits[..|hits| - 1], slot);
      var h := hits[|hits| - 1];
      if h.slot == slot then front + [Request(h.now, 1)] else front
  }

  /** Slots do not interfere: each bucket runs as if its own requests were the only ones. */
  lemma {:induction false} SlotsAreIndependent(cells: seq<State>, spec: Bucket, hits: seq<Hit>, slot: nat)
    requires slot < |cells|
    ensures RunAll(cells, spec, hits)[slot] == Run(cells[slot], spec, Seen(hits, slot))
    ensures AllowedAt(cells, spec, hits, slot) == Granted(cells[slot], spec, Seen(hits, slot))
  {
    hide ApplyBucket;
    if hits != [] {
      var front, h := hits[..|hits| - 1], hits[|hits| - 1];
      SlotsAreIndependent(cells, spec, front, slot);
      var seen := Seen(front, slot);
      assert (seen + [Request(h.now, 1)])[..|seen|] == seen;
    }
  }

  lemma {:induction false} SeenClocks(hits: seq<Hit>, slot: nat, latest: nat)
    requires forall k :: 0 <= k < |hits| ==> hits[k].now <= latest
    ensures forall k :: 0 <= k < |Seen(hits, slot)| ==> Seen(hits, slot)[k].now <= latest
  {
    if hits != [] {
      SeenClocks(hits[..|hits| - 1], slot, latest);
    }
  }

  /**
    No client gets past its limit, whatever the other clients send: over any stretch of traffic
    the requests let through for one slot are at most the burst plus the rate for every second
    the slot's own requests touch.
   */
  lemma {:induction false} ClientIsLimited(cells: seq<State>, spec: Bucket, hits: seq<Hit>, slot: nat, latest: nat)
    requires slot < |cells| && !spec.NoRefill() && cells[slot].tokens <= spec.capacity
    requires forall k :: 0 <= k < |hits| ==> hits[k].now <= latest
    requires Seen(hits, slot) != []
    ensures Seen(hits, slot)[0].now <= latest
    ensures AllowedAt(cells, spec, hits, slot)
            <= spec.capacity
               + ((latest - Seen(hits, slot)[0].now) / spec.refillIntervalMs + 1) * spec.refillTokens
  {
    SlotsAreIndependent(cells, spec, hits, slot);
    SeenClocks(hits, slot, latest);
    WindowBound(cells[slot], spec, Seen(hits, slot), latest);
  }

  // ---------- the limiter ----------

  class Limiter {
    const spec: Bucket
    const perClient: bool
    /** The seeded hash of a client key; any function. */
    const hash: seq<byte> -> nat
    const cells: array<State>
    /** The requests checked so far. */
    ghost var hits: seq<Hit>

    ghost predicate Valid()
      reads this, cells
    {
      && spec.refillIntervalMs == 1000 && 0 < spec.refillTokens && 0 < spec.capacity
      && cells.Length == (if perClient then IP_SLOTS else 1)
      && cells[..] == RunAll(seq(cells.Length, _ => State(0, 0)), spec, hits)
    }

    /** `rate` and `burst` are validated non-zero before a limiter is built. */
    constructor (rate: u64, burst: u64, perClient: bool, hash: seq<byte> -> nat)
      requires 0 < rate && 0 < burst
      ensures Valid() && fresh(cells) && hits == []
      ensures spec == Bucket(burst, rate, 1000) && this.perClient == perClient && this.hash == hash
    {
      spec := Bucket(burst, rate, 1000);
      this.perClient := perClient;
      this.hash := hash;
      hits := [];
      cells := new State[if perClient then IP_SLOTS else 1](_ => State(0, 0));
      new;
      assert cells[..] == seq(cells.Length, _ => State(0, 0));
    }

    /** The cell a peer is charged to: masking by `len - 1` is the remainder by a power of two. */
    function SlotFor(peer: IpAddr): (s: nat)
      ensures s < (if perClient then IP_SLOTS else 1)
    {
      if perClient then hash(KeyBytes(peer)) % IP_SLOTS else 0
    }

    /**
      Peers of one client share a slot, and a limiter for the whole route has only one. In a limiter
      per client two peers share a slot exactly when their keys' hashes differ by a multiple of the
      table size, and a hash below it is the slot itself, so no slot is left unused.
     */
    lemma {:induction false} SlotsExactlyWhen(a: IpAddr, b: IpAddr)
      ensures !perClient ==> SlotFor(a) == SlotFor(b) == 0
      ensures KeyBytes(a) == KeyBytes(b) ==> SlotFor(a) == SlotFor(b)
      ensures perClient ==> (SlotFor(a) == SlotFor(b) <==> (hash(KeyBytes(a)) - hash(KeyBytes(b))) % 65_536 == 0)
      ensures perClient && hash(KeyBytes(a)) < 65_536 ==> SlotFor(a) == hash(KeyBytes(a))
    {
      ModEqual(hash(KeyBytes(a)), hash(KeyBytes(b)), IP_SLOTS);
      if hash(KeyBytes(a)) < IP_SLOTS {
        SmallMod(hash(KeyBytes(a)), IP_SLOTS);
      }
    }

    method CheckAt(peer: IpAddr, now: u64) returns (d: Decision)
      requires Valid()
      modifies cells, this`hits
      ensures Valid() && hits == old(hits) + [Hit(SlotFor(peer), now)]
      ensures forall c :: 0 <= c < cells.Length && c != SlotFor(peer) ==> cells[c] == old(cells[c])
      ensures d.Allow? <==> LastAllowed(seq(cells.Length, _ => State(0, 0)), spec, hits)
      ensures d.Limit? ==> d.retryAfterMs
                           == ApplyBucket(Some(old(cells[SlotFor(peer)])), 1, spec, now).1.retryAfterMs
    {
      hide ApplyBucket;
      ghost var zero := seq(cells.Length, _ => State(0, 0));
      var slot := SlotFor(peer);
      var (next, acq) := ApplyBucket(Some(cells[slot]), 1, spec, now);
      ghost var before := cells[..];
      cells[slot] := next;
      assert cells[..] == before[slot := next];
      hits := hits + [Hit(slot, now)];
      assert hits[..|hits| - 1] == old(hits);
      d := if acq.allowed then Allow else Limit(acq.retryAfterMs);
    }
  }
}
