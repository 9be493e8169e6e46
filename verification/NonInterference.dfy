/** With at most sixteen filters, each observes exactly what it would observe alone. */
module NonInterference {
  import opened Bytes
  import opened TokenBucket
  import opened KvBackend
  import opened Measure
  import opened HostState
  import opened HostRuns

  /** So many full namespaces fit under the host-wide caps. */
  const MAX_FILTERS: nat := 16

  /** The namespace's own caps refuse the charge. */
  predicate OverOwnCap(u: Usage, de: int, db: int) {
    (de > 0 && u.entries + de > MAX_NS_ENTRIES) || (db > 0 && u.bytes + db > MAX_NS_BYTES)
  }

  ghost function Prefixes(ids: set<seq<byte>>): set<seq<byte>> {
    set i | i in ids :: Prefix(i)
  }

  lemma {:induction false} PrefixesSize(ids: set<seq<byte>>)
    ensures |Prefixes(ids)| <= |ids|
    decreases ids
  {
    if ids != {} {
      var i :| i in ids;
      PrefixesSize(ids - {i});
      assert Prefixes(ids) == Prefixes(ids - {i}) + {Prefix(i)};
    } else {
      assert Prefixes(ids) == {};
    }
  }

  /** Sixteen namespaces within their own caps fit under the host-wide ones. */
  lemma {:induction false} NamespacesFit(ns: map<seq<byte>, Usage>, ids: set<seq<byte>>)
    requires ns.Keys <= Prefixes(ids) && |ids| <= MAX_FILTERS
    requires forall p :: p in ns ==> ns[p].entries <= MAX_NS_ENTRIES && ns[p].bytes <= MAX_NS_BYTES
    ensures Total(ns, UsageEntries()) <= MAX_TOTAL_ENTRIES && Total(ns, UsageBytes()) <= MAX_TOTAL_BYTES
  {
    hide Total, Prefixes;
    PrefixesSize(ids);
    SubsetSize(ns.Keys, Prefixes(ids));
    TotalAtMost(ns, UsageEntries(), MAX_NS_ENTRIES);
    TotalAtMost(ns, UsageBytes(), MAX_NS_BYTES);
    assert |ns| == |ns.Keys|;
  }

  /** While at most sixteen namespaces exist the host-wide caps refuse nothing by themselves. */
  lemma {:induction false} HostCapNeverBinds(h: Host, ids: set<seq<byte>>, id: seq<byte>, de: int, db: int)
    requires Exact(h) && h.quota.ns.Keys <= Prefixes(ids) && |ids| <= MAX_FILTERS && id in ids
    ensures OverCap(h.quota, Prefix(id), de, db) <==> OverOwnCap(h.quota.Of(Prefix(id)), de, db)
  {
    hide Total, Shaped, ExactPerFilter;
    var q, p := h.quota, Prefix(id);
    if !OverOwnCap(q.Of(p), de, db) {
      var u := Usage(if de > 0 then q.Of(p).entries + de else q.Of(p).entries,
                     if db > 0 then q.Of(p).bytes + db else q.Of(p).bytes);
      assert p in Prefixes(ids);
      hide Prefixes, Prefix;
      NamespacesFit(q.ns[p := u], ids);
      TotalPut(q.ns, UsageEntries(), p, u);
      TotalPut(q.ns, UsageBytes(), p, u);
    }
  }

  lemma {:induction false} SubsetSize<T>(a: set<T>, b: set<T>)
    requires a <= b
    ensures |a| <= |b|
    decreases a
  {
    if a != {} {
      var x :| x in a;
      SubsetSize(a - {x}, b - {x});
    }
  }

  // ---------- what a filter can observe ----------

  /** Two hosts look alike to filter `id`: same values under its prefix, same recorded usage. */
  ghost predicate Alike(a: Host, b: Host, id: seq<byte>) {
    && (forall k :: Owns(id, k) ==> Lookup(a.store, k) == Lookup(b.store, k))
    && a.quota.Of(Prefix(id)) == b.quota.Of(Prefix(id))
  }

  /** The host caps play no part for this filter. */
  ghost predicate Unbound(h: Host, id: seq<byte>) {
    forall de: int, db: int ::
      OverCap(h.quota, Prefix(id), de, db) <==> OverOwnCap(h.quota.Of(Prefix(id)), de, db)
  }

  lemma {:induction false} OwnKey(a: Host, b: Host, id: seq<byte>, c: Call)
    requires Alike(a, b, id)
    ensures Lookup(a.store, KeyOf(id, c)) == Lookup(b.store, KeyOf(id, c))
    ensures KeyOf(id, c) in a.store <==> KeyOf(id, c) in b.store
  {
    assert Owns(id, KeyOf(id, c));
  }

  lemma {:induction false} EffectAlike(a: Host, b: Host, id: seq<byte>, c: Call)
    requires Alike(a, b, id)
    ensures Effect(a.store, id, c).1 == Effect(b.store, id, c).1
    ensures forall k :: Owns(id, k) ==> Lookup(Effect(a.store, id, c).0, k) == Lookup(Effect(b.store, id, c).0, k)
  {
    OwnKey(a, b, id, c);
    var k0 := KeyOf(id, c);
    hide Acquired, Incremented, NsKey;
    AtOwnKey(a.store, b.store, id, c);
    forall k | Owns(id, k) && k != k0
      ensures Lookup(Effect(a.store, id, c).0, k) == Lookup(Effect(b.store, id, c).0, k)
    {
      EffectElsewhere(a.store, id, c, k);
      EffectElsewhere(b.store, id, c, k);
    }
  }

  lemma {:induction false} AtOwnKey(s: Store, t: Store, id: seq<byte>, c: Call)
    requires Lookup(s, KeyOf(id, c)) == Lookup(t, KeyOf(id, c))
    requires KeyOf(id, c) in s <==> KeyOf(id, c) in t
    ensures Effect(s, id, c).1 == Effect(t, id, c).1
    ensures Lookup(Effect(s, id, c).0, KeyOf(id, c)) == Lookup(Effect(t, id, c).0, KeyOf(id, c))
  {
    hide ApplyBucket, DecodeI64, EncodeI64, EncodeBucket, BucketInput, NsKey;
  }

  lemma {:induction false} EffectElsewhere(s: Store, id: seq<byte>, c: Call, k: Key)
    requires k != KeyOf(id, c)
    ensures Lookup(Effect(s, id, c).0, k) == Lookup(s, k)
  {
    hide ApplyBucket, DecodeI64, EncodeI64, EncodeBucket, BucketInput, NsKey;
  }

  /** The filter's own call: same answer, and the hosts still look alike to it. */
  lemma {:induction false} OwnCallAlike(a: Host, b: Host, id: seq<byte>, c: Call)
    requires Alike(a, b, id) && Unbound(a, id) && Unbound(b, id)
    ensures Exec(a, id, c).1 == Exec(b, id, c).1
    ensures Alike(Exec(a, id, c).0, Exec(b, id, c).0, id)
  {
    OwnKey(a, b, id, c);
    EffectAlike(a, b, id, c);
    var (de, db) := ChargeOf(a, id, c);
    assert ChargeOf(a, id, c) == ChargeOf(b, id, c);
    assert Charges(a, id, c) == Charges(b, id, c);
    assert OverCap(a.quota, Prefix(id), de, db) == OverCap(b.quota, Prefix(id), de, db);
    hide Effect, ChargeOf, Charges, OverCap, Owns, Prefix;
  }

  /** Another filter's call changes nothing this filter can observe. */
  lemma {:induction false} OtherCallAlike(h: Host, id: seq<byte>, other: seq<byte>, c: Call)
    requires ValidId(id) && ValidId(other) && id != other
    ensures Alike(Exec(h, other, c).0, h, id)
  {
    forall k | Owns(id, k) ensures Lookup(Exec(h, other, c).0.store, k) == Lookup(h.store, k) {
      if k == KeyOf(other, c) {
        assert Owns(other, k);
        PrefixesAreDisjoint(id, other, k);
      } else {
        CallTouchesOwnKey(h, other, c, k);
      }
    }
    assert Prefix(other) != Prefix(id) by {
      if Prefix(other) == Prefix(id) {
        PrefixesAreDisjoint(id, other, Prefix(id));
      }
    }
  }

  // ---------- whole runs ----------

  /** The calls of one filter, in order. */
  ghost function Alone(ops: seq<Op>, id: seq<byte>): seq<Op> {
    if ops == [] then []
    else
      var front, op := Alone(ops[..|ops| - 1], id), ops[|ops| - 1];
      if op.id == id then front + [op] else front
  }

  /** The run involves only filters of `ids`. */
  ghost predicate By(ops: seq<Op>, ids: set<seq<byte>>) {
    forall k :: 0 <= k < |ops| ==> ops[k].id in ids && ValidId(ops[k].id)
  }

  lemma {:induction false} NamespacesOf(ops: seq<Op>, ids: set<seq<byte>>)
    requires By(ops, ids)
    ensures After(ops).quota.ns.Keys <= Prefixes(ids)
  {
    if ops != [] {
      NamespacesOf(ops[..|ops| - 1], ids);
      var op := ops[|ops| - 1];
      assert Prefix(op.id) in Prefixes(ids);
      hide Effect, ChargeOf, Charges, Prefix;
    }
  }

  lemma {:induction false} RunIsUnbound(ops: seq<Op>, ids: set<seq<byte>>, id: seq<byte>)
    requires By(ops, ids) && |ids| <= MAX_FILTERS && id in ids
    ensures Unbound(After(ops), id)
  {
    AccountingIsExact(ops);
    NamespacesOf(ops, ids);
    hide After, Exact;
    forall de: int, db: int
      ensures OverCap(After(ops).quota, Prefix(id), de, db) <==> OverOwnCap(After(ops).quota.Of(Prefix(id)), de, db)
    {
      HostCapNeverBinds(After(ops), ids, id, de, db);
    }
  }

  lemma {:induction false} AloneIsBy(ops: seq<Op>, ids: set<seq<byte>>, id: seq<byte>)
    requires By(ops, ids)
    ensures By(Alone(ops, id), ids)
  {
    if ops != [] {
      AloneIsBy(ops[..|ops| - 1], ids, id);
    }
  }

  /** At every point of every run the host looks to a filter as if only it had run. */
  lemma {:induction false} LooksAlone(ops: seq<Op>, ids: set<seq<byte>>, id: seq<byte>)
    requires By(ops, ids) && |ids| <= MAX_FILTERS && id in ids && ValidId(id)
    ensures Alike(After(ops), After(Alone(ops, id)), id)
  {
    if ops != [] {
      var front, op := ops[..|ops| - 1], ops[|ops| - 1];
      var mine := Alone(front, id);
      LooksAlone(front, ids, id);
      hide Exec, Alike, Unbound, Prefixes;
      if op.id == id {
        RunIsUnbound(front, ids, id);
        AloneIsBy(front, ids, id);
        RunIsUnbound(mine, ids, id);
        OwnCallAlike(After(front), After(mine), id, op.call);
        assert (mine + [op])[..|mine|] == mine;
      } else {
        OtherCallAlike(After(front), id, op.id, op.call);
        AlikeTransitive(After(ops), After(front), After(mine), id);
      }
    }
  }

  lemma {:induction false} AlikeTransitive(a: Host, b: Host, c: Host, id: seq<byte>)
    requires Alike(a, b, id) && Alike(b, c, id)
    ensures Alike(a, c, id)
  {}

  /**
    Non-interference: in every run by at most sixteen filters, each call is answered as it would
    be had the other filters never called.
   */
  lemma {:induction false} AnsweredAsIfAlone(ops: seq<Op>, ids: set<seq<byte>>, id: seq<byte>)
    requires By(ops, ids) && |ids| <= MAX_FILTERS && ops != [] && ops[|ops| - 1].id == id
    ensures Alone(ops, id) != [] && LastAnswer(Alone(ops, id)) == LastAnswer(ops)
  {
    var front, op := ops[..|ops| - 1], ops[|ops| - 1];
    var mine := Alone(front, id);
    assert Alone(ops, id) == mine + [op];
    assert (mine + [op])[..|mine|] == mine;
    LooksAlone(front, ids, id);
    RunIsUnbound(front, ids, id);
    AloneIsBy(front, ids, id);
    RunIsUnbound(mine, ids, id);
    OwnCallAlike(After(front), After(mine), id, op.call);
  }
}
