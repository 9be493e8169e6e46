/** Exact accounting and isolation over every run of host calls. */
module HostRuns {
  import opened Bytes
  import opened KvBackend
  import opened Measure
  import opened HostState

  // ---------- what the store really holds ----------

  /** Where the first delimiter of a key stands. */
  function IdLen(k: Key): nat {
    if k == [] || k[0] == DELIM then 0 else 1 + IdLen(k[1..])
  }

  /** The bytes a stored entry stands for: the filter's own key and the value. */
  function Cost(k: Key, v: seq<byte>): int {
    |k| - IdLen(k) - 3 + |v|
  }

  lemma {:induction false} IdLenIs(k: Key, n: nat)
    requires n < |k| && k[n] == DELIM && forall j :: 0 <= j < n ==> k[j] != DELIM
    ensures IdLen(k) == n
    decreases n
  {
    if n != 0 {
      IdLenIs(k[1..], n - 1);
    }
  }

  lemma {:induction false} NsKeyCost(id: seq<byte>, tag: byte, key: seq<byte>, v: seq<byte>)
    requires ValidId(id)
    ensures Owns(id, NsKey(id, tag, key)) && Cost(NsKey(id, tag, key), v) == |key| + |v|
  {
    var k := NsKey(id, tag, key);
    FirstDelimiter(id, k);
    IdLenIs(k, |id|);
  }

  ghost function EntryIn(id: seq<byte>): (Key, seq<byte>) -> int {
    (k: Key, v: seq<byte>) => if Owns(id, k) then 1 else 0
  }

  ghost function BytesIn(id: seq<byte>): (Key, seq<byte>) -> int {
    (k: Key, v: seq<byte>) => if Owns(id, k) then Cost(k, v) else 0
  }

  ghost function AnyEntry(): (Key, seq<byte>) -> int {
    (k: Key, v: seq<byte>) => 1
  }

  ghost function AnyBytes(): (Key, seq<byte>) -> int {
    (k: Key, v: seq<byte>) => Cost(k, v)
  }

  /** A key as a host call makes it, with a value of its primitive's size. */
  ghost predicate Shaped(k: Key, v: seq<byte>) {
    exists id, tag: byte, key :: ShapedAs(k, v, id, tag, key)
  }

  ghost predicate ShapedAs(k: Key, v: seq<byte>, id: seq<byte>, tag: byte, key: seq<byte>) {
    && ValidId(id) && k == NsKey(id, tag, key)
    && (tag == TAG_COUNTER ==> |v| == 8) && (tag == TAG_RATELIMIT ==> |v| == 16)
  }

  lemma {:induction false} ShapeOfNsKey(store: Store, id: seq<byte>, tag: byte, key: seq<byte>)
    requires ValidId(id) && NsKey(id, tag, key) in store
    requires Shaped(NsKey(id, tag, key), store[NsKey(id, tag, key)])
    ensures tag == TAG_COUNTER ==> |store[NsKey(id, tag, key)]| == 8
    ensures tag == TAG_RATELIMIT ==> |store[NsKey(id, tag, key)]| == 16
  {
    var k := NsKey(id, tag, key);
    var id', tag': byte, key' :| ShapedAs(k, store[k], id', tag', key');
    NsKeyIsInjective(id, tag, key, id', tag', key');
  }

  // ---------- the invariant ----------

  ghost function UsageEntries(): (seq<byte>, Usage) -> int {
    (p: seq<byte>, u: Usage) => u.entries
  }

  ghost function UsageBytes(): (seq<byte>, Usage) -> int {
    (p: seq<byte>, u: Usage) => u.bytes
  }

  /** Recorded usage of each namespace is what the store holds under its prefix. */
  ghost predicate ExactPerFilter(h: Host) {
    forall id :: ValidId(id) ==>
      && h.quota.Of(Prefix(id)).entries == Total(h.store, EntryIn(id))
      && h.quota.Of(Prefix(id)).bytes == Total(h.store, BytesIn(id))
  }

  /** Recorded host totals are what the whole store holds, and the sums over the namespaces. */
  ghost predicate ExactTotals(h: Host) {
    && h.quota.totalEntries == Total(h.store, AnyEntry()) == Total(h.quota.ns, UsageEntries())
    && h.quota.totalBytes == Total(h.store, AnyBytes()) == Total(h.quota.ns, UsageBytes())
  }

  ghost predicate Exact(h: Host) {
    && (forall k :: k in h.store ==> Shaped(k, h.store[k]))
    && ExactPerFilter(h) && ExactTotals(h) && WithinCaps(h.quota)
  }

  /** The quota moved by exactly this much, in one namespace and in the totals. */
  ghost predicate Moved(q: Quota, q': Quota, p: seq<byte>, de: int, db: int) {
    && q'.Of(p).entries == q.Of(p).entries + de && q'.Of(p).bytes == q.Of(p).bytes + db
    && (forall r :: r != p ==> q'.Of(r) == q.Of(r))
    && q'.totalEntries == q.totalEntries + de && q'.totalBytes == q.totalBytes + db
    && Total(q'.ns, UsageEntries()) == Total(q.ns, UsageEntries()) + de
    && Total(q'.ns, UsageBytes()) == Total(q.ns, UsageBytes()) + db
  }

  lemma {:induction false} AdmitMoves(q: Quota, p: seq<byte>, de: int, db: int)
    requires Admit(q, p, de, db).1 && !Clamps(q, p, de, db)
    ensures Moved(q, Admit(q, p, de, db).0, p, de, db)
  {
    var q' := Admit(q, p, de, db).0;
    TotalPut(q.ns, UsageEntries(), p, q'.ns[p]);
    TotalPut(q.ns, UsageBytes(), p, q'.ns[p]);
    hide Total;
  }

  lemma {:induction false} AdmitKeepsCaps(q: Quota, p: seq<byte>, de: int, db: int)
    requires WithinCaps(q)
    ensures WithinCaps(Admit(q, p, de, db).0)
  {}

  /** Storing a value moves each namespace's and the host's real size by its cost difference. */
  lemma {:induction false} PutIsExact(h: Host, q': Quota, id: seq<byte>, tag: byte, key: seq<byte>, v: seq<byte>, de: int, db: int)
    requires Exact(h) && ValidId(id) && WithinCaps(q') && Moved(h.quota, q', Prefix(id), de, db)
    requires ShapedAs(NsKey(id, tag, key), v, id, tag, key)
    requires ghost var k := NsKey(id, tag, key);
             && de == (if k in h.store then 0 else 1)
             && db == |v| - (if k in h.store then |h.store[k]| else -|key|)
    ensures Exact(Host(h.store[NsKey(id, tag, key) := v], q'))
  {
    hide Total, Cost, WithinCaps, NsKey, ShapedAs, Owns, Prefix;
    var k := NsKey(id, tag, key);
    var s, s' := h.store, h.store[k := v];
    NsKeyCost(id, tag, key, v);
    if k in s {
      NsKeyCost(id, tag, key, s[k]);
    }
    TotalPut(s, AnyEntry(), k, v);
    TotalPut(s, AnyBytes(), k, v);
    forall x | ValidId(x)
      ensures q'.Of(Prefix(x)).entries == Total(s', EntryIn(x)) && q'.Of(Prefix(x)).bytes == Total(s', BytesIn(x))
    {
      TotalPut(s, EntryIn(x), k, v);
      TotalPut(s, BytesIn(x), k, v);
      OwnerIs(x, id, k);
    }
    assert forall x :: x in s' ==> Shaped(x, s'[x]);
  }

  /** Removing a value gives its cost back. */
  lemma {:induction false} RemoveIsExact(h: Host, q': Quota, id: seq<byte>, tag: byte, key: seq<byte>)
    requires Exact(h) && ValidId(id) && WithinCaps(q') && NsKey(id, tag, key) in h.store
    requires Moved(h.quota, q', Prefix(id), -1, -(|key| + |h.store[NsKey(id, tag, key)]|))
    ensures Exact(Host(h.store - {NsKey(id, tag, key)}, q'))
  {
    hide Total, Cost, WithinCaps, NsKey, Shaped, Owns, Prefix;
    var k := NsKey(id, tag, key);
    var s, s' := h.store, h.store - {k};
    NsKeyCost(id, tag, key, s[k]);
    TotalRemove(s, AnyEntry(), k);
    TotalRemove(s, AnyBytes(), k);
    forall x | ValidId(x)
      ensures q'.Of(Prefix(x)).entries == Total(s', EntryIn(x)) && q'.Of(Prefix(x)).bytes == Total(s', BytesIn(x))
    {
      TotalRemove(s, EntryIn(x), k);
      TotalRemove(s, BytesIn(x), k);
      OwnerIs(x, id, k);
    }
  }

  /** A key has one owner, and prefixes tell ids apart. */
  lemma {:induction false} OwnerIs(x: seq<byte>, id: seq<byte>, k: Key)
    requires ValidId(x) && ValidId(id) && Owns(id, k)
    ensures Owns(x, k) <==> x == id
    ensures Prefix(x) == Prefix(id) <==> x == id
  {
    if Owns(x, k) {
      PrefixesAreDisjoint(x, id, k);
    }
    if Prefix(x) == Prefix(id) {
      assert x == Prefix(x)[..|x|] == id;
    }
  }

  /** A stored entry is part of its owner's and the host's usage, so releasing it cannot clamp. */
  lemma {:induction false} EntryIsCounted(h: Host, id: seq<byte>, tag: byte, key: seq<byte>)
    requires Exact(h) && ValidId(id) && NsKey(id, tag, key) in h.store
    ensures ghost var cost := |key| + |h.store[NsKey(id, tag, key)]|;
            && 1 <= h.quota.Of(Prefix(id)).entries && cost <= h.quota.Of(Prefix(id)).bytes
            && 1 <= h.quota.totalEntries && cost <= h.quota.totalBytes
  {
    var k := NsKey(id, tag, key);
    var rest := h.store - {k};
    NsKeyCost(id, tag, key, h.store[k]);
    forall x | x in rest ensures 0 <= Cost(x, rest[x]) {
      assert x in h.store;
      var i, t: byte, y :| ShapedAs(x, h.store[x], i, t, y);
      NsKeyCost(i, t, y, h.store[x]);
    }
    TotalRemove(h.store, EntryIn(id), k);
    TotalRemove(h.store, BytesIn(id), k);
    TotalRemove(h.store, AnyEntry(), k);
    TotalRemove(h.store, AnyBytes(), k);
    hide Cost, Shaped, NsKey, Prefix;
    TotalNonnegative(rest, EntryIn(id));
    TotalNonnegative(rest, BytesIn(id));
    TotalNonnegative(rest, AnyEntry());
    TotalNonnegative(rest, AnyBytes());
  }

  lemma {:induction false} TotalNonnegative<K(!new), V(!new)>(m: map<K, V>, f: (K, V) -> int)
    requires forall k :: k in m ==> 0 <= f(k, m[k])
    ensures 0 <= Total(m, f)
  {
    SumNonnegative(m.Keys, (k: K) => if k in m then f(k, m[k]) else 0);
  }

  // ---------- every call keeps the accounting exact ----------

  /** The key a call works on. */
  function KeyOf(id: seq<byte>, c: Call): Key {
    NsKey(id, Tag(c), c.key)
  }

  /** Where usage is exact, no charge a call makes is ever clamped. */
  lemma {:induction false} ClampNeverFires(h: Host, id: seq<byte>, c: Call)
    requires Exact(h) && ValidId(id)
    ensures ghost var (de, db) := ChargeOf(h, id, c); !Clamps(h.quota, Prefix(id), de, db)
  {
    var k := KeyOf(id, c);
    if k in h.store {
      EntryIsCounted(h, id, Tag(c), c.key);
    }
  }

  /** A call that writes: it stores one value of the right shape at its own key. */
  ghost predicate Puts(store: Store, id: seq<byte>, c: Call, v: seq<byte>) {
    && Effect(store, id, c).0 == store[KeyOf(id, c) := v]
    && (Tag(c) == TAG_COUNTER ==> |v| == 8) && (Tag(c) == TAG_RATELIMIT ==> |v| == 16)
    && (c.KvSet? ==> v == c.value)
  }

  lemma {:induction false} WhatACallWrites(store: Store, id: seq<byte>, c: Call) returns (v: seq<byte>)
    requires c.KvSet? || (c.CounterIncrement? && c.delta != 0) || (c.BucketAcquire? && c.spec.Some?)
    ensures Puts(store, id, c, v)
  {
    v := Effect(store, id, c).0[KeyOf(id, c)];
  }

  /** Charge the quota, then store the value: the accounting stays exact. */
  lemma {:induction false} ChargedPut(h: Host, id: seq<byte>, c: Call, v: seq<byte>)
    requires Exact(h) && ValidId(id) && Puts(h.store, id, c, v) && Charges(h, id, c) && !c.KvDelete?
    requires ghost var (de, db) := ChargeOf(h, id, c); Admit(h.quota, Prefix(id), de, db).1
    ensures Exact(Exec(h, id, c).0)
  {
    var (de, db) := ChargeOf(h, id, c);
    ClampNeverFires(h, id, c);
    AdmitMoves(h.quota, Prefix(id), de, db);
    AdmitKeepsCaps(h.quota, Prefix(id), de, db);
    hide Exact, Moved, Admit, Effect, Prefix;
    PutIsExact(h, Admit(h.quota, Prefix(id), de, db).0, id, Tag(c), c.key, v, de, db);
  }

  /** Overwriting a fixed-size value needs no charge. */
  lemma {:induction false} UnchargedPut(h: Host, id: seq<byte>, c: Call, v: seq<byte>)
    requires Exact(h) && ValidId(id) && Puts(h.store, id, c, v) && (c.CounterIncrement? || c.BucketAcquire?)
    requires KeyOf(id, c) in h.store
    ensures Exact(Host(Effect(h.store, id, c).0, h.quota))
  {
    ShapeOfNsKey(h.store, id, Tag(c), c.key);
    hide Shaped, Effect, Prefix;
    PutIsExact(h, h.quota, id, Tag(c), c.key, v, 0, 0);
  }

  lemma {:induction false} ChargedDelete(h: Host, id: seq<byte>, c: Call)
    requires Exact(h) && ValidId(id) && c.KvDelete? && KeyOf(id, c) in h.store
    ensures Exact(Exec(h, id, c).0)
  {
    var (de, db) := ChargeOf(h, id, c);
    ClampNeverFires(h, id, c);
    AdmitMoves(h.quota, Prefix(id), de, db);
    AdmitKeepsCaps(h.quota, Prefix(id), de, db);
    hide Exact, Moved, Prefix;
    RemoveIsExact(h, Admit(h.quota, Prefix(id), de, db).0, id, Tag(c), c.key);
  }

  lemma {:induction false} CallKeepsExact(h: Host, id: seq<byte>, c: Call)
    requires Exact(h) && ValidId(id)
    ensures Exact(Exec(h, id, c).0)
  {
    hide Exact;
    var h' := Exec(h, id, c).0;
    if c.KvDelete? {
      if KeyOf(id, c) in h.store {
        ChargedDelete(h, id, c);
      } else {
        assert h.store - {KeyOf(id, c)} == h.store;
      }
    } else if !Dropped(c) && Charges(h, id, c) {
      var (de, db) := ChargeOf(h, id, c);
      if Admit(h.quota, Prefix(id), de, db).1 {
        var v := WhatACallWrites(h.store, id, c);
        ChargedPut(h, id, c, v);
      }
    } else if !Dropped(c) && ((c.CounterIncrement? && c.delta != 0) || c.BucketAcquire?) {
      var v := WhatACallWrites(h.store, id, c);
      UnchargedPut(h, id, c, v);
    }
  }

  // ---------- runs ----------

  datatype Op = Op(id: seq<byte>, call: Call)

  ghost predicate ValidOps(ops: seq<Op>) {
    forall k :: 0 <= k < |ops| ==> ValidId(ops[k].id)
  }

  /** The host after a sequence of calls by any filters, from an empty store. */
  ghost function After(ops: seq<Op>): Host {
    if ops == [] then EMPTY_HOST
    else
      var op := ops[|ops| - 1];
      Exec(After(ops[..|ops| - 1]), op.id, op.call).0
  }

  /** What the last call of a run answers. */
  ghost function LastAnswer(ops: seq<Op>): Answer
    requires ops != []
  {
    var op := ops[|ops| - 1];
    Exec(After(ops[..|ops| - 1]), op.id, op.call).1
  }

  lemma {:induction false} EmptyIsExact()
    ensures Exact(EMPTY_HOST)
  {
    forall id: seq<byte>
      ensures Total(EMPTY_HOST.store, EntryIn(id)) == 0 && Total(EMPTY_HOST.store, BytesIn(id)) == 0
    {
      TotalEmpty(EntryIn(id));
      TotalEmpty(BytesIn(id));
    }
    TotalEmpty(AnyEntry());
    TotalEmpty(AnyBytes());
    TotalEmpty(UsageEntries());
    TotalEmpty(UsageBytes());
  }

  /**
    Over every run, each namespace's recorded usage is what the store holds under its prefix,
    the host totals are the sums over the namespaces, every cap holds, and no count is clamped.
   */
  lemma {:induction false} AccountingIsExact(ops: seq<Op>)
    requires ValidOps(ops)
    ensures Exact(After(ops))
    ensures ops != [] ==>
              ghost var h, op := After(ops[..|ops| - 1]), ops[|ops| - 1];
              ghost var (de, db) := ChargeOf(h, op.id, op.call);
              !Clamps(h.quota, Prefix(op.id), de, db)
  {
    hide Exact, Clamps, ChargeOf;
    if ops == [] {
      EmptyIsExact();
    } else {
      var h, op := After(ops[..|ops| - 1]), ops[|ops| - 1];
      AccountingIsExact(ops[..|ops| - 1]);
      CallKeepsExact(h, op.id, op.call);
      ClampNeverFires(h, op.id, op.call);
    }
  }

  /** The entry count is the number of stored keys that carry the filter's prefix. */
  lemma {:induction false} EntriesAreKeys(store: Store, id: seq<byte>)
    ensures Total(store, EntryIn(id)) == |set k | k in store && Owns(id, k)|
    decreases store.Keys
  {
    var owned := set k | k in store && Owns(id, k);
    if store.Keys == {} {
      assert store == map[];
      TotalEmpty(EntryIn(id));
      assert owned == {};
    } else {
      var k :| k in store;
      var rest := store - {k};
      TotalRemove(store, EntryIn(id), k);
      EntriesAreKeys(rest, id);
      var ownedRest := set x | x in rest && Owns(id, x);
      if Owns(id, k) {
        assert owned == ownedRest + {k};
      } else {
        assert owned == ownedRest;
      }
    }
  }

  // ---------- isolation ----------

  /** A call touches nothing but its own key. */
  lemma {:induction false} CallTouchesOwnKey(h: Host, id: seq<byte>, c: Call, k: Key)
    requires k != KeyOf(id, c)
    ensures Lookup(Exec(h, id, c).0.store, k) == Lookup(h.store, k)
  {}

  /**
    No call changes a value of another filter, of another primitive, or under another key.
   */
  lemma {:induction false} CallsAreIsolated(h: Host, id: seq<byte>, c: Call, id': seq<byte>, tag': byte, key': seq<byte>)
    requires ValidId(id) && ValidId(id') && (id' != id || tag' != Tag(c) || key' != c.key)
    ensures Lookup(Exec(h, id, c).0.store, NsKey(id', tag', key')) == Lookup(h.store, NsKey(id', tag', key'))
  {
    if NsKey(id', tag', key') == KeyOf(id, c) {
      NsKeyIsInjective(id', tag', key', id, Tag(c), c.key);
    } else {
      CallTouchesOwnKey(h, id, c, NsKey(id', tag', key'));
    }
  }

  /** Over a whole stretch of calls by others, everything a filter can read stays as it was. */
  lemma {:induction false} OthersChangeNothing(ops: seq<Op>, from: nat, id: seq<byte>, tag: byte, key: seq<byte>)
    requires ValidOps(ops) && ValidId(id) && from <= |ops|
    requires forall k :: from <= k < |ops| ==> ops[k].id != id
    ensures Lookup(After(ops).store, NsKey(id, tag, key)) == Lookup(After(ops[..from]).store, NsKey(id, tag, key))
    decreases |ops|
  {
    hide Exec;
    if from == |ops| {
      assert ops[..from] == ops;
    } else {
      var n := |ops| - 1;
      var op := ops[n];
      OthersChangeNothing(ops[..n], from, id, tag, key);
      assert ops[..n][..from] == ops[..from];
      CallsAreIsolated(After(ops[..n]), op.id, op.call, id, tag, key);
    }
  }
}
