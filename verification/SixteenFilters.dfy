/** Sixteen is exact: a seventeenth filter can be starved by the other sixteen. */
module SixteenFilters {
  import opened Bytes
  import opened Words
  import opened KvBackend
  import opened HostState
  import opened HostRuns
  import opened NonInterference

  /** In every run by these filters each call is answered as if its filter were alone. */
  ghost predicate Isolated(ids: set<seq<byte>>) {
    forall ops: seq<Op> :: By(ops, ids) && ops != [] ==>
      ghost var id := ops[|ops| - 1].id;
      Alone(ops, id) != [] && LastAnswer(Alone(ops, id)) == LastAnswer(ops)
  }

  // ---------- filling sixteen namespaces to the brim ----------

  const CHUNK: nat := 262_144
  const PER_FILTER: nat := 256

  function Id(j: nat): seq<byte>
    requires j <= 16
  {
    [0x41 + j]
  }

  function Filler(): seq<byte> {
    seq(CHUNK - 1, _ => 0)
  }

  /** The x-th write: 256 one-byte keys for each filter in turn. */
  function WriteAt(x: nat): Op
    requires x / PER_FILTER <= 16
  {
    Op(Id(x / PER_FILTER), KvSet([x % PER_FILTER], Filler()))
  }

  function KeyAt(x: nat): Key
    requires x / PER_FILTER <= 16
  {
    NsKey(Id(x / PER_FILTER), TAG_KV, [x % PER_FILTER])
  }

  ghost function Writes(n: nat): seq<Op>
    requires n <= 16 * PER_FILTER
  {
    if n == 0 then [] else Writes(n - 1) + [WriteAt(n - 1)]
  }

  /** How many of the first `n` writes were filter `j`'s. */
  function Share(n: nat, j: nat): nat {
    if n <= j * PER_FILTER then 0 else if n - j * PER_FILTER <= PER_FILTER then n - j * PER_FILTER else PER_FILTER
  }

  ghost predicate FilledTo(h: Host, n: nat) {
    && h.quota.totalEntries == n && h.quota.totalBytes == n * CHUNK
    && (forall j: nat :: j <= 16 ==> h.quota.Of(Prefix(Id(j))) == Usage(Share(n, j), Share(n, j) * CHUNK))
    && (forall x: nat :: n <= x && x / PER_FILTER <= 16 ==> KeyAt(x) !in h.store)
  }

  lemma {:induction false} IdsDiffer(i: nat, j: nat)
    requires i <= 16 && j <= 16
    ensures ValidId(Id(i)) && (Prefix(Id(i)) == Prefix(Id(j)) <==> i == j)
  {
    assert Prefix(Id(i))[0] == 0x41 + i && Prefix(Id(j))[0] == 0x41 + j;
  }

  lemma {:induction false} KeysDiffer(x: nat, y: nat)
    requires x / PER_FILTER <= 16 && y / PER_FILTER <= 16 && KeyAt(x) == KeyAt(y)
    ensures x == y
  {
    IdsDiffer(x / PER_FILTER, y / PER_FILTER);
    IdsDiffer(y / PER_FILTER, x / PER_FILTER);
    NsKeyIsInjective(Id(x / PER_FILTER), TAG_KV, [x % PER_FILTER], Id(y / PER_FILTER), TAG_KV, [y % PER_FILTER]);
    assert Id(x / PER_FILTER)[0] == Id(y / PER_FILTER)[0];
    assert [x % PER_FILTER][0] == [y % PER_FILTER][0];
  }

  /** One more write goes through. */
  lemma {:induction false} OneMoreWrite(h: Host, n: nat)
    requires n < 16 * PER_FILTER && FilledTo(h, n)
    ensures FilledTo(Exec(h, WriteAt(n).id, WriteAt(n).call).0, n + 1)
  {
    var j := n / PER_FILTER;
    var op := WriteAt(n);
    var h' := Exec(h, op.id, op.call).0;
    assert KeyOf(op.id, op.call) == KeyAt(n) && KeyAt(n) !in h.store;
    assert ChargeOf(h, op.id, op.call) == (1, CHUNK);
    assert Share(n + 1, j) == Share(n, j) + 1 <= PER_FILTER;
    assert !OverCap(h.quota, Prefix(op.id), 1, CHUNK);
    assert h'.store == h.store[KeyAt(n) := Filler()];
    forall i: nat | i <= 16 ensures h'.quota.Of(Prefix(Id(i))) == Usage(Share(n + 1, i), Share(n + 1, i) * CHUNK) {
      IdsDiffer(i, j);
      assert i != j ==> Share(n + 1, i) == Share(n, i);
    }
    forall x: nat | n + 1 <= x && x / PER_FILTER <= 16 ensures KeyAt(x) !in h'.store {
      if KeyAt(x) == KeyAt(n) {
        KeysDiffer(x, n);
      }
    }
  }

  lemma {:induction false} AllWritesGoThrough(n: nat)
    requires n <= 16 * PER_FILTER
    ensures FilledTo(After(Writes(n)), n)
  {
    hide Exec;
    if n != 0 {
      AllWritesGoThrough(n - 1);
      OneMoreWrite(After(Writes(n - 1)), n - 1);
      hide FilledTo, WriteAt;
      assert Writes(n)[..n - 1] == Writes(n - 1) by { WritesLength(n - 1); }
      WritesLength(n);
    }
  }

  lemma {:induction false} WritesLength(n: nat)
    requires n <= 16 * PER_FILTER
    ensures |Writes(n)| == n
  {
    if n != 0 {
      WritesLength(n - 1);
    }
  }

  // ---------- the seventeenth filter ----------

  const LATE_SET := Op(Id(16), KvSet([0], []))
  const LATE_GET := Op(Id(16), KvGet([0]))

  /** After the others have filled the host, the late filter's first write is lost. */
  lemma {:induction false} LateWriteIsLost(h: Host)
    requires FilledTo(h, 16 * PER_FILTER)
    ensures ghost var h' := Exec(h, LATE_SET.id, LATE_SET.call).0;
            Exec(h', LATE_GET.id, LATE_GET.call).1 == Value(None)
  {
    assert KeyAt(16 * PER_FILTER) !in h.store;
    assert KeyOf(LATE_SET.id, LATE_SET.call) == KeyAt(16 * PER_FILTER) == KeyOf(LATE_GET.id, LATE_GET.call);
    assert ChargeOf(h, LATE_SET.id, LATE_SET.call) == (1, 1);
    assert OverCap(h.quota, Prefix(LATE_SET.id), 1, 1);
  }

  /** Alone it would have been kept. */
  lemma {:induction false} LateWriteAloneIsKept()
    ensures LastAnswer([LATE_SET, LATE_GET]) == Value(Some([]))
  {
    var ops := [LATE_SET, LATE_GET];
    assert ops[..1] == [LATE_SET] && [LATE_SET][..0] == [];
    assert After([]) == EMPTY_HOST;
    var h := Exec(EMPTY_HOST, LATE_SET.id, LATE_SET.call).0;
    var k := KeyOf(LATE_SET.id, LATE_SET.call);
    assert ChargeOf(EMPTY_HOST, LATE_SET.id, LATE_SET.call) == (1, 1);
    assert !OverCap(EMPTY_QUOTA, Prefix(LATE_SET.id), 1, 1);
    assert h.store == map[k := []];
    assert KeyOf(LATE_GET.id, LATE_GET.call) == k;
  }

  ghost function AllIds(): set<seq<byte>> {
    set j: nat | j <= 16 :: Id(j)
  }

  lemma {:induction false} WritesAreBy(n: nat)
    requires n <= 16 * PER_FILTER
    ensures By(Writes(n), AllIds()) && Alone(Writes(n), Id(16)) == []
  {
    if n != 0 {
      WritesAreBy(n - 1);
      WritesLength(n - 1);
      WritesLength(n);
      assert Writes(n)[..n - 1] == Writes(n - 1);
      var i := (n - 1) / PER_FILTER;
      IdsDiffer(i, i);
      assert Id(i) in AllIds();
      assert i < 16 && Id(i)[0] != Id(16)[0];
    }
  }

  lemma {:induction false} IdRange(n: nat) returns (s: set<seq<byte>>)
    requires n <= 17
    ensures s == (set j: nat | j < n && j <= 16 :: Id(j)) && |s| == n
  {
    s := {};
    for k := 0 to n
      invariant s == (set j: nat | j < k && j <= 16 :: Id(j)) && |s| == k
    {
      forall j: nat | j < k ensures Id(j) != Id(k) {
        IdsDiffer(j, k);
      }
      assert Id(k) !in s;
      s := s + {Id(k)};
    }
  }

  lemma {:induction false} AllIdsSize()
    ensures |AllIds()| == 17 && Id(16) in AllIds()
  {
    var s := IdRange(17);
    assert s == AllIds();
  }

  /** A run of seventeen filters in which the last one's write is lost. */
  lemma {:induction false} StarvedRun(n: nat) returns (ops: seq<Op>)
    requires n == 16 * PER_FILTER
    ensures By(ops, AllIds()) && ops != [] && ops[|ops| - 1].id == Id(16)
    ensures LastAnswer(ops) == Value(None) && Alone(ops, Id(16)) == [LATE_SET, LATE_GET]
  {
    hide *;
    var w := Writes(n);
    AllWritesGoThrough(n);
    LateWriteIsLost(After(w));
    WritesAreBy(n);
    LateIds();
    TwoMore(w, LATE_SET, LATE_GET);
    AllIdsSize();
    ops := w + [LATE_SET, LATE_GET];
    ByExtends(w, AllIds(), LATE_SET, LATE_GET);
  }

  lemma {:induction false} LateIds()
    ensures LATE_SET.id == LATE_GET.id == Id(16) && ValidId(Id(16))
  {
    IdsDiffer(16, 16);
  }

  lemma {:induction false} ByExtends(w: seq<Op>, ids: set<seq<byte>>, a: Op, b: Op)
    requires By(w, ids) && a.id in ids && ValidId(a.id) && a.id == b.id
    ensures By(w + [a, b], ids)
  {}

  /** Seventeen filters are not isolated from each other. */
  lemma {:induction false} SeventeenInterfere()
    ensures |AllIds()| == 17 && !Isolated(AllIds())
  {
    hide Alone, LastAnswer, AllIds, Id, By;
    AllIdsSize();
    LateWriteAloneIsKept();
    var ops := StarvedRun(16 * PER_FILTER);
    assert LastAnswer(Alone(ops, Id(16))) != LastAnswer(ops);
  }

  /** The end of a run that ends with two calls of one filter that had made none before. */
  lemma {:induction false} TwoMore(w: seq<Op>, a: Op, b: Op)
    requires a.id == b.id && Alone(w, a.id) == []
    ensures LastAnswer(w + [a, b]) == Exec(Exec(After(w), a.id, a.call).0, b.id, b.call).1
    ensures Alone(w + [a, b], a.id) == [a, b]
  {
    hide Exec;
    var ops := w + [a, b];
    assert ops[..|ops| - 1] == w + [a] && (w + [a])[..|w|] == w;
  }

  /** So isolation is guaranteed to any group of filters exactly up to sixteen of them. */
  lemma {:induction false} IsolatedExactlyUpToSixteen(n: nat)
    ensures (forall ids: set<seq<byte>> :: |ids| <= n ==> Isolated(ids)) <==> n <= MAX_FILTERS
  {
    if n <= MAX_FILTERS {
      forall ids: set<seq<byte>> | |ids| <= n ensures Isolated(ids) {
        forall ops: seq<Op> | By(ops, ids) && ops != []
          ensures ghost var id := ops[|ops| - 1].id;
                  Alone(ops, id) != [] && LastAnswer(Alone(ops, id)) == LastAnswer(ops)
        {
          AnsweredAsIfAlone(ops, ids, ops[|ops| - 1].id);
        }
      }
    } else {
      SeventeenInterfere();
    }
  }
}
