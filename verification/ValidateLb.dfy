/** Validation of an upstream's load-balancing section
    (plecto/crates/control/src/manifest/validate.rs). */
module ValidateLb {
  import opened Maglev
  import opened Primes
  import opened Words
  import Counting

  const MAX_INSTANCE_WEIGHT: nat := 1000

  datatype Algorithm = RoundRobin | LeastRequest | MaglevHash

  datatype HashKey = Header | SourceIp

  datatype HashConfig = HashConfig(key: HashKey, header: Option<string>, tableSize: nat)

  datatype Upstream = Upstream(weights: seq<nat>, algorithm: Algorithm, hash: Option<HashConfig>)

  datatype Error =
    | ZeroWeight(instance: nat)
    | WeightTooLarge(instance: nat)
    | MaglevNeedsHash
    | HashNeedsMaglev
    | EmptyHeader
    | TableTooLarge
    | TableNotPrime
    | TableTooSmall
    | TooManyInstances

  datatype Result = Ok | Err(error: Error)

  /** Unicode white space, as trimmed from a header name. */
  predicate IsSpace(c: char) {
    var x := c as int;
    || 0x9 <= x <= 0xd || x == 0x20 || x == 0x85 || x == 0xa0 || x == 0x1680 || 0x2000 <= x <= 0x200a
    || x == 0x2028 || x == 0x2029 || x == 0x202f || x == 0x205f || x == 0x3000
  }

  predicate Blank(s: string) {
    forall i :: 0 <= i < |s| ==> IsSpace(s[i])
  }

  predicate HeaderMissing(h: HashConfig) {
    h.key.Header? && (h.header.None? || Blank(h.header.value))
  }

  /** White space by Unicode's property list. */
  lemma {:induction false} SpacesAre(c: char)
    ensures IsSpace(c) <==>
            c in {'\t', '\n', '\U{b}', '\U{c}', '\r', ' ', '\U{85}', '\U{a0}', '\U{1680}', '\U{2000}', '\U{2001}', '\U{2002}',
                  '\U{2003}', '\U{2004}', '\U{2005}', '\U{2006}', '\U{2007}', '\U{2008}', '\U{2009}', '\U{200a}', '\U{2028}',
                  '\U{2029}', '\U{202f}', '\U{205f}', '\U{3000}'}
  {}

  /** Some character of the name is not white space. */
  ghost predicate Named(s: string) {
    exists i :: 0 <= i < |s| && !IsSpace(s[i])
  }

  /** What an accepted upstream satisfies. */
  ghost predicate Valid(u: Upstream) {
    && (forall i :: 0 <= i < |u.weights| ==> 1 <= u.weights[i] <= 1000)
    && (u.algorithm.MaglevHash? <==> u.hash.Some?)
    && (u.hash.Some? ==>
          var h := u.hash.value;
          && (h.key.Header? ==> h.header.Some? && Named(h.header.value))
          && h.tableSize <= 5_000_011 && Prime(h.tableSize)
          && |u.weights| <= h.tableSize && |u.weights| <= 65_535)
  }

  /** The fault an error names is there. */
  ghost predicate Faulty(u: Upstream, e: Error) {
    match e
    case ZeroWeight(i) => i < |u.weights| && u.weights[i] == 0
    case WeightTooLarge(i) => i < |u.weights| && u.weights[i] > MAX_INSTANCE_WEIGHT
    case MaglevNeedsHash => u.algorithm.MaglevHash? && u.hash.None?
    case HashNeedsMaglev => !u.algorithm.MaglevHash? && u.hash.Some?
    case EmptyHeader => u.hash.Some? && HeaderMissing(u.hash.value)
    case TableTooLarge => u.hash.Some? && u.hash.value.tableSize > MAX_HASH_TABLE_SIZE
    case TableNotPrime => u.hash.Some? && !Prime(u.hash.value.tableSize)
    case TableTooSmall => u.hash.Some? && |u.weights| > u.hash.value.tableSize
    case TooManyInstances => u.hash.Some? && |u.weights| > U16_MAX
  }

  /** Faults in the order they are looked for: instance by instance, then the hash settings. */
  function Place(u: Upstream, e: Error): nat {
    match e
    case ZeroWeight(i) => i
    case WeightTooLarge(i) => i
    case MaglevNeedsHash => |u.weights|
    case HashNeedsMaglev => |u.weights|
    case EmptyHeader => |u.weights| + 1
    case TableTooLarge => |u.weights| + 2
    case TableNotPrime => |u.weights| + 3
    case TableTooSmall => |u.weights| + 4
    case TooManyInstances => |u.weights| + 5
  }

  /** Accepts exactly the valid upstreams, and reports the first fault of any other. */
  method Validate(u: Upstream) returns (r: Result)
    ensures r.Ok? <==> Valid(u)
    ensures r.Err? ==> Faulty(u, r.error) && forall e :: Faulty(u, e) ==> Place(u, r.error) <= Place(u, e)
  {
    hide Prime;
    for i := 0 to |u.weights|
      invariant forall k :: 0 <= k < i ==> 1 <= u.weights[k] <= MAX_INSTANCE_WEIGHT
    {
      if u.weights[i] == 0 {
        return Err(ZeroWeight(i));
      }
      if u.weights[i] > MAX_INSTANCE_WEIGHT {
        return Err(WeightTooLarge(i));
      }
    }
    if u.algorithm.MaglevHash? && u.hash.None? {
      return Err(MaglevNeedsHash);
    }
    if !u.algorithm.MaglevHash? && u.hash.Some? {
      return Err(HashNeedsMaglev);
    }
    if u.hash.Some? {
      var h := u.hash.value;
      if HeaderMissing(h) {
        return Err(EmptyHeader);
      }
      if h.tableSize > MAX_HASH_TABLE_SIZE {
        return Err(TableTooLarge);
      }
      var prime := IsPrime(h.tableSize);
      if !prime {
        return Err(TableNotPrime);
      }
      if |u.weights| > h.tableSize {
        return Err(TableTooSmall);
      }
      if |u.weights| > U16_MAX {
        return Err(TooManyInstances);
      }
    }
    return Ok;
  }

  /** The table of every accepted Maglev upstream with an instance can be built. */
  lemma {:induction false} ValidIsBuildable(u: Upstream, entries: seq<Entry>)
    requires Valid(u) && u.algorithm.MaglevHash? && u.weights != [] && |entries| == |u.weights|
    requires forall i :: 0 <= i < |entries| ==> entries[i].weight == u.weights[i]
    ensures Buildable(entries, u.hash.value.tableSize) && |entries| <= u.hash.value.tableSize
  {
    hide Prime;
    assert 0 < entries[0].weight;
  }

  /** From manifest to table: every slot names an instance, and every instance has a slot. */
  method ValidatedTable(u: Upstream, entries: seq<Entry>) returns (r: Option<seq<nat>>)
    requires u.algorithm.MaglevHash? && u.weights != [] && |entries| == |u.weights|
    requires forall i :: 0 <= i < |entries| ==> entries[i].weight == u.weights[i]
    ensures r.Some? <==> Valid(u)
    ensures r.Some? ==> |r.value| == u.hash.value.tableSize
                        && (forall c :: 0 <= c < |r.value| ==> r.value[c] < |entries|)
                        && forall i :: 0 <= i < |entries| ==> i in r.value
  {
    var v := Validate(u);
    if v.Err? {
      return None;
    }
    ValidIsBuildable(u, entries);
    var m := u.hash.value.tableSize;
    var table := Build(entries, m);
    forall i | 0 <= i < |entries| ensures i in table {
      EveryInstanceHasASlot(entries, m, i);
      Counting.CountPositive(table, i);
    }
    return Some(table);
  }
}
