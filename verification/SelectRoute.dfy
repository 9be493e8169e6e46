/** Route matching and selection (plecto/crates/control/src/route.rs). */
module SelectRoute {
  import opened NormalizePath
  import opened Words

  /** A compiled route's match dimensions: host and header names lower-cased, method upper-cased. */
  datatype Route = Route(host: Option<string>, prefix: string, verb: Option<string>,
                         headers: seq<(string, string)>, query: seq<(string, string)>)

  datatype Request = Request(authority: string, path: string, verb: string, headers: seq<(string, string)>)

  // ---------- scanning ----------

  /** What comes before the first character of `stops`. */
  function UpTo(s: string, stops: set<char>): (p: string)
    ensures p <= s && forall i :: 0 <= i < |p| ==> p[i] !in stops
    ensures |p| < |s| ==> s[|p|] in stops
  {
    if s == "" || s[0] in stops then "" else [s[0]] + UpTo(s[1..], stops)
  }

  function LowerChar(c: char): char {
    if 'A' <= c <= 'Z' then (c as int + 32) as char else c
  }

  function Lower(s: string): string {
    seq(|s|, i requires 0 <= i < |s| => LowerChar(s[i]))
  }

  /** Port dropped, lower-cased, one trailing dot removed; a bracketed literal keeps its colons. */
  function NormalizeHost(authority: string): string {
    var host :=
      if authority != "" && authority[0] == '[' then
        (var inner := UpTo(authority[1..], {']'});
         if |inner| < |authority| - 1 then authority[..|inner| + 2] else authority)
      else UpTo(authority, {':'});
    var lowered := Lower(host);
    if lowered != "" && lowered[|lowered| - 1] == '.' && lowered[0] != '['
    then lowered[..|lowered| - 1] else lowered
  }

  predicate EndsWithSlash(s: string) {
    s != "" && s[|s| - 1] == '/'
  }

  predicate UnderPrefix(prefix: string, target: string) {
    var path := UpTo(target, {'?', '#'});
    && prefix <= path
    && (|path| == |prefix| || EndsWithSlash(prefix) || path[|prefix|] == '/')
  }

  /** The value of the first header of that name, names compared without case. */
  function FirstHeader(headers: seq<(string, string)>, name: string): Option<string> {
    if headers == [] then None
    else if Lower(headers[0].0) == Lower(name) then Some(headers[0].1)
    else FirstHeader(headers[1..], name)
  }

  /** The value of the first `name=value` pair of that name in a query string. */
  function FirstParam(query: string, name: string): Option<string>
    decreases |query|
  {
    var pair := UpTo(query, {'&'});
    var key := UpTo(pair, {'='});
    if |key| < |pair| && key == name then Some(pair[|key| + 1..])
    else if |pair| == |query| then None
    else FirstParam(query[|pair| + 1..], name)
  }

  function QueryOf(path: string): string {
    match SplitQuery(path).1
    case None => ""
    case Some(q) => q
  }

  predicate Matches(r: Route, q: Request) {
    && (r.host.Some? ==> r.host.value == NormalizeHost(q.authority))
    && UnderPrefix(r.prefix, q.path)
    && (r.verb.Some? ==> r.verb.value == q.verb)
    && (forall k :: 0 <= k < |r.headers| ==> FirstHeader(q.headers, r.headers[k].0) == Some(r.headers[k].1))
    && (forall k :: 0 <= k < |r.query| ==> FirstParam(QueryOf(q.path), r.query[k].0) == Some(r.query[k].1))
  }

  // ---------- specificity ----------

  function Bit(b: bool): nat {
    if b then 1 else 0
  }

  /** The key the winner maximises, most significant first. */
  function Rank(r: Route): seq<nat> {
    [Bit(r.host.Some?), |r.prefix|, Bit(r.verb.Some?), |r.headers|, |r.query|]
  }

  function Key(routes: seq<Route>, i: nat): seq<nat>
    requires i < |routes| <= U64_MAX
  {
    Rank(routes[i]) + [U64_MAX - i]
  }

  /** Lexicographic order on keys of one length. */
  predicate Less(a: seq<nat>, b: seq<nat>)
    requires |a| == |b|
  {
    a != [] && (a[0] < b[0] || (a[0] == b[0] && Less(a[1..], b[1..])))
  }

  lemma {:induction false} LessIsTotal(a: seq<nat>, b: seq<nat>)
    requires |a| == |b|
    ensures a == b || Less(a, b) || Less(b, a)
    ensures !(Less(a, b) && Less(b, a)) && !Less(a, a)
  {
    if a != [] {
      LessIsTotal(a[1..], b[1..]);
      LessIsTotal(a[1..], a[1..]);
      if a[0] == b[0] && a[1..] == b[1..] {
        assert a == [a[0]] + a[1..] && b == [b[0]] + b[1..];
      }
    }
  }

  lemma {:induction false} LessIsTransitive(a: seq<nat>, b: seq<nat>, c: seq<nat>)
    requires |a| == |b| == |c| && Less(a, b) && Less(b, c)
    ensures Less(a, c)
  {
    if a[0] == b[0] == c[0] {
      LessIsTransitive(a[1..], b[1..], c[1..]);
    }
  }

  lemma {:induction false} LessAppend(a: seq<nat>, b: seq<nat>, x: nat, y: nat)
    requires |a| == |b|
    ensures Less(a + [x], b + [y]) <==> Less(a, b) || (a == b && x < y)
  {
    if a != [] {
      LessAppend(a[1..], b[1..], x, y);
      assert (a + [x])[1..] == a[1..] + [x] && (b + [y])[1..] == b[1..] + [y];
      LessIsTotal(a, b);
      if a[0] == b[0] && a[1..] == b[1..] {
        assert a == [a[0]] + a[1..] && b == [b[0]] + b[1..];
      }
    } else {
      assert [x][1..] == [] && [y][1..] == [];
    }
  }

  /** Route `i` is more specific than `j`, or as specific and listed earlier. */
  predicate Beats(routes: seq<Route>, i: nat, j: nat)
    requires i < |routes| && j < |routes|
  {
    Less(Rank(routes[j]), Rank(routes[i])) || (Rank(routes[i]) == Rank(routes[j]) && i < j)
  }

  lemma {:induction false} KeyDecidesBeats(routes: seq<Route>, i: nat, j: nat)
    requires i < |routes| <= U64_MAX && j < |routes|
    ensures Less(Key(routes, j), Key(routes, i)) <==> Beats(routes, i, j)
    ensures i != j ==> Beats(routes, i, j) || Beats(routes, j, i)
  {
    LessAppend(Rank(routes[j]), Rank(routes[i]), U64_MAX - j, U64_MAX - i);
    LessIsTotal(Rank(routes[j]), Rank(routes[i]));
    hide Less;
  }

  lemma {:induction false} BeatsIsTransitive(routes: seq<Route>, i: nat, j: nat, k: nat)
    requires i < |routes| && j < |routes| && k < |routes| && Beats(routes, i, j) && Beats(routes, j, k)
    ensures Beats(routes, i, k)
  {
    hide Less, Rank;
    var a, b, c := Rank(routes[i]), Rank(routes[j]), Rank(routes[k]);
    RankLength(routes[i]);
    RankLength(routes[j]);
    RankLength(routes[k]);
    if Less(c, b) && Less(b, a) {
      LessIsTransitive(c, b, a);
    }
  }

  lemma {:induction false} RankLength(r: Route)
    ensures |Rank(r)| == 5
  {}

  /** The scan for the greatest key among the matching routes. */
  method Select(routes: seq<Route>, q: Request) returns (best: Option<nat>)
    requires |routes| <= U64_MAX
    ensures best.None? <==> forall j :: 0 <= j < |routes| ==> !Matches(routes[j], q)
    ensures best.Some? ==> best.value < |routes| && Matches(routes[best.value], q)
    ensures best.Some? ==> forall j :: 0 <= j < |routes| && Matches(routes[j], q) && j != best.value ==>
                             Beats(routes, best.value, j)
  {
    hide Matches, Beats, Less;
    best := None;
    for i := 0 to |routes|
      invariant best.None? <==> forall j :: 0 <= j < i ==> !Matches(routes[j], q)
      invariant best.Some? ==> best.value < i && Matches(routes[best.value], q)
      invariant best.Some? ==> forall j :: 0 <= j < i && Matches(routes[j], q) && j != best.value ==>
                                 Beats(routes, best.value, j)
    {
      if Matches(routes[i], q) {
        if best.None? {
          best := Some(i);
        } else {
          var b := best.value;
          KeyDecidesBeats(routes, b, i);
          KeyDecidesBeats(routes, i, b);
          // the later of two equal keys would win; keys differ in their last place
          if !Less(Key(routes, i), Key(routes, b)) {
            forall j | 0 <= j < i && Matches(routes[j], q) ensures Beats(routes, i, j) {
              if j != b {
                BeatsIsTransitive(routes, i, b, j);
              }
            }
            best := Some(i);
          }
        }
      }
    }
  }

  /** The winner is unique: two routes cannot beat each other. */
  lemma {:induction false} WinnerIsUnique(routes: seq<Route>, i: nat, j: nat)
    requires i < |routes| && j < |routes| && Beats(routes, i, j)
    ensures !Beats(routes, j, i)
  {
    LessIsTotal(Rank(routes[i]), Rank(routes[j]));
  }

  /** Prefixes of matching routes are nested, so equally long ones are equal. */
  lemma {:induction false} MatchingPrefixesNest(a: Route, b: Route, q: Request)
    requires Matches(a, q) && Matches(b, q)
    ensures |a.prefix| <= |b.prefix| ==> a.prefix <= b.prefix
    ensures |a.prefix| == |b.prefix| ==> a.prefix == b.prefix
  {
    var path := UpTo(q.path, {'?', '#'});
    assert a.prefix == path[..|a.prefix|] && b.prefix == path[..|b.prefix|];
  }

  /** Among equally host-constrained routes the winner's prefix extends every matching one. */
  lemma {:induction false} WinnerHasLongestPrefix(routes: seq<Route>, i: nat, j: nat, q: Request)
    requires i < |routes| && j < |routes| && Matches(routes[i], q) && Matches(routes[j], q)
    requires Beats(routes, i, j) && routes[i].host.Some? == routes[j].host.Some?
    ensures routes[j].prefix <= routes[i].prefix
  {
    var a, b := Rank(routes[i]), Rank(routes[j]);
    assert |routes[j].prefix| <= |routes[i].prefix| by {
      assert a[0] == b[0] && a[1] == |routes[i].prefix| && b[1] == |routes[j].prefix|;
      if Less(b, a) {
        assert Less(b[1..], a[1..]);
      }
    }
    hide Matches;
    MatchingPrefixesNest(routes[j], routes[i], q);
  }

  /** The order of precedence, field by field; the earlier route wins a tie in all of them. */
  lemma {:induction false} BeatsExactly(routes: seq<Route>, i: nat, j: nat)
    requires i < |routes| && j < |routes|
    ensures ghost var a, b := routes[i], routes[j];
            Beats(routes, i, j) <==>
            if a.host.Some? != b.host.Some? then a.host.Some?
            else if |a.prefix| != |b.prefix| then |a.prefix| > |b.prefix|
            else if a.verb.Some? != b.verb.Some? then a.verb.Some?
            else if |a.headers| != |b.headers| then |a.headers| > |b.headers|
            else if |a.query| != |b.query| then |a.query| > |b.query|
            else i < j
  {
    var x, y := Rank(routes[i]), Rank(routes[j]);
    LessIsTotal(x, y);
    LessUnfolds(y, x);
    hide Less;
  }

  lemma {:induction false} LessUnfolds(a: seq<nat>, b: seq<nat>)
    requires |a| == |b| == 5
    ensures Less(a, b) <==>
            if a[0] != b[0] then a[0] < b[0]
            else if a[1] != b[1] then a[1] < b[1]
            else if a[2] != b[2] then a[2] < b[2]
            else if a[3] != b[3] then a[3] < b[3]
            else a[4] < b[4]
  {
    var a1, b1 := a[1..], b[1..];
    var a2, b2 := a1[1..], b1[1..];
    var a3, b3 := a2[1..], b2[1..];
    var a4, b4 := a3[1..], b3[1..];
    assert Less(a4, b4) <==> a4[0] < b4[0];
    assert Less(a3, b3) <==> a3[0] < b3[0] || (a3[0] == b3[0] && Less(a4, b4));
    assert Less(a2, b2) <==> a2[0] < b2[0] || (a2[0] == b2[0] && Less(a3, b3));
    assert Less(a1, b1) <==> a1[0] < b1[0] || (a1[0] == b1[0] && Less(a2, b2));
  }

  // ---------- hosts, headers and parameters ----------

  /** Lower-casing turns the n-th ASCII capital into the n-th small letter, and changes nothing else. */
  lemma {:induction false} LowerFolds(c: char)
    ensures Lower([c]) == if 'A' <= c <= 'Z' then [(c as int - 'A' as int + 'a' as int) as char] else [c]
  {}

  lemma {:induction false} UpToIs(p: string, stop: char, rest: string)
    requires stop !in p
    ensures UpTo(p + [stop] + rest, {stop}) == p && UpTo(p, {stop}) == p
  {
    if p != "" {
      UpToIs(p[1..], stop, rest);
      assert (p + [stop] + rest)[1..] == p[1..] + [stop] + rest;
    }
  }

  /** One trailing dot of a name is dropped. */
  function DropDot(s: string): string {
    if s != "" && s[|s| - 1] == '.' then s[..|s| - 1] else s
  }

  /** A name is compared without its port, its case and one trailing dot. */
  lemma {:induction false} HostOfName(name: string, port: string)
    requires ':' !in name && (name == "" || name[0] != '[')
    ensures NormalizeHost(name) == DropDot(Lower(name)) == NormalizeHost(name + ":" + port)
  {
    UpToIs(name, ':', port);
    hide UpTo;
    if name != "" {
      assert LowerChar(name[0]) != '[';
      assert (name + ":" + port)[0] == name[0];
    }
  }

  lemma {:induction false} LowerConcat(a: string, b: string)
    ensures Lower(a + b) == Lower(a) + Lower(b)
  {}

  lemma {:induction false} LowerBracketed(inner: string)
    ensures Lower("[" + inner + "]") == "[" + Lower(inner) + "]"
    ensures Lower("[" + inner) == "[" + Lower(inner)
  {
    LowerConcat("[", inner);
    LowerConcat("[" + inner, "]");
    assert Lower("[") == "[" && Lower("]") == "]";
    hide Lower;
  }

  /** A bracketed address is compared without what follows the bracket ... */
  lemma {:induction false} HostOfBracket(inner: string, rest: string)
    requires ']' !in inner
    ensures NormalizeHost("[" + inner + "]" + rest) == "[" + Lower(inner) + "]"
  {
    hide UpTo, Lower;
    UpToIs(inner, ']', rest);
    LowerBracketed(inner);
    var authority := "[" + inner + "]" + rest;
    assert authority[1..] == inner + "]" + rest;
    assert authority[..|inner| + 2] == "[" + inner + "]";
  }

  /** ... and an open bracket keeps everything. */
  lemma {:induction false} HostOfOpenBracket(inner: string)
    requires ']' !in inner
    ensures NormalizeHost("[" + inner) == "[" + Lower(inner)
  {
    hide UpTo, Lower;
    UpToIs(inner, ']', "");
    LowerBracketed(inner);
    assert ("[" + inner)[1..] == inner;
  }

  /** Header `k` is the first of that name, names compared without case. */
  ghost predicate FirstNamed(headers: seq<(string, string)>, name: string, k: nat) {
    && k < |headers| && Lower(headers[k].0) == Lower(name)
    && forall j :: 0 <= j < k ==> Lower(headers[j].0) != Lower(name)
  }

  /** The first header of that name has that value. */
  ghost predicate HeaderIs(headers: seq<(string, string)>, name: string, value: string) {
    exists k: nat :: FirstNamed(headers, name, k) && headers[k].1 == value
  }

  /** The first header of a name decides; a later duplicate changes nothing. */
  lemma {:induction false} HeaderExactly(headers: seq<(string, string)>, name: string, value: string)
    ensures FirstHeader(headers, name) == Some(value) <==> HeaderIs(headers, name, value)
  {
    hide Lower;
    if headers != [] {
      HeaderExactly(headers[1..], name, value);
      if Lower(headers[0].0) == Lower(name) {
        assert FirstNamed(headers, name, 0);
      } else {
        if k: nat :| FirstNamed(headers, name, k) && headers[k].1 == value {
          LaterNamed(headers, name, k - 1);
        }
        if k: nat :| FirstNamed(headers[1..], name, k) && headers[1..][k].1 == value {
          LaterNamed(headers, name, k);
        }
      }
    }
  }

  lemma {:induction false} LaterNamed(headers: seq<(string, string)>, name: string, k: nat)
    requires headers != [] && Lower(headers[0].0) != Lower(name)
    ensures FirstNamed(headers, name, k + 1) <==> FirstNamed(headers[1..], name, k)
  {
    hide Lower;
    var rest := headers[1..];
    if FirstNamed(headers, name, k + 1) {
      assert forall j :: 0 <= j < k ==> rest[j] == headers[j + 1];
    }
    if FirstNamed(rest, name, k) {
      forall j | 0 <= j < k + 1 ensures Lower(headers[j].0) != Lower(name) {
        if j > 0 {
          assert headers[j] == rest[j - 1];
        }
      }
    }
  }

  /** The pair `name=value` begins at `p` and runs to the next `&` or the end. */
  ghost predicate PairAt(query: string, p: nat, name: string, value: string) {
    var end := p + |name| + 1 + |value|;
    && end <= |query| && (p == 0 || query[p - 1] == '&')
    && '&' !in name && '=' !in name && '&' !in value
    && query[p..end] == name + "=" + value
    && (end == |query| || query[end] == '&')
  }

  lemma {:induction false} PairAtStart(query: string, name: string, value: string)
    ensures ghost var pair := UpTo(query, {'&'});
            ghost var key := UpTo(pair, {'='});
            PairAt(query, 0, name, value) <==> |key| < |pair| && key == name && pair[|key| + 1..] == value
  {
    hide UpTo;
    if PairAt(query, 0, name, value) {
      StartIsPair(query, name, value);
      assert (name + "=" + value)[|name| + 1..] == value;
    }
    var pair := UpTo(query, {'&'});
    var key := UpTo(pair, {'='});
    if |key| < |pair| && key == name && pair[|key| + 1..] == value {
      PairIsStart(query, pair, name, value);
    }
  }

  lemma {:induction false} PairIsStart(query: string, pair: string, name: string, value: string)
    requires pair <= query && '&' !in pair && (|pair| < |query| ==> query[|pair|] == '&')
    requires '=' !in name && |name| < |pair| && pair[|name|] == '=' && pair[..|name|] == name && pair[|name| + 1..] == value
    ensures PairAt(query, 0, name, value)
  {
    assert pair == name + "=" + value;
    assert query[0..|pair|] == pair;
    forall c | c in name || c in value ensures c in pair {}
  }

  lemma {:induction false} StartIsPair(query: string, name: string, value: string)
    requires PairAt(query, 0, name, value)
    ensures UpTo(query, {'&'}) == name + "=" + value && UpTo(name + "=" + value, {'='}) == name
  {
    hide UpTo;
    var both := name + "=" + value;
    var end := |both|;
    assert query[0..end] == both;
    if end < |query| {
      assert query == both + ['&'] + query[end + 1..];
      UpToIs(both, '&', query[end + 1..]);
    } else {
      assert query == both;
      UpToIs(both, '&', "");
    }
    UpToIs(name, '=', value);
  }

  lemma {:induction false} PairAtLater(query: string, p: nat, name: string, value: string)
    requires p > 0
    ensures ghost var n := |UpTo(query, {'&'})|;
            PairAt(query, p, name, value) <==> n < p && n < |query| && PairAt(query[n + 1..], p - n - 1, name, value)
  {
    var n := |UpTo(query, {'&'})|;
    assert UpTo(query, {'&'}) == query[..n];
    if n < p && n < |query| {
      var rest, end := query[n + 1..], p + |name| + 1 + |value|;
      if end <= |query| {
        assert rest[p - n - 1..end - n - 1] == query[p..end];
      }
    } else if p <= |query| {
      assert p - 1 < n ==> query[p - 1] == UpTo(query, {'&'})[p - 1];
    }
  }

  /** The first pair of a name decides: there is none of that name before it. */
  lemma {:induction false} FirstParamDecides(query: string, name: string) returns (p: nat)
    ensures FirstParam(query, name).None? ==> forall q: nat, v :: !PairAt(query, q, name, v)
    ensures FirstParam(query, name).Some? ==>
              && PairAt(query, p, name, FirstParam(query, name).value)
              && forall q: nat, v :: q < p ==> !PairAt(query, q, name, v)
    decreases |query|
  {
    hide PairAt, UpTo;
    var pair := UpTo(query, {'&'});
    var key := UpTo(pair, {'='});
    var n := |pair|;
    if |key| < n && key == name {
      p := 0;
      PairAtStart(query, name, pair[|key| + 1..]);
    } else if n < |query| {
      var p' := FirstParamDecides(query[n + 1..], name);
      p := p' + n + 1;
      var found := FirstParam(query, name);
      if found.Some? {
        PairAtLater(query, p, name, found.value);
      }
      forall q: nat, v | found.None? || q < p ensures !PairAt(query, q, name, v) {
        EarlierPair(query, q, name, v);
      }
    } else {
      p := 0;
      forall q: nat, v ensures !PairAt(query, q, name, v) {
        EarlierPair(query, q, name, v);
      }
    }
  }

  /** A pair is the first one, or one of what follows it. */
  lemma {:induction false} EarlierPair(query: string, p: nat, name: string, value: string)
    ensures ghost var pair := UpTo(query, {'&'});
            ghost var key := UpTo(pair, {'='});
            PairAt(query, p, name, value) ==>
              || (|key| < |pair| && key == name)
              || (|pair| < p && |pair| < |query| && PairAt(query[|pair| + 1..], p - |pair| - 1, name, value))
  {
    if p == 0 {
      PairAtStart(query, name, value);
    } else {
      PairAtLater(query, p, name, value);
    }
    hide PairAt, UpTo;
  }

  /** A value is what the first pair of the name says. */
  ghost predicate ParamIs(query: string, name: string, value: string) {
    exists p: nat :: PairAt(query, p, name, value) && forall q: nat, v :: q < p ==> !PairAt(query, q, name, v)
  }

  lemma {:induction false} ParamExactly(query: string, name: string, value: string)
    ensures FirstParam(query, name) == Some(value) <==> ParamIs(query, name, value)
  {
    hide FirstParam;
    var p := FirstParamDecides(query, name);
    if ParamIs(query, name, value) {
      var q: nat :| PairAt(query, q, name, value) && forall r: nat, v :: r < q ==> !PairAt(query, r, name, v);
      assert q == p;
      OnePairAt(query, p, name, value, FirstParam(query, name).value);
    }
  }

  lemma {:induction false} OnePairAt(query: string, p: nat, name: string, v: string, w: string)
    requires PairAt(query, p, name, v) && PairAt(query, p, name, w)
    ensures v == w
  {
    var a := p + |name| + 1;
    assert query[a..a + |v|] == query[p..a + |v|][|name| + 1..] == v;
    assert query[a..a + |w|] == query[p..a + |w|][|name| + 1..] == w;
  }

  /**
    A route matches exactly when every dimension it specifies does: the normalised host, the prefix,
    the method, the first header of each name and the first query pair of each name.
   */
  lemma {:induction false} MatchesExactly(r: Route, q: Request)
    ensures Matches(r, q) <==>
            && (r.host.None? || r.host.value == NormalizeHost(q.authority))
            && UnderPrefix(r.prefix, q.path)
            && (r.verb.None? || r.verb.value == q.verb)
            && (forall k :: 0 <= k < |r.headers| ==> HeaderIs(q.headers, r.headers[k].0, r.headers[k].1))
            && (forall k :: 0 <= k < |r.query| ==> ParamIs(QueryOf(q.path), r.query[k].0, r.query[k].1))
  {
    hide FirstHeader, FirstParam, HeaderIs, ParamIs, QueryOf, NormalizeHost, UnderPrefix;
    forall k | 0 <= k < |r.headers|
      ensures FirstHeader(q.headers, r.headers[k].0) == Some(r.headers[k].1)
              <==> HeaderIs(q.headers, r.headers[k].0, r.headers[k].1)
    {
      HeaderExactly(q.headers, r.headers[k].0, r.headers[k].1);
    }
    forall k | 0 <= k < |r.query|
      ensures FirstParam(QueryOf(q.path), r.query[k].0) == Some(r.query[k].1)
              <==> ParamIs(QueryOf(q.path), r.query[k].0, r.query[k].1)
    {
      ParamExactly(QueryOf(q.path), r.query[k].0, r.query[k].1);
    }
  }

  /** The query is what follows the first question mark, or nothing. */
  lemma {:induction false} QueryIs(path: string, query: string)
    requires '?' !in path
    ensures QueryOf(path + "?" + query) == query && QueryOf(path) == ""
  {
    QuerySplits(path, query);
  }

  // ---------- a prefix match is a match of whole segments ----------

  lemma {:induction false} JoinConcat(a: seq<string>, b: seq<string>)
    requires a != [] && b != []
    ensures Join(a + b) == Join(a) + "/" + Join(b)
  {
    if |a| == 1 {
      JoinCons(a[0], b);
      assert a + b == [a[0]] + b;
    } else {
      JoinConcat(a[1..], b);
      assert a + b == [a[0]] + (a[1..] + b);
      JoinCons(a[0], a[1..] + b);
      JoinCons(a[0], a[1..]);
      assert [a[0]] + a[1..] == a;
      Reassociate3(a[0], "/", Join(a[1..]), "/", Join(b));
    }
  }

  lemma {:induction false} Reassociate3(p: string, q: string, r: string, s: string, t: string)
    ensures p + q + (r + s + t) == (p + q + r) + s + t
  {}

  /** Splitting at a slash splits the segments there. */
  lemma {:induction false} SplitAtSlash(a: string, b: string)
    ensures Split(a + "/" + b) == Split(a) + Split(b)
  {
    JoinOfSplit(a);
    JoinOfSplit(b);
    JoinConcat(Split(a), Split(b));
    SplitHasNoSlash(a);
    SplitHasNoSlash(b);
    hide Split, Join;
    SplitOfJoin(Split(a) + Split(b));
  }

  /** The segments of `a` begin those of `b` exactly when `b` is `a`, or `a` and then a slash. */
  lemma {:induction false} SegmentPrefix(a: string, b: string)
    ensures Split(a) <= Split(b) <==> a == b || a + "/" <= b
    ensures Split(a) < Split(b) <==> a + "/" <= b
  {
    hide Split, Join;
    if a + "/" <= b {
      var rest := b[|a| + 1..];
      assert b == a + "/" + rest;
      SplitAtSlash(a, rest);
      assert Split(rest) != [];
    }
    if Split(a) <= Split(b) {
      var rest := Split(b)[|Split(a)|..];
      assert Split(b) == Split(a) + rest;
      JoinOfSplit(a);
      JoinOfSplit(b);
      if rest == [] {
        assert Split(b) == Split(a);
        assert a == b;
      } else {
        JoinConcat(Split(a), rest);
        assert b == a + "/" + Join(rest);
      }
    }
  }

  /**
    A path is under a prefix exactly when the prefix's segments begin the path's: all of them,
    or, for a prefix that ends in a slash, those before it with at least one more to come.
   */
  lemma {:induction false} UnderPrefixIsSegmentwise(prefix: string, target: string)
    ensures ghost var path := UpTo(target, {'?', '#'});
            UnderPrefix(prefix, target) <==>
            if EndsWithSlash(prefix) then Split(prefix[..|prefix| - 1]) < Split(path)
            else Split(prefix) <= Split(path)
  {
    hide Split, UpTo;
    var path := UpTo(target, {'?', '#'});
    if EndsWithSlash(prefix) {
      var front := prefix[..|prefix| - 1];
      SegmentPrefix(front, path);
      assert front + "/" == prefix;
    } else {
      SegmentPrefix(prefix, path);
      if prefix + "/" <= path {
        assert path[|prefix|] == (prefix + "/")[|prefix|];
        assert path[..|prefix|] == (prefix + "/")[..|prefix|] == prefix;
      }
      if prefix <= path && |prefix| < |path| && path[|prefix|] == '/' {
        assert path[..|prefix| + 1] == prefix + "/";
      }
    }
  }
}
