/** Request-path normalisation (plecto/crates/control/src/route.rs). */
module NormalizePath {

  import opened Words

  // ---------- strings ----------

  /** The segments between slashes; there is always at least one. */
  function Split(s: string): (segs: seq<string>)
    ensures segs != []
  {
    if s == "" then [""]
    else
      var rest := Split(s[1..]);
      if s[0] == '/' then [""] + rest else [[s[0]] + rest[0]] + rest[1..]
  }

  function Join(segs: seq<string>): string {
    if segs == [] then "" else if |segs| == 1 then segs[0] else segs[0] + "/" + Join(segs[1..])
  }

  predicate NoSlash(s: string) {
    '/' !in s
  }

  lemma {:induction false} SplitHasNoSlash(s: string)
    ensures forall k :: 0 <= k < |Split(s)| ==> NoSlash(Split(s)[k])
  {
    if s != "" {
      SplitHasNoSlash(s[1..]);
      var rest := Split(s[1..]);
      if s[0] != '/' {
        assert NoSlash(rest[0]);
        assert forall k :: 1 <= k < |Split(s)| ==> Split(s)[k] == rest[k];
      } else {
        assert forall k :: 1 <= k < |Split(s)| ==> Split(s)[k] == rest[k - 1];
      }
    }
  }

  lemma {:induction false} SplitNoSlash(s: string)
    requires NoSlash(s)
    ensures Split(s) == [s]
  {
    if s != "" {
      SplitNoSlash(s[1..]);
      assert [s[0]] + s[1..] == s;
    }
  }

  lemma {:induction false} SplitConcat(a: string, b: string)
    requires NoSlash(a)
    ensures Split(a + "/" + b) == [a] + Split(b)
  {
    var s := a + "/" + b;
    if a == "" {
      assert s[1..] == b;
    } else {
      SplitConcat(a[1..], b);
      assert s[1..] == a[1..] + "/" + b;
      assert [a[0]] + a[1..] == a;
      assert ([a[1..]] + Split(b))[1..] == Split(b);
    }
  }

  /** Splitting undoes joining. */
  lemma {:induction false} SplitOfJoin(segs: seq<string>)
    requires segs != [] && forall k :: 0 <= k < |segs| ==> NoSlash(segs[k])
    ensures Split(Join(segs)) == segs
  {
    if |segs| == 1 {
      SplitNoSlash(segs[0]);
    } else {
      SplitOfJoin(segs[1..]);
      SplitConcat(segs[0], Join(segs[1..]));
      assert [segs[0]] + segs[1..] == segs;
    }
  }

  // ---------- what is rejected outright ----------

  predicate ForbiddenChar(c: char) {
    c as int < 0x20 || c as int == 0x7f || c == '\\'
  }

  predicate Forbidden(s: string) {
    exists i :: 0 <= i < |s| && ForbiddenChar(s[i])
  }

  /** `%2e`, `%2f` or `%5c` in any case, at position `i`. */
  predicate EncodedAt(s: string, i: int) {
    && 0 <= i && i + 2 < |s| && s[i] == '%'
    && ((s[i + 1] == '2' && s[i + 2] in {'e', 'E', 'f', 'F'}) || (s[i + 1] == '5' && s[i + 2] in {'c', 'C'}))
  }

  predicate Encoded(s: string) {
    exists i :: 0 <= i < |s| && EncodedAt(s, i)
  }

  // ---------- resolving the segments ----------

  predicate Ordinary(seg: string) {
    seg != "." && seg != ".."
  }

  /** The segment stack after the segments have been read, unless one stepped above the root. */
  function Resolve(segs: seq<string>): Option<seq<string>> {
    if segs == [] then Some([])
    else
      var seg := segs[|segs| - 1];
      match Resolve(segs[..|segs| - 1])
      case None => None
      case Some(out) =>
        if seg == "." then Some(out)
        else if seg == ".." then (if |out| <= 1 then None else Some(out[..|out| - 1]))
        else Some(out + [seg])
  }

  // ---------- the whole normalisation ----------

  /** The part before the first `?`, and the part after it. */
  function SplitQuery(s: string): (string, Option<string>) {
    if s == "" then ("", None)
    else if s[0] == '?' then ("", Some(s[1..]))
    else
      var (p, q) := SplitQuery(s[1..]);
      ([s[0]] + p, q)
  }

  function WithQuery(path: string, query: Option<string>): string {
    if query.Some? then path + "?" + query.value else path
  }

  function Normalize(target: string): Option<string> {
    var (raw, query) := SplitQuery(target);
    if raw == "" || raw[0] != '/' then Some(target)
    else if Forbidden(raw) || Encoded(raw) then None
    else
      match Resolve(Split(raw))
      case None => None
      case Some(out) => Some(WithQuery(if Join(out) == "" then "/" else Join(out), query))
  }

  /** The loop over the segments, pushing and popping a stack. */
  method NormalizeTarget(target: string) returns (r: Option<string>)
    ensures r == Normalize(target)
  {
    hide Split, Join, Forbidden, Encoded, SplitQuery, Resolve;
    var (raw, query) := SplitQuery(target);
    if raw == "" || raw[0] != '/' {
      return Some(target);
    }
    if Forbidden(raw) || Encoded(raw) {
      return None;
    }
    var segs := Split(raw);
    var out: seq<string> := [];
    ResolveNothing(segs);
    for i := 0 to |segs|
      invariant Resolve(segs[..i]) == Some(out)
    {
      ResolveStep(segs, i);
      var seg := segs[i];
      if seg == "." {
      } else if seg == ".." {
        if |out| <= 1 {
          EscapeIsFinal(segs, i + 1);
          return None;
        }
        out := out[..|out| - 1];
      } else {
        out := out + [seg];
      }
    }
    assert segs[..|segs|] == segs;
    var norm := Join(out);
    if norm == "" {
      norm := "/";
    }
    if query.Some? {
      norm := norm + "?" + query.value;
    }
    return Some(norm);
  }

  lemma {:induction false} ResolveNothing(segs: seq<string>)
    ensures Resolve(segs[..0]) == Some([])
  {}

  lemma {:induction false} ResolveStep(segs: seq<string>, i: nat)
    requires i < |segs| && Resolve(segs[..i]).Some?
    ensures ghost var out := Resolve(segs[..i]).value;
            Resolve(segs[..i + 1])
            == if segs[i] == "." then Some(out)
               else if segs[i] == ".." then (if |out| <= 1 then None else Some(out[..|out| - 1]))
               else Some(out + [segs[i]])
  {
    assert segs[..i + 1][..i] == segs[..i];
  }

  lemma {:induction false} EscapeIsFinal(segs: seq<string>, k: nat)
    requires k <= |segs| && Resolve(segs[..k]).None?
    ensures Resolve(segs).None?
    decreases |segs|
  {
    if k == |segs| {
      assert segs[..k] == segs;
    } else {
      assert segs[..|segs| - 1][..k] == segs[..k];
      EscapeIsFinal(segs[..|segs| - 1], k);
    }
  }

  // ---------- which segments survive ----------

  /** Segments pushed minus segments popped. */
  function Depth(segs: seq<string>): int {
    if segs == [] then 0
    else
      var seg := segs[|segs| - 1];
      Depth(segs[..|segs| - 1]) + (if seg == "." then 0 else if seg == ".." then -1 else 1)
  }

  /** Some `..` meets no pushed segment besides the root. */
  ghost predicate Escapes(segs: seq<string>) {
    exists k :: 0 <= k < |segs| && segs[k] == ".." && Depth(segs[..k]) <= 1
  }

  /** Segment `k` is pushed as the stack's i-th and never popped again. */
  ghost predicate KeptAt(segs: seq<string>, i: nat, k: nat) {
    && k < |segs| && Ordinary(segs[k]) && Depth(segs[..k + 1]) == i + 1
    && forall m :: k < m <= |segs| ==> i + 1 <= Depth(segs[..m])
  }

  /** Resolving fails exactly on an escape, and otherwise leaves as many segments as the depth. */
  lemma {:induction false} ResolveFailsExactlyOnEscape(segs: seq<string>)
    ensures Resolve(segs).None? <==> Escapes(segs)
    ensures Resolve(segs).Some? ==> |Resolve(segs).value| == Depth(segs)
  {
    if segs != [] {
      ResolveFailsExactlyOnEscape(segs[..|segs| - 1]);
      EscapesExtends(segs);
      hide Escapes;
    }
  }

  ghost predicate IsKept(segs: seq<string>, i: nat, seg: string) {
    exists k: nat :: KeptAt(segs, i, k) && segs[k] == seg
  }

  /** The i-th segment of the result is the one at which the depth rose to `i + 1` for good. */
  lemma {:induction false} ResolveKeeps(segs: seq<string>, i: nat)
    requires Resolve(segs).Some? && i < |Resolve(segs).value|
    ensures IsKept(segs, i, Resolve(segs).value[i])
  {
    ResolveFailsExactlyOnEscape(segs);
    hide Escapes;
    var n := |segs| - 1;
    var front := segs[..n];
    var before := Resolve(front).value;
    if i < |before| {
      ResolveKeeps(front, i);
      var k: nat :| KeptAt(front, i, k) && front[k] == before[i];
      KeptExtends(segs, i, k);
    } else {
      assert segs[..n + 1] == segs;
      assert KeptAt(segs, i, n);
    }
  }

  lemma {:induction false} EscapesExtends(segs: seq<string>)
    requires segs != []
    ensures ghost var n := |segs| - 1;
            Escapes(segs) <==> Escapes(segs[..n]) || (segs[n] == ".." && Depth(segs[..n]) <= 1)
  {
    var n := |segs| - 1;
    var front := segs[..n];
    forall k | 0 <= k < n ensures front[..k] == segs[..k] && front[k] == segs[k] {}
    if Escapes(front) {
      var k :| 0 <= k < n && front[k] == ".." && Depth(front[..k]) <= 1;
      assert segs[k] == ".." && Depth(segs[..k]) <= 1;
    }
    if Escapes(segs) {
      var k :| 0 <= k < |segs| && segs[k] == ".." && Depth(segs[..k]) <= 1;
      if k < n {
        assert front[k] == ".." && Depth(front[..k]) <= 1;
      }
    }
  }

  lemma {:induction false} KeptExtends(segs: seq<string>, i: nat, k: nat)
    requires segs != [] && KeptAt(segs[..|segs| - 1], i, k) && i + 1 <= Depth(segs)
    ensures KeptAt(segs, i, k)
  {
    var n := |segs| - 1;
    var front := segs[..n];
    assert front[..k + 1] == segs[..k + 1];
    forall m | k < m <= |segs| ensures i + 1 <= Depth(segs[..m]) {
      if m <= n {
        assert front[..m] == segs[..m];
      } else {
        assert segs[..m] == segs;
      }
    }
  }

  /** That description leaves no choice: at most one segment is the i-th kept one. */
  lemma {:induction false} KeptIsUnique(segs: seq<string>, i: nat, k: nat, l: nat)
    requires KeptAt(segs, i, k) && KeptAt(segs, i, l)
    ensures k == l
  {
    assert segs[..l + 1][..l] == segs[..l] && segs[..k + 1][..k] == segs[..k];
  }

  // ---------- properties of the result ----------

  lemma {:induction false} ResolveSegments(segs: seq<string>)
    requires Resolve(segs).Some?
    ensures forall k :: 0 <= k < |Resolve(segs).value| ==>
              Ordinary(Resolve(segs).value[k]) && Resolve(segs).value[k] in segs
  {
    if segs != [] {
      var front := segs[..|segs| - 1];
      ResolveSegments(front);
      assert forall x :: x in front ==> x in segs;
    }
  }

  /** The root segment stays at the bottom of the stack. */
  lemma {:induction false} RootStays(segs: seq<string>)
    requires segs != [] && Ordinary(segs[0]) && Resolve(segs).Some?
    ensures Resolve(segs).value != [] && Resolve(segs).value[0] == segs[0]
  {
    if |segs| == 1 {
      assert Resolve(segs[..0]) == Some([]);
    } else {
      RootStays(segs[..|segs| - 1]);
    }
  }

  /** Segments that need no resolving are left as they are. */
  lemma {:induction false} ResolveOrdinary(segs: seq<string>)
    requires forall k :: 0 <= k < |segs| ==> Ordinary(segs[k])
    ensures Resolve(segs) == Some(segs)
  {
    if segs != [] {
      ResolveOrdinary(segs[..|segs| - 1]);
      assert segs == segs[..|segs| - 1] + [segs[|segs| - 1]];
    }
  }

  /** Where a segment of `s` lies in `s`. */
  lemma {:induction false} SegmentLies(s: string, k: nat) returns (a: nat)
    requires k < |Split(s)|
    ensures a + |Split(s)[k]| <= |s| && s[a..a + |Split(s)[k]|] == Split(s)[k]
    ensures k == 0 ==> a == 0
  {
    a := 0;
    if s != "" {
      var t := s[1..];
      if s[0] == '/' && k > 0 {
        var b := SegmentLies(t, k - 1);
        a := b + 1;
        ShiftedSlice(s, b, |Split(t)[k - 1]|);
        assert Split(s)[k] == Split(t)[k - 1];
      } else if s[0] != '/' {
        var b := SegmentLies(t, k);
        var seg := Split(t)[k];
        if k == 0 {
          assert s[0..1 + |seg|] == [s[0]] + t[0..|seg|];
        } else {
          a := b + 1;
          ShiftedSlice(s, b, |seg|);
          assert Split(s)[k] == seg;
        }
      }
    }
  }

  lemma {:induction false} ShiftedSlice(s: string, b: nat, n: nat)
    requires s != "" && b + n <= |s| - 1
    ensures s[b + 1..b + 1 + n] == s[1..][b..b + n]
  {
    var x, y := s[b + 1..b + 1 + n], s[1..][b..b + n];
    forall j | 0 <= j < n ensures x[j] == y[j] {}
  }

  /** Nothing forbidden in `s` means nothing forbidden in its segments. */
  lemma {:induction false} SegmentIsClean(s: string, k: nat)
    requires k < |Split(s)| && !Forbidden(s) && !Encoded(s) && '?' !in s
    ensures !Forbidden(Split(s)[k]) && !Encoded(Split(s)[k]) && '?' !in Split(s)[k]
  {
    var seg := Split(s)[k];
    var a := SegmentLies(s, k);
    forall i | 0 <= i < |seg| ensures !ForbiddenChar(seg[i]) && !EncodedAt(seg, i) && seg[i] != '?' {
      assert seg[i] == s[a + i];
      assert !EncodedAt(s, a + i);
      if i + 2 < |seg| {
        assert seg[i + 1] == s[a + i + 1] && seg[i + 2] == s[a + i + 2];
      }
    }
  }

  /** Joining clean segments makes nothing forbidden: an encoded triple cannot span a slash. */
  lemma {:induction false} JoinIsClean(segs: seq<string>)
    requires forall k :: 0 <= k < |segs| ==> !Forbidden(segs[k]) && !Encoded(segs[k]) && '?' !in segs[k]
    ensures !Forbidden(Join(segs)) && !Encoded(Join(segs)) && '?' !in Join(segs)
  {
    if |segs| > 1 {
      var rest := Join(segs[1..]);
      JoinIsClean(segs[1..]);
      TwoAreClean(segs[0], rest);
    }
  }

  lemma {:induction false} TwoAreClean(a: string, b: string)
    requires !Forbidden(a) && !Encoded(a) && '?' !in a && !Forbidden(b) && !Encoded(b) && '?' !in b
    ensures !Forbidden(a + "/" + b) && !Encoded(a + "/" + b) && '?' !in a + "/" + b
  {
    var s := a + "/" + b;
    var n := |a|;
    forall i | 0 <= i < |s| ensures !ForbiddenChar(s[i]) && !EncodedAt(s, i) && s[i] != '?' {
      if i < n {
        assert s[i] == a[i];
        assert !EncodedAt(a, i);
      } else if i > n {
        assert s[i] == b[i - n - 1];
        assert !EncodedAt(b, i - n - 1);
      }
      if i + 2 < n {
        assert s[i + 1] == a[i + 1] && s[i + 2] == a[i + 2];
      }
      if n < i && i + 2 < |s| {
        assert s[i + 1] == b[i - n] && s[i + 2] == b[i - n + 1];
      }
      assert s[n] == '/';
    }
  }

  // ---------- the query ----------

  lemma {:induction false} SplitQueryParts(s: string)
    ensures '?' !in SplitQuery(s).0 && WithQuery(SplitQuery(s).0, SplitQuery(s).1) == s
  {
    if s != "" && s[0] != '?' {
      SplitQueryParts(s[1..]);
      var (p, q) := SplitQuery(s[1..]);
      assert [s[0]] + s[1..] == s;
      if q.Some? {
        assert [s[0]] + (p + "?" + q.value) == [s[0]] + p + "?" + q.value;
      }
    } else if s != "" {
      assert "" + "?" + s[1..] == s;
    }
  }

  lemma {:induction false} SplitQueryOf(path: string, query: Option<string>)
    requires '?' !in path
    ensures SplitQuery(WithQuery(path, query)) == (path, query)
  {
    var s := WithQuery(path, query);
    if path == "" {
      if query.Some? {
        assert s[1..] == query.value;
      }
    } else {
      SplitQueryOf(path[1..], query);
      assert s[1..] == WithQuery(path[1..], query);
      assert [path[0]] + path[1..] == path;
    }
  }

  // ---------- the theorems ----------

  ghost predicate OriginForm(target: string) {
    SplitQuery(target).0 != "" && SplitQuery(target).0[0] == '/'
  }

  /** A control byte or backslash, or an encoded dot, slash or backslash, stands at `i`. */
  predicate Suspicious(s: string, i: nat)
    requires i < |s|
  {
    || s[i] < ' ' || s[i] == '\U{7f}' || s[i] == '\\'
    || (i + 3 <= |s| && s[i..i + 3] in {"%2e", "%2E", "%2f", "%2F", "%5c", "%5C"})
  }

  lemma {:induction false} SuspiciousIs(s: string)
    ensures Forbidden(s) || Encoded(s) <==> exists i :: 0 <= i < |s| && Suspicious(s, i)
  {
    forall i | 0 <= i < |s| ensures Suspicious(s, i) <==> ForbiddenChar(s[i]) || EncodedAt(s, i) {
      if i + 3 <= |s| {
        assert s[i..i + 3] == [s[i], s[i + 1], s[i + 2]];
      }
    }
  }

  /** A target with a leading slash is rejected exactly for a suspicious character or a `..` above the root. */
  lemma {:induction false} RejectsExactlyWhen(target: string)
    requires target != "" && target[0] == '/'
    ensures ghost var raw := SplitQuery(target).0;
            Normalize(target).None? <==> (exists i :: 0 <= i < |raw| && Suspicious(raw, i)) || Escapes(Split(raw))
  {
    var raw := SplitQuery(target).0;
    assert raw[0] == '/';
    ResolveFailsExactlyOnEscape(Split(raw));
    SuspiciousIs(raw);
  }

  /** Any other target is passed through unchanged. */
  lemma {:induction false} OthersPassThrough(target: string)
    requires target == "" || target[0] != '/'
    ensures Normalize(target) == Some(target)
  {}

  /** The path and the query are what stands before and after the first question mark. */
  lemma {:induction false} QuerySplits(path: string, query: string)
    requires '?' !in path
    ensures SplitQuery(path + "?" + query) == (path, Some(query)) && SplitQuery(path) == (path, None)
  {
    SplitQueryOf(path, Some(query));
    SplitQueryOf(path, None);
  }

  /** What normalisation makes of an accepted path, before the query is put back. */
  ghost function NormalPath(target: string): string
    requires OriginForm(target) && Resolve(Split(SplitQuery(target).0)).Some?
  {
    var j := Join(Resolve(Split(SplitQuery(target).0)).value);
    if j == "" then "/" else j
  }

  /** A path in normal form: rooted, without dot segments, and with nothing to be decoded. */
  ghost predicate IsNormal(path: string) {
    && path != "" && path[0] == '/' && '?' !in path
    && !Forbidden(path) && !Encoded(path)
    && forall k :: 0 <= k < |Split(path)| ==> Ordinary(Split(path)[k])
  }

  lemma {:induction false} SplitRoot(raw: string)
    requires raw != "" && raw[0] == '/'
    ensures |Split(raw)| >= 2 && Split(raw)[0] == ""
  {}

  lemma {:induction false} JoinRooted(out: seq<string>)
    requires out != [] && out[0] == ""
    ensures if |out| == 1 then Join(out) == "" else Join(out) != "" && Join(out)[0] == '/'
  {}

  /** An accepted target becomes a normal path followed by its own query, unchanged. */
  lemma {:induction false} AcceptedIsNormal(target: string)
    requires OriginForm(target) && Normalize(target).Some?
    ensures Normalize(target) == Some(WithQuery(NormalPath(target), SplitQuery(target).1))
    ensures IsNormal(NormalPath(target))
  {
    var raw := SplitQuery(target).0;
    var segs := Split(raw);
    var out := Resolve(segs).value;
    SplitQueryParts(target);
    SplitRoot(raw);
    RootStays(segs);
    ResolveSegments(segs);
    SplitHasNoSlash(raw);
    JoinRooted(out);
    hide Resolve, Split, Join, Forbidden, Encoded;
    forall k | 0 <= k < |out| ensures NoSlash(out[k]) && !Forbidden(out[k]) && !Encoded(out[k]) && '?' !in out[k] {
      var j :| 0 <= j < |segs| && segs[j] == out[k];
      SegmentIsClean(raw, j);
    }
    JoinIsClean(out);
    SplitOfJoin(out);
    SlashIsNormal();
  }

  lemma {:induction false} SlashIsNormal()
    ensures IsNormal("/")
  {
    assert Split("/"[1..]) == [""];
    assert Split("/") == ["", ""];
    assert !EncodedAt("/", 0);
  }

  /** A normal path is left exactly as it is, with any query. */
  lemma {:induction false} NormalIsFixed(path: string, query: Option<string>)
    requires IsNormal(path)
    ensures Normalize(WithQuery(path, query)) == Some(WithQuery(path, query))
  {
    SplitQueryOf(path, query);
    ResolveOrdinary(Split(path));
    JoinOfSplit(path);
  }

  lemma {:induction false} JoinCons(a: string, rest: seq<string>)
    requires rest != []
    ensures Join([a] + rest) == a + "/" + Join(rest)
  {
    assert ([a] + rest)[1..] == rest;
  }

  /** A character put before the first segment comes before the joined string. */
  lemma {:induction false} JoinPush(c: char, segs: seq<string>)
    requires segs != []
    ensures Join([[c] + segs[0]] + segs[1..]) == [c] + Join(segs)
  {
    if |segs| > 1 {
      hide Join;
      var a, rest := segs[0], segs[1..];
      JoinCons([c] + a, rest);
      JoinCons(a, rest);
      assert [a] + rest == segs;
      Reassociate([c], a, "/", Join(rest));
    }
  }

  lemma {:induction false} Reassociate(p: string, q: string, r: string, t: string)
    ensures p + (q + r + t) == (p + q) + r + t
  {}

  lemma {:induction false} JoinOfSplit(s: string)
    ensures Join(Split(s)) == s
  {
    if s != "" {
      var rest := Split(s[1..]);
      JoinOfSplit(s[1..]);
      hide Join;
      if s[0] == '/' {
        JoinCons("", rest);
        assert "" + "/" + s[1..] == s;
      } else {
        JoinPush(s[0], rest);
        assert [s[0]] + s[1..] == s;
      }
    }
  }

  /** Normalising twice is normalising once, for every target: the origin re-derives no other path. */
  lemma {:induction false} NormalizeIsIdempotent(target: string)
    requires Normalize(target).Some?
    ensures Normalize(Normalize(target).value) == Normalize(target)
  {
    if OriginForm(target) {
      AcceptedIsNormal(target);
      NormalIsFixed(NormalPath(target), SplitQuery(target).1);
    }
  }
}
