/**
 * Path utilities: `split_path` of googledrive_helpers.py over an exact model of
 * POSIX `os.path.split` / `os.path.join`, and the provider's string helpers
 * `get_rel_path`, `get_normalized_path`, `get_full_path` and `get_root_path`.
 */
module Paths {
  import opened Wrappers

  // ---------------------------------------------------------------------------
  // Character-level predicates
  // ---------------------------------------------------------------------------

  predicate AllSlashes(s: string) {
    forall i :: 0 <= i < |s| ==> s[i] == '/'
  }

  predicate NoSlash(s: string) {
    forall i :: 0 <= i < |s| ==> s[i] != '/'
  }

  predicate EndsWithSlash(s: string) {
    s != [] && s[|s| - 1] == '/'
  }

  /** What the head of an `os.path.split` can be: empty, only slashes, or not ending in a slash. */
  predicate HeadLike(s: string) {
    s == [] || AllSlashes(s) || !EndsWithSlash(s)
  }

  /** `s.rstrip('/')`: the longest prefix of `s` that does not end in a slash. */
  function RStrip(s: string): (r: string)
    ensures |r| <= |s| && r == s[..|r|]
    ensures AllSlashes(s[|r|..])
    ensures !EndsWithSlash(r)
  {
    if EndsWithSlash(s) then RStrip(s[..|s| - 1]) else s
  }

  /** `s.lstrip('/')`. */
  function LStrip(s: string): (r: string)
    ensures |r| <= |s| && r == s[|s| - |r|..]
    ensures AllSlashes(s[..|s| - |r|])
    ensures r == [] || r[0] != '/'
  {
    if s != [] && s[0] == '/' then LStrip(s[1..]) else s
  }

  /** `s.strip('/')`. */
  function Strip(s: string): string {
    LStrip(RStrip(s))
  }

  /** `strip('/')` leaves nothing exactly when the string is made of slashes only. */
  lemma StripEmptyIff(s: string)
    ensures Strip(s) == [] <==> AllSlashes(s)
  {
    var r := RStrip(s);
    if Strip(s) == [] {
      assert r[..|r|] == r;
      assert AllSlashes(r);
      assert r == [];
      assert s == s[|r|..];
    } else {
      var l := Strip(s);
      assert l[0] != '/';
      assert l[0] == r[|r| - |l|];
      assert r[|r| - |l|] == s[|r| - |l|];
    }
  }

  // ---------------------------------------------------------------------------
  // os.path.split and os.path.join (posixpath)
  // ---------------------------------------------------------------------------

  /** `p.rfind('/') + 1`: the index just after the last slash, 0 when there is none. */
  function AfterLastSlash(s: string): (i: nat)
    ensures i <= |s|
    ensures NoSlash(s[i..])
    ensures i > 0 ==> s[i - 1] == '/'
  {
    if s == [] then 0
    else if s[|s| - 1] == '/' then |s|
    else
      var i := AfterLastSlash(s[..|s| - 1]);
      assert s[i..] == s[..|s| - 1][i..] + [s[|s| - 1]];
      i
  }

  /**
   * `os.path.split(p)`: the tail is what follows the last slash; the head is
   * what precedes it, with trailing slashes removed unless it is only slashes.
   */
  function Split(p: string): (r: (string, string))
    ensures NoSlash(r.1)
    ensures HeadLike(r.0)
    ensures r.1 != [] ==> |r.0| < |p|
    ensures r.1 == [] && HeadLike(p) ==> r.0 == p
  {
    var i := AfterLastSlash(p);
    var head := p[..i];
    if head != [] && !AllSlashes(head) then (RStrip(head), p[i..]) else (head, p[i..])
  }

  /** `os.path.join(a, b)`. */
  function Join(a: string, b: string): string {
    if b != [] && b[0] == '/' then b
    else if a == [] || EndsWithSlash(a) then a + b
    else a + "/" + b
  }

  /** `os.path.join(*ts)`, folded from the empty string (equal to it for every non-empty `ts`). */
  function JoinTokens(ts: seq<string>): string {
    if ts == [] then "" else Join(JoinTokens(ts[..|ts| - 1]), ts[|ts| - 1])
  }

  // ---------------------------------------------------------------------------
  // split_path
  // ---------------------------------------------------------------------------

  /** The components `split_path`'s loop collects from a head, in path order. */
  function Components(x: string): seq<string>
    decreases |x|
  {
    var (h, t) := Split(x);
    if t != [] then Components(h) + [t]
    else if h != [] then [h]
    else []
  }

  /** The value of `split_path(p)`. */
  function SplitPathSpec(p: string): seq<string> {
    var (h, t) := Split(p);
    Components(h) + (if t != [] then [t] else [])
  }

  function Reversed(s: seq<string>): seq<string> {
    if s == [] then [] else [s[|s| - 1]] + Reversed(s[..|s| - 1])
  }

  lemma ReversedSnoc(s: seq<string>, x: string)
    ensures Reversed(s + [x]) == [x] + Reversed(s)
  {
    assert (s + [x])[..|s|] == s;
  }

  /** One turn of `split_path`'s loop: split off the tail, or stop at the remaining head. */
  lemma ComponentsStep(x: string)
    ensures var (h, t) := Split(x);
      Components(x) == if t != [] then Components(h) + [t] else if h != [] then [h] else []
  {
  }

  /**
   * split_path: split off the file, then repeatedly split the head, collecting
   * the tails, then the remaining head; reverse and append the file.
   */
  method SplitPath(pathAndFile: string) returns (folders: seq<string>)
    ensures folders == SplitPathSpec(pathAndFile)
    ensures TokensWellFormed(folders)
  {
    var path, file := Split(pathAndFile).0, Split(pathAndFile).1;
    folders := [];
    ghost var comps := Components(path);
    while true
      invariant comps == Components(path) + Reversed(folders)
      decreases |path|
    {
      var split := Split(path);
      ComponentsStep(path);
      var folder := split.1;
      path := split.0;
      if folder != "" {
        ReversedSnoc(folders, folder);
        AppendAssoc(Components(path), [folder], Reversed(folders));
        folders := folders + [folder];
      } else {
        if path != "" {
          ReversedSnoc(folders, path);
          folders := folders + [path];
        }
        assert comps == Reversed(folders);
        break;
      }
    }
    folders := Reversed(folders);
    assert folders == comps;
    if file != "" {
      folders := folders + [file];
    }
    SplitPathWellFormed(pathAndFile);
  }

  /**
   * What split_path returns: every token is non-empty; the first is either
   * the slash marker of an absolute path (slashes only) or a plain name; all
   * later tokens are plain names without '/'.
   */
  predicate TokensWellFormed(ts: seq<string>) {
    && (forall i :: 0 <= i < |ts| ==> ts[i] != [])
    && (|ts| > 0 ==> AllSlashes(ts[0]) || NoSlash(ts[0]))
    && (forall i :: 1 <= i < |ts| ==> NoSlash(ts[i]))
  }

  lemma WellFormedSnoc(ts: seq<string>, t: string)
    requires TokensWellFormed(ts) && t != [] && NoSlash(t)
    ensures TokensWellFormed(ts + [t])
  {
    var us := ts + [t];
    forall i | 1 <= i < |us|
      ensures NoSlash(us[i])
    {
      if i < |ts| { assert us[i] == ts[i]; } else { assert us[i] == t; }
    }
  }

  lemma {:induction false} ComponentsWellFormed(x: string)
    requires HeadLike(x)
    ensures TokensWellFormed(Components(x))
    decreases |x|
  {
    var (h, t) := Split(x);
    if t != [] {
      ComponentsWellFormed(h);
      WellFormedSnoc(Components(h), t);
    } else if h != [] {
      assert x == [] || EndsWithSlash(x) by {
        var i := AfterLastSlash(x);
        assert t == x[i..];
      }
      assert h == x;
    }
  }

  /** Every result of split_path is well formed. */
  lemma SplitPathWellFormed(p: string)
    ensures TokensWellFormed(SplitPathSpec(p))
  {
    var (h, t) := Split(p);
    ComponentsWellFormed(h);
    if t != [] {
      WellFormedSnoc(Components(h), t);
    } else {
      assert SplitPathSpec(p) == Components(h);
    }
  }

  /** On a head-like string, split_path and the component loop agree. */
  lemma SplitPathOfHead(x: string)
    requires HeadLike(x)
    ensures SplitPathSpec(x) == Components(x)
  {
  }

  lemma {:induction false} AfterLastSlashConcat(a: string, b: string)
    requires NoSlash(b)
    ensures AfterLastSlash(a + b) == AfterLastSlash(a)
    decreases |b|
  {
    if b != [] {
      var ab := a + b;
      assert ab[|ab| - 1] == b[|b| - 1];
      assert ab[..|ab| - 1] == a + b[..|b| - 1];
      AfterLastSlashConcat(a, b[..|b| - 1]);
    } else {
      assert a + b == a;
    }
  }

  lemma NoSlashAfterLastSlash(s: string)
    requires NoSlash(s)
    ensures AfterLastSlash(s) == 0
  {
    AfterLastSlashConcat([], s);
    assert [] + s == s;
  }

  /** os.path.join of a head-like path and a plain name is split back into the two. */
  lemma SplitJoin(p: string, t: string)
    requires p != [] && (EndsWithSlash(p) ==> AllSlashes(p))
    requires t != [] && NoSlash(t)
    ensures Split(Join(p, t)) == (p, t)
    ensures Join(p, t) != [] && !EndsWithSlash(Join(p, t))
    ensures Components(Join(p, t)) == Components(p) + [t]
  {
    var a := if EndsWithSlash(p) then p else p + "/";
    var x := Join(p, t);
    assert x == a + t;
    AfterLastSlashConcat(a, t);
    assert AfterLastSlash(a) == |a|;
    assert x[..|a|] == a && x[|a|..] == t;
    if !EndsWithSlash(p) {
      assert !AllSlashes(a) by { assert a[|p| - 1] != '/'; }
      assert a[..|a| - 1] == p;
      assert RStrip(a) == p;
    }
    assert x[|x| - 1] == t[|t| - 1];
  }

  lemma WellFormedPrefix(ts: seq<string>)
    requires TokensWellFormed(ts) && |ts| > 1
    ensures TokensWellFormed(ts[..|ts| - 1])
    ensures ts[|ts| - 1] != [] && NoSlash(ts[|ts| - 1])
  {
  }

  /** One well-formed token on its own is its own only component. */
  lemma SingleTokenComponents(t: string)
    requires t != [] && (AllSlashes(t) || NoSlash(t))
    ensures JoinTokens([t]) == t
    ensures Components(t) == [t]
  {
    assert [t][..0] == [];
    if AllSlashes(t) {
      assert AfterLastSlash(t) == |t|;
      assert t[..|t|] == t;
      assert Split(t) == (t, []);
    } else {
      NoSlashAfterLastSlash(t);
      assert Split(t) == ([], t);
      assert Split([]) == ([], []);
    }
  }

  /**
   * Joining well-formed tokens with os.path.join yields a head-like string
   * whose components are exactly those tokens.
   */
  lemma {:induction false} JoinTokensComponents(ts: seq<string>)
    requires TokensWellFormed(ts) && ts != []
    ensures var x := JoinTokens(ts);
      && x != []
      && (EndsWithSlash(x) ==> AllSlashes(x))
      && Components(x) == ts
    decreases |ts|
  {
    var n := |ts|;
    var t := ts[n - 1];
    if n == 1 {
      SingleTokenComponents(t);
    } else {
      var pre := ts[..n - 1];
      WellFormedPrefix(ts);
      JoinTokensComponents(pre);
      var p := JoinTokens(pre);
      assert JoinTokens(ts) == Join(p, t);
      SplitJoin(p, t);
      assert pre + [t] == ts;
    }
  }

  /** split_path undoes os.path.join on well-formed tokens. */
  lemma JoinThenSplit(ts: seq<string>)
    requires TokensWellFormed(ts) && ts != []
    ensures SplitPathSpec(JoinTokens(ts)) == ts
  {
    JoinTokensComponents(ts);
    var x := JoinTokens(ts);
    assert HeadLike(x);
    SplitPathOfHead(x);
  }

  /** The absolute path "/s1/.../sn" with plain, non-empty segments. */
  function Absolute(segs: seq<string>): string {
    JoinTokens(["/"] + segs)
  }

  /** split_path("/s1/.../sn") is ["/", s1, ..., sn]; for no segments it is ["/"]. */
  lemma SplitAbsolute(segs: seq<string>)
    requires forall i :: 0 <= i < |segs| ==> segs[i] != [] && NoSlash(segs[i])
    ensures SplitPathSpec(Absolute(segs)) == ["/"] + segs
  {
    var ts := ["/"] + segs;
    assert forall i :: 1 <= i < |ts| ==> ts[i] == segs[i - 1];
    JoinThenSplit(ts);
  }

  /** A relative path "s1/.../sn" has no slash marker: split_path gives [s1, ..., sn]. */
  lemma SplitRelative(segs: seq<string>)
    requires segs != []
    requires forall i :: 0 <= i < |segs| ==> segs[i] != [] && NoSlash(segs[i])
    ensures SplitPathSpec(JoinTokens(segs)) == segs
  {
    JoinThenSplit(segs);
  }

  lemma SplitRoot()
    ensures SplitPathSpec("/") == ["/"]
  {
    SplitAbsolute([]);
    assert Absolute([]) == "/" by {
      assert (["/"] + [])[..0] == [];
    }
  }

  /** A trailing slash is ignored, for any path with at least one non-slash character. */
  lemma TrailingSlashIgnored(p: string)
    requires !AllSlashes(p)
    ensures SplitPathSpec(p + "/") == SplitPathSpec(p)
  {
    var q := RStrip(p);
    var ps := p + "/";
    assert AfterLastSlash(ps) == |ps|;
    assert ps[..|ps|] == ps;
    assert !AllSlashes(ps) by {
      var i :| 0 <= i < |p| && p[i] != '/';
      assert ps[i] == p[i];
    }
    assert RStrip(ps) == q by {
      assert ps[..|ps| - 1] == p;
    }
    assert Split(ps) == (q, []);
    assert q != [] by {
      assert p[0..] == p;
    }
    if EndsWithSlash(p) {
      assert AfterLastSlash(p) == |p|;
      assert p[..|p|] == p;
      assert Split(p) == (q, []);
    } else {
      assert q == p;
      SplitPathOfHead(p);
    }
  }

  // ---------------------------------------------------------------------------
  // Provider path helpers
  // ---------------------------------------------------------------------------

  /** `get_rel_path`: drop exactly one leading slash, if there is one. */
  function RelPath(path: string): (r: string)
    ensures |path| > 0 && path[0] == '/' ==> "/" + r == path
    ensures !(|path| > 0 && path[0] == '/') ==> r == path
  {
    if |path| > 0 && path[0] == '/' then path[1..] else path
  }

  /** `str.split('/')`. */
  function SplitOnSlash(s: string): (r: seq<string>)
    ensures |r| >= 1
    ensures forall i :: 0 <= i < |r| ==> NoSlash(r[i])
  {
    if s == [] then [[]]
    else
      var rest := SplitOnSlash(s[1..]);
      if s[0] == '/' then [[]] + rest else [[s[0]] + rest[0]] + rest[1..]
  }

  /** `[e for e in elts if len(e) > 0]`. */
  function NonEmpty(elts: seq<string>): (r: seq<string>)
    ensures forall i :: 0 <= i < |r| ==> r[i] != []
    ensures forall i :: 0 <= i < |r| ==> r[i] in elts
  {
    if elts == [] then []
    else if elts[0] == [] then NonEmpty(elts[1..])
    else [elts[0]] + NonEmpty(elts[1..])
  }

  lemma NonEmptyCons(x: string, xs: seq<string>)
    ensures NonEmpty([x] + xs) == (if x == [] then [] else [x]) + NonEmpty(xs)
  {
    assert ([x] + xs)[1..] == xs;
  }

  /** `'/'.join(elts)`. */
  function JoinWith(elts: seq<string>): string {
    if elts == [] then ""
    else if |elts| == 1 then elts[0]
    else elts[0] + "/" + JoinWith(elts[1..])
  }

  /** `get_normalized_path`. */
  function NormalizedPath(path: string): string {
    if |path| == 0 || path == "/" then "/"
    else "/" + JoinWith(NonEmpty(SplitOnSlash(path)))
  }

  lemma {:induction false} SplitOnSlashNoSlash(a: string)
    requires NoSlash(a)
    ensures SplitOnSlash(a) == [a]
    decreases |a|
  {
    if a != [] {
      SplitOnSlashNoSlash(a[1..]);
      assert [a[0]] + a[1..] == a;
    }
  }

  lemma {:induction false} SplitOnSlashConcat(a: string, b: string)
    requires NoSlash(a)
    ensures SplitOnSlash(a + "/" + b) == [a] + SplitOnSlash(b)
    decreases |a|
  {
    var s := a + "/" + b;
    if a == [] {
      assert s[1..] == b;
    } else {
      assert s[1..] == a[1..] + "/" + b;
      SplitOnSlashConcat(a[1..], b);
      assert [a[0]] + a[1..] == a;
    }
  }

  lemma {:induction false} SplitJoinWith(segs: seq<string>)
    requires segs != []
    requires forall i :: 0 <= i < |segs| ==> NoSlash(segs[i])
    ensures SplitOnSlash(JoinWith(segs)) == segs
    decreases |segs|
  {
    if |segs| == 1 {
      SplitOnSlashNoSlash(segs[0]);
    } else {
      SplitOnSlashConcat(segs[0], JoinWith(segs[1..]));
      SplitJoinWith(segs[1..]);
      assert [segs[0]] + segs[1..] == segs;
    }
  }

  lemma {:induction false} NonEmptyKeeps(elts: seq<string>)
    requires forall i :: 0 <= i < |elts| ==> elts[i] != []
    ensures NonEmpty(elts) == elts
    decreases |elts|
  {
    if elts != [] {
      NonEmptyKeeps(elts[1..]);
      assert [elts[0]] + elts[1..] == elts;
    }
  }

  /**
   * get_normalized_path always yields "/" followed by the non-empty segments of
   * the input joined by single slashes; splitting the result on '/' gives back
   * a leading empty string and exactly those segments, so it has no empty segment.
   */
  lemma NormalizedShape(path: string)
    ensures var r := NormalizedPath(path);
      && r[0] == '/'
      && (path == [] || path == "/" ==> r == "/")
      && (r == "/" || SplitOnSlash(r) == [""] + NonEmpty(SplitOnSlash(path)))
      && (r != "/" ==> forall k :: 1 <= k < |SplitOnSlash(r)| ==> SplitOnSlash(r)[k] != "")
  {
    var r := NormalizedPath(path);
    if !(|path| == 0 || path == "/") {
      var segs := NonEmpty(SplitOnSlash(path));
      var j := JoinWith(segs);
      assert r == "/" + j;
      assert r[1..] == j;
      if segs != [] {
        SplitJoinWith(segs);
      } else {
        assert r == "/";
      }
    }
  }

  /** get_normalized_path is idempotent. */
  lemma NormalizedIdempotent(path: string)
    ensures NormalizedPath(NormalizedPath(path)) == NormalizedPath(path)
  {
    var r := NormalizedPath(path);
    if r != "/" {
      NormalizedShape(path);
      var segs := NonEmpty(SplitOnSlash(path));
      assert segs != [] by {
        assert r == "/" + JoinWith(segs);
      }
      NonEmptyKeeps(segs);
      assert NonEmpty([""] + segs) == segs;
    }
  }

  /** Normalisation does not see whether the relative form dropped the leading slash. */
  lemma NormalizedIgnoresRelPath(path: string)
    ensures NormalizedPath(RelPath(path)) == NormalizedPath(path)
  {
    if |path| > 0 && path[0] == '/' {
      var q := path[1..];
      assert SplitOnSlash(path) == [[]] + SplitOnSlash(q);
      assert NonEmpty(SplitOnSlash(path)) == NonEmpty(SplitOnSlash(q));
      if q == "/" {
        var e: string := [];
        assert SplitOnSlash(q) == [e] + [e];
        NonEmptyCons(e, [e]);
        NonEmptyCons(e, []);
        assert [e] + [] == [e];
      }
    }
  }

  /** `get_root_path` for the provider root `root` (already stripped of one slash by the constructor). */
  function RootPath(root: string): string {
    JoinTokens(NonEmpty(["/", RelPath(root)]))
  }

  /** `get_full_path`. */
  function FullPath(root: string, path: string): string {
    JoinTokens(NonEmpty(["/", RelPath(root), RelPath(path)]))
  }

  /** Filtering the empty parts out of the root path's pieces. */
  lemma NonEmptyPair(a: string)
    ensures NonEmpty(["/", a]) == if a == [] then ["/"] else ["/", a]
  {
    NonEmptyCons("/", [a]);
    NonEmptyCons(a, []);
    assert ["/", a] == ["/"] + [a] && [a] == [a] + [];
  }

  lemma NonEmptyTriple(a: string, b: string)
    ensures NonEmpty(["/", a, b]) == NonEmpty(["/", a]) + (if b == [] then [] else [b])
  {
    assert ["/", a, b] == ["/"] + [a, b] && [a, b] == [a] + [b] && [b] == [b] + [];
    NonEmptyCons("/", [a, b]);
    NonEmptyCons(a, [b]);
    NonEmptyCons(b, []);
    NonEmptyPair(a);
    var tail := if b == [] then [] else [b];
    assert NonEmpty([b]) == tail;
    if a == [] {
      assert NonEmpty(["/", a, b]) == ["/"] + tail;
    } else {
      assert NonEmpty(["/", a, b]) == ["/"] + ([a] + tail);
      AppendAssoc(["/"], [a], tail);
      assert ["/"] + [a] == ["/", a];
    }
  }

  lemma JoinTokensSnoc(ts: seq<string>, t: string)
    ensures JoinTokens(ts + [t]) == Join(JoinTokens(ts), t)
  {
    assert (ts + [t])[..|ts|] == ts;
  }

  lemma RootPathSlash(root: string)
    ensures RootPath(root)[0] == '/'
  {
    var a := RelPath(root);
    NonEmptyPair(a);
    JoinTokensSnoc([], "/");
    assert [] + ["/"] == ["/"];
    if a != [] {
      JoinTokensSnoc(["/"], a);
      assert ["/"] + [a] == ["/", a];
    }
  }

  /**
   * get_full_path("") is get_root_path(); both start with '/'; and a non-empty
   * relative part is joined onto the root path with os.path.join (so one that
   * itself starts with '/' replaces it).
   */
  lemma FullPathShape(root: string, path: string)
    ensures FullPath(root, "") == RootPath(root)
    ensures RootPath(root)[0] == '/' && FullPath(root, path)[0] == '/'
    ensures RelPath(path) != [] ==> FullPath(root, path) == Join(RootPath(root), RelPath(path))
  {
    var a, b := RelPath(root), RelPath(path);
    NonEmptyTriple(a, "");
    assert NonEmpty(["/", a]) + [] == NonEmpty(["/", a]);
    NonEmptyTriple(a, b);
    RootPathSlash(root);
    if b != [] {
      JoinTokensSnoc(NonEmpty(["/", a]), b);
    }
  }
}
