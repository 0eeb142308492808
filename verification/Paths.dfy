/**
 URL paths: NormalizePath (surface/surface.go), joinPaths (server/server.go) and
 stripPrefix (guard/documents.go). The reference view of a path is its list of
 non-empty segments.
 */
module Paths {
  import opened Text

  // ---- segments ----

  function DropEmpty(parts: seq<string>): seq<string> {
    if parts == [] then []
    else (if parts[0] == "" then [] else [parts[0]]) + DropEmpty(parts[1..])
  }

  /** The non-empty components of a path. */
  function Segments(path: string): seq<string> {
    DropEmpty(Split(path, '/'))
  }

  /** The path made of the given segments. */
  function Render(segs: seq<string>): string {
    if segs == [] then "/" else "/" + Join(segs, "/")
  }

  ghost predicate AreSegments(segs: seq<string>) {
    forall i :: 0 <= i < |segs| ==> segs[i] != "" && '/' !in segs[i]
  }

  lemma {:induction false} DropEmptyAppend(a: seq<string>, b: seq<string>)
    ensures DropEmpty(a + b) == DropEmpty(a) + DropEmpty(b)
  {
    if a == [] {
      assert a + b == b;
    } else {
      DropEmptyAppend(a[1..], b);
      assert (a + b)[1..] == a[1..] + b && (a + b)[0] == a[0];
      var head, x, y := if a[0] == "" then [] else [a[0]], DropEmpty(a[1..]), DropEmpty(b);
      assert head + (x + y) == (head + x) + y;
    }
  }

  lemma {:induction false} DropEmptyAreSegments(parts: seq<string>)
    requires forall i :: 0 <= i < |parts| ==> '/' !in parts[i]
    ensures AreSegments(DropEmpty(parts))
  {
    if parts != [] { DropEmptyAreSegments(parts[1..]); }
  }

  lemma SegmentsAreSegments(path: string)
    ensures AreSegments(Segments(path))
  {
    DropEmptyAreSegments(Split(path, '/'));
  }

  /** A slash between two paths separates their segments. */
  lemma SegmentsJoin(a: string, b: string)
    ensures Segments(a + "/" + b) == Segments(a) + Segments(b)
  {
    SplitAppend(a, '/', b);
    DropEmptyAppend(Split(a, '/'), Split(b, '/'));
  }

  lemma SegmentsOfSlash(a: string)
    ensures Segments("/" + a) == Segments(a)
    ensures Segments(a + "/") == Segments(a)
  {
    SegmentsJoin("", a);
    assert "" + "/" + a == "/" + a;
    SegmentsJoin(a, "");
    assert a + "/" + "" == a + "/";
  }

  lemma {:induction false} DropEmptyOfSegments(segs: seq<string>)
    requires AreSegments(segs)
    ensures DropEmpty(segs) == segs
  {
    if segs != [] { DropEmptyOfSegments(segs[1..]); }
  }

  lemma SegmentsOfRender(segs: seq<string>)
    requires AreSegments(segs)
    ensures Segments(Render(segs)) == segs
  {
    if segs == [] {
      assert Split("/", '/') == ["", ""];
    } else {
      SplitJoin(segs, '/');
      DropEmptyOfSegments(segs);
      SegmentsOfSlash(Join(segs, "/"));
    }
  }

  /** In canonical form: what NormalizePath returns. */
  predicate Canonical(path: string) {
    path == Render(Segments(path))
  }

  // ---- NormalizePath ----

  predicate HasDoubleSlash(s: string) {
    exists i :: 0 <= i < |s| - 1 && s[i] == '/' && s[i + 1] == '/'
  }

  /** strings.ReplaceAll(s, "//", "/"): one pass, left to right, without overlap. */
  function HalveSlashes(s: string): (r: string)
    ensures |r| <= |s|
  {
    if s == [] then []
    else if |s| >= 2 && s[0] == '/' && s[1] == '/' then ['/'] + HalveSlashes(s[2..])
    else [s[0]] + HalveSlashes(s[1..])
  }

  lemma {:induction false} HalvingShrinks(s: string)
    requires HasDoubleSlash(s)
    ensures |HalveSlashes(s)| < |s|
  {
    if !(s[0] == '/' && s[1] == '/') {
      var i :| 0 <= i < |s| - 1 && s[i] == '/' && s[i + 1] == '/';
      assert s[1..][i - 1] == '/' && s[1..][i - 1 + 1] == '/';
      HalvingShrinks(s[1..]);
    }
  }

  lemma TwoSlashes(rest: string)
    ensures "//" + rest == "/" + ("/" + rest)
  {
  }

  lemma OneSlashIsEnough(p: string, rest: string)
    ensures Segments(p + ("//" + rest)) == Segments(p + "/" + rest)
  {
    SegmentsJoin(p, "/" + rest);
    SegmentsJoin(p, rest);
    SegmentsOfSlash(rest);
    TwoSlashes(rest);
    Assoc(p, "/", "/" + rest);
  }

  /** Segments of s when the text p stands directly before it. */
  lemma {:induction false} HalvingKeepsSegments(p: string, s: string)
    ensures Segments(p + HalveSlashes(s)) == Segments(p + s)
    decreases |s|
  {
    if |s| >= 2 && s[0] == '/' && s[1] == '/' {
      HalvingKeepsSegments(p + "/", s[2..]);
      OneSlashIsEnough(p, s[2..]);
      HalvePair(p, s);
    } else if s != [] {
      HalvingKeepsSegments(p + [s[0]], s[1..]);
      HalveOne(p, s);
    }
  }

  lemma HalvePair(p: string, s: string)
    requires |s| >= 2 && s[0] == '/' && s[1] == '/'
    ensures p + HalveSlashes(s) == p + "/" + HalveSlashes(s[2..])
    ensures p + s == p + ("//" + s[2..])
  {
    var h := HalveSlashes(s[2..]);
    assert HalveSlashes(s) == ['/'] + h;
    Assoc(p, ['/'], h);
    TwoSlashesFirst(s);
  }

  lemma TwoSlashesFirst(s: string)
    requires |s| >= 2 && s[0] == '/' && s[1] == '/'
    ensures s == "//" + s[2..]
  {
  }

  lemma HalveOne(p: string, s: string)
    requires s != [] && !(|s| >= 2 && s[0] == '/' && s[1] == '/')
    ensures p + HalveSlashes(s) == p + [s[0]] + HalveSlashes(s[1..])
    ensures p + s == p + [s[0]] + s[1..]
  {
    var h := HalveSlashes(s[1..]);
    assert HalveSlashes(s) == [s[0]] + h;
    Assoc(p, [s[0]], h);
    Assoc(p, [s[0]], s[1..]);
    assert s == [s[0]] + s[1..];
  }

  function TrimSlashes(s: string): string {
    TrimRight(s, c => c == '/')
  }

  lemma {:induction false} TrimKeepsSegments(s: string)
    ensures Segments(TrimSlashes(s)) == Segments(s)
    ensures TrimSlashes(s) == "" || TrimSlashes(s)[|TrimSlashes(s)| - 1] != '/'
    ensures TrimSlashes(s) <= s
    decreases |s|
  {
    if s != [] && s[|s| - 1] == '/' {
      var t := s[..|s| - 1];
      TrimKeepsSegments(t);
      SegmentsOfSlash(t);
      assert s == t + "/";
    }
  }

  lemma {:induction false} CleanPathIsJoin(s: string)
    requires s != "" && s[0] != '/' && s[|s| - 1] != '/' && !HasDoubleSlash(s)
    ensures DropEmpty(Split(s, '/')) == Split(s, '/') && Split(s, '/') != []
  {
    var parts := Split(s, '/');
    CleanParts(s);
    DropEmptyOfSegments(parts);
  }

  /** Without leading, trailing or double slashes every component is non-empty. */
  lemma {:induction false} CleanParts(s: string)
    requires s != "" && s[0] != '/' && s[|s| - 1] != '/' && !HasDoubleSlash(s)
    ensures forall i :: 0 <= i < |Split(s, '/')| ==> Split(s, '/')[i] != ""
    decreases |s|
  {
    var rest := s[1..];
    if rest == "" {
      SplitWithout(s, '/');
    } else if rest[0] == '/' {
      assert |s| > 2;
      var tail := rest[1..];
      TailHasNoDouble(s, 2);
      assert s[2..] == tail && tail[0] == s[2] && tail[|tail| - 1] == s[|s| - 1];
      assert !(s[1] == '/' && s[1 + 1] == '/');
      CleanParts(tail);
      assert Split(rest, '/') == [""] + Split(tail, '/');
      assert Split(s, '/') == [[s[0]] + ""] + Split(tail, '/');
    } else {
      TailHasNoDouble(s, 1);
      CleanParts(rest);
    }
  }

  lemma TailHasNoDouble(s: string, n: nat)
    requires n <= |s| && !HasDoubleSlash(s)
    ensures !HasDoubleSlash(s[n..])
  {
  }

  /** A rooted path without double or trailing slashes is the rendering of its segments. */
  lemma CleanRootedIsCanonical(s: string)
    requires s != "" && s[0] == '/' && !HasDoubleSlash(s)
    requires s == "/" || s[|s| - 1] != '/'
    ensures Canonical(s)
  {
    var t := s[1..];
    assert s == "/" + t;
    SegmentsOfSlash(t);
    if t != "" {
      TailHasNoDouble(s, 1);
      assert !(s[0] == '/' && s[0 + 1] == '/');
      CleanPathIsJoin(t);
      JoinSplit(t, '/');
    }
  }

  /** The canonical path with the same segments. */
  method NormalizePath(path: string) returns (r: string)
    ensures r == Render(Segments(path))
  {
    if path == "" {
      return "/";
    }
    r := path;
    if r[0] != '/' {
      SegmentsOfSlash(path);
      r := "/" + r;
    }
    while HasDoubleSlash(r)
      invariant r != "" && r[0] == '/' && Segments(r) == Segments(path)
      decreases |r|
    {
      HalvingShrinks(r);
      HalvingKeepsSegments("", r);
      assert "" + r == r && "" + HalveSlashes(r) == HalveSlashes(r);
      r := HalveSlashes(r);
    }
    if |r| > 1 {
      TrimKeepsSegments(r);
      var trimmed := TrimSlashes(r);
      PrefixHasNoDouble(trimmed, r);
      r := trimmed;
      if r == "" {
        return "/";
      }
    }
    CleanRootedIsCanonical(r);
  }

  lemma PrefixHasNoDouble(p: string, s: string)
    requires p <= s && !HasDoubleSlash(s)
    ensures !HasDoubleSlash(p)
  {
  }

  function Normalized(path: string): string {
    Render(Segments(path))
  }

  lemma NormalizeIsIdempotent(path: string)
    ensures Normalized(Normalized(path)) == Normalized(path) && Canonical(Normalized(path))
  {
    SegmentsAreSegments(path);
    SegmentsOfRender(Segments(path));
  }

  /** A canonical path is rooted, has no double slash, and no trailing one except the root itself. */
  lemma CanonicalShape(path: string)
    requires Canonical(path)
    ensures path != "" && path[0] == '/' && (path == "/" || path[|path| - 1] != '/')
  {
    var segs := Segments(path);
    SegmentsAreSegments(path);
    if segs != [] { JoinEnds(segs); }
  }

  lemma {:induction false} JoinEnds(segs: seq<string>)
    requires AreSegments(segs) && segs != []
    ensures Join(segs, "/") != "" && Join(segs, "/")[|Join(segs, "/")| - 1] != '/'
  {
    if |segs| > 1 {
      JoinEnds(segs[1..]);
    }
  }

  // ---- joinPaths ----

  function AllSegments(parts: seq<string>): seq<string> {
    if parts == [] then [] else AllSegments(parts[..|parts| - 1]) + Segments(parts[|parts| - 1])
  }

  /** Joining concatenates segments. */
  method JoinPaths(parts: seq<string>) returns (r: string)
    ensures r == Render(AllSegments(parts))
  {
    var b := "";
    for i := 0 to |parts|
      invariant Segments(b) == AllSegments(parts[..i])
    {
      var p := parts[i];
      TakeNext(parts, i);
      AllSegmentsSnoc(parts[..i], p);
      if p == "" {
        continue;
      }
      if p[0] != '/' {
        SegmentsOfSlash(p);
        p := "/" + p;
      }
      AppendRooted(b, p);
      b := b + TrimSlashes(p);
    }
    assert parts[..|parts|] == parts;
    r := NormalizePath(b);
  }

  lemma AppendRooted(b: string, p: string)
    requires p != "" && p[0] == '/'
    ensures Segments(b + TrimSlashes(p)) == Segments(b) + Segments(p)
  {
    TrimKeepsSegments(p);
    var t := TrimSlashes(p);
    if t == "" {
      assert b + t == b;
    } else {
      assert t == "/" + t[1..];
      SegmentsJoin(b, t[1..]);
      SegmentsOfSlash(t[1..]);
      assert b + t == b + "/" + t[1..];
    }
  }

  function Joined(prefix: string, path: string): string {
    Render(Segments(prefix) + Segments(path))
  }

  /** Joining a path that has no segments. */
  lemma JoinedRoot(prefix: string)
    requires Canonical(prefix)
    ensures Joined(prefix, "/") == prefix
  {
    RootSegments();
    assert Segments(prefix) + [] == Segments(prefix);
  }

  lemma RootSegments()
    ensures Segments("/") == []
  {
    assert Split("/", '/') == ["", ""];
  }

  lemma AllSegmentsSnoc(parts: seq<string>, p: string)
    ensures AllSegments(parts + [p]) == AllSegments(parts) + Segments(p)
  {
    assert (parts + [p])[..|parts|] == parts;
  }

  /** joinPaths of a prefix and a path. */
  lemma JoinPathsOfTwo(prefix: string, path: string)
    ensures Render(AllSegments([prefix, path])) == Joined(prefix, path)
  {
    AllSegmentsSnoc([], prefix);
    AllSegmentsSnoc([prefix], path);
    assert [] + [prefix] == [prefix] && [prefix] + [path] == [prefix, path];
    assert [] + Segments(prefix) == Segments(prefix);
  }

  // ---- stripPrefix ----

  /** The rest of a canonical path below a canonical prefix. */
  lemma RenderAppend(a: seq<string>, b: seq<string>)
    requires AreSegments(a) && AreSegments(b) && a != []
    ensures Render(a + b) == Render(a) + if b == [] then "" else Render(b)
  {
    if b == [] {
      assert a + b == a;
    } else {
      JoinAppend(a, b);
      assert a + b != [] && Render(a + b) == "/" + (Join(a, "/") + "/" + Join(b, "/"));
      Assoc(Join(a, "/"), "/", Join(b, "/"));
      Assoc("/", Join(a, "/"), "/" + Join(b, "/"));
    }
  }

  lemma {:induction false} JoinAppend(a: seq<string>, b: seq<string>)
    requires a != [] && b != []
    ensures Join(a + b, "/") == Join(a, "/") + "/" + Join(b, "/")
  {
    if |a| == 1 {
      assert (a + b)[1..] == b;
    } else {
      JoinAppend(a[1..], b);
      assert (a + b)[1..] == a[1..] + b;
    }
  }

  /** A path lies below a prefix exactly when the prefix's segments start it. */
  lemma BelowIsSegmentPrefix(prefix: seq<string>, path: seq<string>)
    requires AreSegments(prefix) && AreSegments(path) && prefix != []
    ensures Render(prefix) + "/" <= Render(path) <==> prefix <= path && prefix != path
  {
    var p, s := Render(prefix), Render(path);
    if p + "/" <= s {
      var rest := s[|p| + 1..];
      assert s == p + "/" + rest;
      SegmentsJoin(p, rest);
      SegmentsOfRender(prefix);
      SegmentsOfRender(path);
    }
    if prefix <= path && prefix != path {
      var rest := path[|prefix|..];
      assert path == prefix + rest;
      assert AreSegments(rest);
      RenderAppend(prefix, rest);
      assert Render(rest)[0] == '/';
    }
  }

  /** Removes the prefix's segments where the path has them; other paths stay (but normalised). */
  method StripPrefix(path: string, prefix: string) returns (r: string)
    ensures prefix == "" ==> r == path
    ensures prefix != "" && Segments(prefix) <= Segments(path) ==> r == Render(Segments(path)[|Segments(prefix)|..])
    ensures prefix != "" && !(Segments(prefix) <= Segments(path)) ==> r == Normalized(path)
  {
    if prefix == "" {
      return path;
    }
    var pre := NormalizePath(prefix);
    var p := NormalizePath(path);
    var a, b := Segments(prefix), Segments(path);
    SegmentsAreSegments(prefix);
    SegmentsAreSegments(path);
    SegmentsOfRender(a);
    SegmentsOfRender(b);
    if p == pre {
      assert b[|a|..] == [];
      return "/";
    }
    if a == [] {
      assert b[|a|..] == b;
      RootIsNotDoubled(b);
    } else {
      BelowIsSegmentPrefix(a, b);
    }
    if pre + "/" <= p {
      assert b == a + b[|a|..];
      assert AreSegments(b[|a|..]);
      RenderAppend(a, b[|a|..]);
      return p[|pre|..];
    }
    return p;
  }

  lemma RootIsNotDoubled(segs: seq<string>)
    requires AreSegments(segs)
    ensures !("/" + "/" <= Render(segs))
  {
    if segs != [] {
      assert Render(segs)[1] == segs[0][0];
    }
  }

  /** What stripPrefix returns. */
  function Stripped(path: string, prefix: string): string {
    if prefix == "" then path
    else if Segments(prefix) <= Segments(path) then Render(Segments(path)[|Segments(prefix)|..])
    else Normalized(path)
  }

  /** stripPrefix undoes joinPaths, for every prefix and every canonical path. */
  lemma StripUndoesJoin(prefix: string, path: string)
    requires Canonical(path)
    ensures Stripped(Joined(prefix, path), prefix) == path
  {
    var a, b := Segments(prefix), Segments(path);
    SegmentsAreSegments(prefix);
    SegmentsAreSegments(path);
    SegmentsOfRender(a + b);
    assert (a + b)[|a|..] == b;
    if prefix == "" {
      assert Split("", '/') == [""];
      assert a == [] && a + b == b;
    }
  }

  lemma RenderedTail(segs: seq<string>, n: nat)
    requires AreSegments(segs) && n <= |segs|
    ensures Segments(Render(segs[n..])) == segs[n..] && Canonical(Render(segs[n..]))
  {
    SegmentsOfRender(segs[n..]);
  }

  lemma EmptyHasNoSegments()
    ensures Segments("") == []
  {
    assert Split("", '/') == [""];
  }

  /** Stripping leaves the components after those of the prefix, or all of them where the path does not start with those. */
  lemma StrippedExactly(path: string, prefix: string)
    ensures var a, b, left := Segments(prefix), Segments(path), Segments(Stripped(path, prefix));
            left == if a <= b then b[|a|..] else b
    ensures prefix != "" ==> Canonical(Stripped(path, prefix))
  {
    var a, b := Segments(prefix), Segments(path);
    SegmentsAreSegments(path);
    if prefix == "" {
      EmptyHasNoSegments();
      assert b[0..] == b;
    } else {
      RenderedTail(b, if a <= b then |a| else 0);
      assert b[0..] == b;
    }
  }
}
