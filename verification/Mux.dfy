/**
 The request multiplexer the HTTP server registers its routes on. What a pattern matches is a
 parameter; precedence, conflicts and the redirect to a subtree follow from it as net/http documents.
 */
module Mux {
  import opened Wrappers
  import opened Text

  datatype Request = Request(verb: string, path: string)

  /** A method, or none for all methods, and the rest. */
  datatype Pattern = Pattern(verb: string, rest: string)

  /** valid and conflicts decide registration; exact tells a match of the whole path from one of a prefix. */
  datatype Mux = Mux(
    valid: Pattern -> bool,
    matches: (Pattern, Request) -> bool,
    conflicts: (Pattern, Pattern) -> bool,
    exact: (Pattern, string) -> bool)

  // ---- reading a pattern ----

  predicate IsBlank(c: char) { c == ' ' || c == '\t' }

  /** What precedes the first blank is the method. */
  function ParsePattern(s: string): Pattern {
    match FirstBlank(s)
    case None => Pattern("", s)
    case Some(i) => Pattern(s[..i], TrimLeft(s[i + 1..], IsBlank))
  }

  function FirstBlank(s: string): (i: Option<nat>)
    ensures i.Some? ==> i.value < |s|
  {
    if s == [] then None
    else if IsBlank(s[0]) then Some(0)
    else match FirstBlank(s[1..])
      case None => None
      case Some(i) => Some(i + 1)
  }

  /** The pattern of a subtree, prefix + "/". */
  function Subtree(prefix: string): Pattern {
    Pattern("", prefix + "/")
  }

  // ---- precedence ----

  /** p matches a strict subset of what q matches. */
  ghost predicate MoreSpecific(matches: (Pattern, Request) -> bool, p: Pattern, q: Pattern) {
    && (forall r: Request :: matches(p, r) ==> matches(q, r))
    && exists r: Request :: matches(q, r) && !matches(p, r)
  }

  /** p and q overlap and neither is more specific. */
  ghost predicate Conflicting(matches: (Pattern, Request) -> bool, p: Pattern, q: Pattern) {
    && (exists r: Request :: matches(p, r) && matches(q, r))
    && !MoreSpecific(matches, p, q) && !MoreSpecific(matches, q, p)
  }

  /** What net/http promises of any set of patterns. */
  ghost predicate ObeysPrecedence(mux: Mux) {
    && (forall p, q :: mux.conflicts(p, q) <==> Conflicting(mux.matches, p, q))
    && (forall p :: mux.valid(p) ==> exists r: Request :: mux.matches(p, r))
    && (forall p, q, r: Request :: MoreSpecific(mux.matches, p, q) && mux.matches(p, r) && mux.exact(q, r.path) ==>
          mux.exact(p, r.path))
  }

  /** A prefix the mux reads literally. */
  predicate Literal(prefix: string) {
    '{' !in prefix && (prefix == "" || prefix[0] == '/')
  }

  /** Subtree patterns match the paths below them, whatever the method. */
  ghost predicate ReadsSubtrees(mux: Mux) {
    && (forall prefix, r: Request :: Literal(prefix) ==> (mux.matches(Subtree(prefix), r) <==> prefix + "/" <= r.path))
    && (forall prefix, path :: Literal(prefix) ==> (mux.exact(Subtree(prefix), path) <==> path == prefix + "/"))
  }

  lemma SpecificAsymmetric(mux: Mux, p: Pattern, q: Pattern)
    requires MoreSpecific(mux.matches, p, q)
    ensures !MoreSpecific(mux.matches, q, p)
  {
  }

  lemma SpecificTransitive(mux: Mux, p: Pattern, q: Pattern, s: Pattern)
    requires MoreSpecific(mux.matches, p, q) && MoreSpecific(mux.matches, q, s)
    ensures MoreSpecific(mux.matches, p, s)
  {
    var r: Request :| mux.matches(s, r) && !mux.matches(q, r);
    assert !mux.matches(p, r);
  }

  /** A subtree below another is more specific. */
  lemma SubtreeBelow(mux: Mux, p: string, q: string)
    requires ReadsSubtrees(mux) && Literal(p) && Literal(q) && q + "/" <= p
    ensures MoreSpecific(mux.matches, Subtree(p), Subtree(q))
  {
    forall r: Request | mux.matches(Subtree(p), r)
      ensures mux.matches(Subtree(q), r)
    {
      assert p + "/" <= r.path;
      assert q + "/" == p[..|q| + 1] == r.path[..|q| + 1];
    }
    var r := Request("", q + "/");
    assert |p + "/"| > |r.path|;
    assert mux.matches(Subtree(q), r) && !mux.matches(Subtree(p), r);
  }

  // ---- registration ----

  /** All patterns are on the mux. */
  ghost predicate Registered(mux: Mux, patterns: seq<Pattern>) {
    && (forall i :: 0 <= i < |patterns| ==> mux.valid(patterns[i]))
    && (forall i, j :: 0 <= i < j < |patterns| ==> !mux.conflicts(patterns[i], patterns[j]))
  }

  /** Handle, the panic of the mux turned into an error. */
  method SafeHandle(mux: Mux, before: seq<Pattern>, p: Pattern) returns (ok: bool)
    ensures ok <==> mux.valid(p) && forall j :: 0 <= j < |before| ==> !mux.conflicts(before[j], p)
  {
    if !mux.valid(p) {
      return false;
    }
    for j := 0 to |before|
      invariant forall k :: 0 <= k < j ==> !mux.conflicts(before[k], p)
    {
      if mux.conflicts(before[j], p) {
        return false;
      }
    }
    return true;
  }

  /** One pattern after the other, up to the first error. */
  method RegisterAll(mux: Mux, patterns: seq<Pattern>) returns (ok: bool)
    ensures ok <==> Registered(mux, patterns)
  {
    for i := 0 to |patterns|
      invariant Registered(mux, patterns[..i])
    {
      var fits := SafeHandle(mux, patterns[..i], patterns[i]);
      if !fits {
        return false;
      }
      TakeNext(patterns, i);
    }
    assert patterns[..|patterns|] == patterns;
    return true;
  }

  /** Registered patterns that meet in a request are comparable. */
  lemma Comparable(mux: Mux, patterns: seq<Pattern>, m: nat, n: nat, r: Request)
    requires ObeysPrecedence(mux) && Registered(mux, patterns)
    requires m < |patterns| && n < |patterns| && m != n
    requires mux.matches(patterns[m], r) && mux.matches(patterns[n], r)
    ensures MoreSpecific(mux.matches, patterns[m], patterns[n]) || MoreSpecific(mux.matches, patterns[n], patterns[m])
  {
    assert !mux.conflicts(patterns[if m < n then m else n], patterns[if m < n then n else m]);
  }

  /** A pattern cannot be registered twice. */
  lemma RegisteredOnce(mux: Mux, patterns: seq<Pattern>, m: nat, n: nat)
    requires ObeysPrecedence(mux) && Registered(mux, patterns) && m < n < |patterns|
    ensures patterns[m] != patterns[n]
  {
    PatternMeetsItself(mux, patterns[m]);
    assert !mux.conflicts(patterns[m], patterns[n]);
  }

  lemma PatternMeetsItself(mux: Mux, p: Pattern)
    requires ObeysPrecedence(mux) && mux.valid(p)
    ensures mux.conflicts(p, p)
  {
    var r: Request :| mux.matches(p, r);
    assert Conflicting(mux.matches, p, p);
  }

  // ---- dispatch ----

  /** Pattern n takes r: it matches, and is more specific than every other that does. */
  ghost predicate Chosen(mux: Mux, patterns: seq<Pattern>, r: Request, n: nat) {
    && n < |patterns| && mux.matches(patterns[n], r)
    && forall m :: 0 <= m < |patterns| && m != n && mux.matches(patterns[m], r) ==>
         MoreSpecific(mux.matches, patterns[n], patterns[m])
  }

  predicate EndsInSlash(path: string) {
    path != "" && path[|path| - 1] == '/'
  }

  function WithSlash(r: Request): Request {
    r.(path := r.path + "/")
  }

  /** r is taken by a pattern for exactly its path. */
  ghost predicate ExactlyTaken(mux: Mux, patterns: seq<Pattern>, r: Request) {
    exists n: nat :: Chosen(mux, patterns, r, n) && mux.exact(patterns[n], r.path)
  }

  /** The mux redirects a path no pattern is for to the path with a slash, when a pattern is for that. */
  ghost predicate Redirects(mux: Mux, patterns: seq<Pattern>, r: Request) {
    !EndsInSlash(r.path) && !ExactlyTaken(mux, patterns, r) && ExactlyTaken(mux, patterns, WithSlash(r))
  }

  /** The handler of pattern n gets r. */
  ghost predicate Serves(mux: Mux, patterns: seq<Pattern>, r: Request, n: nat) {
    Chosen(mux, patterns, r, n) && !Redirects(mux, patterns, r)
  }

  lemma ChosenUnique(mux: Mux, patterns: seq<Pattern>, r: Request, m: nat, n: nat)
    requires Chosen(mux, patterns, r, m) && Chosen(mux, patterns, r, n)
    ensures m == n
  {
    if m != n { SpecificAsymmetric(mux, patterns[m], patterns[n]); }
  }

  /** Registered patterns leave exactly one handler for every request that some pattern matches. */
  lemma {:induction false} SomeChosen(mux: Mux, patterns: seq<Pattern>, r: Request, k: nat) returns (n: nat)
    requires ObeysPrecedence(mux) && Registered(mux, patterns)
    requires k < |patterns| && mux.matches(patterns[k], r)
    ensures Chosen(mux, patterns, r, n)
    decreases |patterns|
  {
    var last := |patterns| - 1;
    var init := patterns[..last];
    assert forall m :: 0 <= m < last ==> init[m] == patterns[m];
    if exists j :: 0 <= j < last && mux.matches(init[j], r) {
      var j :| 0 <= j < last && mux.matches(init[j], r);
      assert Registered(mux, init);
      var best := SomeChosen(mux, init, r, j);
      n := BetterOf(mux, patterns, r, best);
    } else {
      n := last;
    }
  }

  lemma BetterOf(mux: Mux, patterns: seq<Pattern>, r: Request, best: nat) returns (n: nat)
    requires ObeysPrecedence(mux) && Registered(mux, patterns) && patterns != []
    requires Chosen(mux, patterns[..|patterns| - 1], r, best)
    ensures Chosen(mux, patterns, r, n)
  {
    var last := |patterns| - 1;
    var init := patterns[..last];
    assert forall m :: 0 <= m < last ==> patterns[m] == init[m];
    n := best;
    if mux.matches(patterns[last], r) {
      Comparable(mux, patterns, best, last, r);
      if MoreSpecific(mux.matches, patterns[last], patterns[best]) {
        n := last;
        forall m | 0 <= m < last && m != best && mux.matches(patterns[m], r)
          ensures MoreSpecific(mux.matches, patterns[last], patterns[m])
        {
          SpecificTransitive(mux, patterns[last], patterns[best], patterns[m]);
        }
      }
    }
  }
}
