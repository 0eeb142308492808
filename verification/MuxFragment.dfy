/**
 A mux for the patterns of net/http without wildcards inside a path: whole paths, subtrees ("/v1/"),
 and subtrees with a named rest ("/v1/{rest...}"). It meets all that is asked of a mux.
 */
module MuxFragment {
  import opened Mux

  const NAMED_REST := "{rest...}"

  predicate HasNamedRest(rest: string) {
    |rest| >= 9 && rest[|rest| - 9..] == NAMED_REST
  }

  /** The text that a matching path has, or starts with. */
  function Stem(rest: string): string {
    if HasNamedRest(rest) then rest[..|rest| - 9] else rest
  }

  /** Matches paths that go on after the stem. */
  predicate IsSubtree(rest: string) {
    HasNamedRest(rest) || EndsInSlash(rest)
  }

  predicate VerbFits(p: Pattern, verb: string) {
    p.verb == "" || p.verb == verb
  }

  predicate Fits(p: Pattern, r: Request) {
    VerbFits(p, r.verb) && if IsSubtree(p.rest) then Stem(p.rest) <= r.path else Stem(p.rest) == r.path
  }

  function StemRequest(p: Pattern, verb: string): Request {
    Request(verb, Stem(p.rest))
  }

  ghost function FragmentMux(): Mux {
    Mux((p: Pattern) => p.rest != "",
        Fits,
        (p: Pattern, q: Pattern) => Conflicting(Fits, p, q),
        (p: Pattern, path: string) => path == Stem(p.rest))
  }

  lemma StemFits(p: Pattern, verb: string)
    requires VerbFits(p, verb)
    ensures Fits(p, StemRequest(p, verb))
  {
  }

  /** A more specific pattern that matches a pattern's stem has the same stem. */
  lemma SameStem(p: Pattern, q: Pattern, r: Request)
    requires MoreSpecific(Fits, p, q) && Fits(p, r) && r.path == Stem(q.rest)
    ensures r.path == Stem(p.rest)
  {
    StemFits(p, r.verb);
    assert Fits(q, StemRequest(p, r.verb));
    assert Stem(p.rest) <= Stem(q.rest) && Stem(q.rest) <= Stem(p.rest);
  }

  lemma FragmentObeysPrecedence()
    ensures ObeysPrecedence(FragmentMux())
  {
    var mux := FragmentMux();
    forall p | mux.valid(p)
      ensures exists r: Request :: mux.matches(p, r)
    {
      StemFits(p, p.verb);
    }
    forall p, q, r: Request | MoreSpecific(mux.matches, p, q) && mux.matches(p, r) && mux.exact(q, r.path)
      ensures mux.exact(p, r.path)
    {
      SameStem(p, q, r);
    }
  }

  lemma SubtreeStem(prefix: string)
    ensures IsSubtree(Subtree(prefix).rest) && Stem(Subtree(prefix).rest) == prefix + "/"
  {
    var rest := prefix + "/";
    assert rest[|rest| - 1] == '/';
    if |rest| >= 9 {
      assert rest[|rest| - 9..][8] == '/' && NAMED_REST[8] == '}';
    }
  }

  lemma FragmentReadsSubtrees()
    ensures ReadsSubtrees(FragmentMux())
  {
    var mux := FragmentMux();
    forall prefix, r: Request | Literal(prefix)
      ensures mux.matches(Subtree(prefix), r) <==> prefix + "/" <= r.path
    {
      SubtreeStem(prefix);
    }
    forall prefix, path | Literal(prefix)
      ensures mux.exact(Subtree(prefix), path) <==> path == prefix + "/"
    {
      SubtreeStem(prefix);
    }
  }

  /** A subtree for one method is more specific than a subtree for all methods at or above it. */
  lemma MethodIsMoreSpecific(verb: string, stem: string, prefix: string)
    requires verb != "" && prefix + "/" <= stem
    ensures MoreSpecific(Fits, Pattern(verb, stem + NAMED_REST), Subtree(prefix))
  {
    var p, q := Pattern(verb, stem + NAMED_REST), Subtree(prefix);
    SubtreeStem(prefix);
    NamedRestStem(stem);
    forall r: Request | Fits(p, r)
      ensures Fits(q, r)
    {
      assert prefix + "/" == stem[..|prefix| + 1] == r.path[..|prefix| + 1];
    }
    var r := Request("", prefix + "/");
    assert Fits(q, r) && !Fits(p, r);
  }

  lemma NamedRestStem(stem: string)
    ensures IsSubtree(stem + NAMED_REST) && Stem(stem + NAMED_REST) == stem
  {
    var rest := stem + NAMED_REST;
    assert rest[|rest| - 9..] == NAMED_REST && rest[..|rest| - 9] == stem;
  }
}
