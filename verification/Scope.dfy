/**
 The scope language: tokens "resource", "resource:op", the older "resource.op", and instance
 tokens "resource:instance" (policy/scope/scope.go, policy/scope/resource.go).
 */
module Scope {
  import opened Wrappers
  import opened PolicySpec
  import opened Registry
  import opened Principal

  type TokenSet = seq<string>

  predicate IsOp(op: string) {
    op == "read" || op == "write" || op == "admin"
  }

  predicate IsWildcard(token: string) {
    token == "*" || token == "all"
  }

  // ---- cutting and splitting ----

  /** Cuts s at its last sep. */
  function CutLast(s: string, sep: char): (r: Option<(string, string)>)
    ensures r.None? <==> sep !in s
    ensures r.Some? ==> s == r.value.0 + [sep] + r.value.1 && sep !in r.value.1
  {
    if s == [] then None
    else
      var front, last := s[..|s| - 1], s[|s| - 1];
      if last == sep then Some((front, ""))
      else
        match CutLast(front, sep)
        case None => None
        case Some(cut) => Some((cut.0, cut.1 + [last]))
  }

  lemma LastSepIsUnique(before: string, after: string, front: string, back: string, sep: char)
    requires before + [sep] + after == front + [sep] + back && sep !in after
    ensures |front| <= |before|
  {
    var s := before + [sep] + after;
    assert s[|front|] == (front + [sep] + back)[|front|] == sep;
    forall k | |before| < k < |s|
      ensures s[k] != sep
    {
      assert s[k] == after[k - |before| - 1];
    }
  }

  /** Its contract leaves one answer. */
  lemma CutLastAt(before: string, sep: char, after: string)
    requires sep !in after
    ensures CutLast(before + [sep] + after, sep) == Some((before, after))
  {
    var s := before + [sep] + after;
    assert s[|before|] == sep;
    var cut := CutLast(s, sep).value;
    LastSepIsUnique(before, after, cut.0, cut.1, sep);
    LastSepIsUnique(cut.0, cut.1, before, after, sep);
    assert before == s[..|before|] == cut.0;
    assert after == s[|before| + 1..] == cut.1;
  }

  /** A token's resource and, if it has one, what follows it. */
  datatype Token = Token(resource: string, suffix: Option<string>)

  function SplitToken(token: string): Token {
    match CutLast(token, ':')
    case Some(cut) => Token(cut.0, Some(cut.1))
    case None =>
      match CutLast(token, '.')
      case Some(cut) => if IsOp(cut.1) && cut.0 != "" then Token(cut.0, Some(cut.1)) else Token(token, None)
      case None => Token(token, None)
  }

  predicate HasOpSuffix(s: string) {
    var cut := CutLast(s, '.');
    cut.Some? && IsOp(cut.value.1)
  }

  /** No suffix: the token names a whole resource. */
  predicate IsWhole(token: string) {
    SplitToken(token).suffix.None?
  }

  /** An op with nothing in front of its dot. */
  predicate IsDottedOp(s: string) {
    s != "" && s[0] == '.' && IsOp(s[1..])
  }

  lemma WholeExactly(token: string)
    ensures IsWhole(token) <==> ':' !in token && (HasOpSuffix(token) ==> IsDottedOp(token))
    ensures IsWhole(token) ==> SplitToken(token).resource == token
  {
    if HasOpSuffix(token) {
      var cut := CutLast(token, '.').value;
      if cut.0 == "" {
        assert token[0] == '.' && token[1..] == cut.1;
      }
      if IsDottedOp(token) {
        CutLastAt("", '.', token[1..]);
        assert token == "" + ['.'] + token[1..];
      }
    }
  }

  lemma SplitColon(resource: string, op: string)
    requires ':' !in op
    ensures SplitToken(resource + ":" + op) == Token(resource, Some(op))
  {
    CutLastAt(resource, ':', op);
  }

  lemma SplitDot(resource: string, op: string)
    requires resource != "" && ':' !in resource && IsOp(op)
    ensures SplitToken(resource + "." + op) == Token(resource, Some(op))
  {
    CutLastAt(resource, '.', op);
  }

  // ---- the grammar ----

  datatype Scope = Scope(resource: string, op: string)

  /** parse; None stands for its error. */
  function Parse(token: string): Option<Scope> {
    if token == "" then None
    else if IsWildcard(token) then Some(Scope("", ""))
    else if '*' in token then None
    else
      var t := SplitToken(token);
      if t.suffix.None? then Some(Scope(t.resource, ""))
      else if t.resource == "" || IsWildcard(t.resource) || !IsOp(t.suffix.value) then None
      else Some(Scope(t.resource, t.suffix.value))
  }

  /** The colon form. */
  function Print(s: Scope): string {
    if s.op == "" then s.resource else s.resource + ":" + s.op
  }

  lemma PrintedIsNotWildcard(resource: string, op: string)
    ensures !IsWildcard(resource + ":" + op) && resource + ":" + op != ""
  {
    var t := resource + ":" + op;
    assert t[|resource|] == ':';
  }

  lemma PartsHaveNoStar(token: string)
    requires '*' !in token
    ensures '*' !in SplitToken(token).resource
    ensures SplitToken(token).suffix.Some? ==> '*' !in SplitToken(token).suffix.value
  {
  }

  /** Printing an accepted token in the colon form and parsing it again changes nothing. */
  lemma ColonFormRoundTrips(token: string)
    requires Parse(token).Some? && !IsWildcard(token)
    ensures Parse(Print(Parse(token).value)) == Parse(token)
  {
    var s := Parse(token).value;
    if s.op == "" {
      WholeExactly(token);
    } else {
      SplitColon(s.resource, s.op);
      PrintedIsNotWildcard(s.resource, s.op);
      PartsHaveNoStar(token);
      assert '*' !in Print(s);
    }
  }

  /** What is accepted: the two wildcards, a whole resource, or a resource with an op in either spelling. */
  lemma AcceptedExactly(token: string)
    ensures Parse(token).Some? <==>
              || IsWildcard(token)
              || (token != "" && '*' !in token && IsWhole(token))
              || ('*' !in token && HasResourceAndOp(token))
  {
    if '*' !in token && HasResourceAndOp(token) {
      var r, op :| IsSpelling(token, r, op) && r != "" && !IsWildcard(r) && IsOp(op);
      SpellingSplits(token, r, op);
    }
    if Parse(token).Some? && !IsWildcard(token) && !IsWhole(token) {
      var t := SplitToken(token);
      SplitIsSpelling(token);
      assert IsSpelling(token, t.resource, t.suffix.value);
    }
  }

  /** token writes resource and op, in one of the two spellings. */
  ghost predicate IsSpelling(token: string, resource: string, op: string) {
    || (':' !in op && token == resource + ":" + op)
    || (IsOp(op) && resource != "" && ':' !in resource && token == resource + "." + op)
  }

  ghost predicate HasResourceAndOp(token: string) {
    exists r, op :: IsSpelling(token, r, op) && r != "" && !IsWildcard(r) && IsOp(op)
  }

  lemma SpellingSplits(token: string, resource: string, op: string)
    requires IsSpelling(token, resource, op)
    ensures SplitToken(token) == Token(resource, Some(op)) && !IsWildcard(token) && token != ""
  {
    if ':' !in op && token == resource + ":" + op {
      SplitColon(resource, op);
      PrintedIsNotWildcard(resource, op);
    } else {
      SplitDot(resource, op);
      assert token[|resource|] == '.';
    }
  }

  lemma SplitIsSpelling(token: string)
    requires !IsWhole(token)
    ensures IsSpelling(token, SplitToken(token).resource, SplitToken(token).suffix.value)
  {
  }

  // ---- the operation gate ----

  /** One token of the caller satisfies resource/op; op "" asks for the resource only. */
  predicate Satisfies(token: string, resource: string, op: string, allowWildcard: bool) {
    if IsWildcard(token) then allowWildcard
    else
      var t := SplitToken(token);
      t.resource == resource && (t.suffix.None? || op == "" || t.suffix.value == op)
  }

  ghost predicate SetSatisfies(tokens: TokenSet, resource: string, op: string, allowWildcard: bool) {
    exists t :: t in tokens && Satisfies(t, resource, op, allowWildcard)
  }

  method SatisfiesSet(tokens: TokenSet, resource: string, op: string, allowWildcard: bool) returns (ok: bool)
    ensures ok <==> SetSatisfies(tokens, resource, op, allowWildcard)
  {
    for i := 0 to |tokens|
      invariant forall j :: 0 <= j < i ==> !Satisfies(tokens[j], resource, op, allowWildcard)
    {
      var token := tokens[i];
      if IsWildcard(token) {
        if allowWildcard {
          assert Satisfies(token, resource, op, allowWildcard);
          return true;
        }
        continue;
      }
      var t := SplitToken(token);
      if t.resource != resource {
        continue;
      }
      if t.suffix.None? {
        return true;
      }
      if op == "" || t.suffix.value == op {
        return true;
      }
    }
    return false;
  }

  /** Which strings satisfy resource/op. */
  lemma SatisfyingTokens(token: string, resource: string, op: string, allowWildcard: bool)
    ensures Satisfies(token, resource, op, allowWildcard) <==>
              || (IsWildcard(token) && allowWildcard)
              || (!IsWildcard(token) && IsWhole(token) && token == resource)
              || exists o :: IsSpelling(token, resource, o) && (op == "" || o == op)
  {
    WholeExactly(token);
    if !IsWhole(token) { SplitIsSpelling(token); }
    forall o | IsSpelling(token, resource, o)
      ensures SplitToken(token) == Token(resource, Some(o)) && !IsWildcard(token)
    {
      SpellingSplits(token, resource, o);
    }
  }

  // ---- the instance gate ----

  /** One token of the caller grants addressing the instance target of resource, in direction op. */
  predicate Grants(token: string, resource: string, target: string, op: string, allowWildcard: bool) {
    if IsWildcard(token) then allowWildcard
    else
      var t := SplitToken(token);
      t.resource == resource && (t.suffix.Some? ==> GrantsBySuffix(t.suffix.value, target, op))
  }

  predicate GrantsBySuffix(suffix: string, target: string, op: string) {
    if suffix == "*" then true
    else if IsOp(suffix) then false
    else if op != "" && HasOpSuffix(suffix) then
      var cut := CutLast(suffix, '.').value;
      cut.0 == target && cut.1 == op
    else suffix == target
  }

  ghost predicate SetGrants(tokens: TokenSet, resource: string, target: string, op: string, allowWildcard: bool) {
    exists t :: t in tokens && Grants(t, resource, target, op, allowWildcard)
  }

  method GrantsInstanceFor(tokens: TokenSet, resource: string, target: string, op: string, allowWildcard: bool)
    returns (ok: bool)
    ensures ok <==> SetGrants(tokens, resource, target, op, allowWildcard)
  {
    for i := 0 to |tokens|
      invariant forall j :: 0 <= j < i ==> !Grants(tokens[j], resource, target, op, allowWildcard)
    {
      var token := tokens[i];
      if IsWildcard(token) {
        if allowWildcard {
          assert Grants(token, resource, target, op, allowWildcard);
          return true;
        }
        continue;
      }
      var t := SplitToken(token);
      if t.resource != resource {
        continue;
      }
      assert Grants(token, resource, target, op, allowWildcard) <==>
             (t.suffix.Some? ==> GrantsBySuffix(t.suffix.value, target, op));
      if t.suffix.None? || t.suffix.value == "*" {
        return true;
      }
      var seg := t.suffix.value;
      if IsOp(seg) {
        continue;
      }
      if op != "" {
        var cut := CutLast(seg, '.');
        if cut.Some? && IsOp(cut.value.1) {
          if cut.value.0 == target && cut.value.1 == op {
            return true;
          }
          continue;
        }
      }
      if seg == target {
        return true;
      }
    }
    return false;
  }

  lemma OpSuffixOf(s: string, op: string)
    requires IsOp(op)
    ensures CutLast(s + "." + op, '.') == Some((s, op)) && HasOpSuffix(s + "." + op)
    ensures !IsOp(s + "." + op) && s + "." + op != "*"
  {
    CutLastAt(s, '.', op);
    assert (s + "." + op)[|s|] == '.';
  }

  /** Which suffixes grant a target. */
  lemma GrantingSuffixes(suffix: string, target: string, op: string)
    ensures GrantsBySuffix(suffix, target, op) <==>
              || suffix == "*"
              || (suffix == target && !IsOp(target) && (op != "" ==> !HasOpSuffix(target)))
              || (IsOp(op) && suffix == target + "." + op)
  {
    if IsOp(op) { OpSuffixOf(target, op); }
    if op != "" && HasOpSuffix(suffix) {
      var cut := CutLast(suffix, '.').value;
      assert suffix == cut.0 + "." + cut.1;
    }
  }

  /** The three ways a token names instances after its colon. */
  predicate NamesInstance(token: string, resource: string, target: string, op: string) {
    || token == resource + ":*"
    || (token == resource + ":" + target && ':' !in target && !IsOp(target) && (op != "" ==> !HasOpSuffix(target)))
    || (IsOp(op) && ':' !in target && token == resource + ":" + (target + "." + op))
  }

  /**
   Which strings grant an instance: a wildcard, the whole resource, every instance of it, the
   instance itself, or the instance with the asked direction.
   */
  lemma GrantingTokens(token: string, resource: string, target: string, op: string, allowWildcard: bool)
    ensures Grants(token, resource, target, op, allowWildcard) <==>
              || (IsWildcard(token) && allowWildcard)
              || (!IsWildcard(token) && IsWhole(token) && token == resource)
              || NamesInstance(token, resource, target, op)
  {
    WholeExactly(token);
    if NamesInstance(token, resource, target, op) {
      NamedInstanceGrants(token, resource, target, op, allowWildcard);
    } else if Grants(token, resource, target, op, allowWildcard) && !IsWildcard(token) && !IsWhole(token) {
      GrantingSplit(token, resource, target, op);
    }
  }

  lemma NamedInstanceGrants(token: string, resource: string, target: string, op: string, allowWildcard: bool)
    requires NamesInstance(token, resource, target, op)
    ensures Grants(token, resource, target, op, allowWildcard) && !IsWildcard(token) && !IsWhole(token)
  {
    if token == resource + ":*" {
      assert token == resource + ":" + "*";
      SplitColon(resource, "*");
      PrintedIsNotWildcard(resource, "*");
    } else if token == resource + ":" + target && ':' !in target {
      SplitColon(resource, target);
      PrintedIsNotWildcard(resource, target);
      GrantingSuffixes(target, target, op);
    } else {
      SplitColon(resource, target + "." + op);
      PrintedIsNotWildcard(resource, target + "." + op);
      GrantingSuffixes(target + "." + op, target, op);
    }
  }

  lemma GrantingSplit(token: string, resource: string, target: string, op: string)
    requires !IsWhole(token) && SplitToken(token).resource == resource
    requires GrantsBySuffix(SplitToken(token).suffix.value, target, op)
    ensures NamesInstance(token, resource, target, op)
  {
    var suffix := SplitToken(token).suffix.value;
    GrantingSuffixes(suffix, target, op);
    SplitIsSpelling(token);
    assert !IsOp(suffix);
    assert token == resource + ":" + suffix && ':' !in suffix;
    if suffix == "*" {
      assert token == resource + ":*";
    } else if suffix == target + "." + op {
      assert forall i :: 0 <= i < |target| ==> target[i] == suffix[i];
    }
  }

  /** Both gates read the caller's tokens as a set, and more tokens never take a permission away. */
  lemma GatesAreMonotone(small: TokenSet, large: TokenSet, resource: string, target: string, op: string, allowWildcard: bool)
    requires forall t :: t in small ==> t in large
    ensures SetSatisfies(small, resource, op, allowWildcard) ==> SetSatisfies(large, resource, op, allowWildcard)
    ensures SetGrants(small, resource, target, op, allowWildcard) ==> SetGrants(large, resource, target, op, allowWildcard)
  {
  }

  // ---- the two spellings ----

  ghost predicate SameInOperationGate(a: string, b: string) {
    forall resource, op, allow :: Satisfies(a, resource, op, allow) == Satisfies(b, resource, op, allow)
  }

  ghost predicate SameInInstanceGate(a: string, b: string) {
    forall resource, target, op, allow :: Grants(a, resource, target, op, allow) == Grants(b, resource, target, op, allow)
  }

  /**
   resource.op and resource:op mean the same to the operation gate, and to the instance gate,
   exactly when the resource is not empty and has no colon of its own.
   */
  lemma SpellingsInterchange(resource: string, op: string)
    requires IsOp(op)
    ensures resource != "" && ':' !in resource <==> SameInOperationGate(resource + "." + op, resource + ":" + op)
    ensures resource != "" && ':' !in resource <==> SameInInstanceGate(resource + "." + op, resource + ":" + op)
  {
    var dot, colon := resource + "." + op, resource + ":" + op;
    SplitColon(resource, op);
    PrintedIsNotWildcard(resource, op);
    assert dot[|resource|] == '.';
    assert !IsWildcard(dot);
    if resource == "" {
      EmptyResourceDiffers(op);
    } else if ':' !in resource {
      SplitDot(resource, op);
    } else {
      ColonInsideDotted(resource, op);
      var outer, inner := CutLast(resource, ':').value.0, CutLast(resource, ':').value.1;
      assert Satisfies(colon, resource, op, true) && !Satisfies(dot, resource, op, true);
      GrantingSuffixes(inner + "." + op, inner + "." + op, "");
      OpSuffixOf(inner, op);
      assert Grants(dot, outer, inner + "." + op, "", true) && !Grants(colon, outer, inner + "." + op, "", true);
    }
  }

  /** ".op" names a whole resource, ":op" an op of the empty one. */
  lemma EmptyResourceDiffers(op: string)
    requires IsOp(op)
    ensures !SameInOperationGate("" + "." + op, "" + ":" + op) && !SameInInstanceGate("" + "." + op, "" + ":" + op)
  {
    var dot, colon := "" + "." + op, "" + ":" + op;
    SplitColon("", op);
    PrintedIsNotWildcard("", op);
    assert dot[0] == '.' && dot[1..] == op;
    WholeExactly(dot);
    assert Satisfies(dot, dot, op, true) && !Satisfies(colon, dot, op, true);
    assert Grants(dot, dot, "t", "", true) && !Grants(colon, dot, "t", "", true);
  }

  lemma ColonInsideDotted(resource: string, op: string)
    requires ':' in resource && IsOp(op)
    ensures var cut := CutLast(resource, ':').value;
            SplitToken(resource + "." + op) == Token(cut.0, Some(cut.1 + "." + op)) && cut.0 != resource
  {
    var cut := CutLast(resource, ':').value;
    Regroup(resource, cut.0, cut.1, op);
    SplitColon(cut.0, cut.1 + "." + op);
    assert |cut.0| < |resource|;
  }

  lemma Regroup(resource: string, outer: string, inner: string, op: string)
    requires resource == outer + [':'] + inner
    ensures resource + "." + op == outer + ":" + (inner + "." + op)
  {
  }

  // ---- directions ----

  ghost predicate OpLessIsStrongest(resource: string, target: string) {
    forall tokens, op, allow :: SetGrants(tokens, resource, target, "", allow) ==> SetGrants(tokens, resource, target, op, allow)
  }

  /**
   A grant without direction is a grant in every direction, exactly for the targets that do not
   themselves end in an op. (A target with a colon can only be granted through its resource.)
   */
  lemma OpLessGrantsCoverOps(resource: string, target: string)
    ensures OpLessIsStrongest(resource, target) <==> !HasOpSuffix(target) || ':' in target
  {
    if !HasOpSuffix(target) || ':' in target {
      forall tokens, op, allow | SetGrants(tokens, resource, target, "", allow)
        ensures SetGrants(tokens, resource, target, op, allow)
      {
        var t :| t in tokens && Grants(t, resource, target, "", allow);
        GrantingTokens(t, resource, target, "", allow);
        GrantingTokens(t, resource, target, op, allow);
      }
    } else {
      OpLessOnly(resource, target);
    }
  }

  lemma OpLessOnly(resource: string, target: string)
    requires HasOpSuffix(target) && ':' !in target
    ensures !OpLessIsStrongest(resource, target)
  {
    var token := resource + ":" + target;
    SplitColon(resource, target);
    PrintedIsNotWildcard(resource, target);
    OpLessSuffix(target);
    assert Grants(token, resource, target, "", true) && !Grants(token, resource, target, "read", true);
    assert token in [token];
    assert SetGrants([token], resource, target, "", true) && !SetGrants([token], resource, target, "read", true);
  }

  lemma OpLessSuffix(target: string)
    requires HasOpSuffix(target)
    ensures GrantsBySuffix(target, target, "") && !GrantsBySuffix(target, target, "read")
  {
    assert IsOp("read") && !IsOp("");
    SuffixedIsNoOp(target);
    GrantingSuffixes(target, target, "");
    GrantingSuffixes(target, target, "read");
    assert |target + "." + "read"| != |target|;
  }

  lemma SuffixedIsNoOp(target: string)
    requires HasOpSuffix(target)
    ensures !IsOp(target) && target != "*"
  {
    var cut := CutLast(target, '.').value;
    OpSuffixOf(cut.0, cut.1);
    assert target == cut.0 + "." + cut.1;
  }

  /** A directed token grants its own direction and no other, and nothing to a gate without direction. */
  lemma DirectedTokenGrantsOneOp(resource: string, target: string, own: string, op: string, allowWildcard: bool)
    requires IsOp(own) && ':' !in target
    ensures Grants(resource + ":" + (target + "." + own), resource, target, op, allowWildcard) <==> op == own
  {
    var seg := target + "." + own;
    SplitColon(resource, seg);
    PrintedIsNotWildcard(resource, seg);
    OpSuffixOf(target, own);
    assert |seg| != |target|;
  }

  /**
   The operation gate and the instance gate together: no single token passes both for a directed
   request but a wildcard or the whole resource. An operation token and an instance token do.
   */
  lemma OneTokenPassesBothGates(token: string, resource: string, target: string, op: string, allowWildcard: bool)
    requires IsOp(op)
    ensures Satisfies(token, resource, op, allowWildcard) && Grants(token, resource, target, op, allowWildcard) <==>
              || (IsWildcard(token) && allowWildcard)
              || (!IsWildcard(token) && IsWhole(token) && token == resource)
  {
    WholeExactly(token);
  }

  lemma TwoTokensPassBothGates(resource: string, target: string, op: string, allowWildcard: bool)
    requires IsOp(op) && ':' !in target && !IsOp(target) && !HasOpSuffix(target)
    ensures var tokens := [resource + ":" + op, resource + ":" + target];
            SetSatisfies(tokens, resource, op, allowWildcard) && SetGrants(tokens, resource, target, op, allowWildcard)
  {
    var a, b := resource + ":" + op, resource + ":" + target;
    SplitColon(resource, op);
    SplitColon(resource, target);
    PrintedIsNotWildcard(resource, op);
    PrintedIsNotWildcard(resource, target);
    assert a in [a, b] && b in [a, b];
    assert Satisfies(a, resource, op, allowWildcard);
    GrantingSuffixes(target, target, op);
    assert Grants(b, resource, target, op, allowWildcard);
  }

  // ---- token sets ----

  /** Parse on a caller's raw tokens: all or nothing. */
  method ParseSet(raw: seq<string>) returns (r: Option<TokenSet>)
    ensures r.Some? <==> forall t :: t in raw ==> Parse(t).Some?
    ensures r.Some? ==> r.value == raw
  {
    var out: TokenSet, failed := [], false;
    for i := 0 to |raw|
      invariant failed <==> exists j :: 0 <= j < i && Parse(raw[j]).None?
      invariant !failed ==> out == raw[..i]
    {
      if IsWildcard(raw[i]) {
        out := out + [raw[i]];
        continue;
      }
      if Parse(raw[i]).None? {
        failed := true;
        continue;
      }
      out := out + [raw[i]];
    }
    if failed {
      return None;
    }
    assert raw[..|raw|] == raw;
    return Some(out);
  }

  method HasWildcard(tokens: TokenSet) returns (r: bool)
    ensures r <==> exists t :: t in tokens && IsWildcard(t)
  {
    for i := 0 to |tokens|
      invariant forall j :: 0 <= j < i ==> !IsWildcard(tokens[j])
    {
      if IsWildcard(tokens[i]) {
        return true;
      }
    }
    return false;
  }

  // ---- the "scope" kind ----

  datatype Options = Options(claim: string, domain: string, requireVocabulary: bool, disallowWildcard: bool)
  {
    function Claim(): string { if claim == "" then "scopes" else claim }

    function Domain(): string { if domain == "" then "scope" else domain }
  }

  /** A declared value the kind accepts. */
  predicate ValueAccepted(opts: Options, vocab: Vocabulary, domain: string, value: string) {
    if IsWildcard(value) then !opts.disallowWildcard
    else Parse(value).Some? && (domain in vocab ==> Parse(value).value.resource in vocab[domain])
  }

  ghost predicate ScopeValid(opts: Options, r: Requirement, vocab: Vocabulary) {
    var domain := if r.vocabulary == "" then opts.Domain() else r.vocabulary;
    && !(r.mode == MATCH_ALL && r.values == [])
    && (opts.requireVocabulary ==> domain in vocab)
    && forall v :: v in r.values ==> ValueAccepted(opts, vocab, domain, v)
  }

  method ValidateScope(opts: Options, r: Requirement, vocab: Vocabulary) returns (ok: bool)
    ensures ok <==> ScopeValid(opts, r, vocab)
  {
    if r.mode == MATCH_ALL && |r.values| == 0 {
      return false;
    }
    var domain := if r.vocabulary == "" then opts.Domain() else r.vocabulary;
    if opts.requireVocabulary && domain !in vocab {
      return false;
    }
    for i := 0 to |r.values|
      invariant forall j :: 0 <= j < i ==> ValueAccepted(opts, vocab, domain, r.values[j])
    {
      var value := r.values[i];
      if IsWildcard(value) {
        if opts.disallowWildcard {
          assert value in r.values && !ValueAccepted(opts, vocab, domain, value);
          return false;
        }
        continue;
      }
      var parsed := Parse(value);
      if parsed.None? || (domain in vocab && parsed.value.resource !in vocab[domain]) {
        assert value in r.values && !ValueAccepted(opts, vocab, domain, value);
        return false;
      }
    }
    return true;
  }

  /** The caller's tokens meet one declared value. */
  ghost predicate Held(opts: Options, tokens: TokenSet, want: string) {
    if IsWildcard(want) then !opts.disallowWildcard && exists t :: t in tokens && IsWildcard(t)
    else Parse(want).Some? && SetSatisfies(tokens, Parse(want).value.resource, Parse(want).value.op, !opts.disallowWildcard)
  }

  ghost predicate Malformed(want: string) { Parse(want).None? }

  /** The value at which evaluation stops: an error, or one that settles the answer. */
  ghost predicate Stops(opts: Options, tokens: TokenSet, all: bool, want: string) {
    Malformed(want) || Held(opts, tokens, want) != all
  }

  /** First stopping value decides; without one the answer is all. */
  ghost predicate IsScopeAnswer(opts: Options, tokens: TokenSet, all: bool, values: seq<string>, r: Result<bool, EvalError>) {
    || (r == Success(all) && forall v :: v in values ==> !Stops(opts, tokens, all, v))
    || exists i: nat :: StopsFirstAt(opts, tokens, all, values, i) &&
         r == if Malformed(values[i]) then Failure(PlainError) else Success(!all)
  }

  ghost predicate StopsFirstAt(opts: Options, tokens: TokenSet, all: bool, values: seq<string>, i: nat) {
    && i < |values| && Stops(opts, tokens, all, values[i])
    && forall j :: 0 <= j < i ==> !Stops(opts, tokens, all, values[j])
  }

  /** The answer itself. */
  ghost function ScopeAnswer(opts: Options, tokens: TokenSet, all: bool, values: seq<string>): Result<bool, EvalError> {
    if values == [] then Success(all)
    else if Malformed(values[0]) then Failure(PlainError)
    else if Held(opts, tokens, values[0]) != all then Success(!all)
    else ScopeAnswer(opts, tokens, all, values[1..])
  }

  /** There is exactly one. */
  lemma {:induction false} ScopeAnswerIs(opts: Options, tokens: TokenSet, all: bool, values: seq<string>, r: Result<bool, EvalError>)
    ensures IsScopeAnswer(opts, tokens, all, values, r) <==> r == ScopeAnswer(opts, tokens, all, values)
  {
    if values == [] {
    } else if Stops(opts, tokens, all, values[0]) {
      assert StopsFirstAt(opts, tokens, all, values, 0);
      assert values[0] in values;
    } else {
      ScopeAnswerIs(opts, tokens, all, values[1..], r);
      ScopeAnswerTail(opts, tokens, all, values, r);
    }
  }

  lemma ScopeAnswerTail(opts: Options, tokens: TokenSet, all: bool, values: seq<string>, r: Result<bool, EvalError>)
    requires values != [] && !Stops(opts, tokens, all, values[0])
    ensures IsScopeAnswer(opts, tokens, all, values, r) <==> IsScopeAnswer(opts, tokens, all, values[1..], r)
  {
    var rest := values[1..];
    assert values == [values[0]] + rest;
    forall i: nat | StopsFirstAt(opts, tokens, all, values, i)
      ensures i > 0 && StopsFirstAt(opts, tokens, all, rest, i - 1)
    {
      assert forall j :: 0 <= j < i - 1 ==> rest[j] == values[j + 1];
    }
    forall i: nat | StopsFirstAt(opts, tokens, all, rest, i)
      ensures StopsFirstAt(opts, tokens, all, values, i + 1)
    {
      assert forall j :: 0 < j < i + 1 ==> values[j] == rest[j - 1];
    }
  }

  /** scope.Kind. */
  ghost function ScopeKind(opts: Options): RequirementKind {
    RequirementKind("scope", MATCH_ANY, opts.requireVocabulary,
      Some((r: Requirement, vocab: Vocabulary) => ScopeValid(opts, r, vocab)),
      Some((ec: EvalContext, r: Requirement) =>
        if ec.principal.None? then Success(false)
        else ScopeAnswer(opts, ClaimValues(ec.principal.value, opts.Claim()), r.mode == MATCH_ALL, r.values)))
  }

  method EvaluateScope(opts: Options, ec: EvalContext, req: Requirement) returns (r: Result<bool, EvalError>)
    ensures ec.principal.None? ==> r == Success(false)
    ensures ec.principal.Some? ==>
              IsScopeAnswer(opts, ClaimValues(ec.principal.value, opts.Claim()), req.mode == MATCH_ALL, req.values, r)
  {
    if ec.principal.None? {
      return Success(false);
    }
    var tokens := ClaimValues(ec.principal.value, opts.Claim());
    var all := req.mode == MATCH_ALL;
    for i := 0 to |req.values|
      invariant forall j :: 0 <= j < i ==> !Stops(opts, tokens, all, req.values[j])
    {
      var want := req.values[i];
      var ok;
      if IsWildcard(want) {
        var have := HasWildcard(tokens);
        ok := !opts.disallowWildcard && have;
      } else {
        var parsed := Parse(want);
        if parsed.None? {
          assert StopsFirstAt(opts, tokens, all, req.values, i);
          return Failure(PlainError);
        }
        ok := SatisfiesSet(tokens, parsed.value.resource, parsed.value.op, !opts.disallowWildcard);
      }
      assert ok == Held(opts, tokens, want);
      if all && !ok {
        assert StopsFirstAt(opts, tokens, all, req.values, i);
        return Success(false);
      }
      if !all && ok {
        assert StopsFirstAt(opts, tokens, all, req.values, i);
        return Success(true);
      }
    }
    return Success(all);
  }

  /** A validated requirement is evaluated without error, as "every value" or "some value". */
  lemma ValidScopeMeaning(opts: Options, vocab: Vocabulary, req: Requirement, tokens: TokenSet, r: Result<bool, EvalError>)
    requires ScopeValid(opts, req, vocab)
    requires IsScopeAnswer(opts, tokens, req.mode == MATCH_ALL, req.values, r)
    ensures r.Success?
    ensures r.value <==> if req.mode == MATCH_ALL then forall v :: v in req.values ==> Held(opts, tokens, v)
                         else exists v :: v in req.values && Held(opts, tokens, v)
  {
    forall v | v in req.values
      ensures !Malformed(v)
    {
      assert ValueAccepted(opts, vocab, if req.vocabulary == "" then opts.Domain() else req.vocabulary, v);
    }
  }

  /** So on validated requirements the order and repetition of the values do not matter. */
  lemma ValidScopeReadsSet(opts: Options, vocab: Vocabulary, req: Requirement, vs: seq<string>, tokens: TokenSet,
                           r1: Result<bool, EvalError>, r2: Result<bool, EvalError>)
    requires ScopeValid(opts, req, vocab) && SameValues(req.values, vs)
    requires IsScopeAnswer(opts, tokens, req.mode == MATCH_ALL, req.values, r1)
    requires IsScopeAnswer(opts, tokens, req.mode == MATCH_ALL, vs, r2)
    ensures ScopeValid(opts, req.(values := vs), vocab) && r1 == r2
  {
    var req2 := req.(values := vs);
    if req.values != [] {
      assert req.values[0] in vs;
    }
    assert ScopeValid(opts, req2, vocab);
    ValidScopeMeaning(opts, vocab, req, tokens, r1);
    ValidScopeMeaning(opts, vocab, req2, tokens, r2);
  }

  // ---- the "resource" kind ----

  /** ParseResourceValue; None stands for its error. */
  function ParseResourceValue(value: string): Option<Scope> {
    match CutLast(value, ':')
    case None => Some(Scope(value, ""))
    case Some(cut) => if cut.0 == "" || !IsOp(cut.1) then None else Some(Scope(cut.0, cut.1))
  }

  /** Accepted are a colon-free name, and resource:op; the parts are what was printed. */
  lemma ResourceValueExactly(value: string, s: Scope)
    ensures ParseResourceValue(value) == Some(s) <==>
              && value == Print(s)
              && (if s.op == "" then ':' !in s.resource else s.resource != "" && IsOp(s.op))
  {
    if s.op != "" && IsOp(s.op) { CutLastAt(s.resource, ':', s.op); }
  }

  ghost predicate ResourceValid(opts: Options, r: Requirement, vocab: Vocabulary) {
    && |r.values| == 1
    && ParseResourceValue(r.values[0]).Some?
    && var resource := ParseResourceValue(r.values[0]).value.resource;
       var domain := if r.vocabulary == "" then (if opts.domain == "" then "resource" else opts.domain) else r.vocabulary;
       && resource != "" && !IsWildcard(resource) && ':' !in resource && ' ' !in resource
       && (opts.requireVocabulary ==> domain in vocab)
       && (domain in vocab ==> resource in vocab[domain])
  }

  /** What the instance gate answers; id is what its extractor finds in the request, None its error. */
  ghost function ResourceAnswer(opts: Options, ec: EvalContext, values: seq<string>, id: Option<string>): Result<bool, EvalError> {
    if ec.principal.None? then Success(false)
    else if values == [] || ParseResourceValue(values[0]).None? || id.None? || id.value == "" then Failure(PlainError)
    else
      var s := ParseResourceValue(values[0]).value;
      Success(SetGrants(ClaimValues(ec.principal.value, opts.Claim()), s.resource, id.value, s.op, !opts.disallowWildcard))
  }

  /** scope.ResourceKind; idOf is its extractor. */
  ghost function ResourceKind(opts: Options, idOf: EvalContext -> Option<string>): RequirementKind {
    RequirementKind("resource", MATCH_ANY, opts.requireVocabulary,
      Some((r: Requirement, vocab: Vocabulary) => ResourceValid(opts, r, vocab)),
      Some((ec: EvalContext, r: Requirement) => ResourceAnswer(opts, ec, r.values, idOf(ec))))
  }

  /** The instance gate's evaluator; id is what the extractor found in the request, None its error. */
  method EvaluateResource(opts: Options, ec: EvalContext, req: Requirement, id: Option<string>)
    returns (r: Result<bool, EvalError>)
    requires ec.principal.Some? ==> |req.values| > 0
    ensures r == ResourceAnswer(opts, ec, req.values, id)
    ensures r.Failure? <==> ec.principal.Some? && (ParseResourceValue(req.values[0]).None? || id.None? || id.value == "")
    ensures r == Success(true) <==>
              && ec.principal.Some? && ParseResourceValue(req.values[0]).Some? && id.Some? && id.value != ""
              && var s := ParseResourceValue(req.values[0]).value;
                 SetGrants(ClaimValues(ec.principal.value, opts.Claim()), s.resource, id.value, s.op, !opts.disallowWildcard)
  {
    if ec.principal.None? {
      return Success(false);
    }
    var parsed := ParseResourceValue(req.values[0]);
    if parsed.None? {
      return Failure(PlainError);
    }
    if id.None? || id.value == "" {
      return Failure(PlainError);
    }
    var ok := GrantsInstanceFor(ClaimValues(ec.principal.value, opts.Claim()), parsed.value.resource, id.value,
                                parsed.value.op, !opts.disallowWildcard);
    return Success(ok);
  }

  /** On a validated declaration the dotted and colon operation tokens never address an instance. */
  lemma OperationTokensAddressNothing(opts: Options, vocab: Vocabulary, req: Requirement, token: string, own: string,
                                      target: string, op: string, allowWildcard: bool)
    requires ResourceValid(opts, req, vocab) && IsOp(own)
    requires IsSpelling(token, ParseResourceValue(req.values[0]).value.resource, own)
    ensures !Grants(token, ParseResourceValue(req.values[0]).value.resource, target, op, allowWildcard)
  {
    SpellingSplits(token, ParseResourceValue(req.values[0]).value.resource, own);
  }
}
