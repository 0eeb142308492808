/**
 Client-IP resolution (interceptor/trusted_proxy.go). Which addresses are trusted is a
 parameter: any predicate on strings.
 */
module TrustedProxy {
  import opened Text
  import opened Sorting

  type TrustSet = string -> bool

  /** The hops of a forwarded-for header, trimmed, as written from client to last proxy. */
  function Hops(xff: string): seq<string> {
    Map(TrimSpace, Split(xff, ','))
  }

  /** Position of the rightmost non-blank untrusted hop. */
  ghost predicate IsClientHop(trusted: TrustSet, hops: seq<string>, i: nat) {
    && i < |hops| && hops[i] != "" && !trusted(hops[i])
    && forall j :: i < j < |hops| ==> hops[j] == "" || trusted(hops[j])
  }

  /** Position of the leftmost non-blank hop. */
  ghost predicate IsFirstHop(hops: seq<string>, i: nat) {
    i < |hops| && hops[i] != "" && forall j :: 0 <= j < i ==> hops[j] == ""
  }

  ghost predicate AllTrusted(trusted: TrustSet, hops: seq<string>) {
    forall j :: 0 <= j < |hops| ==> hops[j] == "" || trusted(hops[j])
  }

  /** What clientFromXFF promises of the address it returns. */
  ghost predicate IsClientOf(trusted: TrustSet, hops: seq<string>, ip: string) {
    if AllTrusted(trusted, hops) then
      if exists i: nat :: IsFirstHop(hops, i) then exists i: nat :: IsFirstHop(hops, i) && ip == hops[i] else ip == ""
    else exists i: nat :: IsClientHop(trusted, hops, i) && ip == hops[i]
  }

  method ClientFromXff(trusted: TrustSet, xff: string) returns (ip: string)
    ensures IsClientOf(trusted, Hops(xff), ip)
  {
    var parts := Split(xff, ',');
    ghost var hops := Hops(xff);
    var i := |parts|;
    while i > 0
      invariant 0 <= i <= |parts|
      invariant forall j :: i <= j < |hops| ==> hops[j] == "" || trusted(hops[j])
    {
      i := i - 1;
      var hop := TrimSpace(parts[i]);
      assert hop == hops[i];
      if hop == "" {
        continue;
      }
      if !trusted(hop) {
        assert IsClientHop(trusted, hops, i);
        return hop;
      }
    }
    for k := 0 to |parts|
      invariant forall j :: 0 <= j < k ==> hops[j] == ""
    {
      var h := TrimSpace(parts[k]);
      assert h == hops[k];
      if h != "" {
        assert IsFirstHop(hops, k);
        return h;
      }
    }
    return "";
  }

  /** The promise leaves one answer. */
  lemma ClientIsUnique(trusted: TrustSet, hops: seq<string>, a: string, b: string)
    requires IsClientOf(trusted, hops, a) && IsClientOf(trusted, hops, b)
    ensures a == b
  {
    if !AllTrusted(trusted, hops) {
      var i: nat :| IsClientHop(trusted, hops, i) && a == hops[i];
      var j: nat :| IsClientHop(trusted, hops, j) && b == hops[j];
      assert !(i < j) && !(j < i);
    } else if exists i: nat :: IsFirstHop(hops, i) {
      var i: nat :| IsFirstHop(hops, i) && a == hops[i];
      var j: nat :| IsFirstHop(hops, j) && b == hops[j];
      assert !(i < j) && !(j < i);
    }
  }

  /** Only a trusted peer's headers count; without a forwarded hop, its real-ip header does. */
  ghost predicate IsResolved(trusted: TrustSet, peer: string, xff: string, realIp: string, ip: string) {
    if !trusted(peer) then ip == TrimSpace(peer)
    else
      exists client :: IsClientOf(trusted, Hops(xff), client) &&
        ip == if client != "" then client else if TrimSpace(realIp) != "" then TrimSpace(realIp) else TrimSpace(peer)
  }

  method ResolveClientIP(trusted: TrustSet, peer: string, xff: string, realIp: string) returns (ip: string)
    ensures IsResolved(trusted, peer, xff, realIp, ip)
  {
    if trusted(peer) {
      var client := ClientFromXff(trusted, xff);
      if client != "" {
        return client;
      }
      var realAddr := TrimSpace(realIp);
      if realAddr != "" {
        return realAddr;
      }
    }
    return TrimSpace(peer);
  }

  // ---- forged prefixes ----

  lemma HopsAppend(a: string, b: string)
    ensures Hops(a + "," + b) == Hops(a) + Hops(b)
  {
    SplitAppend(a, ',', b);
    var x, y := Split(a, ','), Split(b, ',');
    assert forall i :: 0 <= i < |x + y| ==> Map(TrimSpace, x + y)[i] == (Map(TrimSpace, x) + Map(TrimSpace, y))[i];
  }

  lemma ClientHopShifts(trusted: TrustSet, front: seq<string>, hops: seq<string>, i: nat)
    requires IsClientHop(trusted, hops, i)
    ensures IsClientHop(trusted, front + hops, |front| + i) && (front + hops)[|front| + i] == hops[i]
  {
    var all, n := front + hops, |front|;
    forall j | n + i < j < |all|
      ensures all[j] == "" || trusted(all[j])
    {
      assert all[j] == hops[j - n];
    }
  }

  lemma ClientHopIsClient(trusted: TrustSet, hops: seq<string>, i: nat)
    requires IsClientHop(trusted, hops, i)
    ensures IsClientOf(trusted, hops, hops[i])
  {
    assert !AllTrusted(trusted, hops);
  }

  /** Putting any hops in front of a header with an untrusted hop does not change the answer. */
  lemma ForgedPrefixIsIgnored(trusted: TrustSet, forged: string, xff: string, a: string, b: string)
    requires !AllTrusted(trusted, Hops(xff))
    requires IsClientOf(trusted, Hops(xff), a) && IsClientOf(trusted, Hops(forged + "," + xff), b)
    ensures a == b
  {
    HopsAppend(forged, xff);
    var front, hops := Hops(forged), Hops(xff);
    var i: nat :| IsClientHop(trusted, hops, i) && a == hops[i];
    ClientHopShifts(trusted, front, hops, i);
    ClientHopIsClient(trusted, front + hops, |front| + i);
    ClientIsUnique(trusted, front + hops, a, b);
  }

  /** The same for a full resolution from any peer. */
  lemma ForgedPrefixIsIgnoredByResolve(trusted: TrustSet, peer: string, forged: string, xff: string, realIp: string,
                                       a: string, b: string)
    requires !AllTrusted(trusted, Hops(xff))
    requires IsResolved(trusted, peer, xff, realIp, a) && IsResolved(trusted, peer, forged + "," + xff, realIp, b)
    ensures a == b
  {
    if trusted(peer) {
      var x :| IsClientOf(trusted, Hops(xff), x) &&
        a == if x != "" then x else if TrimSpace(realIp) != "" then TrimSpace(realIp) else TrimSpace(peer);
      var y :| IsClientOf(trusted, Hops(forged + "," + xff), y) &&
        b == if y != "" then y else if TrimSpace(realIp) != "" then TrimSpace(realIp) else TrimSpace(peer);
      ForgedPrefixIsIgnored(trusted, forged, xff, x, y);
    }
  }

  // ---- resolving an answer again ----

  lemma {:induction false} TrimRightIsTrimmed(s: string, cut: char -> bool)
    ensures TrimRight(s, cut) == "" || !cut(TrimRight(s, cut)[|TrimRight(s, cut)| - 1])
    ensures TrimRight(s, cut) <= s
    ensures TrimRight(TrimRight(s, cut), cut) == TrimRight(s, cut)
    decreases |s|
  {
    if s != [] && cut(s[|s| - 1]) {
      TrimRightIsTrimmed(s[..|s| - 1], cut);
    }
  }

  lemma {:induction false} TrimLeftIsTrimmed(s: string, cut: char -> bool)
    ensures TrimLeft(s, cut) == "" || !cut(TrimLeft(s, cut)[0])
  {
    if s != [] && cut(s[0]) { TrimLeftIsTrimmed(s[1..], cut); }
  }

  lemma TrimSpaceIdempotent(s: string)
    ensures TrimSpace(TrimSpace(s)) == TrimSpace(s)
  {
    var left := TrimLeft(s, IsSpace);
    TrimLeftIsTrimmed(s, IsSpace);
    TrimRightIsTrimmed(left, IsSpace);
    var t := TrimRight(left, IsSpace);
    if t != "" { assert t[0] == left[0]; }
    assert TrimLeft(t, IsSpace) == t;
  }

  lemma HopsAreTrimmed(xff: string, i: nat)
    requires i < |Hops(xff)|
    ensures TrimSpace(Hops(xff)[i]) == Hops(xff)[i] && ',' !in Hops(xff)[i]
  {
    var part := Split(xff, ',')[i];
    TrimSpaceIdempotent(part);
    TrimKeepsOut(part, ',');
  }

  lemma {:induction false} TrimLeftKeepsOut(s: string, c: char)
    requires c !in s
    ensures c !in TrimLeft(s, IsSpace)
  {
    if s != [] && IsSpace(s[0]) { TrimLeftKeepsOut(s[1..], c); }
  }

  lemma TrimKeepsOut(s: string, c: char)
    requires c !in s
    ensures c !in TrimSpace(s)
  {
    TrimLeftKeepsOut(s, c);
    TrimRightIsTrimmed(TrimLeft(s, IsSpace), IsSpace);
  }

  /** A trimmed, non-blank, comma-free address sent on as a one-hop header resolves to itself. */
  lemma OneHopResolvesToItself(trusted: TrustSet, peer: string, realIp: string, ip: string, again: string)
    requires trusted(peer) && ip != "" && ',' !in ip && TrimSpace(ip) == ip
    requires IsResolved(trusted, peer, ip, realIp, again)
    ensures again == ip
  {
    SplitWithout(ip, ',');
    var hops := Hops(ip);
    assert hops == [ip];
    if trusted(ip) {
      assert AllTrusted(trusted, hops) && IsFirstHop(hops, 0);
    } else {
      assert !(hops[0] == "" || trusted(hops[0]));
      assert IsClientHop(trusted, hops, 0);
    }
    assert IsClientOf(trusted, hops, ip);
    var client :| IsClientOf(trusted, hops, client) &&
      again == if client != "" then client else if TrimSpace(realIp) != "" then TrimSpace(realIp) else TrimSpace(peer);
    ClientIsUnique(trusted, hops, ip, client);
  }

  lemma ClientIsAHop(trusted: TrustSet, hops: seq<string>, client: string) returns (i: nat)
    requires IsClientOf(trusted, hops, client) && client != ""
    ensures i < |hops| && client == hops[i]
  {
    if AllTrusted(trusted, hops) {
      i :| IsFirstHop(hops, i) && client == hops[i];
    } else {
      i :| IsClientHop(trusted, hops, i) && client == hops[i];
    }
  }

  /**
   What one proxy resolved, passed on as a one-hop header to a server that trusts it, is resolved
   there to the same address.
   */
  lemma ResolutionIsStable(trusted: TrustSet, peer: string, xff: string, realIp: string, ip: string,
                           peer2: string, realIp2: string, again: string)
    requires IsResolved(trusted, peer, xff, realIp, ip) && ip != "" && ',' !in ip
    requires trusted(peer2) && IsResolved(trusted, peer2, ip, realIp2, again)
    ensures again == ip
  {
    TrimSpaceIdempotent(peer);
    TrimSpaceIdempotent(realIp);
    if trusted(peer) {
      var client :| IsClientOf(trusted, Hops(xff), client) &&
        ip == if client != "" then client else if TrimSpace(realIp) != "" then TrimSpace(realIp) else TrimSpace(peer);
      if client != "" {
        var i := ClientIsAHop(trusted, Hops(xff), client);
        HopsAreTrimmed(xff, i);
      }
    }
    OneHopResolvesToItself(trusted, peer2, realIp2, ip, again);
  }
}
