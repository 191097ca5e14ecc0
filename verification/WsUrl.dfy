/** The WebSocket URL parser: `[ws|wss]://host[:port]/path`. */
module WsUrl {

  import opened Wrappers

  datatype Target = Target(tls: bool, host: string, port: string, path: string)

  /** The position of the first `c`, or the length when there is none. */
  function IndexOf(s: string, c: char): (i: nat)
    ensures i <= |s|
    ensures forall j :: 0 <= j < i ==> s[j] != c
    ensures i < |s| ==> s[i] == c
  {
    if s == [] || s[0] == c then 0 else 1 + IndexOf(s[1..], c)
  }

  lemma {:induction false} IndexOfUnique(s: string, c: char, i: nat)
    requires i <= |s| && (forall j :: 0 <= j < i ==> s[j] != c) && (i < |s| ==> s[i] == c)
    ensures IndexOf(s, c) == i
  {
    if i > 0 {
      assert s[0] != c;
      IndexOfUnique(s[1..], c, i - 1);
    }
  }

  predicate Without(s: string, c: char) {
    forall j :: 0 <= j < |s| ==> s[j] != c
  }

  function Scheme(tls: bool): string {
    if tls then "wss://" else "ws://"
  }

  function DefaultPort(tls: bool): string {
    if tls then "443" else "80"
  }

  /** Host and port: split at the first colon, or the scheme's port when there is none. */
  function ParseAuthority(tls: bool, authority: string, path: string): Target {
    var colon := IndexOf(authority, ':');
    if colon == |authority| then Target(tls, authority, DefaultPort(tls), path)
    else Target(tls, authority[..colon], authority[colon + 1..], path)
  }

  /** What follows the scheme: the authority up to the first slash, then the path. */
  function ParseRest(tls: bool, rest: string): Target {
    var slash := IndexOf(rest, '/');
    ParseAuthority(tls, rest[..slash], if slash == |rest| then "/" else rest[slash..])
  }

  predicate HasScheme(url: string) {
    Scheme(true) <= url || Scheme(false) <= url
  }

  function ParseAny(url: string): Target
    requires HasScheme(url)
  {
    if Scheme(true) <= url then ParseRest(true, url[6..]) else ParseRest(false, url[5..])
  }

  /** The accepted URLs and their parts: an empty host or port is refused. */
  function Parse(url: string): Option<Target> {
    if !HasScheme(url) then None
    else
      var t := ParseAny(url);
      if t.host != "" && t.port != "" then Some(t) else None
  }

  // ----- The parts of a URL, spelled out -----

  /** `t` holds the parts of `authority + path`: the host up to the first colon, the port after it. */
  ghost predicate HasParts(t: Target, authority: string, path: string) {
    && '/' !in authority && (path == "" || path[0] == '/')
    && t.path == (if path == "" then "/" else path)
    && (if ':' in authority then ':' !in t.host && authority == t.host + ":" + t.port
        else authority == t.host && t.port == if t.tls then "443" else "80")
  }

  ghost predicate IsParsed(url: string, t: Target) {
    exists authority, path :: HasParts(t, authority, path) && url == (if t.tls then "wss://" else "ws://") + authority + path
  }

  lemma {:induction false} ColonThere(s: string, c: char)
    ensures c in s <==> IndexOf(s, c) < |s|
    ensures c !in s[..IndexOf(s, c)]
  {
    hide IndexOf;
  }

  lemma {:induction false} CutAt(s: string, i: nat)
    requires i < |s|
    ensures s == s[..i] + [s[i]] + s[i + 1..]
  {
  }

  lemma {:induction false} AuthorityParts(tls: bool, authority: string, path: string)
    ensures var t := ParseAuthority(tls, authority, path);
            if ':' in authority then ':' !in t.host && authority == t.host + ":" + t.port
            else authority == t.host && t.port == DefaultPort(tls)
  {
    hide IndexOf;
    ColonThere(authority, ':');
    if ':' in authority {
      CutAt(authority, IndexOf(authority, ':'));
    }
  }

  lemma {:induction false} RestParts(tls: bool, rest: string)
    ensures HasParts(ParseRest(tls, rest), rest[..IndexOf(rest, '/')], rest[IndexOf(rest, '/')..])
  {
    hide IndexOf, ParseAuthority;
    ColonThere(rest, '/');
    var slash := IndexOf(rest, '/');
    AuthorityParts(tls, rest[..slash], if slash == |rest| then "/" else rest[slash..]);
    SamePath(tls, rest[..slash], if slash == |rest| then "/" else rest[slash..]);
  }

  lemma {:induction false} SamePath(tls: bool, authority: string, path: string)
    ensures ParseAuthority(tls, authority, path).path == path && ParseAuthority(tls, authority, path).tls == tls
  {
  }

  lemma {:induction false} Joined(scheme: string, rest: string, i: nat)
    requires i <= |rest|
    ensures scheme + rest == scheme + rest[..i] + rest[i..]
  {
  }

  lemma {:induction false} ParsedRest(tls: bool, rest: string)
    ensures IsParsed((if tls then "wss://" else "ws://") + rest, ParseRest(tls, rest))
  {
    hide IndexOf, HasParts, ParseAuthority;
    var slash := IndexOf(rest, '/');
    RestParts(tls, rest);
    SamePath(tls, rest[..slash], if slash == |rest| then "/" else rest[slash..]);
    Joined(if tls then "wss://" else "ws://", rest, slash);
  }

  lemma {:induction false} ParsedParts(url: string)
    requires HasScheme(url)
    ensures IsParsed(url, ParseAny(url))
  {
    hide ParseRest, IsParsed;
    if Scheme(true) <= url {
      assert url == "wss://" + url[6..];
      ParsedRest(true, url[6..]);
    } else {
      assert url == "ws://" + url[5..];
      ParsedRest(false, url[5..]);
    }
  }

  /** The target that the parser fills in, field by field. */
  class WsTarget {
    var tls: bool
    var host: string
    var port: string
    var path: string

    constructor ()
      ensures Value() == Target(false, "", "", "/")
    {
      tls, host, port, path := false, "", "", "/";
    }

    function Value(): Target
      reads this
    {
      Target(tls, host, port, path)
    }

    /** Without a known scheme nothing is written; otherwise all fields are, even when the URL
        is then refused. */
    method ParseInto(url: string) returns (ok: bool)
      modifies this
      ensures Parse(url) == if ok then Some(Value()) else None
      ensures Value() == if HasScheme(url) then ParseAny(url) else old(Value())
      ensures "wss://" <= url || "ws://" <= url ==> IsParsed(url, Value()) && (ok <==> host != "" && port != "")
      ensures !("wss://" <= url || "ws://" <= url) ==> !ok && Value() == old(Value())
    {
      hide IndexOf, IsParsed;
      var rest := url;
      if Scheme(true) <= rest {
        tls := true;
        rest := rest[6..];
      } else if Scheme(false) <= rest {
        tls := false;
        rest := rest[5..];
      } else {
        return false;
      }
      assert HasScheme(url) && ParseAny(url) == ParseRest(tls, rest);
      var slash := Find(rest, '/');
      var authority := rest[..slash];
      path := if slash == |rest| then "/" else rest[slash..];
      var colon := Find(authority, ':');
      if colon == |authority| {
        host := authority;
        port := DefaultPort(tls);
      } else {
        host := authority[..colon];
        port := authority[colon + 1..];
      }
      assert Value() == ParseRest(tls, rest);
      ParsedParts(url);
      ok := |host| > 0 && |port| > 0;
    }
  }

  method Find(s: string, c: char) returns (i: nat)
    ensures i == IndexOf(s, c)
  {
    i := 0;
    while i < |s| && s[i] != c
      invariant i <= |s| && forall j :: 0 <= j < i ==> s[j] != c
    {
      i := i + 1;
    }
    IndexOfUnique(s, c, i);
  }

  // ----- Printing -----

  /** A URL of the target; the port and the path may be left out. */
  function Spelling(t: Target, withPort: bool, withPath: bool): string {
    Scheme(t.tls) + Parts(t.host, if withPort then ":" + t.port else "", if withPath then t.path else "")
  }

  function Parts(host: string, portPart: string, pathPart: string): string {
    (host + portPart) + pathPart
  }

  function Print(t: Target): string {
    Spelling(t, true, true)
  }

  /** What may be left out: a default port, and the path "/". */
  predicate MayOmit(t: Target, withPort: bool, withPath: bool) {
    && (withPort || t.port == DefaultPort(t.tls))
    && (withPath || t.path == "/")
  }

  /** The targets that have a URL. */
  predicate Printable(t: Target) {
    && t.host != "" && Without(t.host, '/') && Without(t.host, ':')
    && t.port != "" && Without(t.port, '/')
    && t.path != "" && t.path[0] == '/'
  }

  predicate PortPart(s: string) {
    s == "" || (s[0] == ':' && Without(s, '/'))
  }

  predicate PathPart(s: string) {
    s == "" || s[0] == '/'
  }

  lemma {:induction false} AuthorityEnds(authority: string, pathPart: string)
    requires Without(authority, '/') && PathPart(pathPart)
    ensures IndexOf(authority + pathPart, '/') == |authority|
    ensures (authority + pathPart)[..|authority|] == authority && (authority + pathPart)[|authority|..] == pathPart
  {
    IndexOfUnique(authority + pathPart, '/', |authority|);
  }

  lemma {:induction false} HostEnds(host: string, portPart: string)
    requires Without(host, ':') && PortPart(portPart)
    ensures IndexOf(host + portPart, ':') == |host|
    ensures (host + portPart)[..|host|] == host
    ensures portPart != "" ==> (host + portPart)[|host| + 1..] == portPart[1..]
  {
    IndexOfUnique(host + portPart, ':', |host|);
  }

  lemma {:induction false} AuthorityRead(tls: bool, host: string, portPart: string, path: string)
    requires Without(host, ':') && PortPart(portPart)
    ensures ParseAuthority(tls, host + portPart, path)
         == Target(tls, host, if portPart == "" then DefaultPort(tls) else portPart[1..], path)
  {
    HostEnds(host, portPart);
    assert portPart == "" ==> host + portPart == host;
  }

  lemma {:induction false} PartsRead(tls: bool, host: string, portPart: string, pathPart: string)
    requires Without(host, '/') && Without(host, ':') && PortPart(portPart) && PathPart(pathPart)
    ensures ParseRest(tls, Parts(host, portPart, pathPart))
         == Target(tls, host, if portPart == "" then DefaultPort(tls) else portPart[1..],
                   if pathPart == "" then "/" else pathPart)
  {
    AuthorityEnds(host + portPart, pathPart);
    AuthorityRead(tls, host, portPart, if pathPart == "" then "/" else pathPart);
  }

  lemma {:induction false} Schemes(rest: string)
    ensures Scheme(true) <= Scheme(true) + rest && (Scheme(true) + rest)[6..] == rest
    ensures Scheme(false) <= Scheme(false) + rest && (Scheme(false) + rest)[5..] == rest
    ensures !(Scheme(true) <= Scheme(false) + rest)
  {
    assert (Scheme(false) + rest)[2] == ':' && Scheme(true)[2] == 's';
  }

  lemma {:induction false} SchemeRead(tls: bool, rest: string)
    ensures HasScheme(Scheme(tls) + rest) && ParseAny(Scheme(tls) + rest) == ParseRest(tls, rest)
  {
    Schemes(rest);
  }

  lemma {:induction false} SpellingRead(t: Target, withPort: bool, withPath: bool)
    requires Printable(t) && MayOmit(t, withPort, withPath)
    ensures Parse(Spelling(t, withPort, withPath)) == Some(t)
  {
    var portPart := if withPort then ":" + t.port else "";
    var pathPart := if withPath then t.path else "";
    PartsRead(t.tls, t.host, portPart, pathPart);
    SchemeRead(t.tls, Parts(t.host, portPart, pathPart));
  }

  predicate HasPort(authority: string) {
    IndexOf(authority, ':') < |authority|
  }

  lemma {:induction false} AuthoritySpelled(tls: bool, authority: string, path: string)
    requires Without(authority, '/')
    ensures var t := ParseAuthority(tls, authority, path);
            && Without(t.host, '/') && Without(t.host, ':') && Without(t.port, '/')
            && (!HasPort(authority) ==> authority == t.host && t.port == DefaultPort(tls))
            && (HasPort(authority) ==> authority == t.host + (":" + t.port))
  {
    var colon := IndexOf(authority, ':');
    if colon < |authority| {
      assert authority == authority[..colon] + ([authority[colon]] + authority[colon + 1..]);
    }
  }

  lemma {:induction false} RestSpelled(tls: bool, rest: string)
    requires var t := ParseRest(tls, rest); t.host != "" && t.port != ""
    ensures var t := ParseRest(tls, rest);
            Printable(t) && t.tls == tls
            && exists withPort, withPath :: MayOmit(t, withPort, withPath) && Scheme(tls) + rest == Spelling(t, withPort, withPath)
  {
    var t := ParseRest(tls, rest);
    var slash := IndexOf(rest, '/');
    var authority := rest[..slash];
    AuthoritySpelled(tls, authority, t.path);
    assert rest == authority + rest[slash..];
    var withPort, withPath := HasPort(authority), slash < |rest|;
    assert MayOmit(t, withPort, withPath) && Scheme(tls) + rest == Spelling(t, withPort, withPath);
  }

  lemma {:induction false} AcceptedSpelled(url: string)
    requires Parse(url).Some?
    ensures var t := Parse(url).value;
            Printable(t)
            && exists withPort, withPath :: MayOmit(t, withPort, withPath) && url == Spelling(t, withPort, withPath)
  {
    if Scheme(true) <= url {
      assert url == Scheme(true) + url[6..];
      RestSpelled(true, url[6..]);
    } else {
      assert url == Scheme(false) + url[5..];
      RestSpelled(false, url[5..]);
    }
  }

  /** Exactly which URLs give a target: its spellings, with the port left out only when it is the
      scheme's default (80, or 443 with TLS; section 3 of RFC 6455) and the path only when it is
      "/". */
  lemma {:induction false} AcceptedExactly(url: string, t: Target)
    ensures Parse(url) == Some(t)
       <==> Printable(t) && exists withPort, withPath :: MayOmit(t, withPort, withPath) && url == Spelling(t, withPort, withPath)
  {
    if Parse(url) == Some(t) {
      AcceptedSpelled(url);
    }
    forall withPort, withPath | Printable(t) && MayOmit(t, withPort, withPath)
      ensures Parse(Spelling(t, withPort, withPath)) == Some(t)
    {
      SpellingRead(t, withPort, withPath);
    }
  }

  /** Parsing inverts printing exactly on the printable targets. */
  lemma {:induction false} ParseInvertsPrint(t: Target)
    ensures Parse(Print(t)) == Some(t) <==> Printable(t)
  {
    if Printable(t) {
      SpellingRead(t, true, true);
    }
    if Parse(Print(t)) == Some(t) {
      AcceptedSpelled(Print(t));
    }
  }

  /** Printing what was parsed and parsing it again changes nothing more. */
  lemma {:induction false} ReparseIsFixed(url: string)
    requires Parse(url).Some?
    ensures Parse(Print(Parse(url).value)) == Parse(url)
  {
    AcceptedSpelled(url);
    ParseInvertsPrint(Parse(url).value);
  }

  // ----- The accepted URLs, spelled out -----

  /** The forms a URL of `t` can take: the port may be missing when it is 443 with TLS or 80
      without, the path when it is "/". */
  ghost predicate IsUrlOf(t: Target, url: string) {
    var authority := (if t.tls then "wss://" else "ws://") + t.host;
    var defaultPort := t.port == if t.tls then "443" else "80";
    || url == authority + ":" + t.port + t.path
    || (t.path == "/" && url == authority + ":" + t.port)
    || (defaultPort && url == authority + t.path)
    || (defaultPort && t.path == "/" && url == authority)
  }

  lemma {:induction false} FormsAreSpellings(t: Target, url: string)
    ensures IsUrlOf(t, url) <==> exists withPort, withPath :: MayOmit(t, withPort, withPath) && url == Spelling(t, withPort, withPath)
  {
    var authority := (if t.tls then "wss://" else "ws://") + t.host;
    assert Spelling(t, true, true) == authority + ":" + t.port + t.path;
    assert Spelling(t, true, false) == authority + ":" + t.port;
    assert Spelling(t, false, true) == authority + t.path;
    assert Spelling(t, false, false) == authority;
    assert MayOmit(t, true, true);
    assert MayOmit(t, true, false) <==> t.path == "/";
  }

  /** Exactly which URLs give which target, without the functions that take them apart. */
  lemma {:induction false} AcceptedForms(url: string, t: Target)
    ensures Parse(url) == Some(t) <==>
              && t.host != "" && '/' !in t.host && ':' !in t.host
              && t.port != "" && '/' !in t.port
              && t.path != "" && t.path[0] == '/'
              && IsUrlOf(t, url)
  {
    hide Parse, Spelling, MayOmit, IsUrlOf;
    AcceptedExactly(url, t);
    FormsAreSpellings(t, url);
  }
}
