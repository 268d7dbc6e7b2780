/**
 * URL splitting of the HTTP client (Client::parseUrl): a URL
 * `protocol "://" host [":" port] [path]` is cut into its parts, with a
 * default port when none is given.
 */
module Url {
  import opened Wrappers
  import opened Text

  datatype Url = Url(protocol: string, host: string, port: int, path: string)

  const Separator: string := "://"

  /** The port used when the host part names none. */
  function DefaultPort(protocol: string): int {
    if protocol == "http" then 80
    else if protocol == "https" then 443
    else 80
  }

  /** `s` holds no complete occurrence of "://". */
  predicate NoSeparator(s: string) {
    forall i :: 0 <= i <= |s| ==> !OccursAt(s, Separator, i)
  }

  /**
   * Client::parseUrl. Fails when the URL holds no "://", or when the
   * host part has a ':' and the text after it is not an int.
   */
  function ParseUrl(url: string): (r: Option<Url>)
    ensures Find(url, Separator).None? ==> r.None?
    ensures r.Some? ==> NoSeparator(r.value.protocol)
    ensures r.Some? ==> '/' !in r.value.host && ':' !in r.value.host
    ensures r.Some? ==> r.value.path == [] || r.value.path[0] == '/'
    ensures r.Some? ==> IntMin <= r.value.port <= IntMax
  {
    match Find(url, Separator)
    case None => None
    case Some(i) =>
      assert forall k :: 0 <= k <= i ==> OccursAt(url[..i], Separator, k) ==> OccursAt(url, Separator, k);
      ParseAt(url, i)
  }

  /** The URL cut at a "://" that starts at index `i`. */
  function ParseAt(url: string, i: nat): Option<Url>
    requires i + 3 <= |url|
  {
    var (hostPort, path) := SplitPath(url[i + 3..]);
    SplitPort(url[..i], hostPort, path)
  }

  /** The text after "://" cut at its first '/': host part and path. */
  function SplitPath(rest: string): (r: (string, string))
    ensures '/' !in r.0 && (r.1 == [] || r.1[0] == '/') && rest == r.0 + r.1
  {
    match FindChar(rest, '/')
    case None => (rest, "")
    case Some(j) => (rest[..j], rest[j..])
  }

  /** The host part cut at its first ':', the text after it read as the port. */
  function SplitPort(protocol: string, hostPort: string, path: string): (r: Option<Url>)
    requires '/' !in hostPort
    ensures r.Some? ==> r.value.protocol == protocol && r.value.path == path
    ensures r.Some? ==> '/' !in r.value.host && ':' !in r.value.host
    ensures r.Some? ==> IntMin <= r.value.port <= IntMax
    ensures r.None? <==> ':' in hostPort && LexicalCastInt(hostPort[FindChar(hostPort, ':').value + 1..]).None?
    ensures r.Some? ==> |r.value.host| <= |hostPort| && hostPort[..|r.value.host|] == r.value.host
    ensures r.Some? && |r.value.host| == |hostPort| ==> r.value.port == DefaultPort(protocol)
    ensures r.Some? && |r.value.host| < |hostPort| ==>
      hostPort[|r.value.host|] == ':' && LexicalCastInt(hostPort[|r.value.host| + 1..]) == Some(r.value.port)
  {
    match FindChar(hostPort, ':')
    case None => Some(Url(protocol, hostPort, DefaultPort(protocol), path))
    case Some(k) =>
      match LexicalCastInt(hostPort[k + 1..])
      case None => None
      case Some(port) =>
        assert ':' !in hostPort[..k];
        Some(Url(protocol, hostPort[..k], port, path))
  }

  /**
   * What ParseUrl answers for any URL holding "://": the protocol is the
   * text before the first one; after it, the host part runs up to the
   * first '/' and the path is the rest. The host is the host part up to
   * its first ':'; with no ':' the port is the protocol's default,
   * otherwise the text after the ':' must read as an int and is the
   * port, and when it does not the URL is refused.
   */
  lemma ParseUrlMeaning(url: string)
    requires Find(url, Separator).Some?
    ensures Find(url, Separator).value + 3 <= |url|
    ensures var i := Find(url, Separator).value;
      var rest := url[i + 3..];
      var hostPort := SplitPath(rest).0;
      (ParseUrl(url).None? <==>
         ':' in hostPort && LexicalCastInt(hostPort[FindChar(hostPort, ':').value + 1..]).None?) &&
      (ParseUrl(url).Some? ==>
         var u := ParseUrl(url).value;
         u.protocol == url[..i] && rest == hostPort + u.path &&
         |u.host| <= |hostPort| && hostPort[..|u.host|] == u.host &&
         (|u.host| == |hostPort| ==> u.port == DefaultPort(u.protocol)) &&
         (|u.host| < |hostPort| ==>
            hostPort[|u.host|] == ':' && LexicalCastInt(hostPort[|u.host| + 1..]) == Some(u.port)))
  {
    var i := Find(url, Separator).value;
    assert OccursAt(url, Separator, i);
    assert ParseUrl(url) == ParseAt(url, i);
  }

  /** The first "://" of `p + "://" + s` is the one after `p` when `p` holds none. */
  lemma SeparatorAfterProtocol(p: string, s: string)
    requires NoSeparator(p)
    ensures Find(p + Separator + s, Separator) == Some(|p|)
  {
    var u := p + Separator + s;
    assert OccursAt(u, Separator, |p|);
    forall i | 0 <= i < |p| ensures !OccursAt(u, Separator, i) {
      if i + 3 <= |p| {
        assert u[i..i + 3] == p[i..i + 3];
        assert !OccursAt(p, Separator, i);
      } else {
        assert u[|p|] == ':';
      }
    }
  }

  /**
   * A URL assembled from a protocol without "://", a host and optional
   * ":port" text without '/', and a path that is empty or starts with
   * '/' splits at the "://" after the protocol and at the first '/'
   * after it, so the host part is then cut as SplitPort cuts it.
   */
  lemma ParseComposedUrl(protocol: string, hostPort: string, path: string)
    requires NoSeparator(protocol)
    requires '/' !in hostPort
    requires path == [] || path[0] == '/'
    ensures ParseUrl(protocol + Separator + hostPort + path) == SplitPort(protocol, hostPort, path)
  {
    var rest := hostPort + path;
    var url := protocol + Separator + rest;
    Assoc(protocol + Separator, hostPort, path);
    ComposedParts(protocol, rest);
    SplitPathComposed(hostPort, path);
  }

  /** In `protocol + "://" + rest`, the first "://" is the one after the protocol. */
  lemma ComposedParts(protocol: string, rest: string)
    requires NoSeparator(protocol)
    ensures var url := protocol + Separator + rest;
      Find(url, Separator) == Some(|protocol|) && url[..|protocol|] == protocol &&
      url[|protocol| + 3..] == rest
  {
    SeparatorAfterProtocol(protocol, rest);
    Assoc(protocol, Separator, rest);
    TakeAppend(protocol, Separator + rest);
    DropPast(protocol, Separator + rest, |protocol| + 3);
    DropPast(Separator, rest, 3);
    assert rest[0..] == rest;
  }

  lemma SplitPathComposed(hostPort: string, path: string)
    requires '/' !in hostPort
    requires path == [] || path[0] == '/'
    ensures SplitPath(hostPort + path) == (hostPort, path)
  {
    var rest := hostPort + path;
    if path == [] {
      assert rest == hostPort;
    } else {
      assert rest[|hostPort|] == '/';
      assert rest[..|hostPort|] == hostPort;
      assert rest[|hostPort|..] == path;
    }
  }

  /** The text of a URL with an explicit port, as a caller would write it. */
  function FormatUrl(u: Url): string
    requires u.port >= 0
  {
    u.protocol + Separator + u.host + ":" + DecimalString(u.port) + u.path
  }

  /** Splitting a URL written with an explicit port gives back its parts. */
  lemma ParseFormatRoundTrip(u: Url)
    requires NoSeparator(u.protocol)
    requires '/' !in u.host && ':' !in u.host
    requires 0 <= u.port <= IntMax
    requires u.path == [] || u.path[0] == '/'
    ensures ParseUrl(FormatUrl(u)) == Some(u)
  {
    var hostPort := u.host + ":" + DecimalString(u.port);
    FormatUrlParts(u);
    HostPortParts(u.host, DecimalString(u.port));
    LexicalOfDecimal(u.port);
    ParseComposedUrl(u.protocol, hostPort, u.path);
  }

  lemma FormatUrlParts(u: Url)
    requires u.port >= 0
    ensures FormatUrl(u) == u.protocol + Separator + (u.host + ":" + DecimalString(u.port)) + u.path
  {
    var front := u.protocol + Separator;
    var digits := DecimalString(u.port);
    Assoc(front, u.host + ":", digits);
    Assoc(front, u.host, ":");
  }

  /** The host part `host:digits` splits at the ':' that follows the host. */
  lemma HostPortParts(host: string, digits: string)
    requires ':' !in host
    ensures var hostPort := host + ":" + digits;
      FindChar(hostPort, ':') == Some(|host|) && hostPort[..|host|] == host && hostPort[|host| + 1..] == digits
  {
    Assoc(host, ":", digits);
    TakeAppend(host, ":" + digits);
    DropPast(host, ":" + digits, |host| + 1);
    DropPast(":", digits, 1);
    assert digits[0..] == digits;
  }

  /** boost::lexical_cast<int> reads back the decimal form of a non-negative int. */
  lemma LexicalOfDecimal(n: int)
    requires 0 <= n <= IntMax
    ensures LexicalCastInt(DecimalString(n)) == Some(n)
  {
    DecimalRoundTrip(n);
    assert IsDigit(DecimalString(n)[0]);
  }

  /** Without an explicit port, "https" gets 443 and every other protocol 80. */
  lemma DefaultPortOfUrl(protocol: string, host: string, path: string)
    requires NoSeparator(protocol)
    requires '/' !in host && ':' !in host
    requires path == [] || path[0] == '/'
    ensures ParseUrl(protocol + Separator + host + path) ==
      Some(Url(protocol, host, if protocol == "https" then 443 else 80, path))
  {
    ParseComposedUrl(protocol, host, path);
  }

  /** A URL without "://" is rejected. */
  lemma RejectsWithoutSeparator(url: string)
    requires NoSeparator(url)
    ensures ParseUrl(url).None?
  {
  }
}
