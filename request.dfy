/**
 * Serialisation of an HTTP/1.0 request (the first half of
 * Client::Impl::request): request line, Host header, the caller's
 * headers, a synthesised Content-Length, "Connection: close" and the
 * body, following sections 5.1, 4.2 and 10.4 of RFC 1945.
 */
module Request {
  import opened Text

  datatype Header = Header(name: string, value: string)

  /** Http::Message as far as a request uses it: ordered headers and a body. */
  datatype Message = Message(headers: seq<Header>, body: string)

  /** The four request methods of Http::Method, in their enum order. */
  datatype Method = Get | Post | Put | Delete

  /** The method names Client::request passes down (its methodNames_ table). */
  function MethodName(m: Method): string {
    match m
    case Get => "GET"
    case Post => "POST"
    case Put => "PUT"
    case Delete => "DELETE"
  }

  /** The methods for which the body is sent. */
  predicate SendsBody(verb: string) {
    verb == "POST" || verb == "PUT" || verb == "DELETE"
  }

  lemma SendsBodyOfMethod(m: Method)
    ensures SendsBody(MethodName(m)) <==> m != Get
  {
  }

  /** One header line on the wire. */
  function HeaderLine(h: Header): string {
    h.name + ": " + h.value + "\r\n"
  }

  /** The header lines of `hs`, in order. */
  function HeaderLines(hs: seq<Header>): string {
    if hs == [] then "" else HeaderLines(hs[..|hs| - 1]) + HeaderLine(hs[|hs| - 1])
  }

  /** Number of headers in `hs` whose name is exactly `name` (no case folding). */
  function CountNamed(hs: seq<Header>, name: string): nat {
    if hs == [] then 0
    else CountNamed(hs[..|hs| - 1], name) + (if hs[|hs| - 1].name == name then 1 else 0)
  }

  const ContentLength: string := "Content-Length"

  /** The Content-Length header the client adds, if any: only when the body is sent and the caller gave none. */
  function SynthesisedLength(verb: string, msg: Message): seq<Header> {
    if SendsBody(verb) && CountNamed(msg.headers, ContentLength) == 0
    then [Header(ContentLength, DecimalString(|msg.body|))]
    else []
  }

  /** Every header the request carries, in the order it carries them. */
  function RequestHeaders(verb: string, server: string, msg: Message): seq<Header> {
    [Header("Host", server)] + msg.headers + SynthesisedLength(verb, msg) + [Header("Connection", "close")]
  }

  function RequestLine(verb: string, path: string): string {
    verb + " " + path + " HTTP/1.0\r\n"
  }

  /** The complete request: request line, header lines, blank line, and the body when it is sent. */
  function RequestText(verb: string, server: string, path: string, msg: Message): string {
    RequestLine(verb, path) + HeaderLines(RequestHeaders(verb, server, msg)) + "\r\n"
      + (if SendsBody(verb) then msg.body else "")
  }

  lemma {:induction false} HeaderLinesAppend(a: seq<Header>, b: seq<Header>)
    ensures HeaderLines(a + b) == HeaderLines(a) + HeaderLines(b)
    decreases |b|
  {
    if b == [] {
      assert a + b == a;
      AppendEmpty(HeaderLines(a));
    } else {
      var b' := b[..|b| - 1];
      var last := HeaderLine(b[|b| - 1]);
      assert (a + b)[..|a + b| - 1] == a + b';
      assert HeaderLines(a + b) == HeaderLines(a + b') + last;
      HeaderLinesAppend(a, b');
      Assoc(HeaderLines(a), HeaderLines(b'), last);
    }
  }

  lemma {:induction false} CountNamedAppend(a: seq<Header>, b: seq<Header>, name: string)
    ensures CountNamed(a + b, name) == CountNamed(a, name) + CountNamed(b, name)
    decreases |b|
  {
    if b == [] {
      assert a + b == a;
    } else {
      var b' := b[..|b| - 1];
      assert (a + b)[..|a + b| - 1] == a + b';
      CountNamedAppend(a, b', name);
    }
  }

  /**
   * Builds the request into a buffer as Client::Impl::request does:
   * request line and Host, one pass over the caller's headers, then the
   * synthesised Content-Length, "Connection: close" and the body.
   */
  method SerializeRequest(verb: string, server: string, path: string, msg: Message) returns (buf: string)
    ensures buf == RequestText(verb, server, path, msg)
  {
    var host := Header("Host", server);
    var callers, haveContentLength := WriteHeaders(msg.headers);
    buf := RequestLine(verb, path) + HeaderLine(host) + callers;
    ghost var head := buf;
    ghost var syn := SynthesisedLength(verb, msg);
    if SendsBody(verb) && !haveContentLength {
      buf := buf + HeaderLine(Header(ContentLength, DecimalString(|msg.body|)));
      HeaderLinesSingle(syn[0]);
    } else {
      assert syn == [];
      AppendEmpty(buf);
    }
    assert buf == head + HeaderLines(syn);
    buf := buf + HeaderLine(Header("Connection", "close")) + "\r\n";
    ghost var whole := buf;
    if SendsBody(verb) {
      buf := buf + msg.body;
    } else {
      AppendEmpty(buf);
    }
    assert buf == whole + (if SendsBody(verb) then msg.body else "");
    RequestTextParts(verb, server, path, msg);
  }

  /**
   * The loop over the caller's headers: their lines in order, and
   * whether one of them is named exactly "Content-Length".
   */
  method WriteHeaders(hs: seq<Header>) returns (lines: string, haveContentLength: bool)
    ensures lines == HeaderLines(hs)
    ensures haveContentLength <==> CountNamed(hs, ContentLength) > 0
  {
    lines := "";
    haveContentLength := false;
    var i := 0;
    while i < |hs|
      invariant 0 <= i <= |hs|
      invariant lines == HeaderLines(hs[..i])
      invariant haveContentLength <==> CountNamed(hs[..i], ContentLength) > 0
    {
      var h := hs[i];
      if h.name == ContentLength {
        haveContentLength := true;
      }
      lines := lines + HeaderLine(h);
      assert hs[..i + 1] == hs[..i] + [h];
      HeaderLinesSnoc(hs[..i], h);
      CountNamedSnoc(hs[..i], h, ContentLength);
      i := i + 1;
    }
    assert hs[..i] == hs;
  }

  lemma RequestTextParts(verb: string, server: string, path: string, msg: Message)
    ensures RequestText(verb, server, path, msg) ==
      RequestLine(verb, path) + HeaderLine(Header("Host", server)) + HeaderLines(msg.headers)
      + HeaderLines(SynthesisedLength(verb, msg)) + HeaderLine(Header("Connection", "close")) + "\r\n"
      + (if SendsBody(verb) then msg.body else "")
  {
    var line := RequestLine(verb, path);
    var a := HeaderLine(Header("Host", server));
    var b := HeaderLines(msg.headers);
    var c := HeaderLines(SynthesisedLength(verb, msg));
    var d := HeaderLine(Header("Connection", "close"));
    var lines := HeaderLines(RequestHeaders(verb, server, msg));
    RequestHeaderLines(server, msg.headers, SynthesisedLength(verb, msg));
    assert lines == a + b + c + d;
    calc {
      line + (a + b + c + d);
      { Assoc(line, a + b + c, d); }
      line + (a + b + c) + d;
      { Assoc(line, a + b, c); }
      line + (a + b) + c + d;
      { Assoc(line, a, b); }
      line + a + b + c + d;
    }
  }

  lemma HeaderLinesSingle(h: Header)
    ensures HeaderLines([h]) == HeaderLine(h)
  {
    HeaderLinesSnoc([], h);
    assert [] + [h] == [h];
    AppendEmpty(HeaderLine(h));
  }

  /** The header lines of the request's headers, taken apart. */
  lemma RequestHeaderLines(server: string, hs: seq<Header>, syn: seq<Header>)
    ensures HeaderLines([Header("Host", server)] + hs + syn + [Header("Connection", "close")]) ==
      HeaderLine(Header("Host", server)) + HeaderLines(hs) + HeaderLines(syn) + HeaderLine(Header("Connection", "close"))
  {
    var host := [Header("Host", server)];
    var conn := Header("Connection", "close");
    HeaderLinesSnoc(host + hs + syn, conn);
    HeaderLinesAppend(host + hs, syn);
    HeaderLinesAppend(host, hs);
    HeaderLinesSingle(host[0]);
  }

  lemma HeaderLinesSnoc(a: seq<Header>, h: Header)
    ensures HeaderLines(a + [h]) == HeaderLines(a) + HeaderLine(h)
  {
    assert (a + [h])[..|a|] == a;
  }

  lemma CountNamedSnoc(a: seq<Header>, h: Header, name: string)
    ensures CountNamed(a + [h], name) == CountNamed(a, name) + (if h.name == name then 1 else 0)
  {
    assert (a + [h])[..|a|] == a;
  }

  /**
   * The request carries exactly one Content-Length header when the body
   * is sent and the caller gave none, and then its value is the body
   * length in decimal; otherwise it carries just the caller's ones.
   */
  lemma ContentLengthHeaders(verb: string, server: string, msg: Message)
    ensures var hs := RequestHeaders(verb, server, msg);
      CountNamed(hs, ContentLength) ==
        if SendsBody(verb) && CountNamed(msg.headers, ContentLength) == 0 then 1
        else CountNamed(msg.headers, ContentLength)
    ensures SendsBody(verb) && CountNamed(msg.headers, ContentLength) == 0 ==>
      RequestHeaders(verb, server, msg)[|msg.headers| + 1] == Header(ContentLength, DecimalString(|msg.body|))
  {
    var host := [Header("Host", server)];
    var syn := SynthesisedLength(verb, msg);
    var conn := [Header("Connection", "close")];
    CountNamedAppend(host, msg.headers, ContentLength);
    CountNamedAppend(host + msg.headers, syn, ContentLength);
    CountNamedAppend(host + msg.headers + syn, conn, ContentLength);
    assert CountNamed(host, ContentLength) == 0 by {
      assert host[..0] == [];
    }
    assert CountNamed(conn, ContentLength) == 0 by {
      assert conn[..0] == [];
    }
    if syn != [] {
      assert syn[..0] == [];
    }
  }

  /** The caller's headers reach the wire unchanged and in their order, right after Host. */
  lemma CallerHeadersInOrder(verb: string, server: string, msg: Message)
    ensures var hs := RequestHeaders(verb, server, msg);
      |hs| >= |msg.headers| + 2 && hs[0] == Header("Host", server) &&
      hs[1..|msg.headers| + 1] == msg.headers && hs[|hs| - 1] == Header("Connection", "close")
  {
  }

  /** The body goes out verbatim at the end for POST, PUT and DELETE, and never for other methods. */
  lemma BodyPlacement(verb: string, server: string, path: string, msg: Message)
    ensures var t := RequestText(verb, server, path, msg);
      var head := RequestLine(verb, path) + HeaderLines(RequestHeaders(verb, server, msg)) + "\r\n";
      if SendsBody(verb) then t == head + msg.body else t == head
  {
  }
}
