/**
 * Http::Client, the object an application holds: it keeps the timeout
 * and the response-size cap, owns at most one Impl, and picks a plain
 * or a TLS Impl from the URL's protocol.
 */
module HttpClient {
  import opened Wrappers
  import opened Text
  import opened Urls = Url
  import opened Request
  import opened Pipeline
  import opened Connection

  /** Seconds an asynchronous step may take, unless changed. */
  const DefaultTimeout: int := 10

  /** Largest response accepted, in bytes, unless changed (0 would mean no limit). */
  const DefaultMaximumResponseSize: nat := 64 * 1024

  /** Whether `protocol` gets an Impl, and whether that Impl is the TLS one. */
  function ImplKind(protocol: string): (r: Option<bool>)
    ensures r.Some? <==> protocol == "http" || protocol == "https"
    ensures r.Some? ==> (r.value <==> protocol == "https")
  {
    if protocol == "http" then Some(false)
    else if protocol == "https" then Some(true)
    else None
  }

  /** What Client::request decides before it creates an Impl: the parsed URL and the kind of Impl, or None when it returns false. */
  function Dispatch(url: string, haveIoService: bool): (r: Option<(Url, bool)>)
    ensures r.Some? <==> haveIoService && ParseUrl(url).Some? && ImplKind(ParseUrl(url).value.protocol).Some?
    ensures r.Some? ==> r.value.0 == ParseUrl(url).value && (r.value.1 <==> r.value.0.protocol == "https")
  {
    if !haveIoService then None
    else match ParseUrl(url)
      case None => None
      case Some(u) =>
        match ImplKind(u.protocol)
        case None => None
        case Some(secure) => Some((u, secure))
  }

  /** A URL written with an http or https protocol and an explicit port is accepted with its parts. */
  lemma DispatchComposed(protocol: string, host: string, port: int, path: string)
    requires protocol == "http" || protocol == "https"
    requires '/' !in host && ':' !in host && (path == [] || path[0] == '/')
    requires 0 <= port <= IntMax
    ensures Dispatch(FormatUrl(Url(protocol, host, port, path)), true)
         == Some((Url(protocol, host, port, path), protocol == "https"))
  {
    forall i | 0 <= i <= |protocol|
      ensures !OccursAt(protocol, Separator, i)
    {
      if i + 3 <= |protocol| {
        assert protocol[i..i + 3][1] == protocol[i + 1] != ':';
      }
    }
    ParseFormatRoundTrip(Url(protocol, host, port, path));
  }

  /** A protocol other than http and https is refused, whatever follows it. */
  lemma UnsupportedProtocolRefused(url: string)
    requires ParseUrl(url).Some?
    requires ParseUrl(url).value.protocol != "http" && ParseUrl(url).value.protocol != "https"
    ensures Dispatch(url, true).None?
  {
  }

  class Client {
    var timeout: int
    var maximumResponseSize: nat
    var impl: Impl?

    constructor()
      ensures timeout == DefaultTimeout && maximumResponseSize == DefaultMaximumResponseSize
      ensures impl == null
    {
      timeout := DefaultTimeout;
      maximumResponseSize := DefaultMaximumResponseSize;
      impl := null;
    }

    method SetTimeout(seconds: int)
      modifies this
      ensures timeout == seconds && maximumResponseSize == old(maximumResponseSize) && impl == old(impl)
    {
      timeout := seconds;
    }

    method SetMaximumResponseSize(bytes: nat)
      modifies this
      ensures maximumResponseSize == bytes && timeout == old(timeout) && impl == old(impl)
    {
      maximumResponseSize := bytes;
    }

    /** Client::abort: stop the current Impl, if any, and drop it. Nothing is reported. */
    method Abort()
      modifies this, impl
      ensures impl == null
      ensures timeout == old(timeout) && maximumResponseSize == old(maximumResponseSize)
      ensures old(impl) != null ==> old(impl).Snapshot() == OnStop(old(impl.Snapshot()))
      ensures old(impl) != null ==> !old(impl).net.socketOpen && old(impl).reported == old(impl.reported)
    {
      if impl != null {
        impl.Stop();
      }
      impl := null;
    }

    /**
     * Client::request. `haveIoService` says whether an I/O service was
     * found (the application's, the client's own, or the server's). On
     * success a new Impl of the right kind holds the serialised request
     * and waits for the resolver; otherwise nothing changes.
     */
    method Request(verb: Method, url: string, msg: Message, haveIoService: bool) returns (ok: bool)
      modifies this
      ensures ok <==> Dispatch(url, haveIoService).Some?
      ensures timeout == old(timeout) && maximumResponseSize == old(maximumResponseSize)
      ensures !ok ==> impl == old(impl)
      ensures ok ==> fresh(impl)
      ensures ok ==>
        var (u, secure) := Dispatch(url, haveIoService).value;
        impl.Snapshot() ==
          OnRequest(Initial(secure).(config := Config(secure, timeout, maximumResponseSize, "")),
                    MethodName(verb), u.host, u.port, u.path, msg)
      ensures ok ==>
        impl.config.requestBuf == RequestText(MethodName(verb), Dispatch(url, haveIoService).value.0.host,
                                              Dispatch(url, haveIoService).value.0.path, msg)
    {
      var d := Dispatch(url, haveIoService);
      if d.None? {
        return false;
      }
      var (u, secure) := d.value;
      var c := new Impl(secure);
      c.SetTimeout(timeout);
      c.SetMaximumResponseSize(maximumResponseSize);
      c.Request(MethodName(verb), u.host, u.port, u.path, msg);
      AppendEmpty(RequestText(MethodName(verb), u.host, u.path, msg));
      impl := c;
      ok := true;
    }

    method Get(url: string, headers: seq<Header>, haveIoService: bool) returns (ok: bool)
      modifies this
      ensures ok <==> Dispatch(url, haveIoService).Some?
      ensures timeout == old(timeout) && maximumResponseSize == old(maximumResponseSize)
      ensures !ok ==> impl == old(impl)
      ensures ok ==> fresh(impl)
      ensures ok ==>
        var (u, secure) := Dispatch(url, haveIoService).value;
        impl.Snapshot() ==
          OnRequest(Initial(secure).(config := Config(secure, timeout, maximumResponseSize, "")),
                    "GET", u.host, u.port, u.path, Message(headers, ""))
      ensures ok ==>
        impl.config.requestBuf == RequestText("GET", Dispatch(url, haveIoService).value.0.host,
                                       Dispatch(url, haveIoService).value.0.path, Message(headers, ""))
    {
      ok := Request(Method.Get, url, Message(headers, ""), haveIoService);
    }

    method Post(url: string, msg: Message, haveIoService: bool) returns (ok: bool)
      modifies this
      ensures ok <==> Dispatch(url, haveIoService).Some?
      ensures timeout == old(timeout) && maximumResponseSize == old(maximumResponseSize)
      ensures !ok ==> impl == old(impl)
      ensures ok ==> fresh(impl)
      ensures ok ==>
        var (u, secure) := Dispatch(url, haveIoService).value;
        impl.Snapshot() ==
          OnRequest(Initial(secure).(config := Config(secure, timeout, maximumResponseSize, "")),
                    "POST", u.host, u.port, u.path, msg)
      ensures ok ==>
        impl.config.requestBuf == RequestText("POST", Dispatch(url, haveIoService).value.0.host,
                                       Dispatch(url, haveIoService).value.0.path, msg)
    {
      ok := Request(Method.Post, url, msg, haveIoService);
    }

    method Put(url: string, msg: Message, haveIoService: bool) returns (ok: bool)
      modifies this
      ensures ok <==> Dispatch(url, haveIoService).Some?
      ensures timeout == old(timeout) && maximumResponseSize == old(maximumResponseSize)
      ensures !ok ==> impl == old(impl)
      ensures ok ==> fresh(impl)
      ensures ok ==>
        var (u, secure) := Dispatch(url, haveIoService).value;
        impl.Snapshot() ==
          OnRequest(Initial(secure).(config := Config(secure, timeout, maximumResponseSize, "")),
                    "PUT", u.host, u.port, u.path, msg)
      ensures ok ==>
        impl.config.requestBuf == RequestText("PUT", Dispatch(url, haveIoService).value.0.host,
                                       Dispatch(url, haveIoService).value.0.path, msg)
    {
      ok := Request(Method.Put, url, msg, haveIoService);
    }

    method DeleteRequest(url: string, msg: Message, haveIoService: bool) returns (ok: bool)
      modifies this
      ensures ok <==> Dispatch(url, haveIoService).Some?
      ensures timeout == old(timeout) && maximumResponseSize == old(maximumResponseSize)
      ensures !ok ==> impl == old(impl)
      ensures ok ==> fresh(impl)
      ensures ok ==>
        var (u, secure) := Dispatch(url, haveIoService).value;
        impl.Snapshot() ==
          OnRequest(Initial(secure).(config := Config(secure, timeout, maximumResponseSize, "")),
                    "DELETE", u.host, u.port, u.path, msg)
      ensures ok ==>
        impl.config.requestBuf == RequestText("DELETE", Dispatch(url, haveIoService).value.0.host,
                                       Dispatch(url, haveIoService).value.0.path, msg)
    {
      ok := Request(Method.Delete, url, msg, haveIoService);
    }
  }
}
