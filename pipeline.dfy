/**
 * The request pipeline of Client::Impl as a state machine: each
 * asynchronous completion handler (handleResolve, handleConnect,
 * handleHandshake, handleWriteRequest, handleReadStatusLine,
 * handleReadHeaders, handleReadContent), the watchdog callback
 * `timeout`, and `stop`, written as a function from the state before
 * the callback to the state after it.
 */
module Pipeline {
  import opened Wrappers
  import opened Text
  import opened Request
  import opened Response

  /**
   * The error codes the client stores in err_. The named ones are the
   * codes the source compares against or sets; Failure carries any
   * other code by its numeric value.
   */
  datatype ErrorCode =
    | Success           // the default error_code: no error
    | TimedOut          // asio::error::timed_out, set by the watchdog
    | MessageSize       // asio::error::message_size, the response-size cap
    | ProtocolError     // errc::protocol_error, a malformed status line
    | Eof               // asio::error::eof
    | ShutDown          // asio::error::shut_down
    | OperationAborted  // asio::error::operation_aborted, a cancelled wait
    | Failure(value: NonZero)

  /** A numeric error code that is set: zero is Success. */
  type NonZero = x: int | x != 0 witness 1

  /** The numeric code the body loop also treats as end of data (OpenSSL's short read). */
  const ShortReadValue: int := 335544539

  /** The errors with which handleReadContent ends the body without reporting an error. */
  predicate EndsBody(e: ErrorCode) {
    e == Eof || e == ShutDown || (e.Failure? && e.value == ShortReadValue)
  }

  datatype Endpoint = Endpoint(address: string, port: int)

  /** Which asynchronous operation is outstanding; Finished when none is. */
  datatype Stage =
    | Idle | Resolving | Connecting | Handshaking | WritingRequest
    | ReadingStatusLine | ReadingHeaders | ReadingContent | Finished

  /** The stages in which an operation is outstanding. */
  predicate Pending(s: Stage) {
    s != Idle && s != Finished
  }

  /** What the Impl is set up with: TLS or not, the watchdog period, the size cap, and the request bytes. */
  datatype Config = Config(secure: bool, timeout: int, maxResponseSize: nat, requestBuf: string)

  /**
   * The socket and the endpoints: `query` is the host and port handed
   * to the resolver, `endpoints` the resolver's list, `attempted` the
   * endpoints a connect was issued to, in order, and `untried` the rest
   * (the endpoint iterator).
   */
  datatype Transport = Transport(
    socketOpen: bool, shutDown: bool, query: Endpoint,
    endpoints: seq<Endpoint>, attempted: seq<Endpoint>, untried: seq<Endpoint>)

  /**
   * What was received: `responseBuf` is what the asio stream buffer
   * holds, `responseSize` the bytes counted against the cap, and the
   * status, headers and body of the response message.
   */
  datatype Received = Received(responseBuf: string, responseSize: nat, status: nat, headers: seq<Header>, body: string)

  /**
   * The state of one Client::Impl. `reported` lists the value of err_
   * at each call of complete() (what emitDone hands to the listeners),
   * so its length is the number of completions.
   */
  datatype State = State(
    config: Config, stage: Stage, timerArmed: bool, err: ErrorCode, reported: seq<ErrorCode>,
    net: Transport, rx: Received)

  /** A freshly constructed Impl: no timeout, no size limit, nothing sent or received. */
  function Initial(secure: bool): State {
    State(Config(secure, 0, 0, ""), Idle, false, Success, [],
          Transport(false, false, Endpoint("", 0), [], [], []), Received("", 0, 0, [], ""))
  }

  /** complete(): report the current error once more. */
  function Complete(st: State): State {
    st.(reported := st.reported + [st.err])
  }

  /** A terminal error, after cancelTimer: record it, complete, and issue nothing further. */
  function Fail(st: State, e: ErrorCode): State {
    st.(timerArmed := false, err := e, reported := st.reported + [e], stage := Finished)
  }

  /** Impl::request: serialise the request, arm the watchdog and start resolving `server` and `port`. */
  function OnRequest(st: State, verb: string, server: string, port: int, path: string, msg: Message): State
    requires st.stage == Idle
  {
    st.(config := st.config.(requestBuf := st.config.requestBuf + RequestText(verb, server, path, msg)),
        net := st.net.(query := Endpoint(server, port)), timerArmed := true, stage := Resolving)
  }

  /** Re-arm the watchdog and connect to the first endpoint of `eps`. */
  function ConnectFirst(st: State, eps: seq<Endpoint>): State
    requires |eps| > 0
  {
    st.(timerArmed := true, stage := Connecting,
        net := st.net.(socketOpen := true, shutDown := false,
                       attempted := st.net.attempted + [eps[0]], untried := eps[1..]))
  }

  /** handleResolve: on success start connecting to the first endpoint, else fail with the resolver's error. */
  function OnResolve(st: State, e: ErrorCode, eps: seq<Endpoint>): State
    requires st.stage == Resolving
    requires e == Success ==> |eps| > 0
  {
    if e == Success then ConnectFirst(st.(net := st.net.(endpoints := eps)), eps)
    else Fail(st, e)
  }

  /**
   * handleConnect: on success start the handshake (a plain connection's
   * handshake succeeds at once); on failure close the socket and try the
   * next endpoint, or fail with the connect error after the last one.
   */
  function OnConnect(st: State, e: ErrorCode): State
    requires st.stage == Connecting
  {
    if e == Success then
      var st1 := st.(timerArmed := true, stage := Handshaking);
      if st.config.secure then st1 else OnHandshake(st1, Success)
    else if st.net.untried != [] then
      ConnectFirst(st.(net := st.net.(socketOpen := false)), st.net.untried)
    else
      Fail(st, e)
  }

  /** handleHandshake: on success write the request, else fail. */
  function OnHandshake(st: State, e: ErrorCode): State
    requires st.stage == Handshaking
  {
    if e == Success then st.(timerArmed := true, stage := WritingRequest)
    else Fail(st, e)
  }

  /** handleWriteRequest: on success read the status line, else fail. */
  function OnWrite(st: State, e: ErrorCode): State
    requires st.stage == WritingRequest
  {
    if e == Success then st.(timerArmed := true, stage := ReadingStatusLine)
    else Fail(st, e)
  }

  /** Whether counting `s` more bytes takes the response past a non-zero cap. */
  predicate OverCap(st: State, s: nat) {
    st.config.maxResponseSize != 0 && st.rx.responseSize + s > st.config.maxResponseSize
  }

  /** The start of each read handler: cancelTimer, with the bytes that arrived now in the buffer. */
  function Arrive(st: State, data: string): State {
    st.(timerArmed := false, rx := st.rx.(responseBuf := st.rx.responseBuf + data))
  }

  /**
   * addResponseSize: count `s` more bytes; past the cap, set
   * message_size and complete. It answers !OverCap(st, s).
   */
  function AddResponseSize(st: State, s: nat): State {
    var st1 := st.(rx := st.rx.(responseSize := st.rx.responseSize + s));
    if OverCap(st, s) then st1.(err := MessageSize, reported := st1.reported + [MessageSize]) else st1
  }

  /**
   * handleReadStatusLine. `s` is the byte count asio reports and `data`
   * the bytes that arrived in the buffer. A malformed status line sets
   * protocol_error and completes, and then the handler still stores the
   * status and starts the header read.
   */
  function OnStatusLine(st: State, e: ErrorCode, s: nat, data: string): State
    requires st.stage == ReadingStatusLine
  {
    if e != Success then Fail(st, e)
    else
      var st1 := AddResponseSize(Arrive(st, data), s);
      if OverCap(st, s) then st1.(stage := Finished) else TakeStatusLine(st1)
  }

  /** The part of handleReadStatusLine after the size check. */
  function TakeStatusLine(st: State): State {
    ApplyStatusLine(st, ReadStatusLine(st.rx.responseBuf))
  }

  /**
   * Store the outcome `p` of parsing the status line off the buffer:
   * report protocol_error if it is malformed, and in any case store the
   * status and issue the header read.
   */
  function ApplyStatusLine(st: State, p: StatusParse): State {
    var rx := st.rx.(responseBuf := p.rest, status := p.code);
    if p.ok then st.(rx := rx, timerArmed := true, stage := ReadingHeaders)
    else st.(rx := rx, err := ProtocolError, reported := st.reported + [ProtocolError],
             timerArmed := true, stage := ReadingHeaders)
  }

  /**
   * handleReadHeaders: the header lines become response headers in
   * order, whatever the buffer holds after them goes to the body, and
   * the body read starts.
   */
  function OnHeaders(st: State, e: ErrorCode, s: nat, data: string): State
    requires st.stage == ReadingHeaders
  {
    if e != Success then Fail(st, e)
    else
      var st1 := AddResponseSize(Arrive(st, data), s);
      if OverCap(st, s) then st1.(stage := Finished) else TakeHeaders(st1)
  }

  /** The part of handleReadHeaders after the size check. */
  function TakeHeaders(st: State): State {
    var block := ParseHeaderBlock(st.rx.responseBuf);
    st.(rx := st.rx.(headers := st.rx.headers + block.0, body := st.rx.body + block.1, responseBuf := []),
        timerArmed := true, stage := ReadingContent)
  }

  /**
   * handleReadContent: a chunk is appended to the body and the read is
   * issued again; end of data completes without touching err_; any
   * other error is reported.
   */
  function OnContent(st: State, e: ErrorCode, s: nat, data: string): State
    requires st.stage == ReadingContent
  {
    if e == Success then
      var st1 := AddResponseSize(Arrive(st, data), s);
      if OverCap(st, s) then st1.(stage := Finished)
      else st1.(rx := st1.rx.(body := st1.rx.body + st1.rx.responseBuf, responseBuf := []), timerArmed := true)
    else if !EndsBody(e) then Fail(st, e)
    else st.(timerArmed := false, reported := st.reported + [st.err], stage := Finished)
  }

  /** The watchdog callback: unless the wait was cancelled, shut the socket down and record timed_out. */
  function OnTimeout(st: State, e: ErrorCode): State {
    if e != OperationAborted then
      st.(net := st.net.(shutDown := st.net.shutDown || st.net.socketOpen), err := TimedOut)
    else st
  }

  /** Impl::stop: shut down and close the socket if it is open. */
  function OnStop(st: State): State {
    if st.net.socketOpen then st.(net := st.net.(socketOpen := false, shutDown := true)) else st
  }

  /** The callbacks the I/O service can deliver to an Impl. */
  datatype Event =
    | Resolved(e: ErrorCode, eps: seq<Endpoint>)
    | Connected(e: ErrorCode)
    | Handshaken(e: ErrorCode)
    | Written(e: ErrorCode)
    | StatusLineRead(e: ErrorCode, s: nat, data: string)
    | HeadersRead(e: ErrorCode, s: nat, data: string)
    | ContentRead(e: ErrorCode, s: nat, data: string)
    | TimerFired(e: ErrorCode)
    | Stopped

  /** A completion handler runs only for the operation that is outstanding; the watchdog and stop at any time. */
  predicate Enabled(st: State, ev: Event) {
    match ev
    case Resolved(e, eps) => st.stage == Resolving && (e == Success ==> |eps| > 0)
    case Connected(_) => st.stage == Connecting
    case Handshaken(_) => st.stage == Handshaking
    case Written(_) => st.stage == WritingRequest
    case StatusLineRead(_, _, _) => st.stage == ReadingStatusLine
    case HeadersRead(_, _, _) => st.stage == ReadingHeaders
    case ContentRead(_, _, _) => st.stage == ReadingContent
    case TimerFired(_) => true
    case Stopped => true
  }

  function Step(st: State, ev: Event): State
    requires Enabled(st, ev)
  {
    match ev
    case Resolved(e, eps) => OnResolve(st, e, eps)
    case Connected(e) => OnConnect(st, e)
    case Handshaken(e) => OnHandshake(st, e)
    case Written(e) => OnWrite(st, e)
    case StatusLineRead(e, s, data) => OnStatusLine(st, e, s, data)
    case HeadersRead(e, s, data) => OnHeaders(st, e, s, data)
    case ContentRead(e, s, data) => OnContent(st, e, s, data)
    case TimerFired(e) => OnTimeout(st, e)
    case Stopped => OnStop(st)
  }

  /** The state after a sequence of callbacks, or None if one of them could not have been delivered. */
  function Run(st: State, evs: seq<Event>): Option<State>
    decreases |evs|
  {
    if evs == [] then Some(st)
    else if !Enabled(st, evs[0]) then None
    else Run(Step(st, evs[0]), evs[1..])
  }

  /**
   * What holds of every state the pipeline reaches:
   * the watchdog is armed exactly while an operation is outstanding; a
   * finished pipeline has completed; an unfinished one has completed
   * only after a malformed status line; at most two completions, the
   * second only after that; the endpoint cursor only moves forward
   * through the resolved list; and nothing is outstanding once the
   * response exceeds the cap.
   */
  predicate Inv(st: State) {
    && (st.timerArmed <==> Pending(st.stage))
    && (st.stage == Finished ==> |st.reported| >= 1)
    && (st.stage != Finished && st.reported != [] ==>
          st.reported == [ProtocolError] && (st.stage == ReadingHeaders || st.stage == ReadingContent))
    && |st.reported| <= 2
    && (|st.reported| == 2 ==> st.reported[0] == ProtocolError)
    && st.net.attempted + st.net.untried == st.net.endpoints
    && (st.stage == Idle ==> st.reported == [] && st.rx.responseSize == 0)
    && (st.stage == Idle || st.stage == Resolving ==> st.net.attempted == [] && st.net.untried == [])
    && (Pending(st.stage) && st.stage != Resolving ==> |st.net.attempted| >= 1)
    && (st.stage != Finished && st.config.maxResponseSize != 0 ==> st.rx.responseSize <= st.config.maxResponseSize)
  }

  lemma InitialInv(secure: bool)
    ensures Inv(Initial(secure))
  {
  }

  lemma RequestInv(st: State, verb: string, server: string, port: int, path: string, msg: Message)
    requires Inv(st) && st.stage == Idle
    ensures Inv(OnRequest(st, verb, server, port, path, msg))
  {
  }

  lemma ResolveInv(st: State, e: ErrorCode, eps: seq<Endpoint>)
    requires Inv(st) && st.stage == Resolving && (e == Success ==> |eps| > 0)
    ensures Inv(OnResolve(st, e, eps))
  {
    if e == Success {
      assert [] + [eps[0]] + eps[1..] == eps;
    }
  }

  lemma ConnectInv(st: State, e: ErrorCode)
    requires Inv(st) && st.stage == Connecting
    ensures Inv(OnConnect(st, e))
  {
    if e != Success && st.net.untried != [] {
      var n := st.net;
      assert n.attempted + [n.untried[0]] + n.untried[1..] == n.attempted + n.untried;
    }
  }

  /** A read within the cap that was not reported leaves the invariant's facts about completions as they were. */
  lemma ReadWithinCap(st: State, s: nat, data: string)
    requires !OverCap(st, s)
    ensures AddResponseSize(Arrive(st, data), s).reported == st.reported
    ensures AddResponseSize(Arrive(st, data), s).net == st.net
    ensures AddResponseSize(Arrive(st, data), s).config == st.config
  {
  }

  lemma StatusLineInv(st: State, e: ErrorCode, s: nat, data: string)
    requires Inv(st) && st.stage == ReadingStatusLine
    ensures Inv(OnStatusLine(st, e, s, data))
  {
    if e == Success && !OverCap(st, s) {
      var st1 := AddResponseSize(Arrive(st, data), s);
      ReadWithinCap(st, s, data);
      assert st1.reported == [];
      ApplyStatusLineInv(st1, ReadStatusLine(st1.rx.responseBuf));
    }
  }

  /** Storing a status line leaves a pipeline that had not completed with at most protocol_error reported. */
  lemma ApplyStatusLineInv(st: State, p: StatusParse)
    requires st.reported == [] && st.stage == ReadingStatusLine
    requires st.net.attempted + st.net.untried == st.net.endpoints && |st.net.attempted| >= 1
    requires st.config.maxResponseSize != 0 ==> st.rx.responseSize <= st.config.maxResponseSize
    ensures Inv(ApplyStatusLine(st, p))
  {
    var st' := ApplyStatusLine(st, p);
    assert st'.net == st.net && st'.config == st.config && st'.rx.responseSize == st.rx.responseSize;
    assert st'.stage == ReadingHeaders && st'.timerArmed;
    if p.ok {
      assert st'.reported == [];
    } else {
      assert st'.reported == [ProtocolError];
    }
  }

  lemma HeadersInv(st: State, e: ErrorCode, s: nat, data: string)
    requires Inv(st) && st.stage == ReadingHeaders
    ensures Inv(OnHeaders(st, e, s, data))
  {
    if e == Success && !OverCap(st, s) {
      ReadWithinCap(st, s, data);
    }
  }

  lemma ContentInv(st: State, e: ErrorCode, s: nat, data: string)
    requires Inv(st) && st.stage == ReadingContent
    ensures Inv(OnContent(st, e, s, data))
  {
    if e == Success && !OverCap(st, s) {
      ReadWithinCap(st, s, data);
    }
  }

  /** Every callback keeps the invariant. */
  lemma StepInv(st: State, ev: Event)
    requires Inv(st) && Enabled(st, ev)
    ensures Inv(Step(st, ev))
  {
    match ev
    case Resolved(e, eps) => ResolveInv(st, e, eps);
    case Connected(e) => ConnectInv(st, e);
    case Handshaken(_) =>
    case Written(_) =>
    case StatusLineRead(e, s, data) => StatusLineInv(st, e, s, data);
    case HeadersRead(e, s, data) => HeadersInv(st, e, s, data);
    case ContentRead(e, s, data) => ContentInv(st, e, s, data);
    case TimerFired(_) =>
    case Stopped =>
  }

  /** Every state reachable from a state that satisfies the invariant satisfies it. */
  lemma {:induction false} RunInv(st: State, evs: seq<Event>)
    requires Inv(st)
    ensures Run(st, evs).Some? ==> Inv(Run(st, evs).value)
    decreases |evs|
  {
    if evs != [] && Enabled(st, evs[0]) {
      StepInv(st, evs[0]);
      RunInv(Step(st, evs[0]), evs[1..]);
    }
  }

  /**
   * At most one completion per read: either nothing is reported, or the
   * error the handler leaves in err_ is reported once.
   */
  predicate ReportsAtMostOnce(st: State, st': State) {
    st'.reported == st.reported || st'.reported == st.reported + [st'.err]
  }

  lemma StatusLineMonotone(st: State, e: ErrorCode, s: nat, data: string)
    requires st.stage == ReadingStatusLine
    ensures OnStatusLine(st, e, s, data).rx.responseSize >= st.rx.responseSize
    ensures ReportsAtMostOnce(st, OnStatusLine(st, e, s, data))
  {
    if e == Success && !OverCap(st, s) {
      ReadWithinCap(st, s, data);
    }
  }

  lemma HeadersMonotone(st: State, e: ErrorCode, s: nat, data: string)
    requires st.stage == ReadingHeaders
    ensures OnHeaders(st, e, s, data).rx.responseSize >= st.rx.responseSize
    ensures ReportsAtMostOnce(st, OnHeaders(st, e, s, data))
  {
    if e == Success && !OverCap(st, s) {
      ReadWithinCap(st, s, data);
    }
  }

  lemma ContentMonotone(st: State, e: ErrorCode, s: nat, data: string)
    requires st.stage == ReadingContent
    ensures OnContent(st, e, s, data).rx.responseSize >= st.rx.responseSize
    ensures ReportsAtMostOnce(st, OnContent(st, e, s, data))
  {
    if e == Success && !OverCap(st, s) {
      ReadWithinCap(st, s, data);
    }
  }

  /** No callback lowers the response-size count, and each reports at most once, what it left in err_. */
  lemma StepMonotone(st: State, ev: Event)
    requires Enabled(st, ev)
    ensures Step(st, ev).rx.responseSize >= st.rx.responseSize
    ensures ReportsAtMostOnce(st, Step(st, ev))
  {
    match ev
    case StatusLineRead(e, s, data) => StatusLineMonotone(st, e, s, data);
    case HeadersRead(e, s, data) => HeadersMonotone(st, e, s, data);
    case ContentRead(e, s, data) => ContentMonotone(st, e, s, data);
    case _ =>
  }

  lemma PrefixTrans<T>(a: seq<T>, b: seq<T>, c: seq<T>)
    requires a <= b && b <= c
    ensures a <= c
  {
  }

  lemma PrefixSnoc<T>(a: seq<T>, x: T)
    ensures a <= a + [x]
  {
    assert (a + [x])[..|a|] == a;
  }

  /**
   * Over any run, the response-size count never drops, no completion is
   * taken back, and there are at most as many new completions as
   * callbacks.
   */
  lemma {:induction false} RunMonotone(st: State, evs: seq<Event>)
    ensures Run(st, evs).Some? ==>
      Run(st, evs).value.rx.responseSize >= st.rx.responseSize &&
      st.reported <= Run(st, evs).value.reported &&
      |Run(st, evs).value.reported| <= |st.reported| + |evs|
    decreases |evs|
  {
    if evs != [] && Enabled(st, evs[0]) {
      var st1 := Step(st, evs[0]);
      StepMonotone(st, evs[0]);
      RunMonotone(st1, evs[1..]);
      if Run(st, evs).Some? {
        PrefixSnoc(st.reported, st1.err);
        PrefixTrans(st.reported, st1.reported, Run(st1, evs[1..]).value.reported);
      }
    }
  }

  /**
   * The size cap: the count grows by `s`, and addResponseSize fails
   * exactly when the cap is non-zero and the new count exceeds it, and
   * then message_size is reported; otherwise nothing else changes.
   */
  lemma SizeCap(st: State, s: nat)
    ensures var st' := AddResponseSize(st, s);
      st'.rx.responseSize == st.rx.responseSize + s &&
      (OverCap(st, s) <==> st.config.maxResponseSize != 0 && st.rx.responseSize + s > st.config.maxResponseSize) &&
      (OverCap(st, s) ==> st'.reported == st.reported + [MessageSize] && st'.err == MessageSize) &&
      (!OverCap(st, s) ==> st' == st.(rx := st.rx.(responseSize := st.rx.responseSize + s)))
  {
  }

  /** A read that trips the cap ends the pipeline at once: no further read is issued and the chunk is dropped. */
  lemma SizeCapEndsReads(st: State, ev: Event)
    requires Enabled(st, ev)
    requires ev.StatusLineRead? || ev.HeadersRead? || ev.ContentRead?
    requires ev.e == Success
    requires st.config.maxResponseSize != 0 && st.rx.responseSize + ev.s > st.config.maxResponseSize
    ensures var st' := Step(st, ev);
      st'.stage == Finished && !st'.timerArmed && st'.err == MessageSize &&
      st'.reported == st.reported + [MessageSize] &&
      st'.rx.body == st.rx.body && st'.rx.headers == st.rx.headers
  {
  }

  /** A body chunk within the cap is appended after what was buffered, and the next read is issued. */
  lemma ContentChunkAppended(st: State, s: nat, data: string)
    requires st.stage == ReadingContent
    requires st.config.maxResponseSize == 0 || st.rx.responseSize + s <= st.config.maxResponseSize
    ensures var st' := OnContent(st, Success, s, data);
      st'.rx.body == st.rx.body + (st.rx.responseBuf + data) && st'.rx.responseBuf == [] &&
      st'.stage == ReadingContent && st'.timerArmed && st'.reported == st.reported &&
      st'.rx.headers == st.rx.headers
  {
  }

  /** End of data completes with the error already recorded; any other read error is reported. */
  lemma ContentReadError(st: State, e: ErrorCode, s: nat, data: string)
    requires st.stage == ReadingContent && e != Success
    ensures var st' := OnContent(st, e, s, data);
      st'.stage == Finished && !st'.timerArmed &&
      st'.reported == st.reported + [if EndsBody(e) then st.err else e] && st'.rx.body == st.rx.body
  {
  }

  /**
   * A failed connect with endpoints left closes the socket and connects
   * to the next endpoint of the same resolved list, with nothing
   * reported; after the last endpoint the connect error is reported.
   */
  lemma ConnectFallback(st: State, e: ErrorCode)
    requires st.stage == Connecting && e != Success
    ensures var st' := OnConnect(st, e);
      if st.net.untried != [] then
        st'.stage == Connecting && st'.net.attempted == st.net.attempted + [st.net.untried[0]] &&
        st'.net.untried == st.net.untried[1..] && st'.net.endpoints == st.net.endpoints &&
        st'.reported == st.reported && st'.err == st.err && st'.timerArmed
      else
        st'.stage == Finished && st'.reported == st.reported + [e] && !st'.timerArmed
  {
  }

  /** Resolve, handshake and write errors are reported at once and never retried. */
  lemma EarlyErrorsTerminal(st: State, ev: Event)
    requires Enabled(st, ev)
    requires ev.Resolved? || ev.Handshaken? || ev.Written?
    requires ev.e != Success
    ensures var st' := Step(st, ev);
      st'.stage == Finished && st'.reported == st.reported + [ev.e] &&
      st'.net.attempted == st.net.attempted && st'.net.untried == st.net.untried
  {
  }

  /** A plain connection goes from a successful connect straight to writing the request; a secure one handshakes. */
  lemma PlainSkipsHandshake(st: State)
    requires st.stage == Connecting
    ensures OnConnect(st, Success).stage == if st.config.secure then Handshaking else WritingRequest
    ensures OnConnect(st, Success).reported == st.reported
  {
  }

  /**
   * A malformed status line is reported as protocol_error, yet the
   * header read is still issued; when that read then fails, the
   * pipeline completes a second time.
   */
  lemma MalformedStatusCompletesTwice(st: State, s: nat, data: string, e: ErrorCode)
    requires Inv(st) && st.stage == ReadingStatusLine
    requires st.config.maxResponseSize == 0 || st.rx.responseSize + s <= st.config.maxResponseSize
    requires !ReadStatusLine(st.rx.responseBuf + data).ok
    requires e != Success
    ensures var st1 := OnStatusLine(st, Success, s, data);
      st1.stage == ReadingHeaders && st1.timerArmed && st1.reported == [ProtocolError] &&
      OnHeaders(st1, e, 0, "").reported == [ProtocolError, e]
  {
    ReadWithinCap(st, s, data);
    var st0 := AddResponseSize(Arrive(st, data), s);
    assert st.reported == [];
    RejectedStatusLine(st0, ReadStatusLine(st0.rx.responseBuf), e);
  }

  lemma RejectedStatusLine(st: State, p: StatusParse, e: ErrorCode)
    requires !p.ok && e != Success
    ensures var st1 := ApplyStatusLine(st, p);
      st1.stage == ReadingHeaders && st1.timerArmed && st1.reported == st.reported + [ProtocolError] &&
      OnHeaders(st1, e, 0, "").reported == st.reported + [ProtocolError, e]
  {
  }

  /**
   * The watchdog's timed_out survives only into the body loop's end of
   * data: the other handlers overwrite err_ with the error of the
   * operation the shutdown interrupted.
   */
  lemma TimeoutReported(st: State, t: ErrorCode, e: ErrorCode)
    requires Pending(st.stage) && st.stage != Resolving
    requires t != OperationAborted
    requires e != Success
    ensures var st1 := OnTimeout(st, t);
      st1.err == TimedOut && (st.net.socketOpen ==> st1.net.shutDown)
    ensures st.stage == ReadingContent && EndsBody(e) ==>
      OnContent(OnTimeout(st, t), e, 0, "").reported == st.reported + [TimedOut]
    ensures st.stage == ReadingStatusLine ==>
      OnStatusLine(OnTimeout(st, t), e, 0, "").reported == st.reported + [e]
  {
  }

  /** A cancelled wait changes nothing. */
  lemma CancelledWaitIgnored(st: State)
    ensures OnTimeout(st, OperationAborted) == st
  {
  }

  /** Stopping never completes, leaves the socket closed, and is idempotent. */
  lemma StopIdempotent(st: State)
    ensures OnStop(OnStop(st)) == OnStop(st)
    ensures OnStop(st).reported == st.reported && !OnStop(st).net.socketOpen
    ensures OnStop(st).stage == st.stage
  {
  }
}
