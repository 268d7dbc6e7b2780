/**
 * Client::Impl as an object: the state its handlers update in place,
 * and one method per handler. The fields are grouped as the state
 * machine groups them: `config` holds the TLS flag, timeout_,
 * maximumResponseSize_ and requestBuf_; `net` the socket and the
 * resolver's endpoint list; `rx` responseBuf_, responseSize_ and the
 * response message. Each method's new state is the corresponding step
 * of the Pipeline state machine, so the invariants and lemmas proved
 * there are about these methods.
 */
module Connection {
  import opened Text
  import opened Request
  import opened Response
  import opened Pipeline

  class Impl {
    var config: Config
    /** Which asynchronous operation is outstanding. */
    var stage: Stage
    /** Set by startTimer() and cleared by cancelTimer(). */
    var timerArmed: bool
    var err: ErrorCode
    /** err_ at each complete(), in order. */
    var reported: seq<ErrorCode>
    var net: Transport
    var rx: Received

    /** The object's state as a value of the state machine. */
    function Snapshot(): State
      reads this
    {
      State(config, stage, timerArmed, err, reported, net, rx)
    }

    constructor(secure: bool)
      ensures Snapshot() == Initial(secure)
    {
      config := Config(secure, 0, 0, "");
      stage := Idle;
      timerArmed := false;
      err := Success;
      reported := [];
      net := Transport(false, false, Endpoint("", 0), [], [], []);
      rx := Received("", 0, 0, [], "");
    }

    method SetTimeout(seconds: int)
      modifies this
      ensures Snapshot() == old(Snapshot()).(config := old(config).(timeout := seconds))
    {
      config := config.(timeout := seconds);
    }

    method SetMaximumResponseSize(bytes: nat)
      modifies this
      ensures Snapshot() == old(Snapshot()).(config := old(config).(maxResponseSize := bytes))
    {
      config := config.(maxResponseSize := bytes);
    }

    method StartTimer()
      modifies this
      ensures Snapshot() == old(Snapshot()).(timerArmed := true)
    {
      timerArmed := true;
    }

    method CancelTimer()
      modifies this
      ensures Snapshot() == old(Snapshot()).(timerArmed := false)
    {
      timerArmed := false;
    }

    method Complete()
      modifies this
      ensures Snapshot() == Pipeline.Complete(old(Snapshot()))
    {
      reported := reported + [err];
    }

    /** Record a terminal error and complete; the handlers call it after cancelling the watchdog. */
    method Fail(e: ErrorCode)
      requires !timerArmed
      modifies this
      ensures Snapshot() == Pipeline.Fail(old(Snapshot()), e)
    {
      err := e;
      Complete();
      stage := Finished;
    }

    method Request(verb: string, server: string, port: int, path: string, msg: Message)
      requires stage == Idle
      modifies this
      ensures Snapshot() == OnRequest(old(Snapshot()), verb, server, port, path, msg)
    {
      var text := SerializeRequest(verb, server, path, msg);
      config := config.(requestBuf := config.requestBuf + text);
      net := net.(query := Endpoint(server, port));
      StartTimer();
      stage := Resolving;
    }

    method ConnectFirst(eps: seq<Endpoint>)
      requires |eps| > 0
      modifies this
      ensures Snapshot() == Pipeline.ConnectFirst(old(Snapshot()), eps)
    {
      StartTimer();
      net := net.(socketOpen := true, shutDown := false, attempted := net.attempted + [eps[0]], untried := eps[1..]);
      stage := Connecting;
    }

    method HandleResolve(e: ErrorCode, eps: seq<Endpoint>)
      requires stage == Resolving
      requires e == Success ==> |eps| > 0
      modifies this
      ensures Snapshot() == OnResolve(old(Snapshot()), e, eps)
    {
      CancelTimer();
      if e == Success {
        net := net.(endpoints := eps);
        ConnectFirst(eps);
      } else {
        Fail(e);
      }
    }

    method HandleConnect(e: ErrorCode)
      requires stage == Connecting
      modifies this
      ensures Snapshot() == OnConnect(old(Snapshot()), e)
    {
      CancelTimer();
      if e == Success {
        StartTimer();
        stage := Handshaking;
        if !config.secure {
          HandleHandshake(Success);
        }
      } else if net.untried != [] {
        net := net.(socketOpen := false);
        ConnectFirst(net.untried);
      } else {
        Fail(e);
      }
    }

    method HandleHandshake(e: ErrorCode)
      requires stage == Handshaking
      modifies this
      ensures Snapshot() == OnHandshake(old(Snapshot()), e)
    {
      CancelTimer();
      if e == Success {
        StartTimer();
        stage := WritingRequest;
      } else {
        Fail(e);
      }
    }

    method HandleWriteRequest(e: ErrorCode)
      requires stage == WritingRequest
      modifies this
      ensures Snapshot() == OnWrite(old(Snapshot()), e)
    {
      CancelTimer();
      if e == Success {
        StartTimer();
        stage := ReadingStatusLine;
      } else {
        Fail(e);
      }
    }

    /** addResponseSize: answers whether the response is still within the cap. */
    method AddResponseSize(s: nat) returns (ok: bool)
      modifies this
      ensures ok == !OverCap(old(Snapshot()), s)
      ensures Snapshot() == Pipeline.AddResponseSize(old(Snapshot()), s)
    {
      rx := rx.(responseSize := rx.responseSize + s);
      if config.maxResponseSize != 0 && rx.responseSize > config.maxResponseSize {
        err := MessageSize;
        Complete();
        ok := false;
      } else {
        ok := true;
      }
    }

    /** The bytes a read delivered land in responseBuf_. */
    method Arrive(data: string)
      modifies this
      ensures Snapshot() == old(Snapshot()).(rx := old(rx).(responseBuf := old(rx).responseBuf + data))
    {
      rx := rx.(responseBuf := rx.responseBuf + data);
    }

    method HandleReadStatusLine(e: ErrorCode, s: nat, data: string)
      requires stage == ReadingStatusLine
      modifies this
      ensures Snapshot() == OnStatusLine(old(Snapshot()), e, s, data)
    {
      CancelTimer();
      if e != Success {
        Fail(e);
        return;
      }
      Arrive(data);
      var ok := AddResponseSize(s);
      if !ok {
        stage := Finished;
        return;
      }
      TakeStatusLine();
    }

    method TakeStatusLine()
      modifies this
      ensures Snapshot() == Pipeline.TakeStatusLine(old(Snapshot()))
    {
      var p := ReadStatusLine(rx.responseBuf);
      ApplyStatusLine(p);
    }

    method ApplyStatusLine(p: StatusParse)
      modifies this
      ensures Snapshot() == Pipeline.ApplyStatusLine(old(Snapshot()), p)
    {
      rx := rx.(responseBuf := p.rest, status := p.code);
      if !p.ok {
        err := ProtocolError;
        Complete();
      }
      StartTimer();
      stage := ReadingHeaders;
    }

    method HandleReadHeaders(e: ErrorCode, s: nat, data: string)
      requires stage == ReadingHeaders
      modifies this
      ensures Snapshot() == OnHeaders(old(Snapshot()), e, s, data)
    {
      CancelTimer();
      if e != Success {
        Fail(e);
        return;
      }
      Arrive(data);
      var ok := AddResponseSize(s);
      if !ok {
        stage := Finished;
        return;
      }
      TakeHeaders();
    }

    method TakeHeaders()
      modifies this
      ensures Snapshot() == Pipeline.TakeHeaders(old(Snapshot()))
    {
      var hs, rest := ReadHeaderLines(rx.responseBuf);
      rx := rx.(headers := rx.headers + hs, body := rx.body + rest, responseBuf := []);
      StartTimer();
      stage := ReadingContent;
    }

    method HandleReadContent(e: ErrorCode, s: nat, data: string)
      requires stage == ReadingContent
      modifies this
      ensures Snapshot() == OnContent(old(Snapshot()), e, s, data)
    {
      CancelTimer();
      if e == Success {
        Arrive(data);
        var ok := AddResponseSize(s);
        if !ok {
          stage := Finished;
          return;
        }
        rx := rx.(body := rx.body + rx.responseBuf, responseBuf := []);
        StartTimer();
      } else if !EndsBody(e) {
        Fail(e);
      } else {
        Complete();
        stage := Finished;
      }
    }

    method Timeout(e: ErrorCode)
      modifies this
      ensures Snapshot() == OnTimeout(old(Snapshot()), e)
    {
      if e != OperationAborted {
        net := net.(shutDown := net.shutDown || net.socketOpen);
        err := TimedOut;
      }
    }

    method Stop()
      modifies this
      ensures Snapshot() == OnStop(old(Snapshot()))
    {
      if net.socketOpen {
        net := net.(socketOpen := false, shutDown := true);
      }
    }
  }
}
