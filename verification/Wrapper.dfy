/** The wrapper on the peer: it sends an invocation to the proxy and answers what comes back. */
module Wrapper {
  import opened Options
  import opened Protocol
  import opened Schedules

  /** The wrapper's end of the stream, and what is under way in both directions.  The stream, the
      ledger and the proxy may fail at any time; `faulty` says whether something has. */
  class WrapperStream {
    var ledger: Ledger
    var toProxy: seq<WrapperMessage>
    var toWrapper: seq<ProxyMessage>
    var returned: Option<PeerResponse>
    /** All that the proxy has sent. */
    ghost var sent: seq<ProxyMessage>
    ghost var faulty: bool

    constructor (ledger: Ledger)
      ensures this.ledger == ledger && toProxy == [] && toWrapper == [] && returned == None && sent == [] && !faulty
    {
      this.ledger, toProxy, toWrapper, returned, sent, faulty := ledger, [], [], None, [], false;
    }

    /** Stream, ledger and what the wrapper has returned are those of `s`. */
    ghost predicate Shows(s: Net)
      reads this
    {
      && toProxy == s.toProxy && toWrapper == s.toWrapper && ledger == s.ledger && returned == s.returned
      && sent == s.sent
    }

    /** The wrapper has returned an error. */
    ghost predicate HasFailed()
      reads this
    {
      faulty && returned.Some? && returned.value.Error?
    }

    /** Something fails, and the wrapper returns an error. */
    method Fail(message: string)
      modifies `returned, `faulty
      ensures HasFailed()
    {
      returned := Some(Error(message));
      faulty := true;
    }

    /** The wrapper opens the stream with its request. */
    method Start(request: WrapperMessage) returns (ok: bool)
      modifies this
      ensures ledger == old(ledger) && sent == [] && toWrapper == [] && (ok <==> !faulty)
      ensures if ok then toProxy == [request] && returned == None else HasFailed()
    {
      toProxy, toWrapper, returned, sent, faulty := [], [], None, [], false;
      var delivered: bool := *;
      if !delivered {
        Fail("connection failed");
        return false;
      }
      toProxy := [request];
      ok := true;
    }

    /** One turn of the wrapper's loop: it serves a message of the proxy. */
    method Serve(ghost s: Net) returns (ghost ok: bool)
      requires Shows(s) && toWrapper != [] && returned == None
      modifies this
      ensures ok ==> WrapperServes(s, Served(s)) && Shows(Served(s)) && faulty == old(faulty)
      ensures ok ==>
                match old(toWrapper)[0]
                case InvocationResponse(text) =>
                  returned == Some(Success(text)) && toProxy == old(toProxy) && ledger == old(ledger)
                case GetStateRequest(key) =>
                  && returned == None && ledger == old(ledger)
                  && toProxy == old(toProxy) + [GetStateResponse(if key in ledger then ledger[key] else "")]
                case PutStateRequest(key, value) =>
                  && returned == None && ledger == old(ledger)[key := value]
                  && toProxy == old(toProxy) + [PutStateResponse("OK")]
      ensures !ok ==>
                && HasFailed() && toWrapper == s.toWrapper[1..] && toProxy == s.toProxy && sent == s.sent
                && ledger in {s.ledger, Served(s).ledger}
    {
      var message := toWrapper[0];
      toWrapper := toWrapper[1..];
      var received: bool := *;
      if !received {
        Fail("receiving failed");
        return false;
      }
      match message
      case InvocationResponse(text) =>
        returned := Some(Success(text));
        ok := true;
      case GetStateRequest(key) =>
        var found: bool := *;
        if !found {
          Fail("ledger failed");
          return false;
        }
        var value := "";
        if key in ledger { value := ledger[key]; }
        ok := Send(GetStateResponse(value));
      case PutStateRequest(key, value) =>
        var stored: bool := *;
        if !stored {
          Fail("ledger failed");
          return false;
        }
        ledger := ledger[key := value];
        ok := Send(PutStateResponse("OK"));
    }

    /** The wrapper answers. */
    method Send(message: WrapperMessage) returns (ok: bool)
      modifies `toProxy, `returned, `faulty
      ensures if ok then toProxy == old(toProxy) + [message] && returned == old(returned) && faulty == old(faulty)
              else HasFailed() && toProxy == old(toProxy)
    {
      var delivered: bool := *;
      if !delivered {
        Fail("sending failed");
        return false;
      }
      toProxy := toProxy + [message];
      ok := true;
    }

    /** The wrapper waits for a message when the proxy has ended its call. */
    method Close()
      modifies `returned, `faulty
      ensures HasFailed()
    {
      Fail("end of stream");
    }

    /** The proxy writes to the stream. */
    method Write(message: ProxyMessage) returns (ok: bool)
      modifies this
      ensures ledger == old(ledger) && toProxy == old(toProxy) && returned == old(returned)
      ensures if ok then toWrapper == old(toWrapper) + [message] && sent == old(sent) + [message] && faulty == old(faulty)
              else toWrapper == old(toWrapper) && sent == old(sent) && faulty
    {
      ok := *;
      if !ok {
        faulty := true;
        return;
      }
      toWrapper := toWrapper + [message];
      sent := sent + [message];
    }

    /** The proxy reads from the stream, where it finds a message unless the wrapper has failed. */
    method Read() returns (ok: bool, message: WrapperMessage)
      requires toProxy != [] || faulty
      modifies this
      ensures ledger == old(ledger) && toWrapper == old(toWrapper) && returned == old(returned) && sent == old(sent)
      ensures if ok then old(toProxy) != [] && message == old(toProxy)[0] && toProxy == old(toProxy)[1..] && faulty == old(faulty)
              else faulty
    {
      ok, message := *, PutStateResponse("");
      if toProxy == [] || !ok {
        ok, faulty := false, true;
        return;
      }
      message := toProxy[0];
      toProxy := toProxy[1..];
    }
  }
}
