/** The proxy between wrapper and trusted application. */
module Proxy {
  import opened CStrings
  import opened Decimal
  import opened Buffers
  import opened Protocol
  import opened TaModel
  import opened InvocationSpec
  import opened RunToEnd
  import opened Session
  import opened TrustedApplication
  import opened Options
  import opened Schedules
  import opened Wrapper

  /** Writing argument `i` to the buffer, and the NUL that ends it. */
  ghost function WithArgument(b: string, i: nat, x: string): (r: string)
    requires |b| == ARGUMENTS_SIZE && i < ARGS_NUMBER && |x| < ARG_SIZE
    ensures |r| == ARGUMENTS_SIZE
  {
    Overlay(Overlay(b, i * ARG_SIZE, x), i * ARG_SIZE + |x|, [NUL])
  }

  lemma ArgumentIsPacked(b: string, i: nat, s: string, j: nat)
    requires |b| == ARGUMENTS_SIZE && i < ARGS_NUMBER && j < ARGS_NUMBER
    ensures ArgumentIn(WithArgument(b, i, Cut(s, ARG_SIZE - 1)), i) == Fitted(s, ARG_SIZE)
    ensures i != j ==> ArgumentIn(WithArgument(b, i, Cut(s, ARG_SIZE - 1)), j) == ArgumentIn(b, j)
  {
    hide CStr, Overlay, Region;
    var x := Cut(s, ARG_SIZE - 1);
    OverlayRegion(b, i * ARG_SIZE, x, j * ARG_SIZE, ARG_SIZE);
    OverlayRegion(Overlay(b, i * ARG_SIZE, x), i * ARG_SIZE + |x|, [NUL], j * ARG_SIZE, ARG_SIZE);
    TextStored(b, i * ARG_SIZE, ARG_SIZE, x);
  }

  /** A text that is written with its NUL reads as that text. */
  lemma TextStored(b: string, at: nat, size: nat, x: string)
    requires at + size <= |b| && |x| < size
    ensures CStr(Cut(Region(Overlay(Overlay(b, at, x), at + |x|, [NUL]), at, size), size - 1)) == CStr(x)
  {
    hide CStr;
    var r := Overlay(Overlay(b, at, x), at + |x|, [NUL]);
    var a := Cut(Region(r, at, size), size - 1);
    var n := |CStr(x)|;
    forall k | 0 <= k < size - 1 && k <= |x| ensures a[k] == if k < |x| then x[k] else NUL {
      assert a[k] == r[at + k];
    }
    assert a[..n] == x[..n];
    CStrIs(a, n);
  }

  lemma NoArguments(b: string, i: nat)
    requires |b| == ARGUMENTS_SIZE && i < ARGS_NUMBER
    ensures ArgumentIn(Overlay(b, 0, Zeros(ARGUMENTS_SIZE)), i) == ""
  {
    RegionOfZeros(b, 0, ARGUMENTS_SIZE, i * ARG_SIZE, ARG_SIZE);
    CStrIs(Cut(Zeros(ARG_SIZE), ARG_SIZE - 1), 0);
  }

  class InvocationService {
    const word: WordSize
    var ta: TrustedApp

    ghost predicate Ready()
      reads this, ta, ta.sess, ta.sess.arguments, ta.sess.key, ta.sess.value, ta.sess.response
    {
      ta.sess.Valid() && ta.word == word && ta.runtime == null
      && ta.sess.State() == Sess(ta.sess.State().args, 0, "", "", 0, 0, "", false)
    }

    constructor (word: WordSize)
      ensures Ready() && this.word == word && fresh(ta) && fresh(ta.sess.Repr())
    {
      this.word := word;
      ta := new TrustedApp(word);
    }

    /** `restart_session` */
    method RestartSession()
      modifies this
      ensures Ready() && fresh(ta) && fresh(ta.sess.Repr())
    {
      ta := new TrustedApp(word);
    }

    /** Puts the name of the function and its arguments into the shared buffer. */
    method PackArguments(b: array<char>, name: string, arguments: seq<string>)
      requires b.Length == ARGUMENTS_SIZE
      modifies b
      ensures ArgumentsIn(b[..]) == Packed(name, arguments)
      ensures |ArgumentsIn(b[..])| == 10 && ArgumentsIn(b[..])[0] == Fitted(name, 64)
      ensures forall i | 0 < i < 10 :: ArgumentsIn(b[..])[i] == if i <= |arguments| then Fitted(arguments[i - 1], 64) else ""
    {
      hide CStr, Fitted, ArgumentIn, WithArgument, Overlay, Region;
      forall i | 0 <= i < ARGS_NUMBER { NoArguments(b[..], i); }
      MemFill(b, 0, ARGUMENTS_SIZE);
      PackOne(b, 0, name);
      var n := |arguments|;
      if n > ARGS_NUMBER - 1 { n := ARGS_NUMBER - 1; }
      for i := 0 to n
        invariant forall j | 0 <= j <= i :: ArgumentIn(b[..], j) == Packed(name, arguments)[j]
        invariant forall j | i < j < ARGS_NUMBER :: ArgumentIn(b[..], j) == ""
      {
        PackOne(b, i + 1, arguments[i]);
      }
    }

    method PackOne(b: array<char>, i: nat, s: string)
      requires b.Length == ARGUMENTS_SIZE && i < ARGS_NUMBER
      modifies b
      ensures ArgumentIn(b[..], i) == Fitted(s, ARG_SIZE)
      ensures forall j | 0 <= j < ARGS_NUMBER && j != i :: ArgumentIn(b[..], j) == old(ArgumentIn(b[..], j))
    {
      hide CStr, Fitted, ArgumentIn, Overlay;
      var n := |s|;
      if n >= ARG_SIZE { n := ARG_SIZE - 1; }
      assert s[..n] == Cut(s, ARG_SIZE - 1);
      ghost var before := b[..];
      forall j | 0 <= j < ARGS_NUMBER { ArgumentIsPacked(before, i, s, j); }
      MemMove(b, i * ARG_SIZE, s[..n]);
      MemMove(b, i * ARG_SIZE + n, [NUL]);
      assert b[..] == WithArgument(before, i, Cut(s, ARG_SIZE - 1));
    }

    /** A text in the buffer, up to its end. */
    method TextIn(b: array<char>, at: nat, ghost size: nat) returns (text: string)
      requires at + size <= b.Length && |TextAt(b[..], at, size)| < size
      ensures text == TextAt(b[..], at, size)
    {
      hide CStr;
      Reads(b[..], at, size);
      assert b[at..] == b[..][at..];
      var n := Strlen(b[at..]);
      text := b[at..at + n];
    }

    /** The chaincode is suspended. */
    ghost predicate IsSuspended(b: array<char>)
      reads this, ta, ta.runtime, if ta.runtime == null then {} else {ta.runtime.memory}
      reads ta.sess, ta.sess.arguments, ta.sess.key, ta.sess.value, ta.sess.response
    {
      && ta.Valid() && ta.runtime != null && ta.word == word && b.Length == ARGUMENTS_SIZE
      && b !in ta.sess.Repr() && b != ta.runtime.memory && Suspended(ta.runtime.State())
    }

    /** The buffer says what the suspended chaincode waits for. */
    ghost predicate Waits(b: array<char>, kind: nat)
      reads this, ta, ta.runtime, if ta.runtime == null then {} else {ta.runtime.memory}, b
      reads ta.sess, ta.sess.arguments, ta.sess.key, ta.sess.value, ta.sess.response
    {
      IsSuspended(b) && MessageIn(kind, b[..]) == Told(ta.runtime.State()) && Terminated(kind, b[..]) && IsKind(kind)
    }

    /** State of the chaincode and of the stream are those of `s`. */
    ghost predicate Shows(s: Net, stream: WrapperStream)
      requires ta.Valid() && ta.runtime != null
      reads this, stream, ta, ta.runtime, if ta.runtime == null then {} else {ta.runtime.memory}
      reads ta.sess, ta.sess.arguments, ta.sess.key, ta.sess.value, ta.sess.response
    {
      ta.runtime.State() == s.ta && stream.Shows(s)
    }

    /** The chaincode has trapped, and the buffer says so. */
    ghost predicate Trapped(b: array<char>, kind: nat)
      reads b
    {
      b.Length == ARGUMENTS_SIZE && kind == INVOCATION_RESPONSE && TextAt(b[..], 0, RESPONSE_SIZE) == RUNTIME_ERROR
    }

    /** The chaincode has trapped at `s`, but the proxy has not said so yet. */
    ghost predicate MayTrap(s: Net, stream: WrapperStream)
      reads stream
    {
      && Traps(s, Trapping(s)) && stream.toProxy == Trapping(s).toProxy && stream.toWrapper == s.toWrapper
      && stream.ledger == s.ledger && stream.returned == s.returned && stream.sent == s.sent
    }

    /** The chaincode is resumed with what is in the buffer. */
    method Continue(b: array<char>) returns (ok: bool, kind: nat, ghost trapped: bool)
      requires IsSuspended(b) && ta.runtime.State().sess.pending != 0
      modifies b, ta.runtime, ta.runtime.memory, ta.sess, ta.sess.key, ta.sess.value, ta.sess.response
      ensures ok && trapped ==> Trapped(b, kind)
      ensures ok && !trapped ==> Waits(b, kind)
      ensures ok && !trapped ==>
                ta.runtime.State() == Resume(old(ta.runtime.State()), Fitted(Region(old(b[..]), VALUE_AT, VAL_SIZE), VAL_SIZE), word)
    {
      hide CStr, Resume, TextAt, Fitted, MessageIn, Terminated;
      ok, kind, trapped := *, 0, false;
      if !ok { return; }
      ResumeSuspends(ta.runtime.State(), Fitted(Region(b[..], VALUE_AT, VAL_SIZE), VAL_SIZE), word);
      ok, kind, trapped := ta.ResumeWasm(b);
    }

    /** The first half of a turn: what the chaincode waits for is passed on to the wrapper. */
    method Forward(b: array<char>, kind: nat, stream: WrapperStream, ghost s: Net) returns (ok: bool)
      requires Waits(b, kind) && Shows(s, stream) && !s.waiting && !s.ended
      modifies stream
      ensures if ok then ProxyWrites(s, Written(s)) && Shows(Written(s), stream) && stream.faulty == old(stream.faulty)
              else
                && stream.faulty && stream.ledger == s.ledger && stream.toWrapper == s.toWrapper
                && stream.returned == s.returned && stream.sent == s.sent
    {
      hide CStr, TextAt, Suspended;
      if kind == GET_STATE_REQUEST {
        var key := TextIn(b, KEY_AT, KEY_SIZE);
        ok := stream.Write(GetStateRequest(key));
      } else if kind == PUT_STATE_REQUEST {
        var key := TextIn(b, KEY_AT, KEY_SIZE);
        var value := TextIn(b, VALUE_AT, VAL_SIZE);
        ok := stream.Write(PutStateRequest(key, value));
      } else {
        var text := TextIn(b, 0, RESPONSE_SIZE);
        ok := stream.Write(InvocationResponse(text));
      }
    }

    /** The second half of a turn: the wrapper serves the request, and the chaincode is resumed with
        the answer. */
    method Await(b: array<char>, kind: nat, stream: WrapperStream, ghost s: Net)
      returns (ok: bool, next: nat, ghost trapped: bool)
      requires Waits(b, kind) && Shows(s, stream) && kind != INVOCATION_RESPONSE
      requires s.waiting && s.toWrapper == [Told(s.ta)] && s.toProxy == [] && s.returned == None
      modifies b, stream, ta.runtime, ta.runtime.memory, ta.sess, ta.sess.key, ta.sess.value, ta.sess.response
      ensures ok && !trapped ==>
                && WrapperServes(s, Served(s)) && ProxyReads(Served(s), Resumed(Served(s), word), word)
                && Waits(b, next) && Shows(Resumed(Served(s), word), stream) && stream.faulty == old(stream.faulty)
      ensures ok && trapped ==> Trapped(b, next) && MayTrap(Served(s), stream)
      ensures !ok || trapped ==>
                && stream.faulty && stream.ledger in {s.ledger, Served(s).ledger} && stream.toWrapper == []
                && stream.sent == s.sent && (stream.returned == None || stream.HasFailed())
    {
      hide CStr, Resume, Answered, Suspended, MessageIn, Terminated, TextAt, Told, Trapped;
      KindTells(b, kind);
      ghost var served := stream.Serve(s);
      var answer;
      ok, answer := stream.Read();
      next, trapped := kind, false;
      if !ok { return; }
      ok, next, trapped := ResumeWith(b, kind, answer);
      if !ok || trapped { stream.faulty := true; }
    }

    /** The chaincode is resumed with an answer of the wrapper. */
    method ResumeWith(b: array<char>, kind: nat, answer: WrapperMessage) returns (ok: bool, next: nat, ghost trapped: bool)
      requires Waits(b, kind) && kind != INVOCATION_RESPONSE
      modifies b, ta.runtime, ta.runtime.memory, ta.sess, ta.sess.key, ta.sess.value, ta.sess.response
      ensures ok && trapped ==> Trapped(b, next)
      ensures ok && !trapped ==> Waits(b, next)
      ensures var t := old(ta.runtime.State());
              ok && !trapped ==> ta.runtime.State() == Resume(t, Answered(t, answer), word)
    {
      hide CStr, Step, TextAt, Fitted, Suspended, MessageIn, Terminated;
      KindTells(b, kind);
      if kind == GET_STATE_REQUEST {
        PutValue(b, if answer.GetStateResponse? then answer.value else "");
      } else {
        PutAcknowledgement(b, if answer.PutStateResponse? then answer.acknowledgement else "");
      }
      ok, next, trapped := Continue(b);
    }

    /** The kind of message in the buffer is what the chaincode waits for. */
    lemma KindTells(b: array<char>, kind: nat)
      requires Waits(b, kind)
      ensures match Told(ta.runtime.State())
              case InvocationResponse(text) => kind == INVOCATION_RESPONSE
              case GetStateRequest(key) => kind == GET_STATE_REQUEST && key == ta.runtime.State().sess.key
              case PutStateRequest(key, value) =>
                kind == PUT_STATE_REQUEST && key == ta.runtime.State().sess.key && value == ta.runtime.State().sess.value
    {
      hide CStr, TextAt;
    }

    method PutAcknowledgement(b: array<char>, acknowledgement: string)
      requires b.Length == ARGUMENTS_SIZE
      modifies b
      ensures TextAt(b[..], 0, ACK_SIZE) == if |acknowledgement| < ACK_SIZE then CStr(acknowledgement) else ""
    {
      hide CStr;
      RegionOfZeros(b[..], 0, b.Length, 0, ACK_SIZE);
      MemFill(b, 0, b.Length);
      if |acknowledgement| < ACK_SIZE {
        CStrWithEnd(acknowledgement);
        PutText(b, 0, ACK_SIZE, acknowledgement + [NUL]);
      } else {
        CStrIs(Region(b[..], 0, ACK_SIZE), 0);
      }
    }

    method PutValue(b: array<char>, value: string)
      requires b.Length == ARGUMENTS_SIZE
      modifies b
      ensures Fitted(Region(b[..], VALUE_AT, VAL_SIZE), VAL_SIZE) == Seen(value)
    {
      hide CStr;
      RegionOfZeros(b[..], 0, b.Length, VALUE_AT, VAL_SIZE);
      MemFill(b, 0, b.Length);
      if |value| < VAL_SIZE {
        CStrWithEnd(value);
        PutText(b, VALUE_AT, VAL_SIZE, value + [NUL]);
        CutKeeps(Region(b[..], VALUE_AT, VAL_SIZE), VAL_SIZE - 1);
      } else {
        CStrIs(Cut(Region(b[..], VALUE_AT, VAL_SIZE), VAL_SIZE - 1), 0);
      }
    }

    /** The chaincode is started with name and arguments. */
    method Start(b: array<char>, name: string, arguments: seq<string>) returns (ok: bool, kind: nat, ghost trapped: bool)
      requires Ready() && b.Length == ARGUMENTS_SIZE && b !in ta.sess.Repr()
      modifies b, ta, ta.sess, ta.sess.arguments, ta.sess.key, ta.sess.value, ta.sess.response
      ensures ok ==> ta.runtime != null && fresh(ta.runtime) && fresh(ta.runtime.memory)
      ensures ok && !trapped ==> Waits(b, kind) && ta.runtime.State() == Run(Packed(name, arguments), word)
      ensures ok && trapped ==> Trapped(b, kind)
    {
      hide CStr, Step, Suspended, Packed, ArgumentsIn, MessageIn, Terminated, TextAt;
      PackArguments(b, name, arguments);
      assert b[..ARGUMENTS_SIZE] == b[..];
      ok, kind, trapped := ta.RunWasm(b);
      RunSuspends(Packed(name, arguments), word);
    }

    /** The invocation is under way to outcome `o`, or the chaincode has trapped. */
    ghost predicate OnCourse(b: array<char>, kind: nat, stream: WrapperStream, s: Net, trapped: bool, before: Ledger, o: Outcome)
      reads this, stream, ta, ta.runtime, if ta.runtime == null then {} else {ta.runtime.memory}, b
      reads ta.sess, ta.sess.arguments, ta.sess.key, ta.sess.value, ta.sess.response
    {
      && stream.returned == None && stream.toWrapper == [] && ta.runtime != null
      && Tracked(s, before, o) && OnTrack(s, o, word)
      && if trapped then Trapped(b, kind) && MayTrap(s, stream) && stream.faulty
         else Waits(b, kind) && Shows(s, stream) && Writing(s, o, word) && !stream.faulty
    }

    /** The invocation has outcome `o`, or something has failed, and then the ledger is as before or
        as in `o`: as before if no request to store a value was sent, and as in `o` if one was and
        the wrapper is told that the chaincode trapped. */
    ghost predicate Over(stream: WrapperStream, ok: bool, before: Ledger, o: Outcome)
      reads stream
    {
      && AllOrNothing(stream.ledger, before, o) && (!HasPut(stream.sent) ==> stream.ledger == before)
      && (!stream.faulty ==>
            && ok && stream.returned == None && stream.ledger == o.ledger && stream.sent == o.trace
            && stream.toProxy == [] && stream.toWrapper == [InvocationResponse(o.response)])
      && (stream.faulty && ok ==>
            && stream.returned == None && stream.toWrapper == [InvocationResponse(RUNTIME_ERROR)]
            && (HasPut(stream.sent) ==> stream.ledger == o.ledger))
      && (stream.faulty && !ok ==> (stream.returned == None || stream.HasFailed()) && stream.toWrapper == [])
    }

    /** One turn of the proxy's loop. */
    method Turn(b: array<char>, kind: nat, stream: WrapperStream, ghost s: Net, ghost trapped: bool,
                ghost before: Ledger, ghost o: Outcome)
      returns (out: bool, ok: bool, next: nat, ghost s': Net, ghost trapped': bool)
      requires OnCourse(b, kind, stream, s, trapped, before, o)
      modifies b, stream, ta.runtime, ta.runtime.memory, ta.sess, ta.sess.key, ta.sess.value, ta.sess.response
      ensures if out then Over(stream, ok, before, o)
              else OnCourse(b, next, stream, s', trapped', before, o) && TurnsLeft(s', trapped') < TurnsLeft(s, trapped)
    {
      hide CStr, Resume, Suspended, Finish, MessageIn, Terminated, TextAt, Leads, HasPut, Tracked;
      out, ok, next, s', trapped' := true, false, kind, s, trapped;
      LedgerOf(s, before, o);
      if trapped {
        TrapLedger(s, Trapping(s), before, o, word);
      } else {
        KindTells(b, kind);
        TurnKeepsTrack(s, before, o, word);
        LedgerOf(Written(s), before, o);
      }
      if kind == INVOCATION_RESPONSE {
        ok := PassResponse(b, stream, s, trapped);
      } else if kind == GET_STATE_REQUEST || kind == PUT_STATE_REQUEST {
        ok, next, s', trapped' := PassRequest(b, kind, stream, s, before, o);
        out := !ok;
      }
    }

    /** A request is passed on, and its answer brought back. */
    method PassRequest(b: array<char>, kind: nat, stream: WrapperStream, ghost s: Net, ghost before: Ledger, ghost o: Outcome)
      returns (ok: bool, next: nat, ghost s': Net, ghost trapped': bool)
      requires OnCourse(b, kind, stream, s, false, before, o) && kind != INVOCATION_RESPONSE
      modifies b, stream, ta.runtime, ta.runtime.memory, ta.sess, ta.sess.key, ta.sess.value, ta.sess.response
      ensures if ok then OnCourse(b, next, stream, s', trapped', before, o) && TurnsLeft(s', trapped') < TurnsLeft(s, false)
              else Over(stream, false, before, o)
    {
      hide CStr, Resume, Suspended, Finish, MessageIn, Terminated, TextAt, Leads, HasPut, Tracked;
      next, s', trapped' := kind, s, false;
      KindTells(b, kind);
      TurnKeepsTrack(s, before, o, word);
      LedgerOf(s, before, o);
      LedgerOf(Written(s), before, o);
      LedgerOf(Served(Written(s)), before, o);
      ok := Forward(b, kind, stream, s);
      if !ok { return; }
      ok, next, trapped' := Await(b, kind, stream, Written(s));
      s' := if trapped' then Served(Written(s)) else Resumed(Served(Written(s)), word);
    }

    ghost function TurnsLeft(s: Net, trapped: bool): (r: nat) {
      if trapped then 0 else MovesLeft(s) + 1
    }

    /** The response, or that the chaincode has trapped, is passed on. */
    method PassResponse(b: array<char>, stream: WrapperStream, ghost s: Net, ghost trapped: bool) returns (ok: bool)
      requires if trapped then Trapped(b, INVOCATION_RESPONSE) && MayTrap(s, stream)
               else Waits(b, INVOCATION_RESPONSE) && Shows(s, stream) && !s.waiting && !s.ended
      modifies stream
      ensures stream.ledger == old(stream.ledger) && stream.returned == old(stream.returned)
      ensures if ok then
                && stream.faulty == old(stream.faulty)
                && (trapped ==> stream.Shows(Trapping(s)))
                && (!trapped ==> Shows(Written(s), stream))
              else stream.faulty && stream.toWrapper == old(stream.toWrapper) && stream.sent == old(stream.sent)
    {
      hide CStr, TextAt, Suspended;
      var text := TextIn(b, 0, RESPONSE_SIZE);
      ok := stream.Write(InvocationResponse(text));
    }

    /** `execute_wasm_with_grpc_proxy`: all the hops of an invocation amount to one step on the ledger,
        or something fails, and then the ledger is as before or as after that step. */
    method ExecuteWasm(name: string, arguments: seq<string>, stream: WrapperStream) returns (ok: bool)
      requires Ready() && stream.toProxy == [] && stream.toWrapper == [] && stream.returned == None
      requires stream.sent == [] && !stream.faulty
      modifies stream, ta, ta.sess, ta.sess.arguments, ta.sess.key, ta.sess.value, ta.sess.response
      ensures Over(stream, ok, old(stream.ledger), Spec(name, arguments, old(stream.ledger), word))
    {
      hide Spec, Waits, Leads, OnCourse, Over, Run, Packed, TurnsLeft, Trapped;
      ghost var before, o := stream.ledger, Spec(name, arguments, stream.ledger, word);
      ok := *;
      if !ok {
        stream.faulty := true;
        IsOver(stream, o);
        return;
      }
      var b := new char[ARGUMENTS_SIZE];
      var kind;
      ghost var trapped;
      ok, kind, trapped := Start(b, name, arguments);
      if !ok {
        stream.faulty := true;
        IsOver(stream, o);
        return;
      }
      if trapped { stream.faulty := true; }
      ghost var s, runtime := Schedules.Start(name, arguments, before, word), ta.runtime;
      IsOnCourse(b, kind, stream, name, arguments, trapped);
      while true
        invariant ta == old(ta) && ta.runtime == runtime && OnCourse(b, kind, stream, s, trapped, before, o)
        decreases TurnsLeft(s, trapped)
      {
        var out;
        out, ok, kind, s, trapped := Turn(b, kind, stream, s, trapped, before, o);
        if out { return; }
      }
    }

    lemma IsOver(stream: WrapperStream, o: Outcome)
      requires stream.faulty && stream.returned == None && stream.toWrapper == []
      ensures Over(stream, false, stream.ledger, o)
    {
    }

    lemma IsOnCourse(b: array<char>, kind: nat, stream: WrapperStream, name: string, arguments: seq<string>, trapped: bool)
      requires stream.toProxy == [] && stream.toWrapper == [] && stream.returned == None && stream.sent == []
      requires ta.runtime != null && stream.faulty == trapped
      requires if trapped then Trapped(b, kind) else Waits(b, kind) && ta.runtime.State() == Run(Packed(name, arguments), word)
      ensures OnCourse(b, kind, stream, Schedules.Start(name, arguments, stream.ledger, word), trapped,
                       stream.ledger, Spec(name, arguments, stream.ledger, word))
    {
      hide Spec, Run, Packed, Told, Suspended, Leads, Trapped, Tracked;
      StartIsOnTrack(name, arguments, stream.ledger, word);
      StartIsTracked(name, arguments, stream.ledger, word);
    }

    /** `TransactionInvocation`: serves one invocation, and leaves a new session for the next. */
    method TransactionInvocation(stream: WrapperStream) returns (status: Status)
      requires Ready() && stream.toWrapper == [] && |stream.toProxy| == 1 && stream.toProxy[0].InvocationRequest?
      requires stream.returned == None && stream.sent == [] && !stream.faulty
      modifies this, stream, ta, ta.sess, ta.sess.arguments, ta.sess.key, ta.sess.value, ta.sess.response
      ensures Ready() && fresh(Repr() - old(Repr()))
      ensures var request := old(stream.toProxy[0]);
              Over(stream, status == OK, old(stream.ledger), Spec(request.name, request.arguments, old(stream.ledger), word))
    {
      hide Spec, CStr;
      var ok, request := stream.Read();
      if !ok { return Failed("Failed to read invocation request"); }
      var success := ExecuteWasm(request.name, request.arguments, stream);
      RestartSession();
      status := if success then OK else Failed("WASM execution failed");
    }

    ghost function Repr(): (r: set<object>)
      reads this, ta
    {
      {this, ta} + ta.sess.Repr()
    }
  }

  /** What the proxy tells gRPC about an invocation. */
  datatype Status = OK | Failed(message: string)
}
