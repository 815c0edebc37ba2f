/** The trusted application: it starts the chaincode, lets it run until it waits for the ledger or
    is done, and passes its requests through a buffer that it shares with the proxy. */
module TrustedApplication {
  import opened CStrings
  import opened Decimal
  import opened Buffers
  import opened Protocol
  import opened TaModel
  import opened Session
  import opened Chaincode
  import Natives

  /** `struct key_value` */
  const KEY_AT: nat := 0
  const VALUE_AT: nat := KEY_SIZE
  const KV_SIZE: nat := KEY_SIZE + VAL_SIZE
  const ARGUMENTS_SIZE: nat := ARGS_NUMBER * ARG_SIZE

  /** What the shared buffer says when the chaincode cannot be started. */
  const STEP_INIT_FAILED: string := "STEP_INIT_FAILED"

  /** What the shared buffer says, given the kind of message in it. */
  ghost function MessageIn(kind: nat, b: string): (r: ProxyMessage)
    requires |b| >= KV_SIZE
  {
    if kind == GET_STATE_REQUEST then GetStateRequest(TextAt(b, KEY_AT, KEY_SIZE))
    else if kind == PUT_STATE_REQUEST then PutStateRequest(TextAt(b, KEY_AT, KEY_SIZE), TextAt(b, VALUE_AT, VAL_SIZE))
    else InvocationResponse(TextAt(b, 0, RESPONSE_SIZE))
  }

  ghost predicate IsKind(kind: nat) {
    kind == GET_STATE_REQUEST || kind == PUT_STATE_REQUEST || kind == INVOCATION_RESPONSE
  }

  /** The texts of the message have their ends in the buffer. */
  ghost predicate Terminated(kind: nat, b: string)
    requires |b| >= KV_SIZE
  {
    && (kind == GET_STATE_REQUEST || kind == PUT_STATE_REQUEST ==> |TextAt(b, KEY_AT, KEY_SIZE)| < KEY_SIZE)
    && (kind == PUT_STATE_REQUEST ==> |TextAt(b, VALUE_AT, VAL_SIZE)| < VAL_SIZE)
    && (kind == INVOCATION_RESPONSE ==> |TextAt(b, 0, RESPONSE_SIZE)| < RESPONSE_SIZE)
  }

  /** Writes the text in `source` into a field of the buffer that is clear. */
  method PutText(b: array<char>, at: nat, size: nat, source: string)
    requires at + size <= b.Length && Region(b[..], at, size) == Zeros(size)
    requires |source| <= size && |CStr(source)| < size && CStr(source) != source
    modifies b
    ensures TextAt(b[..], at, size) == CStr(source)
    ensures b[..] == Overlay(old(b[..]), at, CStr(source))
  {
    hide CStr;
    OverlayClear(b[..], at, size, CStr(source));
    CutKeeps(source, size - 1);
    var n := SafeStrlen(source, size - 1);
    MemMove(b, at, source[..n]);
  }

  /** Puts the first `n` characters of `source` into a cleared field. */
  method Copy(b: array<char>, at: nat, size: nat, source: string, n: nat)
    requires at + size <= b.Length && n <= size && n <= |source|
    modifies b
    ensures b[..] == Refilled(old(b[..]), at, size, source[..n])
  {
    MemFill(b, at, size);
    MemMove(b, at, source[..n]);
  }

  /** Writes a literal as the response. */
  method PutLiteral(b: array<char>, text: string)
    requires RESPONSE_SIZE <= b.Length && Region(b[..], 0, RESPONSE_SIZE) == Zeros(RESPONSE_SIZE)
    requires |text| < RESPONSE_SIZE && NulFree(text)
    modifies b
    ensures TextAt(b[..], 0, RESPONSE_SIZE) == text
  {
    OverlayClear(b[..], 0, RESPONSE_SIZE, text);
    MemMove(b, 0, text);
  }

  /** Clears the response and writes a literal. */
  method SayError(b: array<char>, text: string)
    requires KV_SIZE <= b.Length && |text| < RESPONSE_SIZE && NulFree(text)
    modifies b
    ensures TextAt(b[..], 0, RESPONSE_SIZE) == text
  {
    hide CStr;
    RegionOfZeros(b[..], 0, RESPONSE_SIZE, 0, RESPONSE_SIZE);
    MemFill(b, 0, RESPONSE_SIZE);
    PutLiteral(b, text);
  }

  class TrustedApp {
    const sess: SessionContext
    const word: WordSize
    var runtime: Instance?

    ghost predicate Valid()
      reads this, runtime, if runtime == null then {} else {runtime.memory}, sess, sess.key, sess.value, sess.response
    {
      && sess.Valid()
      && (runtime != null ==> runtime.sess == sess && runtime.word == word && runtime.Valid())
    }

    /** A session that was opened just now. */
    constructor (word: WordSize)
      ensures Valid() && this.word == word && runtime == null && fresh(sess.Repr())
      ensures sess.State() == Sess(sess.State().args, 0, "", "", 0, 0, "", false)
    {
      this.word, runtime := word, null;
      sess := new SessionContext();
    }

    /** `call_step`: one step of the chaincode.  What a step that traps leaves behind is not known. */
    method CallStep() returns (ok: bool)
      requires Valid() && runtime != null
      modifies runtime, runtime.memory, sess, sess.key, sess.value, sess.response
      ensures ok ==> Valid() && runtime.State() == Step(old(runtime.State()), word)
    {
      hide Step;
      ok := *;
      if ok { runtime.StepResume(); }
    }

    /** Runs the chaincode until it waits or is done, and tells the proxy which. */
    method ProcessHostcallFlow(b: array<char>) returns (kind: nat, ghost trapped: bool)
      requires Valid() && runtime != null && b.Length >= KV_SIZE && b !in sess.Repr() && b != runtime.memory
      modifies runtime, runtime.memory, sess, sess.key, sess.value, sess.response, b
      ensures !trapped ==> Valid() && runtime.State() == Step(old(runtime.State()), word)
      ensures !trapped ==> MessageIn(kind, b[..]) == Told(runtime.State()) && Terminated(kind, b[..]) && IsKind(kind)
      ensures trapped ==> kind == INVOCATION_RESPONSE && TextAt(b[..], 0, RESPONSE_SIZE) == "RUNTIME_ERROR"
    {
      hide Step, Told, MessageIn, Terminated;
      var ok := CallStep();
      trapped := !ok;
      if !ok {
        SayError(b, RUNTIME_ERROR);
        return INVOCATION_RESPONSE, true;
      }
      kind := Tell(b);
    }

    method Tell(b: array<char>) returns (kind: nat)
      requires Valid() && runtime != null && b.Length >= KV_SIZE && b !in sess.Repr() && b != runtime.memory
      modifies b
      ensures MessageIn(kind, b[..]) == Told(runtime.State()) && Terminated(kind, b[..])
      ensures IsKind(kind)
    {
      hide CStr;
      if sess.pendingType == GET_STATE_REQUEST {
        PutKey(b);
        return GET_STATE_REQUEST;
      }
      if sess.pendingType == PUT_STATE_REQUEST {
        PutKey(b);
        ghost var before := b[..];
        PutText(b, VALUE_AT, VAL_SIZE, sess.value[..]);
        OverlayRegion(before, VALUE_AT, CStr(sess.value[..]), KEY_AT, KEY_SIZE);
        return PUT_STATE_REQUEST;
      }
      PutResponse(b);
      kind := INVOCATION_RESPONSE;
    }

    method PutResponse(b: array<char>)
      requires sess.Valid() && b.Length >= KV_SIZE && b !in sess.Repr()
      modifies b
      ensures var text := CStr(sess.response[..]);
              TextAt(b[..], 0, RESPONSE_SIZE) ==
              if !sess.hasResponse then "NO_RESPONSE" else if text != "" then text else "EMPTY_RESPONSE"
      ensures |TextAt(b[..], 0, RESPONSE_SIZE)| < RESPONSE_SIZE
    {
      hide CStr;
      RegionOfZeros(b[..], 0, RESPONSE_SIZE, 0, RESPONSE_SIZE);
      MemFill(b, 0, RESPONSE_SIZE);
      if sess.hasResponse {
        var n := SafeStrlen(sess.response[..], RESPONSE_SIZE - 1);
        CutKeeps(sess.response[..], RESPONSE_SIZE - 1);
        if n > 0 { PutText(b, 0, RESPONSE_SIZE, sess.response[..]); } else { PutLiteral(b, "EMPTY_RESPONSE"); }
      } else {
        PutLiteral(b, "NO_RESPONSE");
      }
    }

    method PutKey(b: array<char>)
      requires sess.Valid() && b.Length >= KV_SIZE && b !in sess.Repr()
      modifies b
      ensures TextAt(b[..], KEY_AT, KEY_SIZE) == CStr(sess.key[..])
      ensures Region(b[..], VALUE_AT, VAL_SIZE) == Zeros(VAL_SIZE)
    {
      hide CStr;
      RegionOfZeros(b[..], 0, KV_SIZE, KEY_AT, KEY_SIZE);
      RegionOfZeros(b[..], 0, KV_SIZE, VALUE_AT, VAL_SIZE);
      MemFill(b, 0, KV_SIZE);
      OverlayRegion(b[..], KEY_AT, CStr(sess.key[..]), VALUE_AT, VAL_SIZE);
      PutText(b, KEY_AT, KEY_SIZE, sess.key[..]);
    }

    /** The arguments in the buffer, or none if it is too small. */
    method GetArguments(b: array<char>)
      requires sess.Sizes() && b != sess.arguments
      modifies sess.arguments
      ensures sess.arguments[..] == if b.Length >= ARGUMENTS_SIZE then b[..ARGUMENTS_SIZE] else Zeros(ARGUMENTS_SIZE)
    {
      if b.Length >= ARGUMENTS_SIZE {
        MemMove(sess.arguments, 0, b[..ARGUMENTS_SIZE]);
      } else {
        MemFill(sess.arguments, 0, ARGUMENTS_SIZE);
      }
    }

    /** `COMMAND_RUN_WASM` */
    method RunWasm(b: array<char>) returns (ok: bool, kind: nat, ghost trapped: bool)
      requires Valid() && b.Length >= KV_SIZE && b !in sess.Repr()
      modifies this, sess, sess.arguments, sess.key, sess.value, sess.response, b
      ensures ok ==> runtime != null && fresh(runtime) && fresh(runtime.memory)
      ensures !ok ==>
                || b[..] == old(b[..])
                || (kind == INVOCATION_RESPONSE && TextAt(b[..], 0, RESPONSE_SIZE) == "STEP_INIT_FAILED")
      ensures var args := ArgumentsIn(if b.Length >= ARGUMENTS_SIZE then old(b[..ARGUMENTS_SIZE]) else Zeros(ARGUMENTS_SIZE));
              ok && !trapped ==>
                Valid() && runtime.State() == Step(Ta(old(sess.State()).(args := args), Mem("", "", "", "", ""), 0, OpNone), word)
      ensures ok && !trapped ==>
                MessageIn(kind, b[..]) == Told(runtime.State()) && Terminated(kind, b[..]) && IsKind(kind)
      ensures ok && trapped ==> kind == INVOCATION_RESPONSE && TextAt(b[..], 0, RESPONSE_SIZE) == "RUNTIME_ERROR"
    {
      hide Step, Told, MessageIn, Terminated, ArgumentsIn;
      GetArguments(b);
      kind, trapped := 0, false;
      ok := *;
      if !ok { return; }
      runtime := new Instance(sess, word);
      ok := *;
      if !ok {
        SayError(b, STEP_INIT_FAILED);
        kind := INVOCATION_RESPONSE;
        return;
      }
      kind, trapped := ProcessHostcallFlow(b);
    }

    /** `COMMAND_RESUME_WASM` */
    method ResumeWasm(b: array<char>) returns (ok: bool, kind: nat, ghost trapped: bool)
      requires Valid() && b.Length >= KV_SIZE && b !in sess.Repr()
      requires runtime != null ==> b != runtime.memory
      requires sess.pendingType == GET_STATE_REQUEST ==> sess.wasmOutOffset == G_CUR_VAL && sess.wasmOutLen == VAL_SIZE
      modifies if runtime == null then {} else {runtime, runtime.memory, sess, sess.key, sess.value, sess.response, b}
      ensures ok <==> runtime != null
      ensures ok && !trapped ==>
                && Valid()
                && runtime.State() == Resume(old(runtime.State()), Fitted(Region(old(b[..]), VALUE_AT, VAL_SIZE), VAL_SIZE), word)
                && MessageIn(kind, b[..]) == Told(runtime.State()) && Terminated(kind, b[..]) && IsKind(kind)
      ensures ok && trapped ==> kind == INVOCATION_RESPONSE && TextAt(b[..], 0, RESPONSE_SIZE) == "RUNTIME_ERROR"
    {
      hide Step, Told, MessageIn, Terminated;
      if runtime == null { return false, INVOCATION_RESPONSE, false; }
      Accept(b);
      kind, trapped := ProcessHostcallFlow(b);
      ok := true;
    }

    /** Puts the answer to the pending request where the chaincode wants it. */
    method Accept(b: array<char>)
      requires Valid() && runtime != null && b.Length >= KV_SIZE && b !in sess.Repr() && b != runtime.memory
      requires sess.pendingType == GET_STATE_REQUEST ==> sess.wasmOutOffset == G_CUR_VAL && sess.wasmOutLen == VAL_SIZE
      modifies runtime.memory, sess
      ensures Valid() && runtime.State() == Deliver(old(runtime.State()), Fitted(Region(b[..], VALUE_AT, VAL_SIZE), VAL_SIZE))
    {
      hide CStr, FieldOf, Static, Refilled;
      if sess.pendingType == GET_STATE_REQUEST {
        var source := b[VALUE_AT..VALUE_AT + VAL_SIZE];
        assert source == Region(b[..], VALUE_AT, VAL_SIZE);
        ghost var text := Natives.Shortened(source, VAL_SIZE);
        var n := SafeStrlen(source, sess.wasmOutLen - 1);
        CStrOfNulFree(text);
        RefillField(runtime.memory[..], G_CUR_VAL, text);
        if sess.wasmOutOffset != 0 && sess.wasmOutLen > 0
           && sess.wasmOutOffset + sess.wasmOutLen <= runtime.memory.Length && n > 0 {
          Copy(runtime.memory, sess.wasmOutOffset, sess.wasmOutLen, source, n);
        }
        sess.pendingType := 0;
        sess.wasmOutOffset := 0;
        sess.wasmOutLen := 0;
      } else if sess.pendingType == PUT_STATE_REQUEST {
        sess.pendingType := 0;
      }
    }
  }
}
