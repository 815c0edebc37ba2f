/** The functions that the chaincode imports from its host. */
module Natives {
  import opened CStrings
  import opened Buffers
  import opened Protocol
  import opened Session

  /** `to_native` succeeds: the WASM memory has `n` characters at `ptr`. */
  predicate InBounds(memory: array<char>, ptr: nat, n: int)
  {
    0 <= n && ptr + n <= memory.Length
  }

  /** The part of `n` characters at `ptr` that fits in a field of `size` characters. */
  ghost function Taken(memory: string, ptr: nat, n: int, size: nat): (r: string)
    requires size > 0
    ensures |r| < size
  {
    if 0 < n && ptr + n <= |memory| then Cut(memory[ptr..ptr + n], size - 1) else ""
  }

  lemma TakenIs(memory: string, ptr: nat, n: int, k: nat, size: nat)
    requires size > 0 && 0 < k <= n && ptr + n <= |memory| && k == if n < size - 1 then n else size - 1
    ensures Taken(memory, ptr, n, size) == memory[ptr..ptr + k]
  {
    assert memory[ptr..ptr + n][..k] == memory[ptr..ptr + k];
  }

  lemma TakenIsNothing(memory: string, ptr: nat, n: int, size: nat)
    requires size > 0 && (n <= 0 || size == 1 || ptr + n > |memory|)
    ensures Taken(memory, ptr, n, size) == ""
  {
  }

  lemma OverlayNothing(b: string, at: nat)
    requires at <= |b|
    ensures Overlay(b, at, "") == b
  {
  }

  /** A field that was cleared and then got text `x` at its start. */
  lemma FieldHolds(before: string, now: string, x: string)
    requires |x| < |now| == |before| && now == Overlay(Overlay(before, 0, Zeros(|before|)), 0, x)
    ensures CStr(now) == CStr(x) && |CStr(now)| < |now|
    ensures forall i | |x| <= i < |now| :: now[i] == NUL
  {
    hide CStr;
    RefilledRegion(before, 0, |before|, x, 0, 0);
    assert Region(now, 0, |now|) == now;
    var cleared := Overlay(before, 0, Zeros(|before|));
    forall i | |x| <= i < |now| ensures now[i] == NUL {
      assert now[i] == cleared[i] == Zeros(|before|)[i];
    }
  }

  /** Puts the part of `n` characters at `ptr` into a cleared field of the session. */
  method CopyIn(memory: array<char>, ptr: nat, n: int, field: array<char>)
    requires field.Length > 0 && field != memory
    modifies field
    ensures CStr(field[..]) == CStr(Taken(memory[..], ptr, n, field.Length)) && |CStr(field[..])| < field.Length
    ensures forall i | |Taken(memory[..], ptr, n, field.Length)| <= i < field.Length :: field[i] == NUL
  {
    hide CStr, Overlay, Taken;
    ghost var before := field[..];
    MemFill(field, 0, field.Length);
    var k := if n < field.Length - 1 then n else field.Length - 1;
    if k > 0 && InBounds(memory, ptr, n) {
      TakenIs(memory[..], ptr, n, k, field.Length);
      assert memory[..][ptr..ptr + k] == memory[ptr..ptr + k];
      MemMove(field, 0, memory[ptr..ptr + k]);
    } else {
      TakenIsNothing(memory[..], ptr, n, field.Length);
      OverlayNothing(field[..], 0);
    }
    FieldHolds(before, field[..], Taken(memory[..], ptr, n, field.Length));
  }

  /** The text at the start of `source`, as much as a field of `outLen` characters holds. */
  ghost function Shortened(source: string, outLen: nat): (r: string)
    requires outLen > 0
    ensures |r| < outLen && |r| <= |source| && r == source[..|r|]
  {
    CStr(Cut(source, outLen - 1))
  }

  /** Puts a text into a field of the WASM memory that is cleared before. */
  method CopyOut(memory: array<char>, outPtr: nat, outLen: nat, source: string) returns (n: nat)
    requires outLen > 0 && InBounds(memory, outPtr, outLen)
    requires outLen - 1 <= |source| || CStr(source) != source
    modifies memory
    ensures n == |Shortened(source, outLen)|
    ensures memory[..] == Refilled(old(memory[..]), outPtr, outLen, Shortened(source, outLen))
  {
    hide CStr, Overlay;
    n := SafeStrlen(source, outLen - 1);
    ghost var text := Shortened(source, outLen);
    assert source[..n] == text;
    MemFill(memory, outPtr, outLen);
    if n > 0 {
      MemMove(memory, outPtr, source[..n]);
    } else {
      OverlayNothing(memory[..], outPtr);
    }
  }

  /** `cc_get_function_native` */
  method GetFunction(sess: SessionContext, memory: array<char>, outPtr: nat, outLen: int) returns (n: nat)
    requires sess.Sizes() && memory !in sess.Repr()
    requires outLen <= ARGS_NUMBER * ARG_SIZE + 1 || CStr(sess.arguments[..]) != sess.arguments[..]
    modifies memory
    ensures outLen <= 0 || !InBounds(memory, outPtr, outLen) ==> n == 0 && memory[..] == old(memory[..])
    ensures outLen > 0 && InBounds(memory, outPtr, outLen) ==>
              n == |Shortened(sess.arguments[..], outLen)| &&
              memory[..] == Refilled(old(memory[..]), outPtr, outLen, Shortened(sess.arguments[..], outLen))
  {
    if outLen <= 0 || !InBounds(memory, outPtr, outLen) { return 0; }
    n := CopyOut(memory, outPtr, outLen, sess.arguments[..]);
  }

  /** `cc_get_arg_native`; with index 9 it would read behind the last argument. */
  method GetArg(sess: SessionContext, memory: array<char>, idx: int, outPtr: nat, outLen: int) returns (n: nat)
    requires sess.Sizes() && memory !in sess.Repr()
    requires outLen > 0 && InBounds(memory, outPtr, outLen) && 0 <= idx < ARGS_NUMBER ==>
               && idx + 1 < ARGS_NUMBER
               && var rest := sess.arguments[(idx + 1) * ARG_SIZE..]; outLen - 1 <= |rest| || CStr(rest) != rest
    modifies memory
    ensures outLen <= 0 || !InBounds(memory, outPtr, outLen) ==> n == 0 && memory[..] == old(memory[..])
    ensures outLen > 0 && InBounds(memory, outPtr, outLen) ==>
              var text := if 0 <= idx < ARGS_NUMBER - 1 then Shortened(sess.arguments[(idx + 1) * ARG_SIZE..], outLen) else "";
              n == |text| && memory[..] == Refilled(old(memory[..]), outPtr, outLen, text)
  {
    if !InBounds(memory, outPtr, outLen) || outLen <= 0 { return 0; }
    var arg := [NUL];
    if 0 <= idx < ARGS_NUMBER { arg := sess.arguments[(idx + 1) * ARG_SIZE..]; }
    n := CopyOut(memory, outPtr, outLen, arg);
  }

  /** `cc_get_state_native` */
  method GetState(sess: SessionContext, memory: array<char>, keyPtr: nat, keyLen: int, outPtr: nat, outLen: int)
    returns (n: int)
    requires sess.Valid() && memory !in sess.Repr()
    modifies sess, sess.key
    ensures sess.Valid()
    ensures outLen <= 0 || !InBounds(memory, outPtr, outLen) ==> n == 0 && sess.State() == old(sess.State())
    ensures outLen > 0 && InBounds(memory, outPtr, outLen) ==>
              n == (if keyLen < KEY_SIZE - 1 then keyLen else KEY_SIZE - 1) &&
              sess.State() == old(sess.State()).(
                key := CStr(Taken(memory[..], keyPtr, keyLen, KEY_SIZE)), pending := GET_STATE_REQUEST,
                outOffset := outPtr, outLen := outLen)
  {
    if !InBounds(memory, outPtr, outLen) || outLen <= 0 { return 0; }
    CopyIn(memory, keyPtr, keyLen, sess.key);
    sess.pendingType := GET_STATE_REQUEST;
    sess.wasmOutOffset := outPtr;
    sess.wasmOutLen := outLen;
    n := if keyLen < KEY_SIZE - 1 then keyLen else KEY_SIZE - 1;
  }

  /** `cc_put_state_native` */
  method PutState(sess: SessionContext, memory: array<char>, keyPtr: nat, keyLen: int, valPtr: nat, valLen: int)
    returns (n: int)
    requires sess.Valid() && memory !in sess.Repr()
    modifies sess, sess.key, sess.value
    ensures sess.Valid() && n == -1
    ensures sess.State() == old(sess.State()).(
              key := CStr(Taken(memory[..], keyPtr, keyLen, KEY_SIZE)),
              value := CStr(Taken(memory[..], valPtr, valLen, VAL_SIZE)),
              pending := PUT_STATE_REQUEST, outOffset := 0, outLen := 0)
  {
    CopyIn(memory, keyPtr, keyLen, sess.key);
    CopyIn(memory, valPtr, valLen, sess.value);
    sess.pendingType := PUT_STATE_REQUEST;
    sess.wasmOutOffset := 0;
    sess.wasmOutLen := 0;
    n := -1;
  }

  /** `cc_return_response_native` */
  method ReturnResponse(sess: SessionContext, memory: array<char>, msgPtr: nat, msgLen: nat) returns (n: nat)
    requires sess.Valid() && memory !in sess.Repr()
    modifies sess, sess.response
    ensures sess.Valid() && n == if msgLen < RESPONSE_SIZE - 1 then msgLen else RESPONSE_SIZE - 1
    ensures sess.State() == old(sess.State()).(
              response := CStr(Taken(memory[..], msgPtr, msgLen, RESPONSE_SIZE)), hasResponse := true)
  {
    n := if msgLen < RESPONSE_SIZE - 1 then msgLen else RESPONSE_SIZE - 1;
    CopyIn(memory, msgPtr, msgLen, sess.response);
    ghost var stored := sess.response[..];
    sess.response[n] := NUL;
    assert sess.response[..] == stored;
    sess.hasResponse := true;
  }
}
