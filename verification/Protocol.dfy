/** The messages between the parties of an invocation, and their sizes. */
module Protocol {
  import opened CStrings

  const ARG_SIZE: nat := 64
  const ARGS_NUMBER: nat := 10
  const KEY_SIZE: nat := 64
  const VAL_SIZE: nat := 256
  const RESPONSE_SIZE: nat := 256
  const ACK_SIZE: nat := 20

  const INVOCATION_RESPONSE: nat := 0
  const GET_STATE_REQUEST: nat := 1
  const PUT_STATE_REQUEST: nat := 2

  /** From the proxy to the wrapper. */
  datatype ProxyMessage =
    | InvocationResponse(text: string)
    | GetStateRequest(key: string)
    | PutStateRequest(key: string, value: string)

  /** From the wrapper to the proxy. */
  datatype WrapperMessage =
    | InvocationRequest(name: string, arguments: seq<string>)
    | GetStateResponse(value: string)
    | PutStateResponse(acknowledgement: string)

  /** What the peer is told. */
  datatype PeerResponse = Success(payload: string) | Error(message: string)

  /** The response when the chaincode traps. */
  const RUNTIME_ERROR: string := "RUNTIME_ERROR"

  /** The ledger of the peer; a key that is not there reads as the empty value. */
  type Ledger = map<string, string>

  function Lookup(ledger: Ledger, key: string): (r: string) {
    if key in ledger then ledger[key] else ""
  }

  /** What is left of a text that is cut to a field of `size` characters. */
  function Fitted(s: string, size: nat): (r: string)
    requires size > 0
  {
    CStr(Cut(s, size - 1))
  }

  /** What a ledger value looks like to the chaincode: it is dropped if it is too long. */
  function Seen(value: string): (r: string) {
    if |value| < VAL_SIZE then CStr(value) else ""
  }

  /** What a buffer of 64 characters keeps of a text: up to 63 characters, and none from a NUL on. */
  lemma FittedIs(s: string)
    ensures var f := Fitted(s, ARG_SIZE);
            && |f| <= 63 && |f| <= |s| && f == s[..|f|] && (forall i | 0 <= i < |f| :: f[i] != '\0')
            && (|f| == 63 || |f| == |s| || s[|f|] == '\0')
  {
  }

  /** What the chaincode sees of a ledger value: nothing of 256 characters or more, and otherwise
      what comes before the first NUL. */
  lemma SeenIs(value: string)
    ensures var v := Seen(value);
            if |value| >= 256 then v == ""
            else && |v| <= |value| && v == value[..|v|] && (forall i | 0 <= i < |v| :: v[i] != '\0')
                 && (|v| == |value| || value[|v|] == '\0')
  {
  }

  /** The sizes of all fields, and the numbers of the kinds of messages. */
  lemma LayoutIs()
    ensures ARG_SIZE == 64 && ARGS_NUMBER == 10 && KEY_SIZE == 64 && VAL_SIZE == 256 && RESPONSE_SIZE == 256
            && ACK_SIZE == 20
    ensures INVOCATION_RESPONSE == 0 && GET_STATE_REQUEST == 1 && PUT_STATE_REQUEST == 2
  {
  }

  /** A value that goes through the buffers unharmed. */
  ghost predicate Transportable(value: string) {
    NulFree(value) && |value| < VAL_SIZE
  }

  lemma SeenIsLossless(value: string)
    ensures Seen(value) == value <==> Transportable(value)
  {
    if NulFree(value) { CStrOfNulFree(value); }
  }

  lemma FittedIsTransportable(s: string, size: nat)
    requires 0 < size <= VAL_SIZE
    ensures Transportable(Fitted(s, size)) && |Fitted(s, size)| < size
  {
  }

  lemma FittedIsSame(s: string)
    requires NulFree(s) && |s| < ARG_SIZE
    ensures Fitted(s, ARG_SIZE) == s
  {
    CStrOfNulFree(s);
  }
}
