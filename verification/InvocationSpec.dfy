/** What an invocation is for: one step on the ledger. */
module InvocationSpec {
  import opened Decimal
  import opened Protocol

  /** The response of an invocation, the ledger after it, and the messages that the proxy sent. */
  datatype Outcome = Outcome(response: string, ledger: Ledger, trace: seq<ProxyMessage>)

  /** A text argument as the chaincode gets it. */
  function ArgumentOf(arguments: seq<string>, i: nat): (r: string) {
    if i < |arguments| then Fitted(arguments[i], ARG_SIZE) else ""
  }

  function Answer(key: string, response: string, ledger: Ledger): (r: Outcome) {
    Outcome(response, ledger, [GetStateRequest(key), InvocationResponse(response)])
  }

  function Write(key: string, value: string, ledger: Ledger): (r: Outcome) {
    Outcome("OK", ledger[key := value], [GetStateRequest(key), PutStateRequest(key, value), InvocationResponse("OK")])
  }

  ghost function Spec(name: string, arguments: seq<string>, ledger: Ledger, word: WordSize): (r: Outcome) {
    var op, key, arg := Fitted(name, ARG_SIZE), ArgumentOf(arguments, 0), ArgumentOf(arguments, 1);
    var current := Seen(Lookup(ledger, key));
    if op == "create" then
      if key == "" then Answer(key, "NO_RESPONSE", ledger)
      else if current != "" then Answer(key, "EXIST", ledger)
      else Write(key, arg, ledger)
    else if op == "add" then
      if current == "" then Answer(key, "EMPTY", ledger)
      else Write(key, Printed((Parsed(current, word) + Parsed(arg, word)) % word), ledger)
    else if op == "query" then
      Answer(key, if current == "" then "NOTFOUND" else current, ledger)
    else
      Outcome("ERROR", ledger, [InvocationResponse("ERROR")])
  }

  /** What a response to anything but a query tells: exactly what was done, and why nothing was. */
  lemma ResponseTells(name: string, arguments: seq<string>, ledger: Ledger, word: WordSize)
    requires Fitted(name, ARG_SIZE) != "query"
    ensures var o, op, key := Spec(name, arguments, ledger, word), Fitted(name, ARG_SIZE), ArgumentOf(arguments, 0);
            var found := Seen(Lookup(ledger, key)) != "";
            && (o.response == "ERROR" <==> op != "create" && op != "add")
            && (o.response == "NO_RESPONSE" <==> op == "create" && key == "")
            && (o.response == "EXIST" <==> op == "create" && key != "" && found)
            && (o.response == "EMPTY" <==> op == "add" && !found)
            && (o.response == "OK" <==> exists v :: o.trace == [GetStateRequest(key), PutStateRequest(key, v), InvocationResponse("OK")])
            && (o.response != "OK" ==> o.ledger == ledger)
  {
  }

  /** A name that is no function is answered with an error, and nothing is read or written. */
  lemma UnknownFunction(name: string, arguments: seq<string>, ledger: Ledger, word: WordSize)
    requires Fitted(name, ARG_SIZE) !in {"create", "add", "query"}
    ensures Spec(name, arguments, ledger, word) == Outcome("ERROR", ledger, [InvocationResponse("ERROR")])
  {
  }

  /** Only a query of a value with that very text is answered as a chaincode that traps is. */
  lemma LooksLikeTrap(name: string, arguments: seq<string>, ledger: Ledger, word: WordSize)
    ensures RUNTIME_ERROR == "RUNTIME_ERROR"
    ensures Spec(name, arguments, ledger, word).response == RUNTIME_ERROR
       <==> Fitted(name, ARG_SIZE) == "query" && Seen(Lookup(ledger, ArgumentOf(arguments, 0))) == "RUNTIME_ERROR"
  {
  }
}
