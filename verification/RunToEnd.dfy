/** The hops between the chaincode and the ledger, to the end of an invocation: they end, and
    together they do the one step that the invocation is for. */
module RunToEnd {
  import opened CStrings
  import opened Decimal
  import opened Protocol
  import opened TaModel
  import opened InvocationSpec

  /** Creating under the empty key: the chaincode asks for the value, but forgets that it did. */
  ghost predicate Forgotten(t: Ta) {
    t.fsm == 0 && t.op == OpCreate && t.mem.person == ""
  }

  ghost predicate AwaitsGet(t: Ta) {
    && t.sess.outOffset == G_CUR_VAL && t.sess.outLen == VAL_SIZE && t.mem.curVal == ""
    && t.sess.key == t.mem.person && !t.sess.hasResponse
    && ( || (t.fsm == CREATE_AFTER_GET && t.op == OpCreate && t.mem.person != "")
         || (t.fsm == ADD_AFTER_GET && t.op == OpAdd)
         || (t.fsm == QUERY_AFTER_GET && t.op == OpQuery)
         || Forgotten(t))
  }

  ghost predicate AwaitsPut(t: Ta) {
    && t.sess.key == t.mem.person && !t.sess.hasResponse
    && ( || (t.fsm == CREATE_AFTER_PUT && t.op == OpCreate && t.sess.value == t.mem.arg1)
         || (t.fsm == ADD_AFTER_PUT && t.op == OpAdd && t.sess.value == t.mem.tmp))
  }

  ghost predicate IsDone(t: Ta) {
    (t.sess.hasResponse && t.sess.response != "" && t.fsm == 0 && t.op == OpNone) || (!t.sess.hasResponse && Forgotten(t))
  }

  /** What holds of session and chaincode together whenever the chaincode is suspended. */
  ghost predicate Suspended(t: Ta) {
    && (t.sess.pending == GET_STATE_REQUEST || t.sess.pending == PUT_STATE_REQUEST || t.sess.pending == 0)
    && (t.sess.pending == GET_STATE_REQUEST ==> AwaitsGet(t))
    && (t.sess.pending == PUT_STATE_REQUEST ==> AwaitsPut(t))
    && (t.sess.pending == 0 ==> IsDone(t))
  }

  /** How many requests may still come. */
  function Rank(t: Ta): (r: nat) {
    if t.sess.pending == GET_STATE_REQUEST then 2 else if t.sess.pending == PUT_STATE_REQUEST then 1 else 0
  }

  lemma RunSuspends(args: seq<string>, word: WordSize)
    ensures Suspended(Run(args, word)) && Run(args, word).sess.args == args
    ensures Run(args, word).sess.pending != PUT_STATE_REQUEST
  {
  }

  /** Every resumption leads from a suspended state to another, closer to the end; a request
      that follows another has the same key. */
  lemma ResumeSuspends(t: Ta, value: string, word: WordSize)
    requires Suspended(t) && t.sess.pending != 0
    ensures var t' := Resume(t, value, word);
            && Suspended(t') && Rank(t') < Rank(t) && t'.sess.args == t.sess.args
            && (t'.sess.pending != 0 ==> t'.sess.key == t.sess.key)
  {
  }

  /** From a suspended state to the end: the ledger answers every request. */
  ghost function Finish(t: Ta, ledger: Ledger, word: WordSize): (o: Outcome)
    requires Suspended(t)
    decreases Rank(t)
  {
    var m := Told(t);
    match m
    case InvocationResponse(text) => Outcome(text, ledger, [m])
    case GetStateRequest(key) =>
      var v := Seen(Lookup(ledger, key));
      ResumeSuspends(t, v, word);
      var o := Finish(Resume(t, v, word), ledger, word);
      o.(trace := [m] + o.trace)
    case PutStateRequest(key, value) =>
      ResumeSuspends(t, "", word);
      var o := Finish(Resume(t, "", word), ledger[key := value], word);
      o.(trace := [m] + o.trace)
  }

  /** How the proxy packs function name and arguments. */
  function Packed(name: string, arguments: seq<string>): (args: seq<string>)
    ensures |args| == ARGS_NUMBER
    ensures args[0] == Fitted(name, ARG_SIZE)
    ensures forall i | 0 < i < ARGS_NUMBER :: args[i] == ArgumentOf(arguments, i - 1)
  {
    seq(ARGS_NUMBER, i requires 0 <= i < ARGS_NUMBER =>
      if i == 0 then Fitted(name, ARG_SIZE) else ArgumentOf(arguments, i - 1))
  }

  /** All the hops of an invocation amount to the one step that it is for. */
  lemma RunIsSpec(name: string, arguments: seq<string>, ledger: Ledger, word: WordSize)
    ensures Suspended(Run(Packed(name, arguments), word))
    ensures Finish(Run(Packed(name, arguments), word), ledger, word) == Spec(name, arguments, ledger, word)
  {
    hide CStr, Fitted, LeadingDigits, Number, Printed, Seen;
    RunSuspends(Packed(name, arguments), word);
    var t := Run(Packed(name, arguments), word);
    if t.sess.pending == GET_STATE_REQUEST {
      GetLeadsToEnd(t, ledger, word);
    }
  }

  /** What comes after the request for the current value. */
  lemma GetLeadsToEnd(t: Ta, ledger: Ledger, word: WordSize)
    requires Suspended(t) && t.sess.pending == GET_STATE_REQUEST
    ensures var key, v := t.sess.key, Seen(Lookup(ledger, t.sess.key));
            Finish(t, ledger, word) ==
            if Forgotten(t) then Answer(key, "NO_RESPONSE", ledger)
            else if t.op == OpCreate then (if v != "" then Answer(key, "EXIST", ledger) else Write(key, t.mem.arg1, ledger))
            else if t.op == OpAdd then
              (if v == "" then Answer(key, "EMPTY", ledger)
               else Write(key, Printed((Parsed(v, word) + Parsed(t.mem.arg1, word)) % word), ledger))
            else Answer(key, if v == "" then "NOTFOUND" else v, ledger)
  {
    hide CStr, LeadingDigits, Number, Printed, Seen;
    var v := Seen(Lookup(ledger, t.sess.key));
    var t' := Resume(t, v, word);
    ResumeSuspends(t, v, word);
    if t'.sess.pending == PUT_STATE_REQUEST {
      PutLeadsToEnd(t', ledger, word);
    }
  }

  /** What comes after the request to store a value. */
  lemma PutLeadsToEnd(t: Ta, ledger: Ledger, word: WordSize)
    requires Suspended(t) && t.sess.pending == PUT_STATE_REQUEST
    ensures Finish(t, ledger, word) ==
            Outcome("OK", ledger[t.sess.key := t.sess.value],
                    [PutStateRequest(t.sess.key, t.sess.value), InvocationResponse("OK")])
  {
    ResumeSuspends(t, "", word);
  }

  /** From suspended state `t` the invocation leads to outcome `o`. */
  ghost predicate Leads(t: Ta, ledger: Ledger, sent: seq<ProxyMessage>, sent0: seq<ProxyMessage>, o: Outcome, word: WordSize) {
    && Suspended(t)
    && var rest := Finish(t, ledger, word);
       o.response == rest.response && o.ledger == rest.ledger && sent0 + o.trace == sent + rest.trace
  }

  /** One hop of the proxy's loop comes closer to that outcome. */
  lemma Hop(t: Ta, ledger: Ledger, sent: seq<ProxyMessage>, sent0: seq<ProxyMessage>, o: Outcome, word: WordSize)
    requires Leads(t, ledger, sent, sent0, o, word)
    ensures match Told(t)
            case InvocationResponse(text) => o.response == text && o.ledger == ledger && sent0 + o.trace == sent + [Told(t)]
            case GetStateRequest(key) =>
              var t' := Resume(t, Seen(Lookup(ledger, key)), word);
              Leads(t', ledger, sent + [Told(t)], sent0, o, word) && Rank(t') < Rank(t)
            case PutStateRequest(key, value) =>
              var t' := Resume(t, "", word);
              Leads(t', ledger[key := value], sent + [Told(t)], sent0, o, word) && Rank(t') < Rank(t)
  {
    hide Resume, Seen;
    if !Told(t).InvocationResponse? {
      ResumeSuspends(t, "", word);
      ResumeSuspends(t, Seen(Lookup(ledger, t.sess.key)), word);
    }
  }
}
