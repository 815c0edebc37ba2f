/** The trusted application and its chaincode on texts instead of buffers: what one resumption
    does, which request it ends with, and what holds whenever the chaincode is suspended. */
module TaModel {
  import opened Decimal
  import opened Protocol

  datatype Op = OpNone | OpCreate | OpAdd | OpQuery

  /** Where the buffers are in the linear memory of the WASM module. */
  const G_FUNCTION: nat := 1024
  const G_ARG1: nat := 1088
  const G_PERSON: nat := 1152
  const G_CUR_VAL: nat := 1216
  const G_TMP: nat := 1472

  const CREATE_AFTER_GET: nat := 11
  const CREATE_AFTER_PUT: nat := 12
  const ADD_AFTER_GET: nat := 21
  const ADD_AFTER_PUT: nat := 22
  const QUERY_AFTER_GET: nat := 31

  /** The session context. */
  datatype Sess = Sess(
    args: seq<string>, pending: nat, key: string, value: string,
    outOffset: nat, outLen: int, response: string, hasResponse: bool)

  /** The static buffers of the chaincode. */
  datatype Mem = Mem(name: string, arg1: string, person: string, curVal: string, tmp: string)

  /** Session, chaincode memory, and the state of the chaincode's automaton. */
  datatype Ta = Ta(sess: Sess, mem: Mem, fsm: nat, op: Op)

  function Argument(s: Sess, i: nat): (r: string) {
    if i < |s.args| then s.args[i] else ""
  }

  /** `cc_get_state` */
  function AskGet(t: Ta): (r: Ta) {
    t.(sess := t.sess.(key := t.mem.person, pending := GET_STATE_REQUEST, outOffset := G_CUR_VAL, outLen := VAL_SIZE))
  }

  /** `cc_put_state` */
  function AskPut(t: Ta, value: string): (r: Ta) {
    t.(sess := t.sess.(key := t.mem.person, value := value, pending := PUT_STATE_REQUEST, outOffset := 0, outLen := 0))
  }

  /** `cc_return_response` */
  function Respond(t: Ta, text: string): (r: Ta) {
    t.(sess := t.sess.(response := text, hasResponse := true))
  }

  /** The automaton is idle again. */
  function Idle(t: Ta): (r: Ta) {
    t.(fsm := 0, op := OpNone)
  }

  function CreateInit(t: Ta): (r: Ta) {
    var m := t.mem.(person := Argument(t.sess, 1), arg1 := Argument(t.sess, 2), curVal := "");
    var t' := AskGet(t.(op := OpCreate, mem := m));
    if m.person != "" then t'.(fsm := CREATE_AFTER_GET) else t'
  }

  function CreateResume(t: Ta): (r: Ta) {
    if t.fsm == CREATE_AFTER_GET then
      if t.mem.curVal != "" then Idle(Respond(t, "EXIST"))
      else AskPut(t, t.mem.arg1).(fsm := CREATE_AFTER_PUT)
    else if t.fsm == CREATE_AFTER_PUT then Idle(Respond(t, "OK"))
    else t
  }

  function AddInit(t: Ta): (r: Ta) {
    var m := t.mem.(person := Argument(t.sess, 1), arg1 := Argument(t.sess, 2), curVal := "");
    AskGet(t.(op := OpAdd, mem := m)).(fsm := ADD_AFTER_GET)
  }

  ghost function AddResume(t: Ta, word: WordSize): (r: Ta) {
    if t.fsm == ADD_AFTER_GET then
      if t.mem.curVal == "" then Idle(Respond(t, "EMPTY"))
      else
        var sum := Printed((Parsed(t.mem.curVal, word) + Parsed(t.mem.arg1, word)) % word);
        AskPut(t.(mem := t.mem.(tmp := sum)), sum).(fsm := ADD_AFTER_PUT)
    else if t.fsm == ADD_AFTER_PUT then Idle(Respond(t, "OK"))
    else t
  }

  function QueryInit(t: Ta): (r: Ta) {
    var m := t.mem.(person := Argument(t.sess, 1), curVal := "");
    AskGet(t.(op := OpQuery, mem := m)).(fsm := QUERY_AFTER_GET)
  }

  function QueryResume(t: Ta): (r: Ta) {
    if t.fsm == QUERY_AFTER_GET then
      Idle(Respond(t, if t.mem.curVal == "" then "NOTFOUND" else t.mem.curVal))
    else t
  }

  /** `step_resume` */
  ghost function Step(t0: Ta, word: WordSize): (r: Ta) {
    var t := if t0.op == OpNone && t0.mem.name == "" then t0.(mem := t0.mem.(name := Argument(t0.sess, 0))) else t0;
    match t.op
    case OpCreate => CreateResume(t)
    case OpAdd => AddResume(t, word)
    case OpQuery => QueryResume(t)
    case OpNone =>
      if t.mem.name == "create" then CreateInit(t)
      else if t.mem.name == "add" then AddInit(t)
      else if t.mem.name == "query" then QueryInit(t)
      else Respond(t, "ERROR")
  }

  /** The states in which an operation goes on; resumed in any other one, it does nothing. */
  lemma OtherStates(t: Ta, word: WordSize)
    requires t.op == OpCreate ==> t.fsm != 11 && t.fsm != 12
    requires t.op == OpAdd ==> t.fsm != 21 && t.fsm != 22
    requires t.op == OpQuery ==> t.fsm != 31
    ensures t.op != OpNone ==> Step(t, word) == t
  {
  }

  /** What the host is told after a step. */
  function Told(t: Ta): (r: ProxyMessage) {
    if t.sess.pending == GET_STATE_REQUEST then GetStateRequest(t.sess.key)
    else if t.sess.pending == PUT_STATE_REQUEST then PutStateRequest(t.sess.key, t.sess.value)
    else InvocationResponse(if !t.sess.hasResponse then "NO_RESPONSE"
                            else if t.sess.response != "" then t.sess.response else "EMPTY_RESPONSE")
  }

  /** `COMMAND_RUN_WASM`, on a fresh instance. */
  ghost function Run(args: seq<string>, word: WordSize): (r: Ta) {
    Step(Ta(Sess(args, 0, "", "", 0, 0, "", false), Mem("", "", "", "", ""), 0, OpNone), word)
  }

  /** What `COMMAND_RESUME_WASM` does before the step, with `value` in the shared buffer. */
  function Deliver(t: Ta, value: string): (r: Ta) {
    if t.sess.pending == GET_STATE_REQUEST then
      var m := if t.sess.outOffset == G_CUR_VAL && value != "" then t.mem.(curVal := value) else t.mem;
      t.(mem := m, sess := t.sess.(pending := 0, outOffset := 0, outLen := 0))
    else if t.sess.pending == PUT_STATE_REQUEST then t.(sess := t.sess.(pending := 0))
    else t
  }

  ghost function Resume(t: Ta, value: string, word: WordSize): (r: Ta) {
    Step(Deliver(t, value), word)
  }
}
