/** The resumable chaincode: an automaton whose texts live in the linear memory of a WASM module. */
module Chaincode {
  import opened CStrings
  import opened Decimal
  import opened Buffers
  import opened Protocol
  import opened TaModel
  import opened Session
  import Natives

  const MEMORY_SIZE: nat := 2048

  /** Where the string literals are, in the data segment. */
  const S_CREATE: nat := 8
  const S_ADD: nat := 15
  const S_QUERY: nat := 19
  const S_EXIST: nat := 25
  const S_OK: nat := 31
  const S_EMPTY: nat := 34
  const S_NOTFOUND: nat := 40
  const S_ERROR: nat := 49
  const S_END: nat := 55

  /** The literal at `at` is `s`. */
  ghost predicate IsLiteral(at: nat, s: string) {
    || (at == S_CREATE && s == "create") || (at == S_ADD && s == "add") || (at == S_QUERY && s == "query")
    || (at == S_EXIST && s == "EXIST") || (at == S_OK && s == "OK") || (at == S_EMPTY && s == "EMPTY")
    || (at == S_NOTFOUND && s == "NOTFOUND") || (at == S_ERROR && s == "ERROR")
  }

  /** The memory of a fresh instance: the literals, and zeros. */
  function Initial(i: nat): (r: char) {
    if S_CREATE <= i < S_CREATE + 6 then "create"[i - S_CREATE]
    else if S_ADD <= i < S_ADD + 3 then "add"[i - S_ADD]
    else if S_QUERY <= i < S_QUERY + 5 then "query"[i - S_QUERY]
    else if S_EXIST <= i < S_EXIST + 5 then "EXIST"[i - S_EXIST]
    else if S_OK <= i < S_OK + 2 then "OK"[i - S_OK]
    else if S_EMPTY <= i < S_EMPTY + 5 then "EMPTY"[i - S_EMPTY]
    else if S_NOTFOUND <= i < S_NOTFOUND + 8 then "NOTFOUND"[i - S_NOTFOUND]
    else if S_ERROR <= i < S_ERROR + 5 then "ERROR"[i - S_ERROR]
    else NUL
  }

  lemma InitialIsStatic(m: string)
    requires |m| == MEMORY_SIZE && forall i | 0 <= i < |m| :: m[i] == Initial(i)
    ensures Static(m) && MemOf(m) == Mem("", "", "", "", "")
  {
    InitialLiterals(m);
    forall at | IsField(at) ensures FieldOf(m, at) == "" {
      CStrIs(Region(m, at, FieldSize(at)), 0);
    }
  }

  lemma InitialHas(at: nat, s: string, k: nat)
    requires IsLiteral(at, s) && k <= |s|
    ensures at + |s| < S_END && NulFree(s) && Initial(at + k) == if k < |s| then s[k] else NUL
  {
  }

  lemma InitialLiterals(m: string)
    requires |m| == MEMORY_SIZE && forall i | 0 <= i < |m| :: m[i] == Initial(i)
    ensures Literals(m)
  {
    hide IsLiteral, Initial;
    forall at: nat, s | IsLiteral(at, s) ensures at + |s| < S_END && Region(m, at, |s|) == s && m[at + |s|] == NUL && NulFree(s) {
      InitialHas(at, s, 0);
      forall k: nat | k <= |s| ensures Initial(at + k) == if k < |s| then s[k] else NUL {
        InitialHas(at, s, k);
      }
      InitialHas(at, s, |s|);
    }
  }

  /** The data segment holds the literals. */
  ghost predicate Literals(m: string)
    requires |m| == MEMORY_SIZE
  {
    forall at: nat, s | IsLiteral(at, s) :: at + |s| < S_END && Region(m, at, |s|) == s && m[at + |s|] == NUL && NulFree(s)
  }

  /** The static buffers. */
  ghost predicate IsField(at: nat) {
    at == G_FUNCTION || at == G_ARG1 || at == G_PERSON || at == G_CUR_VAL || at == G_TMP
  }

  function FieldSize(at: nat): (n: nat) {
    if at == G_CUR_VAL || at == G_TMP then VAL_SIZE else KEY_SIZE
  }

  ghost function FieldOf(m: string, at: nat): (r: string)
    requires |m| == MEMORY_SIZE && IsField(at)
  {
    TextAt(m, at, FieldSize(at))
  }

  /** The literals are there, and every static buffer holds the NUL that ends its text. */
  ghost predicate Static(m: string) {
    && |m| == MEMORY_SIZE && Literals(m)
    && forall at | IsField(at) :: |FieldOf(m, at)| < FieldSize(at)
  }

  ghost function MemOf(m: string): (r: Mem)
    requires |m| == MEMORY_SIZE
  {
    Mem(FieldOf(m, G_FUNCTION), FieldOf(m, G_ARG1), FieldOf(m, G_PERSON), FieldOf(m, G_CUR_VAL), FieldOf(m, G_TMP))
  }

  ghost function WithField(t: Mem, at: nat, x: string): (r: Mem)
    requires IsField(at)
  {
    if at == G_FUNCTION then t.(name := x) else if at == G_ARG1 then t.(arg1 := x)
    else if at == G_PERSON then t.(person := x) else if at == G_CUR_VAL then t.(curVal := x) else t.(tmp := x)
  }

  /** Refilling one buffer changes that one only. */
  lemma RefillField(m: string, at: nat, x: string)
    requires Static(m) && IsField(at) && |x| < FieldSize(at)
    ensures var m' := Refilled(m, at, FieldSize(at), x);
            Static(m') && MemOf(m') == WithField(MemOf(m), at, CStr(x))
  {
    hide CStr, Refilled, Region, FieldOf, Literals;
    var m' := Refilled(m, at, FieldSize(at), x);
    RefillKeepsLiterals(m, at, x);
    forall at' | IsField(at') ensures FieldOf(m', at') == if at' == at then CStr(x) else FieldOf(m, at') {
      RefillOther(m, at, x, at');
    }
    RefillFits(m, at, x);
  }

  lemma RefillOther(m: string, at: nat, x: string, at': nat)
    requires |m| == MEMORY_SIZE && IsField(at) && |x| < FieldSize(at) && IsField(at')
    ensures FieldOf(Refilled(m, at, FieldSize(at), x), at') == if at' == at then CStr(x) else FieldOf(m, at')
  {
    hide CStr, Refilled, Region;
    RefilledRegion(m, at, FieldSize(at), x, at', FieldSize(at'));
  }

  lemma RefillKeepsLiterals(m: string, at: nat, x: string)
    requires |m| == MEMORY_SIZE && Literals(m) && IsField(at) && |x| < FieldSize(at)
    ensures Literals(Refilled(m, at, FieldSize(at), x))
  {
    hide IsLiteral, Region;
    var m' := Refilled(m, at, FieldSize(at), x);
    forall at': nat, s | IsLiteral(at', s) ensures at' + |s| < S_END && Region(m', at', |s|) == s && m'[at' + |s|] == NUL && NulFree(s) {
      RefilledRegion(m, at, FieldSize(at), x, at', |s|);
      RefilledRegion(m, at, FieldSize(at), x, at' + |s|, 1);
      RegionOne(m, at' + |s|);
      RegionOne(m', at' + |s|);
    }
  }

  lemma RegionOne(m: string, i: nat)
    requires i < |m|
    ensures Region(m, i, 1) == [m[i]]
  {
  }

  lemma RefillFits(m: string, at: nat, x: string)
    requires |m| == MEMORY_SIZE && IsField(at) && |x| < FieldSize(at)
    ensures |FieldOf(Refilled(m, at, FieldSize(at), x), at)| < FieldSize(at)
  {
    RefillOther(m, at, x, at);
  }

  lemma LiteralReads(m: string, at: nat, s: string)
    requires Static(m) && IsLiteral(at, s)
    ensures at + |s| < |m| && m[at..at + |s|] == s && CStr(m[at..]) == s && CStr(m[at..]) != m[at..]
  {
    hide CStr;
    assert m[at..][..|s|] == Region(m, at, |s|);
    CStrIs(m[at..], |s|);
  }

  /** `s_memset`, with zeros. */
  method Memset(b: array<char>, at: nat, n: nat)
    requires at + n <= b.Length
    modifies b
    ensures b[..] == Overlay(old(b[..]), at, Zeros(n))
  {
    for i := 0 to n
      invariant forall j | 0 <= j < b.Length :: b[j] == if at <= j < at + i then NUL else old(b[j])
    {
      b[at + i] := NUL;
    }
    assert b[..] == Overlay(old(b[..]), at, Zeros(n));
  }

  class Instance {
    const memory: array<char>
    const sess: SessionContext
    const word: WordSize
    var fsmState: nat
    var currentOp: Op

    ghost predicate Sizes() {
      memory.Length == MEMORY_SIZE && sess.Sizes() && memory !in sess.Repr()
    }

    ghost predicate Valid()
      reads memory, sess, sess.key, sess.value, sess.response
    {
      Sizes() && sess.Valid() && Static(memory[..])
    }

    /** Session and chaincode, as texts. */
    ghost function State(): (r: Ta)
      requires Sizes()
      reads this, memory, sess, sess.arguments, sess.key, sess.value, sess.response
    {
      Ta(sess.State(), MemOf(memory[..]), fsmState, currentOp)
    }

    /** A fresh instance of the WASM module. */
    constructor (sess: SessionContext, word: WordSize)
      requires sess.Valid()
      ensures this.sess == sess && this.word == word && fresh(memory) && Valid()
      ensures State() == Ta(old(sess.State()), Mem("", "", "", "", ""), 0, OpNone)
    {
      this.sess, this.word := sess, word;
      fsmState, currentOp := 0, OpNone;
      memory := new char[MEMORY_SIZE](i => if i >= 0 then Initial(i) else NUL);
      new;
      InitialIsStatic(memory[..]);
    }

    /** Clears a static buffer. */
    method Clear(at: nat)
      requires Valid() && IsField(at)
      modifies memory
      ensures Valid() && State() == old(State()).(mem := WithField(old(State()).mem, at, ""))
      ensures memory[..] == Overlay(old(memory[..]), at, Zeros(FieldSize(at)))
    {
      hide WithField, FieldOf, Static, CStr;
      RefillField(memory[..], at, "");
      CStrOfNulFree("");
      Memset(memory, at, FieldSize(at));
      assert Overlay(memory[..], at, "") == memory[..];
    }

    /** Gets an argument into a static buffer. */
    method FetchArgument(idx: nat, at: nat) returns (n: nat)
      requires Valid() && (at == G_PERSON || at == G_ARG1) && idx < 2
      modifies memory
      ensures Valid() && State() == old(State()).(mem := WithField(old(State()).mem, at, Argument(old(State()).sess, idx + 1)))
      ensures n == |Argument(old(State()).sess, idx + 1)|
    {
      hide WithField, FieldOf, Static, CStr;
      ghost var text := Argument(State().sess, idx + 1);
      ArgumentAt(sess.arguments[..], idx + 1);
      assert sess.arguments[(idx + 1) * ARG_SIZE..] == sess.arguments[..][(idx + 1) * ARG_SIZE..];
      CStrOfNulFree(text);
      RefillField(memory[..], at, text);
      n := Natives.GetArg(sess, memory, idx, at, ARG_SIZE);
    }

    /** Requests the value of `g_person`, to be put into `g_cur_val`. */
    method AskForValue() returns (n: int)
      requires Valid()
      modifies sess, sess.key
      ensures Valid() && State() == AskGet(old(State())) && n == |State().mem.person|
    {
      FieldReads(memory[..], G_PERSON);
      var keyLen := Strlen(memory[G_PERSON..]);
      n := Natives.GetState(sess, memory, G_PERSON, keyLen, G_CUR_VAL, VAL_SIZE);
    }

    /** Requests that the text in a static buffer is stored under `g_person`. */
    method AskToStore(at: nat)
      requires Valid() && (at == G_ARG1 || at == G_TMP)
      modifies sess, sess.key, sess.value
      ensures Valid() && State() == AskPut(old(State()), FieldOf(memory[..], at))
    {
      hide CStr, FieldOf, Static;
      FieldReads(memory[..], G_PERSON);
      FieldReads(memory[..], at);
      var keyLen := Strlen(memory[G_PERSON..]);
      var valueLen := Strlen(memory[at..]);
      var n := Natives.PutState(sess, memory, G_PERSON, keyLen, at, valueLen);
    }

    /** Responds with a string literal. */
    method Say(at: nat, n: nat, ghost text: string)
      requires Valid() && IsLiteral(at, text) && n == |text|
      modifies sess, sess.response
      ensures Valid() && State() == Respond(old(State()), text)
    {
      LiteralReads(memory[..], at, text);
      CStrOfNulFree(text);
      var k := Natives.ReturnResponse(sess, memory, at, n);
    }

    /** `cc_do_create_init` */
    method CreateInit()
      requires Valid() && currentOp == OpCreate
      modifies this, memory, sess, sess.key
      ensures Valid() && State() == TaModel.CreateInit(old(State()))
    {
      hide CStr, FieldOf, Static;
      Clear(G_PERSON);
      Clear(G_ARG1);
      Clear(G_CUR_VAL);
      var arg0Len := FetchArgument(0, G_PERSON);
      var arg1Len := FetchArgument(1, G_ARG1);
      var getStateResult := AskForValue();
      if getStateResult > 0 { fsmState := CREATE_AFTER_GET; }
    }

    /** `cc_do_create_resume` */
    method CreateResume()
      requires Valid()
      modifies this, sess, sess.key, sess.value, sess.response
      ensures Valid() && State() == TaModel.CreateResume(old(State()))
    {
      hide CStr, FieldOf, Static;
      if fsmState == CREATE_AFTER_GET {
        FieldReads(memory[..], G_CUR_VAL);
        if memory[G_CUR_VAL] != NUL {
          Say(S_EXIST, 5, "EXIST");
          fsmState, currentOp := 0, OpNone;
          return;
        }
        AskToStore(G_ARG1);
        fsmState := CREATE_AFTER_PUT;
        return;
      }
      if fsmState == CREATE_AFTER_PUT {
        Say(S_OK, 2, "OK");
        fsmState, currentOp := 0, OpNone;
        return;
      }
    }

    /** `cc_do_add_init` */
    method AddInit()
      requires Valid() && currentOp == OpAdd
      modifies this, memory, sess, sess.key
      ensures Valid() && State() == TaModel.AddInit(old(State()))
    {
      hide CStr, FieldOf, Static;
      Clear(G_PERSON);
      Clear(G_ARG1);
      Clear(G_CUR_VAL);
      var arg0Len := FetchArgument(0, G_PERSON);
      var arg1Len := FetchArgument(1, G_ARG1);
      var k := AskForValue();
      fsmState := ADD_AFTER_GET;
    }

    /** `cc_do_add_resume` */
    method AddResume()
      requires Valid()
      modifies this, memory, sess, sess.key, sess.value, sess.response
      ensures Valid() && State() == TaModel.AddResume(old(State()), word)
    {
      hide CStr, FieldOf, Static, Parsed, Printed;
      if fsmState == ADD_AFTER_GET {
        FieldReads(memory[..], G_CUR_VAL);
        if memory[G_CUR_VAL] == NUL {
          Say(S_EMPTY, 5, "EMPTY");
          fsmState, currentOp := 0, OpNone;
          return;
        }
        Sum();
        AskToStore(G_TMP);
        fsmState := ADD_AFTER_PUT;
        return;
      }
      if fsmState == ADD_AFTER_PUT {
        Say(S_OK, 2, "OK");
        fsmState, currentOp := 0, OpNone;
        return;
      }
    }

    /** The sum of the current value and the argument, printed into `g_tmp`. */
    method Sum()
      requires Valid()
      modifies memory
      ensures Valid() && State() == old(State()).(mem := WithField(old(State()).mem, G_TMP,
                Printed((Parsed(old(State()).mem.curVal, word) + Parsed(old(State()).mem.arg1, word)) % word)))
    {
      hide CStr, FieldOf, Static, Parsed, Printed, WithField, Overlay, Refilled, Zeros;
      FieldReads(memory[..], G_CUR_VAL);
      FieldReads(memory[..], G_ARG1);
      var cur := Atoul(memory[G_CUR_VAL..], word);
      var add := Atoul(memory[G_ARG1..], word);
      var nv := (cur + add) % word;
      SumIsStored(memory[..], nv, word);
      Clear(G_TMP);
      Ultoa(nv, memory, G_TMP, VAL_SIZE, word);
    }

    /** `cc_do_query_init` */
    method QueryInit()
      requires Valid() && currentOp == OpQuery
      modifies this, memory, sess, sess.key
      ensures Valid() && State() == TaModel.QueryInit(old(State()))
    {
      hide CStr, FieldOf, Static;
      Clear(G_PERSON);
      Clear(G_CUR_VAL);
      var arg0Len := FetchArgument(0, G_PERSON);
      var k := AskForValue();
      fsmState := QUERY_AFTER_GET;
    }

    /** `cc_do_query_resume` */
    method QueryResume()
      requires Valid()
      modifies this, sess, sess.response
      ensures Valid() && State() == TaModel.QueryResume(old(State()))
    {
      hide CStr, FieldOf, Static;
      if fsmState == QUERY_AFTER_GET {
        FieldReads(memory[..], G_CUR_VAL);
        if memory[G_CUR_VAL] == NUL {
          Say(S_NOTFOUND, 8, "NOTFOUND");
        } else {
          var n := Strlen(memory[G_CUR_VAL..]);
          var k := Natives.ReturnResponse(sess, memory, G_CUR_VAL, n);
        }
        fsmState, currentOp := 0, OpNone;
        return;
      }
    }

    /** Whether the text in `g_function` is a literal. */
    method FunctionIs(at: nat, ghost text: string) returns (eq: bool)
      requires Valid() && IsLiteral(at, text)
      ensures eq <==> State().mem.name == text
    {
      hide CStr, Static, Literals, IsLiteral;
      FieldReads(memory[..], G_FUNCTION);
      LiteralReads(memory[..], at, text);
      eq := StrEq(memory[G_FUNCTION..], memory[at..]);
    }

    /** Gets the name of the function into `g_function`. */
    method FetchFunction()
      requires Valid()
      modifies memory
      ensures Valid() && State() == old(State()).(mem := WithField(old(State()).mem, G_FUNCTION, Argument(old(State()).sess, 0)))
    {
      hide WithField, FieldOf, Static, CStr;
      ghost var text := Argument(State().sess, 0);
      ArgumentAt(sess.arguments[..], 0);
      assert sess.arguments[..][0..] == sess.arguments[..];
      CStrOfNulFree(text);
      RefillField(memory[..], G_FUNCTION, text);
      var n := Natives.GetFunction(sess, memory, G_FUNCTION, KEY_SIZE);
    }

    /** `step_resume` */
    method StepResume()
      requires Valid()
      modifies this, memory, sess, sess.key, sess.value, sess.response
      ensures Valid() && State() == Step(old(State()), word)
    {
      hide CStr, FieldOf, Static;
      if currentOp == OpNone {
        FieldReads(memory[..], G_FUNCTION);
        if memory[G_FUNCTION] == NUL { FetchFunction(); }
        FieldReads(memory[..], G_FUNCTION);
        if memory[G_FUNCTION] != NUL {
          var eq := FunctionIs(S_CREATE, "create");
          if eq { currentOp := OpCreate; CreateInit(); return; }
          eq := FunctionIs(S_ADD, "add");
          if eq { currentOp := OpAdd; AddInit(); return; }
          eq := FunctionIs(S_QUERY, "query");
          if eq { currentOp := OpQuery; QueryInit(); return; }
          Say(S_ERROR, 5, "ERROR");
          return;
        }
      }
      if currentOp == OpCreate { CreateResume(); return; }
      if currentOp == OpAdd { AddResume(); return; }
      if currentOp == OpQuery { QueryResume(); return; }
      Say(S_ERROR, 5, "ERROR");
    }
  }

  /** What printing a number into the cleared `g_tmp` makes of the memory. */
  lemma SumIsStored(m: string, v: nat, word: WordSize)
    requires Static(m) && v < word
    ensures var m' := Overlay(Overlay(m, G_TMP, Zeros(VAL_SIZE)), G_TMP, Cut(Printed(v), VAL_SIZE - 1) + [NUL]);
            Static(m') && MemOf(m') == WithField(MemOf(m), G_TMP, Printed(v))
  {
    hide CStr, FieldOf, Literals, Printed, WithField, Overlay, Refilled, Zeros;
    WordFits(v, word);
    RefilledWithEnd(m, G_TMP, VAL_SIZE, Printed(v));
    RefillField(m, G_TMP, Printed(v));
    CStrOfNulFree(Printed(v));
  }

  /** What the C functions find in a static buffer. */
  lemma FieldReads(m: string, at: nat)
    requires Static(m) && IsField(at)
    ensures CStr(m[at..]) == FieldOf(m, at) && CStr(m[at..]) != m[at..]
    ensures at + |FieldOf(m, at)| <= |m| && m[at..at + |FieldOf(m, at)|] == FieldOf(m, at)
    ensures CStr(FieldOf(m, at)) == FieldOf(m, at)
    ensures |FieldOf(m, at)| < FieldSize(at)
    ensures m[at] != NUL <==> FieldOf(m, at) != ""
  {
    Reads(m, at, FieldSize(at));
    CStrOfNulFree(FieldOf(m, at));
  }
}
