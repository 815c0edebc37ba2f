/** The session context that the trusted application and the native functions share. */
module Session {
  import opened CStrings
  import opened Buffers
  import opened Protocol
  import opened TaModel

  class SessionContext {
    const arguments: array<char>
    const key: array<char>
    const value: array<char>
    const response: array<char>
    var pendingType: nat
    var wasmOutOffset: nat
    var wasmOutLen: int
    var hasResponse: bool

    ghost predicate Valid()
      reads this, key, value, response
    {
      && Sizes() && key != value && key != response && value != response
      && |CStr(key[..])| < KEY_SIZE && |CStr(value[..])| < VAL_SIZE && |CStr(response[..])| < RESPONSE_SIZE
    }

    ghost predicate Sizes() {
      && arguments.Length == ARGS_NUMBER * ARG_SIZE && key.Length == KEY_SIZE && value.Length == VAL_SIZE
      && response.Length == RESPONSE_SIZE
      && arguments != key && arguments != value && arguments != response
    }

    /** What the context says, as texts. */
    ghost function State(): (r: Sess)
      requires Sizes()
      reads this, arguments, key, value, response
    {
      Sess(ArgumentsIn(arguments[..]), pendingType, CStr(key[..]), CStr(value[..]),
           wasmOutOffset, wasmOutLen, CStr(response[..]), hasResponse)
    }

    ghost function Repr(): (r: set<object>) {
      {this, arguments, key, value, response}
    }

    /** `TA_OpenSessionEntryPoint`: memory that is all zeros. */
    constructor ()
      ensures Valid() && fresh(Repr())
      ensures arguments[..] == Zeros(ARGS_NUMBER * ARG_SIZE)
      ensures State() == Sess(ArgumentsIn(arguments[..]), 0, "", "", 0, 0, "", false)
    {
      arguments := new char[ARGS_NUMBER * ARG_SIZE](_ => NUL);
      key := new char[KEY_SIZE](_ => NUL);
      value := new char[VAL_SIZE](_ => NUL);
      response := new char[RESPONSE_SIZE](_ => NUL);
      pendingType, wasmOutOffset, wasmOutLen, hasResponse := 0, 0, 0, false;
      new;
      CStrIs(key[..], 0);
      CStrIs(value[..], 0);
      CStrIs(response[..], 0);
      assert arguments[..] == Zeros(ARGS_NUMBER * ARG_SIZE);
    }
  }

  /** The texts in `struct arguments`. */
  ghost function ArgumentsIn(b: string): (r: seq<string>)
    requires |b| == ARGS_NUMBER * ARG_SIZE
    ensures |r| == ARGS_NUMBER
  {
    seq(ARGS_NUMBER, i requires 0 <= i < ARGS_NUMBER => ArgumentIn(b, i))
  }

  ghost function ArgumentIn(b: string, i: nat): (r: string)
    requires |b| == ARGS_NUMBER * ARG_SIZE && i < ARGS_NUMBER
  {
    Fitted(Region(b, i * ARG_SIZE, ARG_SIZE), ARG_SIZE)
  }

  /** How much of an argument a native function copies. */
  lemma ArgumentAt(b: string, i: nat)
    requires |b| == ARGS_NUMBER * ARG_SIZE && i < ARGS_NUMBER
    ensures CStr(Cut(b[i * ARG_SIZE..], ARG_SIZE - 1)) == ArgumentIn(b, i)
  {
    assert Cut(b[i * ARG_SIZE..], ARG_SIZE - 1) == Cut(Region(b, i * ARG_SIZE, ARG_SIZE), ARG_SIZE - 1);
  }
}
