/** Whole histories of transactions, run one at a time, seen as counters. */
module History {
  import opened Arithmetic
  import opened CStrings
  import opened Decimal
  import opened Protocol
  import opened InvocationSpec

  datatype Transaction = Transaction(name: string, arguments: seq<string>)

  /** The ledger after a history of transactions. */
  ghost function After(ledger: Ledger, history: seq<Transaction>, word: WordSize): (r: Ledger)
    decreases |history|
  {
    if history == [] then ledger
    else After(Spec(history[0].name, history[0].arguments, ledger, word).ledger, history[1..], word)
  }

  datatype Counter = Absent | Present(count: nat)

  /** What the ledger says of key `k`: an empty value means that there is nothing. */
  ghost function CounterOf(ledger: Ledger, k: string, word: WordSize): (r: Counter) {
    var v := Seen(Lookup(ledger, k));
    if v == "" then Absent else Present(Parsed(v, word))
  }

  /** A transaction is about key `k` if its first argument names it. */
  predicate Names(t: Transaction, op: string, k: string) {
    Fitted(t.name, ARG_SIZE) == op && ArgumentOf(t.arguments, 0) == k
  }

  /** The transaction would create key `k`, if it is not there yet. */
  predicate Creates(t: Transaction, k: string) {
    Names(t, "create", k) && k != "" && ArgumentOf(t.arguments, 1) != ""
  }

  /** The number given with a transaction, before any wrapping. */
  ghost function Amount(t: Transaction): (r: nat) {
    Number(LeadingDigits(ArgumentOf(t.arguments, 1)))
  }

  /** What a transaction does to one counter. */
  ghost function Counted(c: Counter, t: Transaction, k: string, word: WordSize): (r: Counter) {
    match c
    case Absent => if Creates(t, k) then Present(Amount(t) % word) else Absent
    case Present(n) => if Names(t, "add", k) then Present((n + Amount(t)) % word) else c
  }

  ghost function CountedAll(c: Counter, history: seq<Transaction>, k: string, word: WordSize): (r: Counter)
    decreases |history|
  {
    if history == [] then c else CountedAll(Counted(c, history[0], k, word), history[1..], k, word)
  }

  /** All that is added to key `k`, before any wrapping. */
  ghost function Added(history: seq<Transaction>, k: string): (r: nat) {
    if history == [] then 0
    else (if Names(history[0], "add", k) then Amount(history[0]) else 0) + Added(history[1..], k)
  }

  /** A value that was written to the ledger is seen as it is. */
  lemma PrintedIsSeen(v: nat, word: WordSize)
    requires v < word
    ensures Transportable(Printed(v)) && Seen(Printed(v)) == Printed(v) && Parsed(Printed(v), word) == v
  {
    WordFits(v, word);
    SeenIsLossless(Printed(v));
    RoundTrip(v, word, "");
    assert Printed(v) + "" == Printed(v);
  }

  lemma WrapBoth(a: nat, b: nat, m: nat)
    requires m > 0
    ensures (a % m + b) % m == (a + b) % m && (a + b % m) % m == (a + b) % m
  {
    var p, q := a / m, b / m;
    assert a + b == (a % m + b) + m * p;
    WrapAround(a % m + b, p, m);
    assert a + b == (a + b % m) + m * q;
    WrapAround(a + b % m, q, m);
  }

  lemma ArgumentIsTransportable(arguments: seq<string>, i: nat)
    ensures Transportable(ArgumentOf(arguments, i)) && Seen(ArgumentOf(arguments, i)) == ArgumentOf(arguments, i)
  {
    SeenIsLossless(ArgumentOf(arguments, i));
  }

  /** What one transaction does to the bytes of a key whose value the chaincode sees. */
  lemma TransactionWrites(t: Transaction, ledger: Ledger, k: string, word: WordSize)
    requires Seen(Lookup(ledger, k)) != ""
    ensures var after := Lookup(Spec(t.name, t.arguments, ledger, word).ledger, k);
            && Seen(after) != ""
            && after == if Names(t, "add", k) then Printed((Parsed(Seen(Lookup(ledger, k)), word) + Amount(t)) % word)
                        else Lookup(ledger, k)
  {
    hide Printed, LeadingDigits, Number, CStr, Fitted;
    var n := Parsed(Seen(Lookup(ledger, k)), word);
    WrapBoth(n, Amount(t), word);
    PrintedIsSeen((n + Amount(t)) % word, word);
  }

  /** What a creation writes under a key where the chaincode sees nothing. */
  lemma CreationWrites(t: Transaction, ledger: Ledger, k: string, word: WordSize)
    requires Seen(Lookup(ledger, k)) == "" && Creates(t, k)
    ensures var v := ArgumentOf(t.arguments, 1);
            && Lookup(Spec(t.name, t.arguments, ledger, word).ledger, k) == v
            && Seen(v) == v != "" && Parsed(v, word) == Amount(t) % word
  {
    hide LeadingDigits, Number, CStr, Fitted;
    ArgumentIsTransportable(t.arguments, 1);
  }

  /** Where the chaincode sees nothing it sees nothing afterwards, unless the transaction creates the key. */
  lemma StaysAbsent(t: Transaction, ledger: Ledger, k: string, word: WordSize)
    requires Seen(Lookup(ledger, k)) == "" && !Creates(t, k)
    ensures Seen(Lookup(Spec(t.name, t.arguments, ledger, word).ledger, k)) == ""
  {
    hide Printed, LeadingDigits, Number, Fitted;
  }

  /** On the ledger one transaction is one step of every counter, other keys' included. */
  lemma TransactionCounts(t: Transaction, ledger: Ledger, k: string, word: WordSize)
    ensures CounterOf(Spec(t.name, t.arguments, ledger, word).ledger, k, word)
         == Counted(CounterOf(ledger, k, word), t, k, word)
  {
    hide Spec, Printed, Parsed, Lookup, Seen, Amount, Creates, Names;
    if Seen(Lookup(ledger, k)) != "" {
      TransactionWrites(t, ledger, k, word);
      PrintedIsSeen((Parsed(Seen(Lookup(ledger, k)), word) + Amount(t)) % word, word);
    } else if Creates(t, k) {
      CreationWrites(t, ledger, k, word);
    } else {
      StaysAbsent(t, ledger, k, word);
    }
  }

  /** Whatever the transactions and their order, every key of the ledger is a counter of its own. */
  lemma {:induction false} HistoryCounts(ledger: Ledger, history: seq<Transaction>, k: string, word: WordSize)
    ensures CounterOf(After(ledger, history, word), k, word) == CountedAll(CounterOf(ledger, k, word), history, k, word)
    decreases |history|
  {
    if history != [] {
      TransactionCounts(history[0], ledger, k, word);
      HistoryCounts(Spec(history[0].name, history[0].arguments, ledger, word).ledger, history[1..], k, word);
    }
  }

  lemma {:induction false} PresentCounts(n: nat, history: seq<Transaction>, k: string, word: WordSize)
    ensures CountedAll(Present(n % word), history, k, word) == Present((n + Added(history, k)) % word)
    decreases |history|
  {
    hide Amount, Names, Creates;
    if history != [] {
      var a := if Names(history[0], "add", k) then Amount(history[0]) else 0;
      WrapBoth(n, a, word);
      PresentCounts(n + a, history[1..], k, word);
    }
  }

  lemma {:induction false} AbsentCounts(history: seq<Transaction>, k: string, word: WordSize)
    requires forall j | 0 <= j < |history| :: !Creates(history[j], k)
    ensures CountedAll(Absent, history, k, word) == Absent
  {
    if history != [] {
      AbsentCounts(history[1..], k, word);
    }
  }

  lemma {:induction false} CountedInTwo(c: Counter, h: seq<Transaction>, i: nat, k: string, word: WordSize)
    requires i <= |h|
    ensures CountedAll(c, h, k, word) == CountedAll(CountedAll(c, h[..i], k, word), h[i..], k, word)
    decreases |h|
  {
    if i > 0 {
      assert h[1..][..i - 1] == h[..i][1..] && h[1..][i - 1..] == h[i..];
      CountedInTwo(Counted(c, h[0], k, word), h[1..], i - 1, k, word);
    }
  }

  lemma AbsentIs(ledger: Ledger, k: string, word: WordSize)
    ensures CounterOf(ledger, k, word) == Absent <==> Seen(Lookup(ledger, k)) == ""
  {
  }

  lemma PresentIs(ledger: Ledger, k: string, word: WordSize)
    requires Seen(Lookup(ledger, k)) != ""
    ensures CounterOf(ledger, k, word) == Present(Parsed(Seen(Lookup(ledger, k)), word))
    ensures Parsed(Seen(Lookup(ledger, k)), word) < word
  {
  }

  /** A key whose value the chaincode sees counts what is added to it and nothing else: creating it
      again changes nothing. */
  lemma CounterOfPresent(ledger: Ledger, history: seq<Transaction>, k: string, word: WordSize)
    requires Seen(Lookup(ledger, k)) != ""
    ensures CounterOf(After(ledger, history, word), k, word)
         == Present((Parsed(Seen(Lookup(ledger, k)), word) + Added(history, k)) % word)
  {
    hide Seen, Parsed, CounterOf, Added, After, CountedAll;
    var n := Parsed(Seen(Lookup(ledger, k)), word);
    PresentIs(ledger, k, word);
    HistoryCounts(ledger, history, k, word);
    PresentCounts(n, history, k, word);
    Small(n, word);
  }

  /** A key under which the chaincode sees nothing counts from its first creation, with the number given then. */
  lemma CounterOfCreated(ledger: Ledger, history: seq<Transaction>, i: nat, k: string, word: WordSize)
    requires Seen(Lookup(ledger, k)) == "" && i < |history|
    requires Creates(history[i], k) && forall j | 0 <= j < i :: !Creates(history[j], k)
    ensures CounterOf(After(ledger, history, word), k, word)
         == Present((Amount(history[i]) + Added(history[i + 1..], k)) % word)
  {
    hide Amount, Names, CounterOf, Added, After;
    HistoryCounts(ledger, history, k, word);
    assert CounterOf(ledger, k, word) == Absent by { AbsentIs(ledger, k, word); }
    CountedInTwo(Absent, history, i, k, word);
    AbsentCounts(history[..i], k, word);
    assert history[i..][1..] == history[i + 1..];
    PresentCounts(Amount(history[i]), history[i + 1..], k, word);
  }

  /** The chaincode sees a value in the end exactly if it saw one before or some transaction creates it. */
  lemma PresentIffCreated(ledger: Ledger, history: seq<Transaction>, k: string, word: WordSize)
    ensures Seen(Lookup(After(ledger, history, word), k)) != ""
       <==> Seen(Lookup(ledger, k)) != "" || exists i | 0 <= i < |history| :: Creates(history[i], k)
  {
    if Seen(Lookup(ledger, k)) != "" {
      CounterOfPresent(ledger, history, k, word);
    } else if i :| 0 <= i < |history| && Creates(history[i], k) {
      var f := FirstCreation(history, k, i);
      CounterOfCreated(ledger, history, f, k, word);
    } else {
      HistoryCounts(ledger, history, k, word);
      AbsentCounts(history, k, word);
    }
  }

  lemma {:induction false} FirstCreation(history: seq<Transaction>, k: string, i: nat) returns (f: nat)
    requires i < |history| && Creates(history[i], k)
    ensures f <= i && Creates(history[f], k) && forall j | 0 <= j < f :: !Creates(history[j], k)
  {
    if j :| 0 <= j < i && Creates(history[j], k) {
      f := FirstCreation(history, k, j);
    } else {
      f := i;
    }
  }

  predicate AddedTo(history: seq<Transaction>, k: string) {
    exists i :: 0 <= i < |history| && Names(history[i], "add", k)
  }

  lemma AddedToFirst(history: seq<Transaction>, k: string)
    requires history != []
    ensures AddedTo(history, k) <==> Names(history[0], "add", k) || AddedTo(history[1..], k)
    ensures !AddedTo(history, k) ==> Added(history, k) == 0
  {
    hide Names;
    if i :| 0 < i < |history| && Names(history[i], "add", k) {
      assert Names(history[1..][i - 1], "add", k);
    }
    if history[1..] != [] {
      AddedToFirst(history[1..], k);
    }
  }

  /** The bytes of a key whose value the chaincode sees: the printed sum if anything was added to it, and otherwise
      what they were, whatever else happened. */
  lemma {:induction false} ValueOfPresent(ledger: Ledger, history: seq<Transaction>, k: string, word: WordSize)
    requires Seen(Lookup(ledger, k)) != ""
    ensures Lookup(After(ledger, history, word), k) ==
            if AddedTo(history, k) then Printed((Parsed(Seen(Lookup(ledger, k)), word) + Added(history, k)) % word)
            else Lookup(ledger, k)
    decreases |history|
  {
    hide Names, Seen, Printed, Parsed, Spec, Lookup, Amount, AddedTo;
    if history == [] {
      NothingAdded(k);
    } else {
      var t, rest := history[0], history[1..];
      var n, next := Parsed(Seen(Lookup(ledger, k)), word), Spec(t.name, t.arguments, ledger, word).ledger;
      TransactionWrites(t, ledger, k, word);
      ValueOfPresent(next, rest, k, word);
      AddedToFirst(history, k);
      if Names(t, "add", k) {
        PrintedIsSeen((n + Amount(t)) % word, word);
        WrapBoth(n + Amount(t), Added(rest, k), word);
        if !AddedTo(rest, k) { NoneAdded(rest, k); }
      }
    }
  }

  lemma NothingAdded(k: string)
    ensures !AddedTo([], k)
  {
  }

  lemma NoneAdded(history: seq<Transaction>, k: string)
    requires !AddedTo(history, k)
    ensures Added(history, k) == 0
  {
    if history != [] { AddedToFirst(history, k); }
  }

  /** The bytes of a key under which the chaincode sees nothing: what its first creation gave, until something
      is added. */
  lemma ValueOfCreated(ledger: Ledger, history: seq<Transaction>, i: nat, k: string, word: WordSize)
    requires Seen(Lookup(ledger, k)) == "" && i < |history|
    requires Creates(history[i], k) && forall j | 0 <= j < i :: !Creates(history[j], k)
    ensures Lookup(After(ledger, history, word), k) ==
            if AddedTo(history[i + 1..], k) then Printed((Amount(history[i]) + Added(history[i + 1..], k)) % word)
            else ArgumentOf(history[i].arguments, 1)
  {
    hide Names, Creates, Seen, Printed, Parsed, Spec, Lookup, Amount, AddedTo, After, Added;
    var before := After(ledger, history[..i], word);
    AbsentBefore(ledger, history, i, k, word);
    var created := Spec(history[i].name, history[i].arguments, before, word).ledger;
    CreationWrites(history[i], before, k, word);
    AfterInTwo(ledger, history, i, word);
    ValueOfPresent(created, history[i + 1..], k, word);
    WrapBoth(Amount(history[i]), Added(history[i + 1..], k), word);
  }

  lemma AbsentBefore(ledger: Ledger, history: seq<Transaction>, i: nat, k: string, word: WordSize)
    requires Seen(Lookup(ledger, k)) == "" && i <= |history| && forall j | 0 <= j < i :: !Creates(history[j], k)
    ensures Seen(Lookup(After(ledger, history[..i], word), k)) == ""
  {
    hide Creates, Seen, Lookup;
    PresentIffCreated(ledger, history[..i], k, word);
  }

  lemma {:induction false} AfterInTwo(ledger: Ledger, h: seq<Transaction>, i: nat, word: WordSize)
    requires i < |h|
    ensures var before := After(ledger, h[..i], word);
            After(ledger, h, word) == After(Spec(h[i].name, h[i].arguments, before, word).ledger, h[i + 1..], word)
    decreases i
  {
    hide Spec;
    if i > 0 {
      assert h[1..][..i - 1] == h[..i][1..] && h[1..][i..] == h[i + 1..];
      AfterInTwo(Spec(h[0].name, h[0].arguments, ledger, word).ledger, h[1..], i - 1, word);
    }
  }

  /** Transactions that neither create nor add to a key leave its bytes alone, whether it is there or not. */
  lemma {:induction false} ValueOfOthers(ledger: Ledger, history: seq<Transaction>, k: string, word: WordSize)
    requires forall i | 0 <= i < |history| :: !Names(history[i], "add", k) && !Names(history[i], "create", k)
    ensures Lookup(After(ledger, history, word), k) == Lookup(ledger, k)
    decreases |history|
  {
    hide Printed, Parsed, Fitted, Seen;
    if history != [] {
      ValueOfOthers(Spec(history[0].name, history[0].arguments, ledger, word).ledger, history[1..], k, word);
    }
  }

  /** Every value on the ledger goes through the buffers unharmed. */
  ghost predicate Lossless(ledger: Ledger) {
    forall k | k in ledger :: Transportable(ledger[k])
  }

  lemma SpecIsLossless(t: Transaction, ledger: Ledger, word: WordSize)
    requires Lossless(ledger)
    ensures Lossless(Spec(t.name, t.arguments, ledger, word).ledger)
  {
    hide Printed, LeadingDigits, Number, CStr, Fitted;
    var current, arg := Seen(Lookup(ledger, ArgumentOf(t.arguments, 0))), ArgumentOf(t.arguments, 1);
    ArgumentIsTransportable(t.arguments, 1);
    PrintedIsSeen((Parsed(current, word) + Parsed(arg, word)) % word, word);
  }

  /** No transaction ever puts a value on the ledger that the buffers would cut or drop: the
      chaincode sees every value of every later ledger as it is. */
  lemma {:induction false} HistoryIsLossless(ledger: Ledger, history: seq<Transaction>, word: WordSize)
    requires Lossless(ledger)
    ensures Lossless(After(ledger, history, word))
    ensures forall k: string :: Seen(Lookup(After(ledger, history, word), k)) == Lookup(After(ledger, history, word), k)
    decreases |history|
  {
    if history == [] {
      forall k: string ensures Seen(Lookup(ledger, k)) == Lookup(ledger, k) {
        SeenIsLossless(Lookup(ledger, k));
      }
    } else {
      SpecIsLossless(history[0], ledger, word);
      HistoryIsLossless(Spec(history[0].name, history[0].arguments, ledger, word).ledger, history[1..], word);
    }
  }

  /** A query after any history answers with the stored bytes; whether there are any is known
      from the history alone. */
  lemma QueryReturnsStored(ledger: Ledger, history: seq<Transaction>, k: string, word: WordSize)
    requires Lossless(ledger) && NulFree(k) && |k| < ARG_SIZE
    ensures var stored := Lookup(After(ledger, history, word), k);
            Spec("query", [k], After(ledger, history, word), word).response == if stored == "" then "NOTFOUND" else stored
  {
    HistoryIsLossless(ledger, history, word);
    QueryAnswers(After(ledger, history, word), k, word);
  }

  lemma QueryAnswers(ledger: Ledger, k: string, word: WordSize)
    requires NulFree(k) && |k| < ARG_SIZE
    ensures var v := Seen(Lookup(ledger, k));
            Spec("query", [k], ledger, word) == Answer(k, if v == "" then "NOTFOUND" else v, ledger)
  {
    FittedIsSame(k);
    FittedIsSame("query");
  }

  /** What is written is what the next query of the same key answers, from whatever ledger;
      only an empty value, which a creation may write, is not found. */
  lemma QueryAfterWrite(t: Transaction, ledger: Ledger, k: string, v: string, word: WordSize)
    requires PutStateRequest(k, v) in Spec(t.name, t.arguments, ledger, word).trace
    ensures Spec("query", [k], Spec(t.name, t.arguments, ledger, word).ledger, word).response
         == if v == "" then "NOTFOUND" else v
  {
    hide Spec, Printed, LeadingDigits, Number, CStr, Fitted;
    WrittenIsSeen(t, ledger, k, v, word);
    QueryAnswers(ledger[k := v], k, word);
  }

  /** Which transactions write, and what. */
  lemma WrittenAs(t: Transaction, ledger: Ledger, k: string, v: string, word: WordSize)
    requires PutStateRequest(k, v) in Spec(t.name, t.arguments, ledger, word).trace
    ensures Spec(t.name, t.arguments, ledger, word) == Write(k, v, ledger) && k == ArgumentOf(t.arguments, 0)
    ensures var arg := ArgumentOf(t.arguments, 1);
            v == arg || v == Printed((Parsed(Seen(Lookup(ledger, k)), word) + Parsed(arg, word)) % word)
  {
    hide Printed, Parsed, Seen, Lookup, Fitted, ArgumentOf;
  }

  lemma WrittenIsSeen(t: Transaction, ledger: Ledger, k: string, v: string, word: WordSize)
    requires PutStateRequest(k, v) in Spec(t.name, t.arguments, ledger, word).trace
    ensures Spec(t.name, t.arguments, ledger, word).ledger == ledger[k := v]
    ensures Seen(v) == v && NulFree(k) && |k| < ARG_SIZE
  {
    hide Spec, Printed, Seen, Lookup, LeadingDigits, Number, CStr, Fitted;
    WrittenAs(t, ledger, k, v, word);
    ArgumentIsTransportable(t.arguments, 1);
    PrintedIsSeen((Parsed(Seen(Lookup(ledger, k)), word) + Parsed(ArgumentOf(t.arguments, 1), word)) % word, word);
    FittedIsTransportable(if |t.arguments| > 0 then t.arguments[0] else "", ARG_SIZE);
  }

  /** What the writes among some messages do to the ledger. */
  ghost function Replayed(ledger: Ledger, messages: seq<ProxyMessage>): (r: Ledger)
    decreases |messages|
  {
    if messages == [] then ledger
    else Replayed(Stored(ledger, messages[0]), messages[1..])
  }

  function Stored(ledger: Ledger, m: ProxyMessage): (r: Ledger) {
    if m.PutStateRequest? then ledger[m.key := m.value] else ledger
  }

  /** The shape of every invocation: at most one request for a value, then at most one to store
      one under the same key, then exactly one response; creating and adding answer "OK"
      exactly if they write. */
  lemma TraceShape(t: Transaction, ledger: Ledger, word: WordSize)
    ensures var o := Spec(t.name, t.arguments, ledger, word);
            var n := |o.trace| - 1;
            && 0 <= n <= 2 && o.trace[n] == InvocationResponse(o.response)
            && (n >= 1 ==> o.trace[0] == GetStateRequest(ArgumentOf(t.arguments, 0)))
            && (n == 2 ==> o.trace[1].PutStateRequest? && o.trace[1].key == o.trace[0].key)
            && (n == 0 <==> Fitted(t.name, ARG_SIZE) !in {"create", "add", "query"})
            && (n == 2 ==> Fitted(t.name, ARG_SIZE) in {"create", "add"})
            && (Fitted(t.name, ARG_SIZE) in {"create", "add"} ==> (n == 2 <==> o.response == "OK"))
  {
    hide Printed, LeadingDigits, Number, CStr, Fitted;
  }

  /** Nothing but the messages changes the ledger. */
  lemma TraceIsReplayed(t: Transaction, ledger: Ledger, word: WordSize)
    ensures var o := Spec(t.name, t.arguments, ledger, word);
            o.ledger == Replayed(ledger, o.trace)
  {
    hide Printed, LeadingDigits, Number, CStr, Fitted;
    var o := Spec(t.name, t.arguments, ledger, word);
    TraceShape(t, ledger, word);
    forall l, m: ProxyMessage, rest ensures Replayed(l, [m] + rest) == Replayed(Stored(l, m), rest) {
      assert ([m] + rest)[1..] == rest;
    }
    var m, n := o.trace[0], |o.trace| - 1;
    assert n == 0 ==> o.trace == [m] + [];
    assert n == 1 ==> o.trace == [m] + ([o.trace[1]] + []);
    assert n == 2 ==> o.trace == [m] + ([o.trace[1]] + ([o.trace[2]] + []));
  }

  /** A creation or addition goes without a response exactly if it is a creation under the empty key. */
  lemma NoResponse(t: Transaction, ledger: Ledger, word: WordSize)
    requires Fitted(t.name, ARG_SIZE) in {"create", "add"}
    ensures Spec(t.name, t.arguments, ledger, word).response == "NO_RESPONSE"
       <==> Names(t, "create", "")
  {
    hide Printed, LeadingDigits, Number, CStr, Fitted;
  }

  /** Such a request. */
  lemma NoResponseToEmptyKey(word: WordSize)
    ensures Spec("create", ["", "5"], map[], word).response == "NO_RESPONSE"
  {
    FittedIsSame("create");
    FittedIsSame("");
    NoResponse(Transaction("create", ["", "5"]), map[], word);
  }

  /** A creation without a value answers "OK", and leaves nothing to be found. */
  lemma NothingCreated(word: WordSize)
    ensures var o := Spec("create", ["k"], map[], word);
            o.response == "OK" && Spec("query", ["k"], o.ledger, word).response == "NOTFOUND"
  {
    FittedIsSame("create");
    FittedIsSame("k");
    QueryAnswers(map["k" := ""], "k", word);
  }

  /** An addition to a value of digits stores the digits of the sum, wrapped. */
  lemma DigitsAreAdded(ledger: Ledger, k: string, a: string, b: string, word: WordSize)
    requires NulFree(k) && |k| < 64 && k in ledger && ledger[k] == a && 0 < |a| < 256 && |b| < 64
    requires forall c | c in a + b :: c in "0123456789"
    ensures (forall i | 0 <= i < |a| :: IsDigit(a[i])) && forall i | 0 <= i < |b| :: IsDigit(b[i])
    ensures Spec("add", [k, b], ledger, word).ledger == ledger[k := Printed((Number(a) + Number(b)) % word)]
  {
    hide Number, Printed, Parsed, CStr, Fitted;
    DigitsAre(a, b);
    FittedIsSame("add");
    FittedIsSame(k);
    FittedIsSame(b);
    SeenIsLossless(a);
    ParsedSum(a, b, word);
  }

  lemma DigitsAre(a: string, b: string)
    requires forall c | c in a + b :: c in "0123456789"
    ensures (forall i | 0 <= i < |a| :: IsDigit(a[i])) && forall i | 0 <= i < |b| :: IsDigit(b[i])
    ensures NulFree(a) && NulFree(b)
  {
    assert forall i | 0 <= i < |a| :: a[i] in a + b;
    assert forall i | 0 <= i < |b| :: b[i] in a + b;
  }

  lemma ParsedSum(a: string, b: string, word: WordSize)
    requires (forall i | 0 <= i < |a| :: IsDigit(a[i])) && forall i | 0 <= i < |b| :: IsDigit(b[i])
    ensures (Parsed(a, word) + Parsed(b, word)) % word == (Number(a) + Number(b)) % word
  {
    hide Number, Parsed;
    ParsedDigits(a, word);
    ParsedDigits(b, word);
    WrapBoth(Number(a), Number(b), word);
    WrapBoth(Number(a) % word, Number(b), word);
  }

  lemma ParsedDigits(s: string, word: WordSize)
    requires forall i | 0 <= i < |s| :: IsDigit(s[i])
    ensures Parsed(s, word) == Number(s) % word
  {
    hide Number, LeadingDigits;
    LeadingDigitsIs(s, |s|);
    assert s[..|s|] == s;
  }

  /** Eight and one are nine, and nine and one are ten. */
  lemma EightAndOne(word: WordSize)
    requires word > 10
    ensures Spec("add", ["k", "1"], map["k" := "8"], word).ledger == map["k" := "9"]
    ensures Spec("add", ["k", "1"], map["k" := "9"], word).ledger == map["k" := "10"]
  {
    hide Spec;
    DigitsAreAdded(map["k" := "8"], "k", "8", "1", word);
    DigitsAreAdded(map["k" := "9"], "k", "9", "1", word);
    SmallNumbers();
    Small(9, word);
    Small(10, word);
  }

  lemma SmallNumbers()
    ensures Number("1") == 1 && Number("8") == 8 && Number("9") == 9
    ensures Printed(9) == "9" && Printed(10) == "10"
  {
    assert Printed(1) == "1";
  }

  /** A creation under a non-empty key leaves the bytes that are there exactly if the chaincode sees
      them, or if it writes the same. */
  lemma CreationKeeps(t: Transaction, ledger: Ledger, k: string, word: WordSize)
    requires Names(t, "create", k) && k != ""
    ensures Lookup(Spec(t.name, t.arguments, ledger, word).ledger, k) == Lookup(ledger, k)
       <==> Seen(Lookup(ledger, k)) != "" || ArgumentOf(t.arguments, 1) == Lookup(ledger, k)
  {
    hide CStr, Fitted, Seen;
  }

  /** What the chaincode does not see of a value that is there: it is too long, or starts with NUL. */
  lemma SeenAsNothing(v: string)
    requires v != ""
    ensures Seen(v) == "" <==> |v| >= 256 || v[0] == '\0'
  {
  }

  /** So a creation overwrites every value that is too long, and answers that all is well. */
  lemma LongValueIsOverwritten(v: string, word: WordSize)
    requires |v| >= 256
    ensures var o := Spec("create", ["k", "5"], map["k" := v], word);
            o.response == "OK" && o.ledger == map["k" := "5"]
  {
    FittedIsSame("create");
    FittedIsSame("k");
    FittedIsSame("5");
  }
}
