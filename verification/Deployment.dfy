/** Wrapper, proxy, trusted application and chaincode together, one invocation at a time. */
module Deployment {
  import opened Decimal
  import opened Protocol
  import opened InvocationSpec
  import opened History
  import opened Options
  import opened Schedules
  import opened TaModel
  import opened TrustedApplication
  import opened Wrapper
  import opened Proxy

  /** The response says that the transaction has had its effect. */
  predicate Confirms(response: PeerResponse) {
    response.Success? && response.payload != "RUNTIME_ERROR"
  }

  function Cons<T>(x: T, s: seq<T>): (r: seq<T>) {
    [x] + s
  }

  function Joined<T>(s: seq<T>, t: seq<T>): (r: seq<T>) {
    s + t
  }

  lemma ConsLength<T>(x: T, s: seq<T>)
    ensures |Cons(x, s)| == |s| + 1
  {
  }

  lemma JoinedNext<T>(s: seq<T>, x: T, t: seq<T>)
    ensures Joined(s + [x], t) == Joined(s, Cons(x, t)) && Joined(s, []) == s
  {
  }

  /** What transaction `t`, which met ledger `l`, was answered: the response of its one step, unless
      something failed while it ran.  A transaction without arguments is refused.  If nothing failed,
      or the response confirms the transaction, then it took effect. */
  ghost predicate Answers(response: PeerResponse, t: Transaction, l: Ledger, failed: bool, took: bool, word: WordSize) {
    && (if t.arguments == [] then
          response.Error? && !failed && !took
        else if failed then
          response.Error? || response == Success("RUNTIME_ERROR")
        else
          response == Success(Spec(t.name, t.arguments, l, word).response) && took)
    && (Confirms(response) ==> took)
  }

  /** All transactions from `i` on were answered, on the ledgers that they met. */
  ghost predicate AllAnswered(responses: seq<PeerResponse>, history: seq<Transaction>, i: nat, l: Ledger,
                              failed: seq<bool>, took: seq<bool>, word: WordSize)
    decreases |responses|
  {
    && i <= |history| && |responses| == |failed| == |took| == |history| - i
    && (i < |history| ==>
          && Answers(responses[0], history[i], l, failed[0], took[0], word)
          && AllAnswered(responses[1..], history, i + 1, Effect(history[i], l, took[0], word), failed[1..], took[1..], word))
  }

  /** The ledger behind a transaction. */
  ghost function Effect(t: Transaction, l: Ledger, took: bool, word: WordSize): (r: Ledger) {
    if took then Spec(t.name, t.arguments, l, word).ledger else l
  }

  lemma AnsweredNext(response: PeerResponse, responses: seq<PeerResponse>, history: seq<Transaction>, i: nat, l: Ledger,
                     first: bool, failed: seq<bool>, effect: bool, took: seq<bool>, word: WordSize)
    requires i < |history| && Answers(response, history[i], l, first, effect, word)
    requires AllAnswered(responses, history, i + 1, Effect(history[i], l, effect, word), failed, took, word)
    ensures AllAnswered(Cons(response, responses), history, i, l, Cons(first, failed), Cons(effect, took), word)
  {
    hide Answers, Effect;
    assert Cons(response, responses)[1..] == responses;
    assert Cons(first, failed)[1..] == failed && Cons(effect, took)[1..] == took;
  }

  lemma AnsweredNone(history: seq<Transaction>, l: Ledger, word: WordSize)
    ensures AllAnswered([], history, |history|, l, [], [], word)
  {
  }

  /** Every transaction was answered on the ledger that those before it left behind. */
  lemma {:induction false} AnsweredAt(responses: seq<PeerResponse>, history: seq<Transaction>, i: nat, l: Ledger,
                                      failed: seq<bool>, took: seq<bool>, word: WordSize, j: nat)
    requires AllAnswered(responses, history, i, l, failed, took, word) && j < |responses|
    ensures Answers(responses[j], history[i + j], After(l, Picked(history[i..i + j], took[..j]), word), failed[j], took[j], word)
    decreases j
  {
    hide Answers, Spec;
    if j == 0 {
      assert history[i..i] == [];
    } else {
      AnsweredAt(responses[1..], history, i + 1, Effect(history[i], l, took[0], word), failed[1..], took[1..], word, j - 1);
      assert took[1..][..j - 1] == took[..j][1..];
      assert history[i + 1..i + 1 + (j - 1)] == history[i..i + j][1..];
      PickedStep(l, history[i..i + j], took[..j], word);
    }
  }

  /** The transactions that had an effect. */
  ghost function Picked(history: seq<Transaction>, took: seq<bool>): (r: seq<Transaction>)
    requires |took| == |history|
  {
    if history == [] then []
    else (if took[0] then [history[0]] else []) + Picked(history[1..], took[1..])
  }

  ghost function PickedFrom(history: seq<Transaction>, i: nat, took: seq<bool>): (r: seq<Transaction>)
    requires i <= |history| && |took| == |history| - i
  {
    Picked(history[i..], took)
  }

  lemma EveryAnswer(responses: seq<PeerResponse>, history: seq<Transaction>, l: Ledger, failed: seq<bool>, took: seq<bool>,
                    word: WordSize)
    requires AllAnswered(responses, history, 0, l, failed, took, word)
    ensures |responses| == |failed| == |took| == |history|
    ensures forall j | 0 <= j < |history| ::
              Answers(responses[j], history[j], After(l, Picked(history[..j], took[..j]), word), failed[j], took[j], word)
  {
    hide Answers, After, Picked;
    forall j | 0 <= j < |history|
      ensures Answers(responses[j], history[j], After(l, Picked(history[..j], took[..j]), word), failed[j], took[j], word)
    {
      AnsweredAt(responses, history, 0, l, failed, took, word, j);
    }
  }

  /** The first transaction comes first, if it had an effect. */
  lemma PickedStep(l: Ledger, history: seq<Transaction>, took: seq<bool>, word: WordSize)
    requires history != [] && |took| == |history|
    ensures After(l, Picked(history, took), word) == After(Effect(history[0], l, took[0], word), Picked(history[1..], took[1..]), word)
  {
    hide Spec;
    var rest := Picked(history[1..], took[1..]);
    assert ([history[0]] + rest)[1..] == rest && [] + rest == rest;
  }

  lemma PickedNext(l: Ledger, history: seq<Transaction>, i: nat, first: bool, took: seq<bool>, word: WordSize)
    requires i < |history| && |took| == |history| - i - 1
    ensures After(l, PickedFrom(history, i, Cons(first, took)), word) ==
            After(Effect(history[i], l, first, word), PickedFrom(history, i + 1, took), word)
  {
    hide Spec, Effect;
    PickedStep(l, history[i..], Cons(first, took), word);
    assert history[i..][1..] == history[i + 1..] && Cons(first, took)[1..] == took;
  }

  lemma PickedNone(ledger: Ledger, history: seq<Transaction>, word: WordSize)
    ensures After(ledger, PickedFrom(history, |history|, []), word) == ledger
  {
  }

  /** When all of them had an effect, nothing is left out. */
  lemma {:induction false} PickedAll(history: seq<Transaction>, took: seq<bool>)
    requires |took| == |history| && forall i | 0 <= i < |took| :: took[i]
    ensures Picked(history, took) == history
  {
    if history != [] { PickedAll(history[1..], took[1..]); }
  }

  lemma EveryKeyCounts(ledger: Ledger, history: seq<Transaction>, word: WordSize)
    ensures forall k: string :: CounterOf(After(ledger, history, word), k, word)
                             == CountedAll(CounterOf(ledger, k, word), history, k, word)
  {
    forall k: string { HistoryCounts(ledger, history, k, word); }
  }

  class System {
    const stream: WrapperStream
    const service: InvocationService
    /** Of every invocation so far, whether something failed while it ran. */
    ghost var failed: seq<bool>

    ghost predicate Idle()
      reads service, service.ta, service.ta.sess
      reads service.ta.sess.arguments, service.ta.sess.key, service.ta.sess.value, service.ta.sess.response
    {
      service.Ready()
    }

    ghost function Repr(): (r: set<object>)
      reads service, service.ta
    {
      {stream} + service.Repr()
    }

    constructor (ledger: Ledger, word: WordSize)
      ensures Idle() && stream.ledger == ledger && service.word == word && failed == [] && fresh(Repr())
    {
      hide InvocationService.Ready;
      stream := new WrapperStream(ledger);
      service := new InvocationService(word);
      failed := [];
    }

    /** `invoke` of the wrapper, for every request and ledger.  If nothing fails, the run through
        wrapper, proxy, trusted application and chaincode is the one step that the invocation is for.
        If something fails, the peer is told so, and the ledger is as before or as after that step: as
        before if no request to store a value was sent, and as after it if one was and the peer is
        told that the chaincode trapped. */
    method Invoke(args: seq<string>) returns (response: PeerResponse)
      requires Idle()
      modifies this, Repr()
      ensures Idle() && fresh(Repr() - old(Repr()))
      ensures failed == old(failed) + [|args| >= 2 && stream.faulty]
      ensures |args| < 2 ==> response.Error? && stream.ledger == old(stream.ledger)
      ensures |args| >= 2 ==>
                var o := Spec(args[0], args[1..], old(stream.ledger), service.word);
                if stream.faulty then
                  && (response.Error? || response == Success("RUNTIME_ERROR"))
                  && (stream.ledger == old(stream.ledger) || stream.ledger == o.ledger)
                  && (!HasPut(stream.sent) ==> stream.ledger == old(stream.ledger))
                  && (response.Success? && HasPut(stream.sent) ==> stream.ledger == o.ledger)
                else
                  response == Success(o.response) && stream.ledger == o.ledger && stream.sent == o.trace
    {
      hide Spec, HasPut, Idle, Repr;
      LogIsApart();
      if |args| < 2 {
        failed := failed + [false];
        return Error("incorrect number of args, expecting at least name of function to execute");
      }
      response := Transact(args[0], args[1..]);
      failed := failed + [stream.faulty];
    }

    lemma LogIsApart()
      ensures this !in Repr() && stream in Repr()
    {
    }

    /** The same for a request that is sent to the proxy. */
    method Transact(name: string, arguments: seq<string>) returns (response: PeerResponse)
      requires Idle()
      modifies Repr()
      ensures Idle() && fresh(Repr() - old(Repr()))
      ensures Settled(response, old(stream.ledger), Spec(name, arguments, old(stream.ledger), service.word))
    {
      hide Spec, AllOrNothing, HasPut, service.Ready, service.Over, Settled;
      var ok := stream.Start(InvocationRequest(name, arguments));
      if !ok {
        NotStarted(Spec(name, arguments, stream.ledger, service.word));
        return stream.returned.value;
      }
      var status := service.TransactionInvocation(stream);
      response := Finish(status == OK, old(stream.ledger), Spec(name, arguments, old(stream.ledger), service.word));
    }

    /** The response, the ledger and the messages sent are those of outcome `o`, unless something failed. */
    ghost predicate Settled(response: PeerResponse, before: Ledger, o: Outcome)
      reads stream
    {
      if stream.faulty then
        && (response.Error? || response == Success(RUNTIME_ERROR))
        && AllOrNothing(stream.ledger, before, o)
        && (!HasPut(stream.sent) ==> stream.ledger == before)
        && (response.Success? && HasPut(stream.sent) ==> stream.ledger == o.ledger)
      else
        response == Success(o.response) && stream.ledger == o.ledger && stream.sent == o.trace
    }

    lemma NotStarted(o: Outcome)
      requires stream.HasFailed() && stream.sent == []
      ensures Settled(stream.returned.value, stream.ledger, o)
    {
    }

    ghost function Ledger(): (r: Protocol.Ledger)
      reads stream
    {
      stream.ledger
    }

    ghost function Word(): (r: WordSize) {
      service.word
    }

    method InvokeOne(t: Transaction) returns (response: PeerResponse, ghost took: bool)
      requires Idle()
      modifies this, Repr()
      ensures Idle() && fresh(Repr() - old(Repr()))
      ensures failed != [] && failed == old(failed) + [failed[|failed| - 1]]
      ensures Ledger() == Effect(t, old(Ledger()), took, Word())
      ensures Answers(response, t, old(Ledger()), failed[|failed| - 1], took, Word())
    {
      hide Spec;
      assert ([t.name] + t.arguments)[1..] == t.arguments;
      response := Invoke([t.name] + t.arguments);
      took := t.arguments != [] && Ledger() == Spec(t.name, t.arguments, old(Ledger()), Word()).ledger;
    }

    method InvokeFrom(history: seq<Transaction>, i: nat)
      returns (responses: seq<PeerResponse>, ghost took: seq<bool>, ghost news: seq<bool>)
      requires Idle() && i <= |history|
      modifies this, Repr()
      ensures Idle() && fresh(Repr() - old(Repr())) && failed == Joined(old(failed), news)
      ensures AllAnswered(responses, history, i, old(Ledger()), news, took, Word()) && |took| == |history| - i
      ensures Ledger() == After(old(Ledger()), PickedFrom(history, i, took), Word())
      decreases |history| - i
    {
      hide Spec, After, PickedFrom, Idle, Repr, Ledger, Word, Cons, Joined, Answers, AllAnswered, Effect;
      if i == |history| {
        PickedNone(Ledger(), history, Word());
        AnsweredNone(history, Ledger(), Word());
        JoinedNext(failed, false, []);
        return [], [], [];
      }
      ghost var before := Ledger();
      ghost var effect;
      var response;
      response, effect := InvokeOne(history[i]);
      ghost var repr := Repr();
      ghost var last := failed[|failed| - 1];
      label Rest:
      responses, took, news := InvokeFrom(history, i + 1);
      forall o | o in Repr() - old(Repr()) && o !in repr ensures fresh({o}) {
        assert !old@Rest(allocated(o));
      }
      PickedNext(before, history, i, effect, took, Word());
      AnsweredNext(response, responses, history, i, before, last, news, effect, took, Word());
      ConsLength(effect, took);
      JoinedNext(old(failed), last, news);
      responses, took, news := Cons(response, responses), Cons(effect, took), Cons(last, news);
    }

    /** Transactions one after another, any of which may fail: each has its whole effect or none.  Each is
        answered with the response of its one step on the ledger that those before it left behind,
        unless it is refused or something fails, and on the ledger every key is a counter of its own. */
    method InvokeAll(history: seq<Transaction>) returns (responses: seq<PeerResponse>, ghost took: seq<bool>)
      requires Idle()
      modifies this, Repr()
      ensures Idle() && fresh(Repr() - old(Repr()))
      ensures |responses| == |took| == |history| && |failed| == |old(failed)| + |history| && old(failed) <= failed
      ensures forall j | 0 <= j < |history| ::
                var t, l := history[j], After(old(Ledger()), Picked(history[..j], took[..j]), Word());
                if t.arguments == [] then
                  responses[j].Error? && !took[j]
                else if failed[|old(failed)| + j] then
                  responses[j].Error? || responses[j] == Success("RUNTIME_ERROR")
                else
                  responses[j] == Success(Spec(t.name, t.arguments, l, Word()).response) && took[j]
      ensures forall j | 0 <= j < |history| :: responses[j].Success? && responses[j].payload != "RUNTIME_ERROR" ==> took[j]
      ensures Ledger() == After(old(Ledger()), Picked(history, took), Word())
      ensures (forall j | 0 <= j < |responses| :: Confirms(responses[j])) ==>
                Ledger() == After(old(Ledger()), history, Word())
      ensures forall k: string :: CounterOf(Ledger(), k, Word())
                == CountedAll(CounterOf(old(Ledger()), k, Word()), Picked(history, took), k, Word())
    {
      hide Spec, CounterOf, CountedAll, After, Picked, Idle, AllAnswered;
      ghost var news;
      responses, took, news := InvokeFrom(history, 0);
      assert history[0..] == history;
      EveryKeyCounts(old(Ledger()), Picked(history, took), Word());
      EveryAnswer(responses, history, old(Ledger()), news, took, Word());
      if forall j | 0 <= j < |responses| :: Confirms(responses[j]) { PickedAll(history, took); }
    }

    /** The wrapper serves what the proxy sent last, or finds that its call has ended. */
    method Finish(ok: bool, ghost before: Ledger, ghost o: Outcome) returns (response: PeerResponse)
      requires service.Over(stream, ok, before, o)
      modifies stream
      ensures Settled(response, before, o)
    {
      if stream.returned == None {
        if stream.toWrapper == [] {
          stream.Close();
        } else {
          ghost var nobody := Ta(Sess([], 0, "", "", 0, 0, "", false), Mem("", "", "", "", ""), 0, OpNone);
          ghost var s := Net(nobody, false, true, stream.toWrapper, stream.toProxy, stream.ledger, None, stream.sent);
          ghost var served := stream.Serve(s);
        }
      }
      response := stream.returned.value;
    }
  }
}
