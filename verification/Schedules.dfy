/** Wrapper and proxy run at the same time and only wait for each other's messages: however
    their steps interleave, an invocation ends, and ends in the same way. */
module Schedules {
  import opened Decimal
  import opened Protocol
  import opened TaModel
  import opened InvocationSpec
  import opened RunToEnd
  import opened Options

  /** Both parties and the two directions of the stream between them. */
  datatype Net = Net(
    ta: Ta, waiting: bool, ended: bool,
    toWrapper: seq<ProxyMessage>, toProxy: seq<WrapperMessage>,
    ledger: Ledger, returned: Option<PeerResponse>, sent: seq<ProxyMessage>)

  ghost function Start(name: string, arguments: seq<string>, ledger: Ledger, word: WordSize): (r: Net) {
    Net(Run(Packed(name, arguments), word), false, false, [], [], ledger, None, [])
  }

  /** The proxy tells the wrapper what the chaincode waits for, or how it ended. */
  ghost predicate ProxyWrites(s: Net, s': Net) {
    !s.waiting && !s.ended && s' == Written(s)
  }

  ghost function Written(s: Net): (r: Net) {
    var m := Told(s.ta);
    s.(toWrapper := s.toWrapper + [m], sent := s.sent + [m],
       waiting := !m.InvocationResponse?, ended := m.InvocationResponse?)
  }

  /** The proxy gets an answer and resumes the chaincode. */
  ghost predicate ProxyReads(s: Net, s': Net, word: WordSize) {
    s.waiting && s.toProxy != [] && s' == Resumed(s, word)
  }

  ghost function Resumed(s: Net, word: WordSize): (r: Net)
    requires s.toProxy != []
  {
    s.(ta := Resume(s.ta, Answered(s.ta, s.toProxy[0]), word), waiting := false, toProxy := s.toProxy[1..])
  }

  /** What the chaincode is resumed with. */
  function Answered(t: Ta, m: WrapperMessage): (r: string) {
    if t.sess.pending == GET_STATE_REQUEST && m.GetStateResponse? then Seen(m.value) else ""
  }

  /** The wrapper serves a message. */
  ghost predicate WrapperServes(s: Net, s': Net) {
    && s.toWrapper != [] && s.returned == None
    && s' == Served(s)
  }

  ghost function Served(s: Net): (r: Net)
    requires s.toWrapper != []
  {
    var rest := s.(toWrapper := s.toWrapper[1..]);
    match s.toWrapper[0]
    case InvocationResponse(text) => rest.(returned := Some(Success(text)))
    case GetStateRequest(key) => rest.(toProxy := s.toProxy + [GetStateResponse(Lookup(s.ledger, key))])
    case PutStateRequest(key, value) =>
      rest.(toProxy := s.toProxy + [PutStateResponse("OK")], ledger := s.ledger[key := value])
  }

  ghost predicate Moves(s: Net, s': Net, word: WordSize) {
    ProxyWrites(s, s') || ProxyReads(s, s', word) || WrapperServes(s, s')
  }

  /** The proxy is about to write. */
  ghost predicate Writing(s: Net, o: Outcome, word: WordSize) {
    && !s.waiting && !s.ended && s.toWrapper == [] && s.toProxy == [] && s.returned == None
    && Leads(s.ta, s.ledger, s.sent, [], o, word)
  }

  /** A request is on its way to the wrapper. */
  ghost predicate Asking(s: Net, o: Outcome, word: WordSize) {
    && s.waiting && !s.ended && s.toWrapper == [Told(s.ta)] && s.toProxy == [] && s.returned == None
    && Suspended(s.ta) && s.ta.sess.pending != 0
    && Leads(Resume(s.ta, Answered(s.ta, AnswerTo(s)), word), LedgerAfter(s), s.sent, [], o, word)
    && Rank(Resume(s.ta, Answered(s.ta, AnswerTo(s)), word)) < Rank(s.ta)
  }

  /** What the wrapper will answer, and its ledger then. */
  ghost function AnswerTo(s: Net): (r: WrapperMessage) {
    match Told(s.ta)
    case GetStateRequest(key) => GetStateResponse(Lookup(s.ledger, key))
    case _ => PutStateResponse("OK")
  }

  ghost function LedgerAfter(s: Net): (r: Ledger) {
    match Told(s.ta)
    case PutStateRequest(key, value) => s.ledger[key := value]
    case _ => s.ledger
  }

  /** The answer is on its way to the proxy. */
  ghost predicate Answering(s: Net, o: Outcome, word: WordSize) {
    && s.waiting && !s.ended && s.toWrapper == [] && |s.toProxy| == 1 && s.returned == None
    && Leads(Resume(s.ta, Answered(s.ta, s.toProxy[0]), word), s.ledger, s.sent, [], o, word)
    && Rank(Resume(s.ta, Answered(s.ta, s.toProxy[0]), word)) < Rank(s.ta)
  }

  /** The response is on its way to the wrapper, or has arrived. */
  ghost predicate Ending(s: Net, o: Outcome) {
    && s.ended && !s.waiting && s.toProxy == [] && s.ledger == o.ledger && s.sent == o.trace
    && if s.returned == None then s.toWrapper == [InvocationResponse(o.response)]
       else s.toWrapper == [] && s.returned == Some(Success(o.response))
  }

  /** What holds whatever has moved so far. */
  ghost predicate OnTrack(s: Net, o: Outcome, word: WordSize) {
    Writing(s, o, word) || Asking(s, o, word) || Answering(s, o, word) || Ending(s, o)
  }

  /** How many moves there may still be. */
  ghost function MovesLeft(s: Net): (r: nat) {
    if s.ended then (if s.returned == None then 1 else 0)
    else 3 * Rank(s.ta) + if !s.waiting then 2 else if s.toProxy == [] then 1 else 0
  }

  ghost predicate Done(s: Net, o: Outcome) {
    s.ended && s.returned == Some(Success(o.response)) && s.ledger == o.ledger && s.sent == o.trace
  }

  lemma StartIsTracked(name: string, arguments: seq<string>, ledger: Ledger, word: WordSize)
    ensures Tracked(Start(name, arguments, ledger, word), ledger, Spec(name, arguments, ledger, word))
  {
    hide Spec, Run, Packed, Finish;
    var s, o := Start(name, arguments, ledger, word), Spec(name, arguments, ledger, word);
    RunIsSpec(name, arguments, ledger, word);
    if Rank(s.ta) == 0 { NothingMore(s.ta, ledger, word); }
  }

  lemma StartLedger(name: string, arguments: seq<string>, ledger: Ledger, word: WordSize)
    ensures Start(name, arguments, ledger, word).ledger == ledger
  {
  }

  lemma StartIsOnTrack(name: string, arguments: seq<string>, ledger: Ledger, word: WordSize)
    ensures var s := Start(name, arguments, ledger, word);
            OnTrack(s, Spec(name, arguments, ledger, word), word) && MovesLeft(s) <= 8
  {
    hide Spec, Run, Packed, Finish, Suspended;
    RunIsSpec(name, arguments, ledger, word);
  }

  lemma MovesKeepTrack(s: Net, s': Net, o: Outcome, word: WordSize)
    requires OnTrack(s, o, word) && Moves(s, s', word)
    ensures OnTrack(s', o, word) && MovesLeft(s') < MovesLeft(s)
  {
    hide Resume, Finish, Suspended, Seen;
    if Writing(s, o, word) {
      Hop(s.ta, s.ledger, s.sent, [], o, word);
    }
  }

  /** Somebody can move as long as the wrapper has not returned. */
  lemma NobodyIsStuck(s: Net, o: Outcome, word: WordSize)
    requires OnTrack(s, o, word)
    ensures Done(s, o) || exists s' :: Moves(s, s', word)
  {
    hide Resume, Finish, Suspended, Seen;
    if !s.waiting && !s.ended {
      assert Moves(s, Written(s), word);
    } else if s.toProxy != [] {
      assert Moves(s, Resumed(s, word), word);
    } else if s.toWrapper != [] {
      assert Moves(s, Served(s), word);
    }
  }

  /** The ledger is as it was before the invocation, or as it is to be after it. */
  ghost predicate AllOrNothing(ledger: Ledger, before: Ledger, o: Outcome) {
    ledger == before || ledger == o.ledger
  }

  /** No move leaves the ledger in between. */
  lemma MovesAllOrNothing(s: Net, s': Net, before: Ledger, o: Outcome, word: WordSize)
    requires OnTrack(s, o, word) && Moves(s, s', word) && AllOrNothing(s.ledger, before, o)
    ensures AllOrNothing(s'.ledger, before, o)
  {
    hide Resume, Seen, Run, Packed;
    if Asking(s, o, word) && Told(s.ta).PutStateRequest? {
      NothingMore(Resume(s.ta, Answered(s.ta, AnswerTo(s)), word), LedgerAfter(s), word);
    }
  }

  /** Some message asks to store a value. */
  ghost predicate HasPut(messages: seq<ProxyMessage>) {
    exists i :: 0 <= i < |messages| && messages[i].PutStateRequest?
  }

  lemma HasPutOf(messages: seq<ProxyMessage>, m: ProxyMessage)
    ensures HasPut(messages + [m]) <==> HasPut(messages) || m.PutStateRequest?
    ensures !HasPut([]) && (HasPut([m]) <==> m.PutStateRequest?)
  {
    if HasPut(messages) {
      var i :| 0 <= i < |messages| && messages[i].PutStateRequest?;
      assert (messages + [m])[i].PutStateRequest?;
    }
    assert (messages + [m])[|messages|] == m && [m][0] == m;
  }

  /** The ledger is as it is to be exactly since a request to store a value was served. */
  ghost predicate Tracked(s: Net, before: Ledger, o: Outcome) {
    && s.ledger == (if HasPut(s.sent) && !HasPut(s.toWrapper) then o.ledger else before)
    && (!s.waiting && !s.ended ==>
          if Rank(s.ta) == 0 then s.ledger == o.ledger else !HasPut(s.sent))
    && (s.waiting ==> (HasPut(s.sent) <==> Told(s.ta).PutStateRequest?))
  }

  /** What that says of the ledger alone. */
  lemma LedgerOf(s: Net, before: Ledger, o: Outcome)
    requires Tracked(s, before, o)
    ensures AllOrNothing(s.ledger, before, o) && (!HasPut(s.sent) ==> s.ledger == before)
  {
  }

  /** Every move keeps it so. */
  lemma MovesKeepLedger(s: Net, s': Net, before: Ledger, o: Outcome, word: WordSize)
    requires OnTrack(s, o, word) && Moves(s, s', word) && Tracked(s, before, o)
    ensures Tracked(s', before, o)
  {
    hide Resume, Seen, Run, Packed, HasPut, Finish;
    HasPutOf(s.sent, Told(s.ta));
    HasPutOf(s.toWrapper, Told(s.ta));
    HasPutOf([], InvocationResponse(o.response));
    if Writing(s, o, word) {
      assert Written(s).toWrapper == [Told(s.ta)];
    } else if Ending(s, o) {
      assert Served(s).toWrapper == [];
    } else if Asking(s, o, word) {
      assert Served(s).toWrapper == [];
      if Told(s.ta).PutStateRequest? {
        NothingMore(Resume(s.ta, Answered(s.ta, AnswerTo(s)), word), LedgerAfter(s), word);
      }
    } else if Answering(s, o, word) {
      var t := Resume(s.ta, Answered(s.ta, s.toProxy[0]), word);
      if Rank(t) == 0 { NothingMore(t, s.ledger, word); }
    }
  }

  /** When nothing is pending, the ledger is as it is to be. */
  lemma NothingMore(t: Ta, ledger: Ledger, word: WordSize)
    requires Suspended(t) && Rank(t) == 0
    ensures Finish(t, ledger, word).ledger == ledger
  {
  }

  /** The moves of one turn of the proxy's loop: it writes, and unless that ends the invocation
      the wrapper serves, and the proxy reads. */
  lemma TurnKeepsTrack(s: Net, before: Ledger, o: Outcome, word: WordSize)
    requires Writing(s, o, word) && Tracked(s, before, o)
    ensures ProxyWrites(s, Written(s)) && s.sent + [Told(s.ta)] <= o.trace
    ensures Tracked(Written(s), before, o)
    ensures Told(s.ta).InvocationResponse? ==> Ending(Written(s), o) && Told(s.ta).text == o.response
    ensures !Told(s.ta).InvocationResponse? ==>
              var s1 := Served(Written(s));
              && WrapperServes(Written(s), s1) && ProxyReads(s1, Resumed(s1, word), word)
              && OnTrack(s1, o, word) && Tracked(s1, before, o) && Tracked(Resumed(s1, word), before, o)
              && Writing(Resumed(s1, word), o, word) && MovesLeft(Resumed(s1, word)) < MovesLeft(s)
  {
    hide Resume, Finish, Suspended, Seen, Tracked, Leads;
    MovesKeepTrack(s, Written(s), o, word);
    MovesKeepLedger(s, Written(s), before, o, word);
    SentSoFar(Written(s), o, word);
    assert Written(s).toWrapper[0] == Told(s.ta);
    if !Told(s.ta).InvocationResponse? {
      var s1 := Served(Written(s));
      MovesKeepTrack(Written(s), s1, o, word);
      MovesKeepLedger(Written(s), s1, before, o, word);
      MovesKeepTrack(s1, Resumed(s1, word), o, word);
      MovesKeepLedger(s1, Resumed(s1, word), before, o, word);
    }
  }

  /** Every run of both parties, however it interleaves, has at most eight moves, never sends
      anything but what the invocation is for, and can only stop where the wrapper has returned
      the response and the ledger has changed as the one step says; at no time is the ledger
      anything else than before or after that step. */
  lemma {:induction false} EveryScheduleIsSpec(run: seq<Net>, name: string, arguments: seq<string>, ledger: Ledger, word: WordSize)
    requires run != [] && run[0] == Start(name, arguments, ledger, word)
    requires forall i | 0 <= i < |run| - 1 :: Moves(run[i], StateAfter(run, i), word)
    ensures var o, last := Spec(name, arguments, ledger, word), run[|run| - 1];
            && OnTrack(last, o, word) && last.sent <= o.trace && |run| - 1 + MovesLeft(last) <= 8
            && AllOrNothing(last.ledger, ledger, o) && Tracked(last, ledger, o)
            && (Done(last, o) <==> !exists s' :: Moves(last, s', word))
    decreases |run|
  {
    hide Spec, OnTrack, Moves, MovesLeft, Done, Start, Tracked;
    var n := |run| - 1;
    var o := Spec(name, arguments, ledger, word);
    if n == 0 {
      StartIsOnTrack(name, arguments, ledger, word);
      StartLedger(name, arguments, ledger, word);
      StartIsTracked(name, arguments, ledger, word);
    } else {
      forall i | 0 <= i < n - 1 ensures Moves(run[..n][i], StateAfter(run[..n], i), word) {
        assert StateAfter(run, i) == StateAfter(run[..n], i);
      }
      EveryScheduleIsSpec(run[..n], name, arguments, ledger, word);
      assert StateAfter(run, n - 1) == run[n];
      MovesKeepTrack(run[n - 1], run[n], o, word);
      MovesAllOrNothing(run[n - 1], run[n], ledger, o, word);
      MovesKeepLedger(run[n - 1], run[n], ledger, o, word);
    }
    SentSoFar(run[n], o, word);
    StopsWhenDone(run[n], o, word);
  }

  lemma SentSoFar(s: Net, o: Outcome, word: WordSize)
    requires OnTrack(s, o, word)
    ensures s.sent <= o.trace
  {
    hide Resume, Finish, Suspended, Seen, Told;
    assert [] + o.trace == o.trace;
  }

  lemma StopsWhenDone(s: Net, o: Outcome, word: WordSize)
    requires OnTrack(s, o, word)
    ensures Done(s, o) <==> !exists s' :: Moves(s, s', word)
  {
    NobodyIsStuck(s, o, word);
    if Done(s, o) {
      forall s' ensures !Moves(s, s', word) {
        if Moves(s, s', word) { MovesKeepTrack(s, s', o, word); }
      }
    }
  }

  function StateAfter(run: seq<Net>, i: nat): (r: Net)
    requires i + 1 < |run|
  {
    run[i + 1]
  }

  /** The chaincode traps, when it is started or when it is resumed with an answer: the proxy ends
      the invocation with a response that says so. */
  ghost predicate Traps(s: Net, s': Net) {
    (if s.waiting then s.toProxy != [] else !s.ended && s.sent == []) && s' == Trapping(s)
  }

  ghost function Trapping(s: Net): (r: Net) {
    var m := InvocationResponse(RUNTIME_ERROR);
    s.(toWrapper := s.toWrapper + [m], sent := s.sent + [m], waiting := false, ended := true,
       toProxy := if s.toProxy == [] then [] else s.toProxy[1..])
  }

  /** When the chaincode traps the ledger is as it is to be if the answer is to a request to store a
      value, and as before otherwise. */
  lemma TrapLedger(s: Net, s': Net, before: Ledger, o: Outcome, word: WordSize)
    requires OnTrack(s, o, word) && Tracked(s, before, o) && Traps(s, s')
    ensures s'.ledger == s.ledger == if HasPut(s'.sent) then o.ledger else before
    ensures HasPut(s'.sent) <==> s.waiting && Told(s.ta).PutStateRequest?
    ensures s.toWrapper == [] && s.returned == None
  {
    hide Resume, Finish, Suspended, Seen, HasPut, Leads;
    HasPutOf(s.sent, InvocationResponse(RUNTIME_ERROR));
  }

  /** What comes after a trap: the wrapper returns that response, and the ledger stays. */
  lemma TrapIsReturned(s: Net, s': Net, s'': Net, word: WordSize)
    requires Traps(s, s') && s.toWrapper == [] && s.returned == None && Moves(s', s'', word)
    ensures s''.returned == Some(Success("RUNTIME_ERROR")) && s''.ledger == s'.ledger && s''.sent == s'.sent
    ensures !exists next :: Moves(s'', next, word)
  {
  }

  /** A run of both parties in which the chaincode traps in the end. */
  ghost predicate TrappedRun(run: seq<Net>, name: string, arguments: seq<string>, ledger: Ledger, word: WordSize) {
    && |run| >= 2 && run[0] == Start(name, arguments, ledger, word)
    && (forall i | 0 <= i < |run| - 2 :: Moves(run[i], StateAfter(run, i), word))
    && Traps(run[|run| - 2], run[|run| - 1])
  }

  /** The ledger after a trap: changed exactly if a request to store a value was sent. */
  lemma TrappedRunLedger(run: seq<Net>, name: string, arguments: seq<string>, ledger: Ledger, word: WordSize)
    requires TrappedRun(run, name, arguments, ledger, word)
    ensures var last := run[|run| - 1];
            last.ledger == if HasPut(last.sent) then Spec(name, arguments, ledger, word).ledger else ledger
  {
    hide Spec, Moves, Traps, Tracked, OnTrack, HasPut;
    var n := |run| - 1;
    forall i | 0 <= i < n - 1 ensures Moves(run[..n][i], StateAfter(run[..n], i), word) {
      assert StateAfter(run, i) == StateAfter(run[..n], i);
    }
    EveryScheduleIsSpec(run[..n], name, arguments, ledger, word);
    TrapLedger(run[n - 1], run[n], ledger, Spec(name, arguments, ledger, word), word);
  }

  /** If the invocation is to change the ledger, the chaincode may trap after it has. */
  lemma TrapAfterWrite(name: string, arguments: seq<string>, ledger: Ledger, word: WordSize) returns (run: seq<Net>)
    requires Spec(name, arguments, ledger, word).ledger != ledger
    ensures TrappedRun(run, name, arguments, ledger, word)
    ensures run[|run| - 1].ledger == Spec(name, arguments, ledger, word).ledger
  {
    hide Spec, Run, Packed, Resume, Finish, Suspended, Seen, Leads, HasPut, TrappedRun;
    var o := Spec(name, arguments, ledger, word);
    var s0 := Start(name, arguments, ledger, word);
    StartIsOnTrack(name, arguments, ledger, word);
    StartIsTracked(name, arguments, ledger, word);
    RunSuspends(Packed(name, arguments), word);
    TurnKeepsTrack(s0, ledger, o, word);
    var s1 := Written(s0);
    var s2 := Served(s1);
    var s3 := Resumed(s2, word);
    TurnKeepsTrack(s3, ledger, o, word);
    var s4 := Written(s3);
    var s5 := Served(s4);
    TrapLedger(s5, Trapping(s5), ledger, o, word);
    run := TwoTurns(s0, s1, s2, s3, s4, s5, Trapping(s5), name, arguments, ledger, word);
  }

  /** A trapped run of two turns, of which the second ends in a trap. */
  lemma TwoTurns(s0: Net, s1: Net, s2: Net, s3: Net, s4: Net, s5: Net, s6: Net,
                 name: string, arguments: seq<string>, ledger: Ledger, word: WordSize) returns (run: seq<Net>)
    requires s0 == Start(name, arguments, ledger, word) && Moves(s0, s1, word) && Moves(s1, s2, word) && Moves(s2, s3, word)
    requires Moves(s3, s4, word) && Moves(s4, s5, word) && Traps(s5, s6)
    ensures run == [s0, s1, s2, s3, s4, s5, s6] && TrappedRun(run, name, arguments, ledger, word)
  {
    hide Start, Moves, Traps;
    run := [s0, s1, s2, s3, s4, s5, s6];
  }

  /** Whatever traps do, they leave the ledger alone exactly if the invocation is not to change it. */
  lemma TrapsLeaveLedger(name: string, arguments: seq<string>, ledger: Ledger, word: WordSize)
    ensures (forall run: seq<Net> | TrappedRun(run, name, arguments, ledger, word) :: run[|run| - 1].ledger == ledger)
       <==> Spec(name, arguments, ledger, word).ledger == ledger
  {
    hide Spec, HasPut, Moves, Traps, Start;
    if Spec(name, arguments, ledger, word).ledger != ledger {
      var run := TrapAfterWrite(name, arguments, ledger, word);
    } else {
      forall run: seq<Net> | TrappedRun(run, name, arguments, ledger, word) ensures run[|run| - 1].ledger == ledger {
        TrappedRunLedger(run, name, arguments, ledger, word);
      }
    }
  }

  /** The creation of a key on the empty ledger: the chaincode traps after the write, the peer will be
      told RUNTIME_ERROR, and the key is there. */
  lemma TrapAfterCreation(word: WordSize) returns (run: seq<Net>)
    ensures TrappedRun(run, "create", ["k", "5"], map[], word) && run[|run| - 1].ledger == map["k" := "5"]
  {
    hide Moves, Traps, Start;
    FittedIsSame("create");
    FittedIsSame("k");
    FittedIsSame("5");
    run := TrapAfterWrite("create", ["k", "5"], map[], word);
  }
}
