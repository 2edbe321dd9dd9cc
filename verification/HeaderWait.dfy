/** The wait of `handleMerkleblockMsg` for headers.  Handlers block on the unbuffered channel `updatedBlockHeader`;
    `handleHeadersMsg` offers one value to it without blocking, so an offer that finds no handler waiting is lost, and
    an offer that finds several wakes one. */
module HeaderWait {
  /** What happens at the channel of an SPV node, in order: a handler that does not know a header asks other nodes for
      headers, if it knows any but the sender; it begins to wait; and a headers message arrives. */
  datatype Event = Asks | Waits | Arrives

  /** `requestingBlockHeader`: set by the first question, and never cleared. */
  ghost predicate Requesting(run: seq<Event>) {
    Asks in run
  }

  /** The handlers that are waiting after a run. */
  ghost function Waiting(run: seq<Event>): nat {
    if run == [] then 0
    else
      var front := run[..|run| - 1];
      match run[|run| - 1]
      case Asks => Waiting(front)
      case Waits => Waiting(front) + 1
      case Arrives => if Requesting(front) && Waiting(front) > 0 then Waiting(front) - 1 else Waiting(front)
  }

  /** Waits begun from position `i` on, less the offers made from there on. */
  ghost function Excess(run: seq<Event>, i: nat): int
    requires i <= |run|
    decreases |run|
  {
    if i == |run| then 0
    else
      var front := run[..|run| - 1];
      Excess(front, i) + match run[|run| - 1]
                         case Asks => 0
                         case Waits => 1
                         case Arrives => if Requesting(front) then -1 else 0
  }

  lemma {:induction false} ExcessBelow(run: seq<Event>, i: nat)
    requires i <= |run|
    ensures Excess(run, i) <= Waiting(run)
    decreases |run|
  {
    if i < |run| {
      ExcessBelow(run[..|run| - 1], i);
    }
  }

  lemma {:induction false} ExcessReached(run: seq<Event>) returns (i: nat)
    ensures i <= |run| && Excess(run, i) == Waiting(run)
    decreases |run|
  {
    i := |run|;
    if run != [] {
      var front := run[..|run| - 1];
      var k := ExcessReached(front);
      if run[|run| - 1] != Arrives || !Requesting(front) || Waiting(front) > 0 {
        i := k;
      }
    }
  }

  /** Main theorem on the wait: nobody waits any more exactly if from every point of the run on at least as many
      offers were made as waits begun. */
  lemma {:induction false} WaitsEndIff(run: seq<Event>)
    ensures Waiting(run) == 0 <==> forall i: nat :: i <= |run| ==> Excess(run, i) <= 0
  {
    forall i: nat | i <= |run| ensures Excess(run, i) <= Waiting(run) {
      ExcessBelow(run, i);
    }
    var k := ExcessReached(run);
    assert Excess(run, k) == Waiting(run);
  }

  ghost function Begun(run: seq<Event>): nat {
    if run == [] then 0 else Begun(run[..|run| - 1]) + if run[|run| - 1] == Waits then 1 else 0
  }

  /** When the sender is the only full node or miner known, no question is asked: then nobody is ever woken, whatever
      headers arrive. */
  lemma {:induction false} NoQuestionNoEnd(run: seq<Event>)
    requires Asks !in run
    ensures Waiting(run) == Begun(run)
  {
    if run != [] {
      var front, last := run[..|run| - 1], run[|run| - 1];
      assert run == front + [last];
      NoQuestionNoEnd(front);
    }
  }

  lemma {:induction false} OneMore(run: seq<Event>, e: Event)
    ensures Waiting(run + [e])
            == match e
               case Asks => Waiting(run)
               case Waits => Waiting(run) + 1
               case Arrives => if Requesting(run) && Waiting(run) > 0 then Waiting(run) - 1 else Waiting(run)
  {
    assert (run + [e])[..|run|] == run;
  }

  /** An answer that arrives before the handler waits is lost: the handler waits on. */
  lemma {:induction false} EarlyAnswerLost()
    ensures Waiting([Asks] + [Arrives] + [Waits]) == 1
  {
    OneMore([], Asks);
    OneMore([Asks], Arrives);
    OneMore([Asks] + [Arrives], Waits);
    assert [] + [Asks] == [Asks];
  }

  /** One answer wakes one of two. */
  lemma {:induction false} OneAnswerWakesOne()
    ensures Waiting([Asks] + [Waits] + [Waits] + [Arrives]) == 1
  {
    OneMore([], Asks);
    OneMore([Asks], Waits);
    OneMore([Asks] + [Waits], Waits);
    OneMore([Asks] + [Waits] + [Waits], Arrives);
    assert [] + [Asks] == [Asks];
  }

  /** Once a question has been asked, enough later answers end every wait. */
  lemma {:induction false} EnoughAnswers(run: seq<Event>, answers: seq<Event>)
    requires Requesting(run) && Waiting(run) <= |answers| && forall e :: e in answers ==> e == Arrives
    ensures Waiting(run + answers) == 0
    decreases |answers|
  {
    if answers == [] {
      assert run + answers == run;
    } else {
      var next := run + [Arrives];
      assert answers[0] in answers;
      assert run + answers == next + answers[1..];
      OneMore(run, Arrives);
      forall e | e in answers[1..] ensures e == Arrives {
        assert e in answers;
      }
      EnoughAnswers(next, answers[1..]);
    }
  }
}
