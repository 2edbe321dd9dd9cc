/** The workers of `handleInvMsg`, at the granularity of the mutex.

    One worker per connected peer, at most as many as there are messages, share `messageIndex`.  A worker that
    finds no message left returns without unlocking.  The handler waits until the wait group's counter is zero. */
module Dispatch {
  import opened Types

  datatype Worker =
    | AtLock                // about to lock the mutex
    | InLock                // holds it, has not looked at messageIndex
    | Claimed(msg: nat)     // holds it, has taken a message
    | Sending(msg: nat)     // has unlocked, message not yet sent
    | Sent(msg: nat)        // message sent, wait group not yet told
    | Exited                // returned, still holding the mutex

  datatype State = State(
    messageIndex: nat,
    holder: Option<nat>,
    workers: seq<Worker>,
    waiting: int,           // the wait group's counter
    done: set<nat>,         // messages reported to the wait group, for the proof only
    sent: seq<nat>          // messages in the order of sending, for the proof only
  )

  datatype Action = Acquire | Exit | Claim | Unlock | Send | Done

  function Init(peers: nat, count: nat): State {
    State(0, None, seq(if peers < count then peers else count, i => AtLock), count, {}, [])
  }

  predicate Enabled(count: nat, s: State, w: nat, a: Action) {
    w < |s.workers| &&
    match a
    case Acquire => s.workers[w] == AtLock && s.holder == None
    case Exit => s.workers[w] == InLock && s.messageIndex >= count
    case Claim => s.workers[w] == InLock && s.messageIndex < count
    case Unlock => s.workers[w].Claimed?
    case Send => s.workers[w].Sending?
    case Done => s.workers[w].Sent?
  }

  function Next(count: nat, s: State, w: nat, a: Action): State
    requires Enabled(count, s, w, a)
  {
    match a
    case Acquire => s.(workers := s.workers[w := InLock], holder := Some(w))
    case Exit => s.(workers := s.workers[w := Exited])
    case Claim => s.(workers := s.workers[w := Claimed(s.messageIndex)], messageIndex := s.messageIndex + 1)
    case Unlock => s.(workers := s.workers[w := Sending(s.workers[w].msg)], holder := None)
    case Send => s.(workers := s.workers[w := Sent(s.workers[w].msg)], sent := s.sent + [s.workers[w].msg])
    case Done => s.(workers := s.workers[w := AtLock], waiting := s.waiting - 1, done := s.done + {s.workers[w].msg})
  }

  // ---------- the invariant ----------

  predicate Holding(p: Worker) {
    p == InLock || p.Claimed? || p == Exited
  }

  predicate Carries(p: Worker, m: int) {
    (p.Claimed? || p.Sending? || p.Sent?) && p.msg == m
  }

  ghost predicate LockOk(s: State) {
    && (s.holder.Some? ==> s.holder.value < |s.workers|)
    && (forall w :: 0 <= w < |s.workers| ==> (Holding(s.workers[w]) <==> s.holder == Some(w)))
  }

  /** Each message is untouched, carried by one worker, or done. */
  ghost predicate ClaimsOk(count: nat, s: State) {
    && s.messageIndex <= count
    && (forall m :: m in s.done ==> m < s.messageIndex)
    && (forall w, m {:trigger Carries(s.workers[w], m)} ::
          0 <= w < |s.workers| && Carries(s.workers[w], m) ==> m < s.messageIndex && m !in s.done)
    && (forall w, w', m {:trigger Carries(s.workers[w], m), Carries(s.workers[w'], m)} ::
          0 <= w < |s.workers| && 0 <= w' < |s.workers| && Carries(s.workers[w], m) && Carries(s.workers[w'], m) ==>
            w == w')
    && (forall m :: 0 <= m < s.messageIndex && m !in s.done ==> Carried(s, m))
    && (forall w :: 0 <= w < |s.workers| && s.workers[w] == Exited ==> s.messageIndex == count)
  }

  ghost predicate Carried(s: State, m: int) {
    exists w :: 0 <= w < |s.workers| && Carries(s.workers[w], m)
  }

  ghost predicate SentBySome(s: State, m: nat) {
    exists w :: 0 <= w < |s.workers| && s.workers[w] == Sent(m)
  }

  /** No message is sent twice, and those sent are the done ones and those a worker has just sent. */
  ghost predicate SentOk(s: State) {
    && (forall i, j :: 0 <= i < j < |s.sent| ==> s.sent[i] != s.sent[j])
    && (forall m :: m in s.sent <==> m in s.done || SentBySome(s, m))
  }

  ghost predicate Inv(count: nat, s: State) {
    LockOk(s) && ClaimsOk(count, s) && SentOk(s) && s.waiting == count - |s.done|
  }

  lemma InitInv(peers: nat, count: nat)
    ensures Inv(count, Init(peers, count))
  {
  }

  lemma LockStep(count: nat, s: State, w: nat, a: Action)
    requires Inv(count, s) && Enabled(count, s, w, a)
    ensures LockOk(Next(count, s, w, a))
  {
  }

  /** A worker carries after a step what it carried before, except for what is claimed in that step. */
  lemma CarriedBefore(count: nat, s: State, w: nat, a: Action, v: nat, m: int)
    requires Inv(count, s) && Enabled(count, s, w, a) && v < |s.workers| && Carries(Next(count, s, w, a).workers[v], m)
    ensures if v == w && a == Claim then m == s.messageIndex else Carries(s.workers[v], m)
    ensures m < Next(count, s, w, a).messageIndex && m !in Next(count, s, w, a).done
  {
    if v == w && a == Claim {
    } else {
      assert Carries(s.workers[v], m);
      if a == Done {
        assert Carries(s.workers[w], s.workers[w].msg);
      }
    }
  }

  lemma ClaimsStep(count: nat, s: State, w: nat, a: Action)
    requires Inv(count, s) && Enabled(count, s, w, a)
    ensures ClaimsOk(count, Next(count, s, w, a))
  {
    var s' := Next(count, s, w, a);
    if a == Done {
      assert Carries(s.workers[w], s.workers[w].msg);
    }
    forall v, m {:trigger Carries(s'.workers[v], m)} | 0 <= v < |s'.workers| && Carries(s'.workers[v], m)
      ensures m < s'.messageIndex && m !in s'.done
    {
      CarriedBefore(count, s, w, a, v, m);
    }
    forall v, v', m | 0 <= v < |s'.workers| && 0 <= v' < |s'.workers| && Carries(s'.workers[v], m)
      && Carries(s'.workers[v'], m)
      ensures v == v'
    {
      CarriedBefore(count, s, w, a, v, m);
      CarriedBefore(count, s, w, a, v', m);
    }
    forall m | 0 <= m < s'.messageIndex && m !in s'.done ensures Carried(s', m) {
      if a == Claim && m == s.messageIndex {
        assert Carries(s'.workers[w], m);
      } else {
        var v :| 0 <= v < |s.workers| && Carries(s.workers[v], m);
        assert Carries(s'.workers[v], m);
      }
    }
  }

  lemma SentStep(count: nat, s: State, w: nat, a: Action)
    requires Inv(count, s) && Enabled(count, s, w, a)
    ensures SentOk(Next(count, s, w, a))
  {
    var s' := Next(count, s, w, a);
    forall v, m | 0 <= v < |s.workers| && s.workers[v] == Sent(m) && v != w ensures SentBySome(s', m) {
      assert s'.workers[v] == Sent(m);
    }
    forall v, m | 0 <= v < |s.workers| && s'.workers[v] == Sent(m) && v != w ensures SentBySome(s, m) {
      assert s.workers[v] == Sent(m);
    }
    if a == Send {
      var m := s.workers[w].msg;
      assert s'.workers[w] == Sent(m);
      assert Carries(s.workers[w], m);
      forall v | 0 <= v < |s.workers| ensures s.workers[v] != Sent(m) {
        assert s.workers[v] == Sent(m) ==> Carries(s.workers[v], m);
      }
      assert m !in s.sent;
    }
    if a == Done {
      var m := s.workers[w].msg;
      assert SentBySome(s, m);
    }
  }

  /** Every step keeps the invariant: in particular, a message has one claimant and is sent once. */
  lemma {:induction false} StepInv(count: nat, s: State, w: nat, a: Action)
    requires Inv(count, s) && Enabled(count, s, w, a)
    ensures Inv(count, Next(count, s, w, a))
  {
    LockStep(count, s, w, a);
    ClaimsStep(count, s, w, a);
    SentStep(count, s, w, a);
    if a == Done {
      assert Carries(s.workers[w], s.workers[w].msg);
    }
  }

  function Range(n: nat): (r: set<nat>)
    ensures forall m: nat :: m in r <==> m < n
  {
    if n == 0 then {} else Range(n - 1) + {n - 1}
  }

  lemma {:induction false} RangeSize(n: nat)
    ensures |Range(n)| == n
  {
    if n > 0 {
      RangeSize(n - 1);
    }
  }

  lemma {:induction false} SubsetSize(a: set<nat>, b: set<nat>)
    requires a <= b
    ensures |a| <= |b| && (|a| == |b| ==> a == b)
  {
    if a != {} {
      var x :| x in a;
      SubsetSize(a - {x}, b - {x});
    } else if b != {} {
      assert |b| > 0;
    }
  }

  /** The counter never goes negative, and at zero every message has been sent. */
  lemma {:induction false} CounterFacts(count: nat, s: State)
    requires Inv(count, s)
    ensures 0 <= s.waiting <= count
    ensures s.waiting == 0 ==> s.done == Range(count) && forall m: nat :: m < count ==> m in s.sent
  {
    RangeSize(count);
    SubsetSize(s.done, Range(count));
    if s.waiting == 0 {
      assert s.done == Range(count);
      forall m: nat | m < count ensures m in s.sent {
        assert m in Range(count);
      }
    }
  }

  // ---------- progress ----------

  function Rank(p: Worker): nat {
    match p
    case Exited => 0
    case InLock => 1
    case AtLock => 2
    case Sent(_) => 3
    case Sending(_) => 4
    case Claimed(_) => 5
  }

  function Ranks(workers: seq<Worker>): nat {
    if workers == [] then 0 else Ranks(workers[..|workers| - 1]) + Rank(workers[|workers| - 1])
  }

  function Measure(count: nat, s: State): int {
    5 * (count - s.messageIndex) + Ranks(s.workers)
  }

  lemma {:induction false} RanksUpdate(workers: seq<Worker>, w: nat, p: Worker)
    requires w < |workers|
    ensures Ranks(workers[w := p]) == Ranks(workers) - Rank(workers[w]) + Rank(p)
  {
    var n := |workers| - 1;
    if w == n {
      assert workers[w := p][..n] == workers[..n];
    } else {
      RanksUpdate(workers[..n], w, p);
      assert workers[w := p][..n] == workers[..n][w := p];
    }
  }

  lemma {:induction false} RanksAtLock(n: nat)
    ensures Ranks(seq(n, i => AtLock)) == 2 * n
  {
    if n > 0 {
      RanksAtLock(n - 1);
      assert seq(n, i => AtLock)[..n - 1] == seq(n - 1, i => AtLock);
    }
  }

  lemma StepDecreases(count: nat, s: State, w: nat, a: Action)
    requires Inv(count, s) && Enabled(count, s, w, a)
    ensures 0 <= Measure(count, Next(count, s, w, a)) < Measure(count, s)
  {
    StepInv(count, s, w, a);
    RanksUpdate(s.workers, w, Next(count, s, w, a).workers[w]);
  }

  ghost predicate Stuck(count: nat, s: State) {
    forall w, a :: !Enabled(count, s, w, a)
  }

  /** A worker that returned with the mutex blocks no message: all are claimed by then, and a worker with a message
      has already unlocked and can go on to report it. */
  lemma {:induction false} ExitedBlocksNothing(count: nat, s: State, w: nat)
    requires Inv(count, s) && w < |s.workers| && s.workers[w] == Exited
    ensures s.messageIndex == count
    ensures forall m: nat :: m < count && m !in s.done ==>
              exists v :: 0 <= v < |s.workers| && Carries(s.workers[v], m)
                          && (Enabled(count, s, v, Send) || Enabled(count, s, v, Done))
  {
    forall m: nat | m < count && m !in s.done
      ensures exists v :: 0 <= v < |s.workers| && Carries(s.workers[v], m)
                          && (Enabled(count, s, v, Send) || Enabled(count, s, v, Done))
    {
      assert Carried(s, m);
      var v :| 0 <= v < |s.workers| && Carries(s.workers[v], m);
      assert Holding(s.workers[w]);
      assert !s.workers[v].Claimed?;
      assert Enabled(count, s, v, Send) || Enabled(count, s, v, Done);
    }
  }

  /** With a worker and a message outstanding there is always a step to take. */
  lemma Progress(count: nat, s: State) returns (w: nat, a: Action)
    requires Inv(count, s) && s.workers != [] && s.waiting > 0
    ensures Enabled(count, s, w, a)
  {
    if s.holder.Some? {
      w := s.holder.value;
      assert Holding(s.workers[w]);
      if s.workers[w] == InLock {
        a := if s.messageIndex < count then Claim else Exit;
      } else if s.workers[w].Claimed? {
        a := Unlock;
      } else {
        var m := Outstanding(count, s);
        ExitedBlocksNothing(count, s, w);
        w :| 0 <= w < |s.workers| && Carries(s.workers[w], m)
          && (Enabled(count, s, w, Send) || Enabled(count, s, w, Done));
        a := if Enabled(count, s, w, Send) then Send else Done;
      }
    } else {
      w := 0;
      assert !Holding(s.workers[0]);
      a := match s.workers[0]
           case AtLock => Acquire
           case Sending(_) => Send
           case _ => Done;
    }
  }

  lemma Outstanding(count: nat, s: State) returns (m: nat)
    requires Inv(count, s) && s.waiting > 0
    ensures m < count && m !in s.done
  {
    RangeSize(count);
    SubsetSize(s.done, Range(count));
    assert s.done != Range(count);
    assert exists x: nat :: x in Range(count) && x !in s.done;
    m :| m in Range(count) && m !in s.done;
  }

  // ---------- runs ----------

  datatype Event = Event(worker: nat, action: Action)

  ghost predicate Run(count: nat, s: State, events: seq<Event>, s': State)
    decreases |events|
  {
    if events == [] then s' == s
    else
      && Enabled(count, s, events[0].worker, events[0].action)
      && Run(count, Next(count, s, events[0].worker, events[0].action), events[1..], s')
  }

  lemma {:induction false} RunFacts(count: nat, s: State, events: seq<Event>, s': State)
    requires Inv(count, s) && Run(count, s, events, s')
    ensures Inv(count, s') && |events| + Measure(count, s') <= Measure(count, s) && 0 <= Measure(count, s')
    ensures |s'.workers| == |s.workers|
    decreases |events|
  {
    if events == [] {
    } else {
      var e := events[0];
      StepInv(count, s, e.worker, e.action);
      StepDecreases(count, s, e.worker, e.action);
      RunFacts(count, Next(count, s, e.worker, e.action), events[1..], s');
    }
  }

  /** Main theorem on dispatch, for every interleaving.  Runs are bounded; the counter stays in range; and a run
      that can go no further has let the handler's wait through exactly if there was a peer to ask or nothing to
      ask for, with every message sent, once. */
  lemma {:induction false} DispatchCompletes(peers: nat, count: nat, events: seq<Event>, s: State)
    requires Run(count, Init(peers, count), events, s)
    ensures |events| <= 5 * count + 2 * (if peers < count then peers else count)
    ensures 0 <= s.waiting <= count
    ensures s.waiting == 0 ==> forall m: nat :: m < count ==> m in s.sent
    ensures forall i, j :: 0 <= i < j < |s.sent| ==> s.sent[i] != s.sent[j]
    ensures Stuck(count, s) ==> (s.waiting == 0 <==> peers > 0 || count == 0)
  {
    var workers := if peers < count then peers else count;
    InitInv(peers, count);
    RunFacts(count, Init(peers, count), events, s);
    RanksAtLock(workers);
    assert Init(peers, count).workers == seq(workers, i => AtLock);
    CounterFacts(count, s);
    if Stuck(count, s) {
      if peers > 0 && s.waiting > 0 {
        var w, a := Progress(count, s);
        assert false;
      }
      if peers == 0 && count > 0 {
        assert events == [];
      }
    }
  }

  // ---------- side by side ----------

  /** The first `k` of the workers are each sending a message of its own, the others have not begun. */
  ghost predicate FirstSending(peers: nat, count: nat, s: State, k: nat) {
    && |s.workers| == (if peers < count then peers else count) && k <= |s.workers|
    && s.messageIndex == k && s.holder == None
    && forall w :: 0 <= w < |s.workers| ==> s.workers[w] == if w < k then Sending(w) else AtLock
  }

  lemma {:induction false} RunThen(count: nat, s: State, events: seq<Event>, s': State, e: Event)
    requires Run(count, s, events, s') && Enabled(count, s', e.worker, e.action)
    ensures Run(count, s, events + [e], Next(count, s', e.worker, e.action))
    decreases |events|
  {
    if events == [] {
      assert events + [e] == [e] && [e][1..] == [];
    } else {
      RunThen(count, Next(count, s, events[0].worker, events[0].action), events[1..], s', e);
      assert (events + [e])[1..] == events[1..] + [e];
    }
  }

  /** Requests are sent side by side: for each of the first peers, as far as there are messages, there is a worker, and
      in some interleaving all of them are sending, each another message. */
  lemma {:induction false} SideBySide(peers: nat, count: nat, k: nat) returns (events: seq<Event>, s: State)
    requires k <= peers && k <= count
    ensures Run(count, Init(peers, count), events, s) && FirstSending(peers, count, s, k)
  {
    if k == 0 {
      events, s := [], Init(peers, count);
    } else {
      var before;
      events, before := SideBySide(peers, count, k - 1);
      var w := k - 1;
      var s1 := Next(count, before, w, Acquire);
      var s2 := Next(count, s1, w, Claim);
      s := Next(count, s2, w, Unlock);
      RunThen(count, Init(peers, count), events, before, Event(w, Acquire));
      RunThen(count, Init(peers, count), events + [Event(w, Acquire)], s1, Event(w, Claim));
      RunThen(count, Init(peers, count), events + [Event(w, Acquire)] + [Event(w, Claim)], s2, Event(w, Unlock));
      events := events + [Event(w, Acquire)] + [Event(w, Claim)] + [Event(w, Unlock)];
    }
  }
}
