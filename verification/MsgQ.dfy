/** The blocking message queue of gps/utils/msg_q.c: the regions protected by its mutex as methods on
    the list, and the threads that take turns in them as a state machine. */
module MsgQ {
  import opened LinkedList

  datatype QueueError =
    | QSuccess | QFailureGeneral | QInvalidParameter | QUnavailableResource

  function ConvertLinkedListErrType(e: ListError): QueueError {
    match e
    case Success => QSuccess
    case InvalidParameter => QInvalidParameter
    case UnavailableResource => QUnavailableResource
    case FailureGeneral => QFailureGeneral
  }

  // ---------- What each protected region does ----------

  // The messages, oldest first, and the unblocked flag.
  datatype Shared = Shared(queue: seq<Item>, unblocked: bool)

  // What a receiver does next: wait on the condition variable, or return.
  datatype Outcome = MustWait | Return(rv: QueueError, msg: Pointer)

  function AfterSnd(sh: Shared, msg: Item, mallocOk: bool): (Shared, QueueError) {
    if msg.data == NULL then (sh, QInvalidParameter)
    else if sh.unblocked then (sh, QUnavailableResource)
    else if !mallocOk then (sh, QFailureGeneral)
    else (sh.(queue := sh.queue + [msg]), QSuccess)
  }

  // msg_q_rcv from its start (entering) or from a return of pthread_cond_wait.
  function AfterRcv(sh: Shared, entering: bool): (Shared, Outcome) {
    if entering && sh.unblocked then (sh, Return(QUnavailableResource, NULL))
    else if sh.queue == [] then (sh, if sh.unblocked then Return(QUnavailableResource, NULL) else MustWait)
    else (sh.(queue := sh.queue[1..]), Return(QSuccess, sh.queue[0].data))
  }

  function AfterUnblock(sh: Shared): (Shared, QueueError) {
    if sh.unblocked then (sh, QUnavailableResource) else (sh.(unblocked := true), QSuccess)
  }

  function Reverse(s: seq<Item>): seq<Item> {
    seq(|s|, i requires 0 <= i < |s| => s[|s| - 1 - i])
  }

  // Adding at the head is sending last.
  lemma ReverseAdded(s: seq<Item>, x: Item)
    ensures Reverse([x] + s) == Reverse(s) + [x]
  {
  }

  // Taking the tail is receiving first.
  lemma ReverseTaken(s: seq<Item>)
    requires s != []
    ensures Reverse(s[..|s| - 1]) == Reverse(s)[1..] && Reverse(s)[0] == s[|s| - 1]
  {
  }

  class Queue {
    const msgList: List
    var unblocked: bool

    ghost predicate Valid()
      reads this, msgList, msgList.Nodes
    {
      msgList.Valid()
    }

    ghost function View(): Shared
      reads this, msgList, msgList.Nodes
    {
      Shared(Reverse(msgList.Contents()), unblocked)
    }

    constructor ()
      ensures Valid() && View() == Shared([], false) && fresh(msgList)
    {
      msgList := new List();
      unblocked := false;
    }

    method Snd(msg: Pointer, dealloc: bool, mallocOk: bool) returns (rv: QueueError)
      requires Valid()
      modifies msgList, msgList.Nodes
      ensures Valid() && (View(), rv) == AfterSnd(old(View()), Item(msg, dealloc), mallocOk)
    {
      if msg == NULL {
        return QInvalidParameter;
      }
      if unblocked {
        return QUnavailableResource;
      }
      ghost var before := msgList.Contents();
      var err := msgList.Add(msg, dealloc, mallocOk);
      ReverseAdded(before, Item(msg, dealloc));
      return ConvertLinkedListErrType(err);
    }

    // One pass through msg_q_rcv, up to the next wait or the return.
    method Rcv(entering: bool) returns (outcome: Outcome)
      requires Valid()
      modifies msgList, msgList.Nodes
      ensures Valid() && (View(), outcome) == AfterRcv(old(View()), entering)
    {
      if entering && unblocked {
        return Return(QUnavailableResource, NULL);
      }
      var empty := msgList.Empty();
      if empty && !unblocked {
        return MustWait;
      }
      ghost var before := msgList.Contents();
      var err, msg := msgList.Remove();
      if before != [] { ReverseTaken(before); }
      return Return(ConvertLinkedListErrType(err), msg);
    }

    // discharged lists the messages handed to their dealloc function, newest first.
    method Flush() returns (rv: QueueError, discharged: seq<Pointer>)
      requires Valid()
      modifies msgList, msgList.Nodes
      ensures Valid() && View() == old(View()).(queue := []) && rv == QSuccess
      ensures discharged == WithDealloc(Reverse(old(View()).queue))
    {
      ghost var before := msgList.Contents();
      discharged := msgList.Flush();
      assert Reverse(Reverse(before)) == before;
      rv := QSuccess;
    }

    method Unblock() returns (rv: QueueError)
      requires Valid()
      modifies this
      ensures Valid() && (View(), rv) == AfterUnblock(old(View()))
    {
      if unblocked {
        return QUnavailableResource;
      }
      unblocked := true;
      return QSuccess;
    }
  }

  // ---------- Threads ----------

  datatype Fate = Received(thread: nat) | Flushed

  // The receivers waiting on the condition variable, and those that have been woken but not yet got
  // the mutex back; the accepted messages, and those of them that are gone with what became of them.
  datatype State = State(
    sh: Shared,
    asleep: set<nat>,
    woken: set<nat>,
    accepted: seq<Item>,
    gone: seq<(Item, Fate)>)

  datatype Action =
    | Send(msg: Item, mallocOk: bool, signalled: nat)
    | Enter(thread: nat)
    | Resume(thread: nat)
    | Spurious(thread: nat)
    | Flush
    | UnblockAll

  ghost predicate Enabled(s: State, a: Action) {
    match a
    case Send(_, _, w) => s.asleep == {} || w in s.asleep
    case Enter(t) => t !in s.asleep && t !in s.woken
    case Resume(t) => t in s.woken
    case Spurious(t) => t in s.asleep
    case Flush => true
    case UnblockAll => true
  }

  function Wake(s: State, t: nat): State {
    if t in s.asleep then s.(asleep := s.asleep - {t}, woken := s.woken + {t}) else s
  }

  function SendStep(s: State, msg: Item, mallocOk: bool, signalled: nat): State {
    var (sh, rv) := AfterSnd(s.sh, msg, mallocOk);
    var s1 := s.(sh := sh, accepted := if rv.QSuccess? then s.accepted + [msg] else s.accepted);
    if rv.QInvalidParameter? || rv.QUnavailableResource? then s1 else Wake(s1, signalled)
  }

  function ReceiveStep(s: State, t: nat, entering: bool): State {
    var (sh, outcome) := AfterRcv(s.sh, entering);
    var s1 := s.(sh := sh, woken := s.woken - {t});
    if outcome.MustWait? then s1.(asleep := s.asleep + {t})
    else if outcome.rv.QSuccess? then s1.(gone := s.gone + [(s.sh.queue[0], Received(t))])
    else s1
  }

  function Flushing(q: seq<Item>): seq<(Item, Fate)> {
    seq(|q|, i requires 0 <= i < |q| => (q[i], Flushed))
  }

  ghost function Next(s: State, a: Action): State {
    if !Enabled(s, a) then s else
    match a
    case Send(msg, ok, w) => SendStep(s, msg, ok, w)
    case Enter(t) => ReceiveStep(s, t, true)
    case Resume(t) => ReceiveStep(s, t, false)
    case Spurious(t) => Wake(s, t)
    case Flush => s.(sh := s.sh.(queue := []), gone := s.gone + Flushing(s.sh.queue))
    case UnblockAll =>
      var (sh, rv) := AfterUnblock(s.sh);
      if rv.QSuccess? then s.(sh := sh, asleep := {}, woken := s.woken + s.asleep) else s
  }

  ghost function After(run: seq<Action>): State {
    if run == [] then State(Shared([], false), {}, {}, [], [])
    else Next(After(run[..|run| - 1]), run[|run| - 1])
  }

  // ---------- Every accepted message, once and in order ----------

  ghost function Messages(gone: seq<(Item, Fate)>): (q: seq<Item>)
    ensures |q| == |gone|
  {
    seq(|gone|, i requires 0 <= i < |gone| => gone[i].0)
  }

  ghost predicate Conserved(s: State) {
    Messages(s.gone) + s.sh.queue == s.accepted
  }

  lemma NextConserves(s: State, a: Action)
    requires Conserved(s)
    ensures Conserved(Next(s, a))
  {
    var s' := Next(s, a);
    match a
    case Send(msg, ok, w) =>
      assert Messages(s.gone) + (s.sh.queue + [msg]) == s.accepted + [msg];
    case Flush =>
      assert Messages(s.gone + Flushing(s.sh.queue)) == Messages(s.gone) + s.sh.queue;
    case _ =>
      if s.sh.queue != [] {
        assert s.sh.queue == [s.sh.queue[0]] + s.sh.queue[1..];
        forall f ensures Messages(s.gone + [(s.sh.queue[0], f)]) == Messages(s.gone) + [s.sh.queue[0]] {}
      }
  }

  // What was accepted is, in this order: received or flushed, once each, and then still queued.
  lemma {:induction false} QueueIsFifo(run: seq<Action>)
    ensures Conserved(After(run))
  {
    if run != [] {
      QueueIsFifo(run[..|run| - 1]);
      NextConserves(After(run[..|run| - 1]), run[|run| - 1]);
    }
  }

  // A receiver that returns successfully returns the oldest message, and that is the one booked to it;
  // any other return books nothing.
  lemma ReceiverGetsOldest(s: State, t: nat, entering: bool)
    requires Conserved(s)
    ensures var s', outcome := ReceiveStep(s, t, entering), AfterRcv(s.sh, entering).1;
      if outcome.Return? && outcome.rv.QSuccess? then
        var oldest := s.accepted[|s.gone|..];
        oldest != [] && oldest[0].data == outcome.msg && s'.gone == s.gone + [(oldest[0], Received(t))]
      else s'.gone == s.gone && s'.sh == s.sh
  {
    assert s.accepted[|s.gone|..] == s.sh.queue;
  }

  // ---------- No receiver is left asleep ----------

  // While anyone sleeps, a woken receiver is on its way for every queued message.
  ghost predicate NoLostSignal(s: State) {
    s.asleep !! s.woken && (s.asleep != {} ==> |s.sh.queue| <= |s.woken| && !s.sh.unblocked)
  }

  lemma WakeKeepsSignals(s: State, t: nat)
    requires s.asleep !! s.woken && (s.asleep != {} ==> !s.sh.unblocked)
    requires s.asleep != {} ==> |s.sh.queue| <= |s.woken| + if t in s.asleep then 1 else 0
    ensures NoLostSignal(Wake(s, t))
  {
    if t in s.asleep {
      assert |s.woken + {t}| == |s.woken| + 1;
    }
  }

  lemma ReceiveKeepsSignals(s: State, t: nat, entering: bool)
    requires NoLostSignal(s) && (if entering then t !in s.asleep && t !in s.woken else t in s.woken)
    ensures NoLostSignal(ReceiveStep(s, t, entering))
  {
    if entering {
      assert s.woken - {t} == s.woken;
    } else {
      assert |s.woken - {t}| == |s.woken| - 1;
    }
  }

  lemma NextKeepsSignals(s: State, a: Action)
    requires NoLostSignal(s)
    ensures NoLostSignal(Next(s, a))
  {
    if Enabled(s, a) {
      match a
      case Send(msg, ok, w) =>
        var s' := SendStep(s, msg, ok, w);
        var (sh, rv) := AfterSnd(s.sh, msg, ok);
        if !(rv.QInvalidParameter? || rv.QUnavailableResource?) {
          WakeKeepsSignals(s.(sh := sh, accepted := s'.accepted), w);
        }
      case Enter(t) => ReceiveKeepsSignals(s, t, true);
      case Resume(t) => ReceiveKeepsSignals(s, t, false);
      case Spurious(t) => WakeKeepsSignals(s, t);
      case Flush =>
      case UnblockAll =>
    }
  }

  lemma {:induction false} NoLostSignals(run: seq<Action>)
    ensures NoLostSignal(After(run))
  {
    if run != [] {
      NoLostSignals(run[..|run| - 1]);
      NextKeepsSignals(After(run[..|run| - 1]), run[|run| - 1]);
    }
  }

  // With a message queued, or the queue unblocked, there is a receiver on its way or none waits.
  lemma SleepersAreServed(run: seq<Action>)
    requires After(run).sh.queue != [] || After(run).sh.unblocked
    ensures After(run).asleep == {} || After(run).woken != {}
    ensures After(run).sh.unblocked ==> After(run).asleep == {}
  {
    NoLostSignals(run);
  }

  // ---------- What the calls return, and when ----------

  // A send is accepted, as the newest message, or refused for one reason; a refusal changes nothing.
  lemma SendResult(sh: Shared, msg: Item, mallocOk: bool)
    ensures var (sh', rv) := AfterSnd(sh, msg, mallocOk);
      (rv == QInvalidParameter <==> msg.data == NULL) &&
      (rv == QUnavailableResource <==> msg.data != NULL && sh.unblocked) &&
      (rv == QFailureGeneral <==> msg.data != NULL && !sh.unblocked && !mallocOk) &&
      (rv == QSuccess <==> sh' != sh) &&
      sh' == (if rv == QSuccess then Shared(sh.queue + [msg], false) else sh)
  {
    assert |sh.queue + [msg]| != |sh.queue|;
  }

  // The queue is unblocked once and for all; only the first call succeeds.
  lemma UnblockResult(sh: Shared)
    ensures var (sh', rv) := AfterUnblock(sh);
      sh'.unblocked && sh'.queue == sh.queue && (rv == QSuccess <==> !sh.unblocked) &&
      (rv == QUnavailableResource <==> sh.unblocked)
  {
  }

  ghost predicate Runs(s: State, a: Action, t: nat) {
    Enabled(s, a) && (a == Enter(t) || a == Resume(t))
  }

  ghost predicate ReturnsFrom(s: State, a: Action, t: nat) {
    Runs(s, a, t) && t !in Next(s, a).asleep
  }

  // What msg_q_rcv returns in that step.
  function ReturnOf(s: State, a: Action): Outcome {
    AfterRcv(s.sh, a.Enter?).1
  }

  // A receiver that finds nothing waits, however it was woken: the wait is in a loop.
  lemma NothingMeansWaiting(s: State, a: Action, t: nat)
    requires Runs(s, a, t) && s.sh.queue == [] && !s.sh.unblocked
    ensures t in Next(s, a).asleep && Next(s, a) == s.(asleep := s.asleep + {t}, woken := s.woken - {t})
  {
  }

  // It returns if and only if there is a message or the queue is unblocked, and then with the oldest
  // message, or with an error that says so.
  lemma ReturnsIff(s: State, a: Action, t: nat)
    requires Runs(s, a, t) && s.asleep !! s.woken
    ensures ReturnsFrom(s, a, t) <==> s.sh.queue != [] || s.sh.unblocked
    ensures ReturnsFrom(s, a, t) <==> ReturnOf(s, a).Return?
    ensures ReturnsFrom(s, a, t) ==> t !in Next(s, a).woken
    ensures ReturnsFrom(s, a, t) && s.sh.unblocked && (a.Enter? || s.sh.queue == []) ==>
      ReturnOf(s, a) == Return(QUnavailableResource, NULL) && Next(s, a).sh == s.sh
    ensures ReturnsFrom(s, a, t) && !(s.sh.unblocked && (a.Enter? || s.sh.queue == [])) ==>
      ReturnOf(s, a) == Return(QSuccess, s.sh.queue[0].data) && Next(s, a).sh.queue == s.sh.queue[1..]
  {
  }

  lemma {:induction false} UnblockedBySomeone(run: seq<Action>)
    requires After(run).sh.unblocked
    ensures UnblockAll in run
  {
    var before, a := run[..|run| - 1], run[|run| - 1];
    assert run == before + [a];
    if a != UnblockAll {
      assert Next(After(before), a).sh.unblocked == After(before).sh.unblocked;
      UnblockedBySomeone(before);
    }
  }

  // In every run: a receiver returns with the oldest accepted message that is not gone, or else
  // somebody has unblocked the queue.
  lemma ErrorOnlyAfterUnblock(run: seq<Action>, a: Action, t: nat)
    requires ReturnsFrom(After(run), a, t)
    ensures var s := After(run);
      UnblockAll in run ||
      (|s.gone| < |s.accepted| && ReturnOf(s, a) == Return(QSuccess, s.accepted[|s.gone|].data))
  {
    var s := After(run);
    NoLostSignals(run);
    ReturnsIff(s, a, t);
    QueueIsFifo(run);
    assert s.accepted[|s.gone|..] == s.sh.queue;
    if s.sh.unblocked {
      UnblockedBySomeone(run);
    }
  }

  // A send wakes at most the receiver signalled, and does so even when the message could not be stored;
  // a refused one wakes nobody.
  lemma SendWakesOne(s: State, msg: Item, mallocOk: bool, w: nat)
    requires Enabled(s, Send(msg, mallocOk, w)) && s.asleep !! s.woken
    ensures var s' := Next(s, Send(msg, mallocOk, w));
      if msg.data == NULL || s.sh.unblocked then s' == s
      else s'.asleep == s.asleep - {w} && s'.woken == s.woken + (s.asleep * {w})
  {
  }

  // What else wakes a receiver: a spurious wake-up wakes one, unblocking all of them.
  lemma OtherWakeUps(s: State, t: nat)
    ensures t in s.asleep ==> Next(s, Spurious(t)) == s.(asleep := s.asleep - {t}, woken := s.woken + {t})
    ensures !s.sh.unblocked ==> Next(s, UnblockAll).asleep == {} && Next(s, UnblockAll).woken == s.woken + s.asleep
  {
  }

  // No waiting receiver gets lost: only its own return ends its call.
  lemma WaitersStay(s: State, a: Action, t: nat)
    requires t in s.asleep || t in s.woken
    ensures t in Next(s, a).asleep || t in Next(s, a).woken || (a == Resume(t) && ReturnsFrom(s, a, t))
  {
  }

  // A flush takes every queued message out, oldest first, and hands none to a receiver.
  lemma FlushTakesAll(s: State)
    ensures var s' := Next(s, Flush);
      s'.sh.queue == [] && s'.accepted == s.accepted && Messages(s'.gone) == Messages(s.gone) + s.sh.queue &&
      s.gone <= s'.gone && forall i :: |s.gone| <= i < |s'.gone| ==> s'.gone[i].1 == Flushed
  {
  }

  // ---------- After unblock ----------

  lemma UnblockedStays(s: State, a: Action)
    requires s.sh.unblocked
    ensures Next(s, a).sh.unblocked && Next(s, a).accepted == s.accepted
    ensures a.Enter? && Enabled(s, a) ==> AfterRcv(s.sh, true) == (s.sh, Return(QUnavailableResource, NULL))
  {
  }

  // Once unblocked, no message is accepted any more and no new receiver gets one.
  lemma {:induction false} NothingAcceptedAfterUnblock(run: seq<Action>, more: seq<Action>)
    requires After(run).sh.unblocked
    ensures After(run + more).sh.unblocked && After(run + more).accepted == After(run).accepted
    decreases |more|
  {
    if more == [] {
      assert run + more == run;
    } else {
      var n := |more| - 1;
      NothingAcceptedAfterUnblock(run, more[..n]);
      assert (run + more)[..|run + more| - 1] == run + more[..n];
      UnblockedStays(After(run + more[..n]), more[n]);
    }
  }

  // ---------- Who still receives after unblock ----------

  ghost predicate Receives(s: State, s': State, t: nat, m: Item) {
    s'.gone == s.gone + [(m, Received(t))]
  }

  // The exact condition: a step after unblocking hands out a message if and only if it is the return
  // of a receiver woken from its wait while a message is queued.
  lemma ReceivesAfterUnblockIff(s: State, a: Action)
    requires s.sh.unblocked
    ensures (exists t, m :: Receives(s, Next(s, a), t, m))
      <==> a.Resume? && a.thread in s.woken && s.sh.queue != []
  {
    if a.Resume? && a.thread in s.woken && s.sh.queue != [] {
      assert Receives(s, Next(s, a), a.thread, s.sh.queue[0]);
    }
    if a.Flush? && |s.sh.queue| == 1 {
      assert Next(s, a).gone[|s.gone|] == (s.sh.queue[0], Flushed);
    }
  }

  // Some message accepted so far is gone to a receiver between the two states.
  ghost predicate ReceptionBetween(s: State, s': State) {
    exists i :: |s.gone| <= i < |s'.gone| && s'.gone[i].1.Received?
  }

  // Nobody left to receive, or nothing left to be received.
  ghost predicate Over(s: State) {
    s.sh.unblocked && s.asleep == {} && (s.sh.queue == [] || s.woken == {})
  }

  lemma OverStays(s: State, a: Action)
    requires Over(s)
    ensures Over(Next(s, a)) && s.gone <= Next(s, a).gone && !ReceptionBetween(s, Next(s, a))
  {
  }

  lemma {:induction false} OverForGood(run: seq<Action>, more: seq<Action>)
    requires Over(After(run))
    ensures var s, s' := After(run), After(run + more);
      Over(s') && s.gone <= s'.gone && !ReceptionBetween(s, s')
    decreases |more|
  {
    if more == [] {
      assert run + more == run;
    } else {
      var n := |more| - 1;
      OverForGood(run, more[..n]);
      assert (run + more)[..|run + more| - 1] == run + more[..n];
      OverStays(After(run + more[..n]), more[n]);
    }
  }

  // Over whole runs: once unblocked, some continuation still hands out a message if and only if a
  // message is queued and a receiver is on its way at that point.
  lemma ReceptionAfterUnblockIff(run: seq<Action>)
    requires After(run).sh.unblocked
    ensures (exists more :: ReceptionBetween(After(run), After(run + more)))
      <==> After(run).sh.queue != [] && After(run).woken != {}
  {
    var s := After(run);
    if s.sh.queue != [] && s.woken != {} {
      var t :| t in s.woken;
      assert (run + [Resume(t)])[..|run|] == run;
      assert After(run + [Resume(t)]).gone[|s.gone|].1 == Received(t);
      assert ReceptionBetween(s, After(run + [Resume(t)]));
    } else {
      NoLostSignals(run);
      forall more ensures !ReceptionBetween(s, After(run + more)) {
        OverForGood(run, more);
      }
    }
  }

  // Each woken receiver takes at most one message, so no continuation hands out more than there are.
  ghost function Receptions(gone: seq<(Item, Fate)>): nat {
    if gone == [] then 0 else
    Receptions(gone[..|gone| - 1]) + if gone[|gone| - 1].1.Received? then 1 else 0
  }

  lemma {:induction false} FlushedAreNoReceptions(gone: seq<(Item, Fate)>, q: seq<Item>)
    ensures Receptions(gone + Flushing(q)) == Receptions(gone)
    decreases |q|
  {
    if q == [] {
      assert gone + Flushing(q) == gone;
    } else {
      var n := |q| - 1;
      FlushedAreNoReceptions(gone, q[..n]);
      assert (gone + Flushing(q))[..|gone| + n] == gone + Flushing(q[..n]);
    }
  }

  lemma ReceptionsFallDue(s: State, a: Action)
    requires s.sh.unblocked && s.asleep == {}
    ensures Next(s, a).asleep == {}
    ensures Receptions(Next(s, a).gone) + |Next(s, a).woken| <= Receptions(s.gone) + |s.woken|
  {
    if Enabled(s, a) {
      match a
      case Enter(t) => assert s.woken - {t} == s.woken;
      case Resume(t) =>
        assert |s.woken - {t}| == |s.woken| - 1;
        if s.sh.queue != [] {
          var g := s.gone + [(s.sh.queue[0], Received(t))];
          assert g[..|g| - 1] == s.gone;
        }
      case Flush => FlushedAreNoReceptions(s.gone, s.sh.queue);
      case _ =>
    }
  }

  lemma {:induction false} AtMostOneEach(run: seq<Action>, more: seq<Action>)
    requires After(run).sh.unblocked
    ensures var s, s' := After(run), After(run + more);
      s'.asleep == {} && Receptions(s'.gone) + |s'.woken| <= Receptions(s.gone) + |s.woken|
    decreases |more|
  {
    if more == [] {
      assert run + more == run;
      NoLostSignals(run);
    } else {
      var n := |more| - 1;
      AtMostOneEach(run, more[..n]);
      NothingAcceptedAfterUnblock(run, more[..n]);
      assert (run + more)[..|run + more| - 1] == run + more[..n];
      ReceptionsFallDue(After(run + more[..n]), more[n]);
    }
  }

  ghost predicate Reachable(s: State) {
    exists run :: s == After(run)
  }

  lemma ReachNext(s: State, a: Action)
    requires Reachable(s)
    ensures Reachable(Next(s, a))
  {
    var run :| s == After(run);
    assert (run + [a])[..|run|] == run;
    assert Next(s, a) == After(run + [a]);
  }

  // It happens: receiver t waits, a message is sent and wakes it, the queue is unblocked, and only
  // then does t get the mutex back, and with it the message.
  lemma ReceptionAfterUnblockIsReachable(m: Item, t: nat) returns (s: State)
    requires m.data != NULL
    ensures Reachable(s) && s.sh.unblocked && Receives(s, Next(s, Resume(t)), t, m)
    ensures AfterRcv(s.sh, false).1 == Return(QSuccess, m.data)
  {
    assert After([]) == State(Shared([], false), {}, {}, [], []);
    ReachNext(After([]), Enter(t));
    var s1 := Next(After([]), Enter(t));
    assert s1 == State(Shared([], false), {t}, {}, [], []);
    ReachNext(s1, Send(m, true, t));
    var s2 := Next(s1, Send(m, true, t));
    assert s2 == State(Shared([m], false), {}, {t}, [m], []);
    ReachNext(s2, UnblockAll);
    s := Next(s2, UnblockAll);
  }
}
