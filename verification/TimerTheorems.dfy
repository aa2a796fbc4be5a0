/** What a client of the timer service can rely on in every run, and runs that show what it cannot rely on. */
module TimerTheorems {
  import opened Options
  import opened HeapTree
  import opened TimerTime
  import opened TimerContainer
  import opened TimerProtocol
  import opened TimerLifetime
  import opened TimerLedger
  import opened TimerExpiry

  // ---------- Deletion ----------

  ghost predicate Unreferenced(s: State, d: nat) {
    (forall m :: m in s.queue && !m.ExpireMsg? ==> m.id != d) &&
    (forall x: Timer :: x in Elems(s.sw.heap) || x in Elems(s.hw.heap) ==> x.id != d) &&
    (forall c :: c in s.clients ==> s.clients[c].current != Some(d))
  }

  lemma GoneIsUnreferenced(s: State, d: nat)
    requires Life(s) && d !in s.delegates
    ensures Unreferenced(s, d)
  {
    forall x: Timer | x in Elems(s.sw.heap) || x in Elems(s.hw.heap) ensures x.id != d {
      assert x in Elems(s.sw.heap) ==> EntryOk(x, Sw, s.delegates, s.queue);
      assert x in Elems(s.hw.heap) ==> EntryOk(x, Hw, s.delegates, s.queue);
    }
  }

  // A delegate is deleted at most once, and from then on no message, heap or LocTimer refers to it.
  lemma DeletedOnceAndForgotten(now: Clock, run: seq<Action>, d: nat)
    requires d in After(now, run).deleted
    ensures var s := After(now, run); multiset(s.deleted)[d] == 1 && d !in s.delegates && Unreferenced(s, d)
  {
    LifeAlways(now, run);
    LedgerAlways(now, run);
    OccursOnce(After(now, run).deleted, d);
    GoneIsUnreferenced(After(now, run), d);
  }

  lemma {:induction false} OccursOnce(s: seq<nat>, x: nat)
    requires Distinct(s) && x in s
    ensures multiset(s)[x] == 1
  {
    var n := |s| - 1;
    assert s == s[..n] + [s[n]];
    if x == s[n] {
      assert x !in multiset(s[..n]);
    } else {
      OccursOnce(s[..n], x);
    }
  }

  // Nothing leaks: with the message queue drained, every delegate still there is a running timer, in
  // its heap unless the message thread has just popped it and is about to stop it.
  lemma DrainedMeansRunning(now: Clock, run: seq<Action>, d: nat)
    requires After(now, run).queue == [] && d in After(now, run).delegates
    ensures var s := After(now, run);
      s.delegates[d].client in s.clients && s.clients[s.delegates[d].client].current == Some(d) &&
      (s.delegates[d].timer in Elems(ContainerOf(s, s.delegates[d].kind).heap) ||
       PoppedFrom(s.handling, s.delegates[d].kind) == Some(d))
  {
    LifeAlways(now, run);
    var s := After(now, run);
    assert PoppedFrom(s.handling, s.delegates[d].kind) == Some(d) ||
      Placed(d, s.delegates[d], s.queue, Elems(ContainerOf(s, s.delegates[d].kind).heap));
  }

  // ---------- Locks ----------

  // The shared lock lives as long as its LocTimer or one of its delegates, and is destroyed once.
  lemma LockLivesWithItsHolders(now: Clock, run: seq<Action>, c: nat)
    requires c in After(now, run).clients
    ensures var s := After(now, run);
      (c in s.locks <==> s.clients[c].alive || exists d :: d in s.delegates && s.delegates[d].client == c) &&
      (c !in s.locks <==> multiset(s.destroyed)[c] == 1) && multiset(s.destroyed)[c] <= 1
  {
    LedgerAlways(now, run);
    var s := After(now, run);
    var h := Holders(s.delegates, c);
    if h != {} {
      var d :| d in h;
      assert d in s.delegates && s.delegates[d].client == c;
    }
    if c in s.destroyed { OccursOnce(s.destroyed, c); }
  }

  // The destructor of a LocTimer: once it has begun no method is called any more, a running timer is
  // stopped, and then exactly one share of the lock is given up.
  lemma DestructorSteps(s: State, c: nat)
    requires Life(s) && Enabled(s, Delete(c))
    ensures var s' := Next(s, Delete(c));
      !Usable(s', c) && s'.clients[c].current == None && s'.locks == s.locks && Enabled(s', FinishDelete(c)) &&
      (s.clients[c].current.Some? ==> s'.ended == s.ended + [Stopped(s.clients[c].current.value)])
  {
  }

  lemma DestructorEnds(s: State, c: nat)
    requires Ledger(s) && Enabled(s, FinishDelete(c))
    ensures var s' := Next(s, FinishDelete(c));
      !s'.clients[c].alive && !Enabled(s', FinishDelete(c)) && RefOf(s'.locks, c) == RefOf(s.locks, c) - 1
  {
    FinishBooks(s, c);
  }

  // ---------- Callbacks ----------

  lemma StopGrows(s: State, c: nat, onExpiry: bool)
    requires c in s.clients
    ensures s.ended <= StopTimer(s, c, onExpiry).ended
  {
  }

  lemma EndedGrows(s: State, a: Action)
    ensures s.ended <= Next(s, a).ended
  {
    if Enabled(s, a) {
      match a
      case Stop(c) => StopGrows(s, c, false);
      case Delete(c) => StopGrows(BeginDelete(s, c), c, false);
      case MsgExpire => ExpireGrows(s);
      case _ =>
    }
  }

  lemma ExpireGrows(s: State)
    requires s.handling.Some?
    ensures s.ended <= ExpireStep(s).ended
  {
    if s.handling.value.target.Some? {
      var c := s.handling.value.target.value.client;
      if c in s.clients { StopGrows(s, c, true); }
    } else if PopsOnce(s) {
      PopTopBooks(s);
    }
  }

  lemma {:induction false} EndedGrowsOverRuns(now: Clock, run: seq<Action>, more: seq<Action>)
    ensures After(now, run).ended <= After(now, run + more).ended
    decreases |more|
  {
    if more == [] {
      assert run + more == run;
    } else {
      var n := |more| - 1;
      EndedGrowsOverRuns(now, run, more[..n]);
      assert (run + more)[..|run + more| - 1] == run + more[..n];
      EndedGrows(After(now, run + more[..n]), more[n]);
    }
  }

  // However a start ended, that is how it stays: no second callback, and none after a successful stop.
  lemma EndingIsFinal(now: Clock, run: seq<Action>, more: seq<Action>, e: Ending)
    requires e in After(now, run).ended
    ensures forall e' :: e' in After(now, run + more).ended && e'.id == e.id ==> e' == e
    ensures multiset(After(now, run + more).ended)[e] == 1
  {
    EndedGrowsOverRuns(now, run, more);
    LedgerAlways(now, run + more);
    EndedOnce(After(now, run + more).ended, e);
  }

  lemma {:induction false} EndedOnce(s: seq<Ending>, e: Ending)
    requires (forall i, j :: 0 <= i < j < |s| ==> s[i].id != s[j].id) && e in s
    ensures multiset(s)[e] == 1
  {
    var n := |s| - 1;
    assert s == s[..n] + [s[n]];
    if e == s[n] {
      assert e !in multiset(s[..n]);
    } else {
      EndedOnce(s[..n], e);
    }
  }

  // ---------- What may happen: an early callback, a kernel timer set for nothing ----------

  ghost predicate Reachable(s: State) {
    exists now, run :: s == After(now, run)
  }

  lemma ReachNext(s: State, a: Action)
    requires Reachable(s)
    ensures Reachable(Next(s, a))
  {
    var now, run :| s == After(now, run);
    assert (run + [a])[..|run + [a]| - 1] == run;
    assert Next(s, a) == After(now, run + [a]);
  }

  // The run of EarlyCallbackIsReachable, in stages. Timer 0 is due at t2, timer 1 ten seconds later.
  const T1: Clock := Timespec(1, 0)
  const T2: Clock := Timespec(2, 0)
  const TIMER0: Timer := TimerRecord(0, Timespec(2, 0))
  const TIMER1: Timer := TimerRecord(1, Timespec(12, 0))

  function OnlyTimer(t: Timer): Tree<Timer> {
    Node(1, t, Empty, Empty)
  }

  lemma TwoClientsOneTimer() returns (s: State)
    ensures s.ended == []
    ensures Reachable(s) && s.now == T1 && s.handling == None && s.poll == Waiting && s.next == 1
    ensures s.clients == map[0 := Client(true, false, Some(0)), 1 := Client(true, false, None)]
    ensures s.delegates == map[0 := Delegate(0, true, Sw, TIMER0)] && s.queue == [PushMsg(Sw, 0)]
    ensures s.sw == Container(Empty, None, false)
  {
    s := Init(T1);
    assert s == After(T1, []);
    ReachNext(s, New(0));
    s := Next(s, New(0));
    ReachNext(s, New(1));
    s := Next(s, New(1));
    ReachNext(s, Start(0, 1000, Sw));
    s := Next(s, Start(0, 1000, Sw));
  }

  lemma TimerZeroIsStopped() returns (s: State)
    ensures Reachable(s) && s.sw == Container(OnlyTimer(TIMER0), Some(T2), true) && s.queue == [RemoveMsg(Sw, 0)]
    ensures s.handling == None && s.poll == Waiting && s.delegates == map[0 := Delegate(0, false, Sw, TIMER0)]
  {
    s := TwoClientsOneTimer();
    ReachNext(s, MsgReceive);
    s := Next(s, MsgReceive);
    ReachNext(s, Stop(0));
    s := Next(s, Stop(0));
  }

  // With no timer left the kernel timer may still be set: a timer is started and reaches the heap, is
  // stopped, and is removed.
  lemma EmptyButArmedIsReachable() returns (s: State)
    ensures Reachable(s) && s.sw == Container(Empty, Some(T2), true)
    ensures s.queue == [] && s.handling == None && s.poll == Waiting && s.delegates == map[]
  {
    s := TimerZeroIsStopped();
    ReachNext(s, MsgReceive);
    EmptyingLeavesKernelTimer(s.sw, TIMER0, TIMER0);
    s := Next(s, MsgReceive);
  }

  lemma TimerZeroWakesPoll() returns (s: State)
    ensures s.ended == []
    ensures Reachable(s) && s.now == T2 && s.handling == None && s.poll == Serving([Sw], 0) && s.next == 1
    ensures s.clients == map[0 := Client(true, false, Some(0)), 1 := Client(true, false, None)]
    ensures s.delegates == map[0 := Delegate(0, true, Sw, TIMER0)] && s.queue == []
    ensures s.sw.heap == OnlyTimer(TIMER0)
  {
    s := TwoClientsOneTimer();
    ReachNext(s, MsgReceive);
    s := Next(s, MsgReceive);
    ReachNext(s, Tick(T2));
    s := Next(s, Tick(T2));
    ReachNext(s, PollWake([Sw]));
    s := Next(s, PollWake([Sw]));
  }

  lemma TimerOneReplacesTimerZero() returns (s: State)
    ensures Reachable(s) && s.now == T2 && s.handling == None && s.poll == Serving([Sw], 0)
    ensures s.clients == map[0 := Client(true, false, None), 1 := Client(true, false, Some(1))]
    ensures s.delegates == map[0 := Delegate(0, false, Sw, TIMER0), 1 := Delegate(1, true, Sw, TIMER1)]
    ensures s.queue == [PushMsg(Sw, 1), RemoveMsg(Sw, 0)] && s.sw.heap == OnlyTimer(TIMER0)
  {
    s := TimerZeroWakesPoll();
    ReachNext(s, Start(1, 10000, Sw));
    s := Next(s, Start(1, 10000, Sw));
    assert s.clients == map[0 := Client(true, false, Some(0)), 1 := Client(true, false, Some(1))];
    assert s.delegates == map[0 := Delegate(0, true, Sw, TIMER0), 1 := Delegate(1, true, Sw, TIMER1)];
    ReachNext(s, Stop(0));
    s := Next(s, Stop(0));
  }

  lemma PollSendsExpire() returns (s: State)
    ensures Reachable(s) && s.now == T2 && s.handling == None
    ensures s.clients == map[0 := Client(true, false, None), 1 := Client(true, false, Some(1))]
    ensures s.delegates == map[0 := Delegate(0, false, Sw, TIMER0), 1 := Delegate(1, true, Sw, TIMER1)]
    ensures s.queue == [PushMsg(Sw, 1), RemoveMsg(Sw, 0), ExpireMsg(Sw)] && s.sw.heap == OnlyTimer(TIMER0)
  {
    s := TimerOneReplacesTimerZero();
    ReachNext(s, PollAct);
    s := Next(s, PollAct);
    ReachNext(s, PollAct);
    s := Next(s, PollAct);
    ReachNext(s, PollAct);
    s := Next(s, PollAct);
  }

  lemma TimerOneIsTop() returns (s: State)
    ensures Reachable(s) && s.now == T2 && s.handling == None
    ensures s.clients == map[0 := Client(true, false, None), 1 := Client(true, false, Some(1))]
    ensures s.delegates == map[1 := Delegate(1, true, Sw, TIMER1)]
    ensures s.queue == [ExpireMsg(Sw)] && s.sw.heap == OnlyTimer(TIMER1)
  {
    s := PollSendsExpire();
    ReachNext(s, MsgReceive);
    var s1 := Next(s, MsgReceive);
    OutRanksIsEarlier(TIMER1, TIMER0);
    assert s1.sw.heap == Node(2, TIMER0, OnlyTimer(TIMER1), Empty);
    assert s1.queue == [RemoveMsg(Sw, 0), ExpireMsg(Sw)];
    ReachNext(s1, MsgReceive);
    s := Next(s1, MsgReceive);
    HandlersOnHeap(s1.sw, TIMER0);
    assert AfterRemove(s1.sw.heap, TIMER0) == Pop(Ranks, s1.sw.heap);
  }

  // A callback can run before its time. The expire message that the epoll thread sent for timer 0 is
  // handled after timer 0 was stopped, and its first pop, which does not look at the time, takes
  // timer 1.
  lemma EarlyCallbackIsReachable()
    ensures exists s: State ::
      Reachable(s) && CalledBack(1) in s.ended && 1 in s.delegates && Earlier(s.now, s.delegates[1].timer.time)
  {
    var s := TimerOneIsTop();
    ReachNext(s, MsgReceive);
    s := Next(s, MsgReceive);
    assert s.handling == Some(Expiring(Sw, TimerRecord(0, T2), true, None));
    ReachNext(s, MsgExpire);
    s := Next(s, MsgExpire);
    assert s.handling.value.target == Some(Target(1, 1, true));
    ReachNext(s, MsgExpire);
    s := Next(s, MsgExpire);
    assert CalledBack(1) in s.ended;
  }

  lemma PollSendsForTimerZero() returns (s: State)
    ensures Reachable(s) && s.now == T2 && s.next == 1 && s.handling == None && s.ended == []
    ensures s.clients == map[0 := Client(true, false, Some(0)), 1 := Client(true, false, None)]
    ensures s.delegates == map[0 := Delegate(0, true, Sw, TIMER0)]
    ensures s.queue == [ExpireMsg(Sw)] && s.sw.heap == OnlyTimer(TIMER0)
  {
    s := TimerZeroWakesPoll();
    ReachNext(s, PollAct);
    s := Next(s, PollAct);
    ReachNext(s, PollAct);
    s := Next(s, PollAct);
    ReachNext(s, PollAct);
    s := Next(s, PollAct);
  }

  lemma TimerZeroIsPopped() returns (s: State)
    ensures Reachable(s) && s.now == T2 && s.next == 1 && s.queue == [] && s.ended == []
    ensures s.clients == map[0 := Client(true, false, Some(0)), 1 := Client(true, false, None)]
    ensures s.delegates == map[0 := Delegate(0, true, Sw, TIMER0)]
    ensures s.handling == Some(Expiring(Sw, TimerRecord(0, T2), false, Some(Target(0, 0, true))))
  {
    s := PollSendsForTimerZero();
    ReachNext(s, MsgReceive);
    s := Next(s, MsgReceive);
    assert s.handling == Some(Expiring(Sw, TimerRecord(0, T2), true, None)) && s.sw.heap == OnlyTimer(TIMER0);
    ReachNext(s, MsgExpire);
    s := Next(s, MsgExpire);
  }

  // And a callback can come early although the timer popped was due: between the read of mClient and
  // the stop() in expire(), the client stops timer 0 itself and starts timer 1, which that stop() ends.
  lemma RestartedCallbackIsReachable() returns (s: State)
    ensures Reachable(s) && s.ended == [Stopped(0)] && RestartedIsEarly(s, s.now) && !FirstPopIsEarly(s, s.now)
    ensures CallsBack(s, Next(s, MsgExpire), 1) && Earlier(s.now, s.delegates[1].timer.time)
  {
    s := TimerZeroIsPopped();
    ReachNext(s, Stop(0));
    s := Next(s, Stop(0));
    assert s.delegates == map[0 := Delegate(0, false, Sw, TIMER0)];
    ReachNext(s, Start(0, 10000, Sw));
    s := Next(s, Start(0, 10000, Sw));
    assert s.delegates[1].timer == TIMER1;
  }
}
