/** That the timer service delivers: from every reachable state, its own two threads can bring about the
    callback of every running timer that is due. */
module TimerDelivery {
  import opened Options
  import opened HeapTree
  import opened TimerTime
  import opened TimerContainer
  import opened TimerProtocol
  import opened TimerLifetime
  import opened TimerExpiry
  import opened TimerStarts
  import opened TimerTheorems

  // ---------- What holds on the way ----------

  // A step of the epoll thread or of the message thread.
  predicate OfService(a: Action) {
    a.PollWake? || a.PollAct? || a.MsgReceive? || a.MsgExpire?
  }

  ghost predicate ServiceOnly(more: seq<Action>) {
    forall i :: 0 <= i < |more| ==> OfService(more[i])
  }

  ghost predicate PollOk(s: State) {
    s.poll.Serving? ==> s.poll.todo != [] && s.poll.stage <= 2
  }

  ghost predicate Sound(s: State) {
    Life(s) && Heaps(s) && Attended(s, Sw) && Attended(s, Hw) && PollOk(s)
  }

  lemma NextKeepsPollOk(s: State, a: Action)
    requires PollOk(s)
    ensures PollOk(Next(s, a))
  {
    if Enabled(s, a) {
      match a
      case Stop(c) => StopLeavesContainers(s, c, false);
      case Delete(c) => StopLeavesContainers(BeginDelete(s, c), c, false);
      case MsgExpire => ExpireKeepsPoll(s);
      case _ =>
    }
  }

  lemma ExpireKeepsPoll(s: State)
    requires s.handling.Some?
    ensures ExpireStep(s).poll == s.poll
  {
    if s.handling.value.target.Some? {
      ExpireStopLeavesContainers(s);
    }
  }

  lemma NextKeepsSound(s: State, a: Action)
    requires Sound(s)
    ensures Sound(Next(s, a))
  {
    NextKeepsLife(s, a);
    NextKeepsHeap(s, a, Sw);
    NextKeepsHeap(s, a, Hw);
    NextKeepsAttended(s, a, Sw);
    NextKeepsAttended(s, a, Hw);
    NextKeepsPollOk(s, a);
  }

  lemma {:induction false} SoundAlways(now: Clock, run: seq<Action>)
    ensures Sound(After(now, run))
  {
    if run != [] {
      SoundAlways(now, run[..|run| - 1]);
      NextKeepsSound(After(now, run[..|run| - 1]), run[|run| - 1]);
    }
  }

  // The delegate d, which is x, is running and due.
  ghost predicate Waits(s: State, d: nat, x: Delegate) {
    d in s.delegates && s.delegates[d] == x && x.attached && !Earlier(s.now, x.timer.time)
  }

  ghost predicate Pending(s: State, d: nat, x: Delegate) {
    CalledBack(d) in s.ended || Waits(s, d, x)
  }

  lemma ExpireKeepsPending(s: State, d: nat, x: Delegate)
    requires Life(s) && s.handling.Some? && Waits(s, d, x)
    ensures Pending(ExpireStep(s), d, x)
  {
    ExpireKeepsClock(s);
    if s.handling.value.target.Some? {
      var c := s.handling.value.target.value.client;
      TimerLedger.ExpireStopBooks(s);
      if s.clients[c].current.Some? {
        TimerLedger.StopBooks(s, c, true);
        assert ExpireStep(s).ended[|s.ended|] == CalledBack(s.clients[c].current.value);
      }
    } else if PopsOnce(s) {
      TimerLedger.PopTopBooks(s);
    }
  }

  lemma ReceiveKeepsPending(s: State, d: nat, x: Delegate)
    requires Life(s) && s.handling.None? && s.queue != [] && Waits(s, d, x)
    ensures Waits(Receive(s), d, x)
  {
    ReceiveChanges(s);
    ReceiveSamples(s);
  }

  lemma ServiceKeepsPending(s: State, a: Action, d: nat, x: Delegate)
    requires Sound(s) && OfService(a) && Pending(s, d, x)
    ensures Pending(Next(s, a), d, x)
  {
    EndedGrows(s, a);
    if Enabled(s, a) && Waits(s, d, x) {
      match a
      case MsgReceive => ReceiveKeepsPending(s, d, x);
      case MsgExpire => ExpireKeepsPending(s, d, x);
      case _ => TimerLedger.ClockAndPollBooks(s, a);
    }
  }

  lemma {:induction false} ServiceRunKeeps(s: State, more: seq<Action>, d: nat, x: Delegate)
    requires Sound(s) && ServiceOnly(more) && Pending(s, d, x)
    ensures Sound(Then(s, more)) && Pending(Then(s, more), d, x)
    decreases |more|
  {
    if more != [] {
      NextKeepsSound(s, more[0]);
      ServiceKeepsPending(s, more[0], d, x);
      ServiceRunKeeps(Next(s, more[0]), more[1..], d, x);
    }
  }

  lemma ThenFirst(s: State, a: Action, rest: seq<Action>)
    requires OfService(a) && ServiceOnly(rest)
    ensures Then(s, [a] + rest) == Then(Next(s, a), rest) && ServiceOnly([a] + rest)
  {
    assert ([a] + rest)[0] == a && ([a] + rest)[1..] == rest;
  }

  lemma {:induction false} ThenConcat(s: State, more: seq<Action>, last: seq<Action>)
    requires ServiceOnly(more) && ServiceOnly(last)
    ensures Then(s, more + last) == Then(Then(s, more), last) && ServiceOnly(more + last)
    decreases |more|
  {
    if more == [] {
      assert more + last == last;
    } else {
      ThenConcat(Next(s, more[0]), more[1..], last);
      assert more + last == [more[0]] + (more[1..] + last);
      ThenFirst(s, more[0], more[1..] + last);
    }
  }

  // ---------- The epoll thread returns to waiting ----------

  ghost function PollLeft(p: Poll): int {
    if p.Serving? then 3 * |p.todo| - p.stage else 0
  }

  lemma PollProgresses(s: State)
    requires s.poll.Serving? && PollOk(s)
    ensures 0 <= PollLeft(PollStep(s).poll) < PollLeft(s.poll) && Next(s, PollAct) == PollStep(s)
  {
  }

  lemma {:induction false} FinishPoll(s: State) returns (more: seq<Action>)
    requires Sound(s)
    ensures ServiceOnly(more) && Then(s, more).poll.Waiting?
    decreases if s.poll.Serving? then PollLeft(s.poll) else 0
  {
    more := [];
    if s.poll.Serving? {
      PollProgresses(s);
      NextKeepsSound(s, PollAct);
      var rest := FinishPoll(PollStep(s));
      ThenFirst(s, PollAct, rest);
      more := [PollAct] + rest;
    }
  }

  // ---------- The message thread drains its queue ----------

  ghost function Attached(ds: Delegates): set<nat> {
    set d | d in ds && ds[d].attached
  }

  // The messages queued, and those that can still be sent when running timers end.
  ghost function Work(s: State): nat {
    2 * |Attached(s.delegates)| + |s.queue|
  }

  lemma ReceiveWorks(s: State)
    requires Life(s) && s.handling.None? && s.queue != []
    ensures Work(Receive(s)) == Work(s) - 1
  {
    ReceiveChanges(s);
    assert Attached(Receive(s).delegates) == Attached(s.delegates) by {
      if s.queue[0].RemoveMsg? { assert s.queue[0] in s.queue; }
    }
  }

  lemma StopWorks(s: State, c: nat, onExpiry: bool)
    requires Life(s) && c in s.clients
    ensures Work(StopTimer(s, c, onExpiry)) <= Work(s)
  {
    if s.clients[c].current.Some? {
      OneLessAttached(s.delegates, s.clients[c].current.value);
    }
  }

  lemma OneLessAttached(ds: Delegates, d: nat)
    requires d in ds && ds[d].attached
    ensures |Attached(Detached(ds, d))| == |Attached(ds)| - 1
  {
    assert Attached(ds) == Attached(Detached(ds, d)) + {d};
  }

  lemma ExpireWorks(s: State)
    requires Life(s) && s.handling.Some?
    ensures Work(ExpireStep(s)) <= Work(s)
  {
    if s.handling.value.target.Some? {
      StopWorks(s, s.handling.value.target.value.client, true);
    }
  }

  ghost function HandlingLeft(s: State): nat {
    if s.handling.Some? then StepsLeft(s) + 1 else 0
  }

  ghost predicate WorksOff(s: State, s': State) {
    Work(s') < Work(s) || (Work(s') == Work(s) && HandlingLeft(s') < HandlingLeft(s))
  }

  lemma ExpireWorksOff(s: State)
    requires Life(s) && s.handling.Some?
    ensures WorksOff(s, Next(s, MsgExpire)) && Next(s, MsgExpire).poll == s.poll
  {
    ExpireIsNext(s);
    ExpireWorks(s);
    ExpireKeepsPoll(s);
    if ExpireStep(s).handling.Some? { HandlingProgresses(s); }
  }

  lemma ExpireIsNext(s: State)
    requires s.handling.Some?
    ensures Next(s, MsgExpire) == ExpireStep(s)
  {
  }

  lemma ReceiveWorksOff(s: State)
    requires Life(s) && s.handling.None? && s.queue != []
    ensures WorksOff(s, Next(s, MsgReceive)) && Next(s, MsgReceive).poll == s.poll
  {
    ReceiveIsNext(s);
    ReceiveWorks(s);
    ReceiveKeepsPoll(s);
  }

  lemma ReceiveIsNext(s: State)
    requires s.handling.None? && s.queue != []
    ensures Next(s, MsgReceive) == Receive(s)
  {
  }

  lemma ReceiveKeepsPoll(s: State)
    requires s.queue != []
    ensures Receive(s).poll == s.poll
  {
  }

  lemma {:induction false} DrainQueue(s: State) returns (more: seq<Action>)
    requires Sound(s)
    ensures ServiceOnly(more)
    ensures var s' := Then(s, more); s'.queue == [] && s'.handling.None? && s'.poll == s.poll
    decreases Work(s), HandlingLeft(s), 0
  {
    more := [];
    if s.handling.Some? {
      ExpireWorksOff(s);
      more := DrainAfter(s, MsgExpire);
    } else if s.queue != [] {
      ReceiveWorksOff(s);
      more := DrainAfter(s, MsgReceive);
    }
  }

  lemma {:induction false} DrainAfter(s: State, a: Action) returns (more: seq<Action>)
    requires Sound(s) && OfService(a) && Next(s, a).poll == s.poll
    requires WorksOff(s, Next(s, a))
    ensures ServiceOnly(more)
    ensures var s' := Then(s, more); s'.queue == [] && s'.handling.None? && s'.poll == s.poll
    decreases Work(Next(s, a)), HandlingLeft(Next(s, a)), 1
  {
    NextKeepsSound(s, a);
    var rest := DrainQueue(Next(s, a));
    ThenFirst(s, a, rest);
    more := [a] + rest;
  }

  // ---------- From rest to the callback ----------

  lemma WaitingIsInHeap(s: State, d: nat, x: Delegate)
    requires Life(s) && s.handling.None? && Waits(s, d, x) && PushMsg(s.delegates[d].kind, d) !in s.queue
    ensures x.timer in Elems(ContainerOf(s, s.delegates[d].kind).heap)
  {
    assert Placed(d, s.delegates[d], s.queue, Elems(ContainerOf(s, s.delegates[d].kind).heap));
  }

  // At rest, a due timer makes epoll_wait return its container.
  lemma DueAtRestIsReady(s: State, d: nat, x: Delegate)
    requires Sound(s) && Quiet(s) && Waits(s, d, x)
    ensures Ready(s, s.delegates[d].kind)
  {
    var k := s.delegates[d].kind;
    WaitingIsInHeap(s, d, x);
    NoneEarlierThanTop(ContainerOf(s, k).heap, x.timer);
  }

  // The epoll thread, woken up for container k, sends its expire message.
  lemma {:induction false} ServingSends(s: State, k: Kind) returns (more: seq<Action>)
    requires s.poll.Serving? && s.poll.todo == [k] && s.poll.stage <= 2 && s.queue == [] && s.handling.None?
    ensures ServiceOnly(more)
    ensures Then(s, more).queue == [ExpireMsg(k)] && Then(s, more).handling.None?
    decreases 2 - s.poll.stage
  {
    PollProgresses(s);
    PollChanges(s);
    more := [];
    if s.poll.stage < 2 {
      assert PollStep(s).poll == Serving([k], s.poll.stage + 1);
      more := ServingSends(PollStep(s), k);
    }
    ThenFirst(s, PollAct, more);
    more := [PollAct] + more;
  }

  lemma WakeSends(s: State, k: Kind) returns (more: seq<Action>)
    requires Quiet(s) && Ready(s, k)
    ensures ServiceOnly(more)
    ensures Then(s, more).queue == [ExpireMsg(k)] && Then(s, more).handling.None?
  {
    var rest := ServingSends(Next(s, PollWake([k])), k);
    ThenFirst(s, PollWake([k]), rest);
    more := [PollWake([k])] + rest;
  }

  ghost predicate NoPush(q: seq<Msg>) {
    forall m :: m in q ==> !m.PushMsg?
  }

  lemma ExpireSendsNoPush(s: State)
    requires s.handling.Some? && NoPush(s.queue)
    ensures NoPush(ExpireStep(s).queue)
  {
    if s.handling.value.target.Some? && s.handling.value.target.value.client in s.clients {
      StopSendsNoPush(s, s.handling.value.target.value.client, true);
    }
  }

  lemma StopSendsNoPush(s: State, c: nat, onExpiry: bool)
    requires c in s.clients && NoPush(s.queue)
    ensures NoPush(StopTimer(s, c, onExpiry).queue)
  {
  }

  lemma {:induction false} HandlingSendsNoPush(s: State, more: seq<Action>)
    requires Completes(s, more) && NoPush(s.queue) && forall i :: 0 <= i < |more| ==> more[i] == MsgExpire
    ensures NoPush(Then(s, more).queue)
    decreases |more|
  {
    ExpireSendsNoPush(s);
    if Next(s, more[0]).handling.Some? {
      HandlingSendsNoPush(Next(s, more[0]), more[1..]);
    } else {
      assert more[1..] == [];
    }
  }

  // When its container's expire message has been handled, a due timer does not wait any more.
  lemma HandledWaitsNoMore(s: State, more: seq<Action>, d: nat, x: Delegate)
    requires Sound(s) && Completes(s, more) && forall i :: 0 <= i < |more| ==> more[i] == MsgExpire
    requires s.handling.value == Expiring(x.kind, TimerRecord(0, s.now), true, None) && s.queue == []
    requires !Earlier(s.now, x.timer.time) && Sound(Then(s, more))
    ensures !Waits(Then(s, more), d, x)
  {
    var s' := Then(s, more);
    HandlingPops(s, more);
    HandlingIsExact(s, more);
    HandlingSendsNoPush(s, more);
    if Waits(s', d, x) {
      WaitingIsInHeap(s', d, x);
      assert false;
    }
  }

  lemma ReceivesExpire(s: State, k: Kind)
    requires s.queue == [ExpireMsg(k)] && s.handling.None?
    ensures var s' := Next(s, MsgReceive);
      s'.handling == Some(Expiring(k, TimerRecord(0, s.now), true, None)) && s'.queue == [] && s'.now == s.now
  {
  }

  // With only an expire message of its container to handle, a due timer is called back.
  lemma HandlingDelivers(s: State, d: nat, x: Delegate) returns (more: seq<Action>)
    requires Sound(s) && s.queue == [ExpireMsg(x.kind)] && s.handling.None? && Waits(s, d, x)
    ensures ServiceOnly(more) && CalledBack(d) in Then(s, more).ended
  {
    var s1 := Next(s, MsgReceive);
    ReceivesExpire(s, x.kind);
    var rest := HandlingCompletes(s1);
    ThenFirst(s, MsgReceive, rest);
    more := [MsgReceive] + rest;
    NextKeepsSound(s, MsgReceive);
    ServiceKeepsPending(s, MsgReceive, d, x);
    ServiceRunKeeps(s1, rest, d, x);
    HandledWaitsNoMore(s1, rest, d, x);
  }

  // From a state at rest.
  lemma RestDelivers(s: State, d: nat, x: Delegate) returns (more: seq<Action>)
    requires Sound(s) && Quiet(s) && Waits(s, d, x)
    ensures ServiceOnly(more) && CalledBack(d) in Then(s, more).ended
  {
    DueAtRestIsReady(s, d, x);
    more := WakeSends(s, x.kind);
    var s1 := Then(s, more);
    ServiceRunKeeps(s, more, d, x);
    if CalledBack(d) !in s1.ended {
      var rest := HandlingDelivers(s1, d, x);
      ThenConcat(s, more, rest);
      more := more + rest;
    }
  }

  lemma ServiceDelivers(s: State, d: nat, x: Delegate) returns (more: seq<Action>)
    requires Sound(s) && Waits(s, d, x)
    ensures ServiceOnly(more) && CalledBack(d) in Then(s, more).ended
  {
    var polling := FinishPoll(s);
    ServiceRunKeeps(s, polling, d, x);
    var draining := DrainQueue(Then(s, polling));
    ServiceRunKeeps(Then(s, polling), draining, d, x);
    ThenConcat(s, polling, draining);
    more := polling + draining;
    var s1 := Then(s, more);
    if CalledBack(d) !in s1.ended {
      var rest := RestDelivers(s1, d, x);
      ThenConcat(s, more, rest);
      more := more + rest;
    }
  }

  // From every reachable state: whatever is queued, handled or polled at that point, the two threads of
  // the service can bring about the callback of every running timer whose delay is over, with no help
  // from a client or the clock.
  lemma DueTimerIsCalledBack(now: Clock, run: seq<Action>, d: nat) returns (more: seq<Action>)
    requires d in After(now, run).delegates && After(now, run).delegates[d].attached
    requires !BeforeItsDelay(now, run, d)
    ensures ServiceOnly(more) && CalledBack(d) in After(now, run + more).ended
  {
    var s := After(now, run);
    SoundAlways(now, run);
    DelayIsTimersTime(now, run, d);
    more := ServiceDelivers(s, d, s.delegates[d]);
    AfterThen(now, run, more);
  }
}
