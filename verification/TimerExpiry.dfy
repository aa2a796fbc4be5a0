/** The handling of an expire message in the running service: the steps of the message thread, however
    they interleave with the other threads, pop what `PopExpired` says; and which of them call a timer
    back before its time. */
module TimerExpiry {
  import opened Options
  import opened HeapTree
  import opened TimerTime
  import opened TimerContainer
  import opened TimerProtocol
  import opened TimerLifetime
  import opened TimerLedger
  import opened TimerStarts

  // ---------- Popping, step by step ----------

  ghost function Then(s: State, more: seq<Action>): State
    decreases |more|
  {
    if more == [] then s else Then(Next(s, more[0]), more[1..])
  }

  lemma {:induction false} AfterThen(now: Clock, run: seq<Action>, more: seq<Action>)
    ensures After(now, run + more) == Then(After(now, run), more)
    decreases |more|
  {
    if more == [] {
      assert run + more == run;
    } else {
      assert (run + [more[0]])[..|run|] == run;
      assert run + more == (run + [more[0]]) + more[1..];
      AfterThen(now, run + [more[0]], more[1..]);
    }
  }

  // The timer that a step of the service pops, if any.
  ghost function PoppedBy(s: State, a: Action): seq<Timer> {
    if Enabled(s, a) && a.MsgExpire? && PopsOnce(s) then [ContainerOf(s, s.handling.value.kind).heap.data] else []
  }

  ghost function PoppedDuring(s: State, more: seq<Action>): seq<Timer>
    decreases |more|
  {
    if more == [] then [] else PoppedBy(s, more[0]) + PoppedDuring(Next(s, more[0]), more[1..])
  }

  // These actions, of any threads, end with the step that ends the handling of the expire message.
  ghost predicate Completes(s: State, more: seq<Action>)
    decreases |more|
  {
    s.handling.Some? && more != [] &&
    if Next(s, more[0]).handling.None? then |more| == 1 else Completes(Next(s, more[0]), more[1..])
  }

  // What the handler, as a function on the heap, still has to pop, and what it will leave.
  function ToPop(s: State): (seq<Timer>, Tree<Timer>)
    requires s.handling.Some?
  {
    var h := s.handling.value;
    var heap := ContainerOf(s, h.kind).heap;
    if h.first then PopExpired(heap, h.now) else PopDue(heap, h.now)
  }

  lemma OthersPopNothing(s: State, a: Action)
    requires s.handling.Some? && !a.MsgExpire?
    ensures Next(s, a).handling == s.handling && SameHeaps(s, Next(s, a))
  {
    if Enabled(s, a) {
      match a
      case Stop(c) => StopLeavesContainers(s, c, false);
      case Delete(c) => StopLeavesContainers(BeginDelete(s, c), c, false);
      case PollAct => PollChanges(s);
      case _ =>
    }
  }

  // A pop leaves the heap without its top, and the handler with the rest to do.
  lemma PopStep(s: State)
    requires s.handling.Some? && PopsOnce(s)
    ensures var h, s' := s.handling.value, ExpireStep(s);
      s'.handling.Some? && s'.handling.value == h.(first := false, target := s'.handling.value.target) &&
      ContainerOf(s', h.kind).heap == Pop(Ranks, ContainerOf(s, h.kind).heap)
  {
    PopChanges(s);
  }

  // The client is remembered, with the delegate popped and how, exactly when mClient is not NULL yet.
  lemma PopRemembers(s: State)
    requires Life(s) && s.handling.Some? && PopsOnce(s)
    ensures var h, h' := s.handling.value, ExpireStep(s).handling;
      var d := ContainerOf(s, h.kind).heap.data.id;
      h'.Some? && d in s.delegates &&
      (!s.delegates[d].attached ==> h'.value.target == None) &&
      (s.delegates[d].attached ==> h'.value.target == Some(Target(d, s.delegates[d].client, h.first)))
  {
    var heap: Tree<Timer> := ContainerOf(s, s.handling.value.kind).heap;
    assert heap.data in Elems<Timer>(heap);
    assert EntryOk(heap.data, s.handling.value.kind, s.delegates, s.queue);
  }

  // Each step pops the next timer that is still to be popped, or none.
  lemma StepPops(s: State, a: Action)
    requires s.handling.Some?
    ensures var h, s' := s.handling.value, Next(s, a);
      if s'.handling.None? then
        ToPop(s) == (PoppedBy(s, a), ContainerOf(s', h.kind).heap) && ArmedForTop(ContainerOf(s', h.kind))
      else
        s'.handling.value.kind == h.kind && ToPop(s) == (PoppedBy(s, a) + ToPop(s').0, ToPop(s').1)
  {
    if !a.MsgExpire? {
      OthersPopNothing(s, a);
      assert [] + ToPop(s).0 == ToPop(s).0;
    } else if s.handling.value.target.Some? {
      ExpireStopLeavesContainers(s);
      assert [] + ToPop(s).0 == ToPop(s).0;
    } else if PopsOnce(s) {
      PopStep(s);
    }
  }

  lemma {:induction false} HandlingPops(s: State, more: seq<Action>)
    requires Completes(s, more)
    ensures var k := s.handling.value.kind;
      ToPop(s) == (PoppedDuring(s, more), ContainerOf(Then(s, more), k).heap) &&
      Then(s, more).handling.None? && ArmedForTop(ContainerOf(Then(s, more), k))
    decreases |more|
  {
    StepPops(s, more[0]);
    if Next(s, more[0]).handling.Some? {
      HandlingPops(Next(s, more[0]), more[1..]);
    } else {
      assert more[1..] == [] && PoppedBy(s, more[0]) + [] == PoppedBy(s, more[0]);
    }
  }

  // How much there is left to do for the handler at most: two steps for a timer in the heap.
  ghost function StepsLeft(s: State): nat
    requires s.handling.Some?
  {
    2 * Count(ContainerOf(s, s.handling.value.kind).heap) + if s.handling.value.target.Some? then 1 else 0
  }

  lemma HandlingProgresses(s: State)
    requires s.handling.Some? && ExpireStep(s).handling.Some?
    ensures StepsLeft(ExpireStep(s)) < StepsLeft(s)
  {
    if s.handling.value.target.Some? {
      ExpireStopLeavesContainers(s);
    } else {
      PopStep(s);
      PopElems(Ranks, ContainerOf(s, s.handling.value.kind).heap);
    }
  }

  lemma CompletesByOneMore(s: State, rest: seq<Action>)
    requires s.handling.Some?
    requires if ExpireStep(s).handling.None? then rest == [] else Completes(ExpireStep(s), rest)
    ensures Completes(s, [MsgExpire] + rest)
  {
    assert ([MsgExpire] + rest)[1..] == rest;
  }

  // The handling can always be completed, and by the message thread alone.
  lemma {:induction false} HandlingCompletes(s: State) returns (more: seq<Action>)
    requires s.handling.Some?
    ensures Completes(s, more) && forall i :: 0 <= i < |more| ==> more[i] == MsgExpire
    decreases StepsLeft(s)
  {
    var rest := [];
    if ExpireStep(s).handling.Some? {
      HandlingProgresses(s);
      rest := HandlingCompletes(ExpireStep(s));
    }
    CompletesByOneMore(s, rest);
    more := [MsgExpire] + rest;
  }

  // What handling an expire message does to container c: exactly its top and all timers due at the
  // sampled time are popped, in time order, and only later ones are left; the kernel timer is set for
  // the soonest of those.
  ghost predicate ExpiredExactly(c: Container, now: Timer, popped: seq<Timer>, c': Container) {
    (popped, c'.heap) == PopExpired(c.heap, now) &&
    Elems(c.heap) == multiset(popped) + Elems(c'.heap) && InTimeOrder(popped) &&
    (c.heap.Node? ==> popped != [] && popped[0] == c.heap.data) &&
    (forall i :: 1 <= i < |popped| ==> IsDue(popped[i], now)) &&
    (forall x :: x in Elems(c'.heap) ==> !IsDue(x, now)) && ArmedForTop(c')
  }

  lemma HandlingIsExact(s: State, more: seq<Action>)
    requires Heaps(s) && Completes(s, more) && s.handling.value.first
    ensures var h := s.handling.value;
      ExpiredExactly(ContainerOf(s, h.kind), h.now, PoppedDuring(s, more), ContainerOf(Then(s, more), h.kind))
  {
    var h := s.handling.value;
    HandlingPops(s, more);
    PopExpiredIsExact(ContainerOf(s, h.kind).heap, h.now);
  }

  // In every run: from the receipt of an expire message to the end of its handling, whatever the other
  // threads do in between, it does exactly that.
  lemma ExpireMessageIsExact(now: Clock, run: seq<Action>, more: seq<Action>)
    requires Completes(After(now, run), more) && After(now, run).handling.value.first
    ensures var s, s', h := After(now, run), After(now, run + more), After(now, run).handling.value;
      ExpiredExactly(ContainerOf(s, h.kind), h.now, PoppedDuring(s, more), ContainerOf(s', h.kind))
  {
    LifeAlways(now, run);
    AfterThen(now, run, more);
    HandlingIsExact(After(now, run), more);
  }

  // ---------- Early callbacks ----------

  ghost predicate CallsBack(s: State, s': State, d: nat) {
    d in s.delegates && s'.ended == s.ended + [CalledBack(d)]
  }

  // The timer that the client remembered by the handler is running by now.
  ghost function CurrentTarget(s: State): Option<nat> {
    if s.handling.Some? && s.handling.value.target.Some? && s.handling.value.target.value.client in s.clients
    then s.clients[s.handling.value.target.value.client].current
    else None
  }

  // A step of the expiration loop calls a timer back if and only if it is the stop() after a pop, and
  // that is the timer its client is running by then, be it the one popped or not.
  lemma CallsBackIff(s: State, d: nat)
    requires Life(s) && s.handling.Some?
    ensures CallsBack(s, ExpireStep(s), d) <==> CurrentTarget(s) == Some(d)
  {
    assert (s.ended + [CalledBack(d)])[|s.ended|] == CalledBack(d);
    if s.handling.value.target.Some? {
      var c := s.handling.value.target.value.client;
      ExpireStopBooks(s);
      if s.clients[c].current.Some? {
        var current := s.clients[c].current.value;
        StopBooks(s, c, true);
        assert (s.ended + [CalledBack(current)])[|s.ended|] == CalledBack(current);
      }
    } else if PopsOnce(s) {
      PopTopBooks(s);
    }
  }

  // The timer popped is still running. It was popped first, and is not due.
  ghost predicate FirstPopIsEarly(s: State, at: Timespec) {
    CurrentTarget(s).Some? && CurrentTarget(s).value in s.delegates &&
    CurrentTarget(s).value == s.handling.value.target.value.popped && s.handling.value.target.value.first &&
    Earlier(at, s.delegates[CurrentTarget(s).value].timer.time)
  }

  // The timer popped was stopped before expire() could do so, and its client has started another one,
  // which is not due.
  ghost predicate RestartedIsEarly(s: State, at: Timespec) {
    CurrentTarget(s).Some? && CurrentTarget(s).value in s.delegates &&
    CurrentTarget(s).value != s.handling.value.target.value.popped &&
    Earlier(at, s.delegates[CurrentTarget(s).value].timer.time)
  }

  // The exact condition, for any time no earlier than the sampled one.
  lemma StepIsEarlyIff(s: State, at: Timespec)
    requires Life(s) && s.handling.Some? && !Earlier(at, s.handling.value.now.time)
    ensures (exists d :: CallsBack(s, ExpireStep(s), d) && Earlier(at, s.delegates[d].timer.time))
      <==> FirstPopIsEarly(s, at) || RestartedIsEarly(s, at)
  {
    forall d: nat ensures CallsBack(s, ExpireStep(s), d) <==> CurrentTarget(s) == Some(d) {
      CallsBackIff(s, d);
    }
    if CurrentTarget(s).Some? {
      CallsBackIff(s, CurrentTarget(s).value);
    }
  }

  // The clock does not go back behind the time that the handler sampled.
  ghost predicate SampledBefore(s: State) {
    s.handling.Some? ==> !Earlier(s.now, s.handling.value.now.time)
  }

  lemma NextKeepsSampled(s: State, a: Action)
    requires SampledBefore(s)
    ensures SampledBefore(Next(s, a))
  {
    if Enabled(s, a) && a.MsgReceive? {
      ReceiveSamples(s);
    } else if Enabled(s, a) && a.MsgExpire? {
      if s.handling.value.target.Some? {
        ExpireStopLeavesContainers(s);
      } else if PopsOnce(s) {
        PopStep(s);
      }
      ExpireKeepsClock(s);
    }
  }

  lemma ReceiveSamples(s: State)
    requires s.queue != [] && s.handling.None?
    ensures var s' := Receive(s); s'.now == s.now && (s'.handling.Some? ==> s'.handling.value.now.time == s.now)
  {
  }

  lemma ExpireKeepsClock(s: State)
    requires s.handling.Some?
    ensures ExpireStep(s).now == s.now
  {
  }

  lemma {:induction false} SampledBeforeAlways(now: Clock, run: seq<Action>)
    ensures SampledBefore(After(now, run))
  {
    if run != [] {
      SampledBeforeAlways(now, run[..|run| - 1]);
      NextKeepsSampled(After(now, run[..|run| - 1]), run[|run| - 1]);
    }
  }

  // Only the expiration loop calls back.
  lemma OthersCallNothingBack(s: State, a: Action, d: nat)
    requires !a.MsgExpire?
    ensures !CallsBack(s, Next(s, a), d)
  {
    assert (s.ended + [CalledBack(d)])[|s.ended|] == CalledBack(d);
  }

  // In every reachable state, for every step of any thread: a callback comes before the delay is over
  // with which its timer was started if and only if the step is the stop() in expire() and either the
  // timer popped was popped first, without a look at the time, or its client has in the meantime
  // stopped it and started another one, which is not due either.
  lemma EarlyCallbackIff(now: Clock, run: seq<Action>, a: Action)
    ensures var s := After(now, run);
      (exists d :: CallsBack(s, Next(s, a), d) && BeforeItsDelay(now, run, d))
      <==> a.MsgExpire? && (FirstPopIsEarly(s, s.now) || RestartedIsEarly(s, s.now))
  {
    var s := After(now, run);
    LifeAlways(now, run);
    SampledBeforeAlways(now, run);
    forall d | CallsBack(s, Next(s, a), d)
      ensures BeforeItsDelay(now, run, d) <==> Earlier(s.now, s.delegates[d].timer.time)
    {
      DelayIsTimersTime(now, run, d);
    }
    if a.MsgExpire? && s.handling.Some? {
      StepIsEarlyIff(s, s.now);
    } else if !a.MsgExpire? {
      forall d ensures !CallsBack(s, Next(s, a), d) {
        OthersCallNothingBack(s, a, d);
      }
    }
  }
}
