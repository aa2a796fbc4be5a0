/** Where the delegates of the timer service come from: each stands for one successful start(), with its
    client, its kind and the time at which the delay given to that start ends. */
module TimerStarts {
  import opened Options
  import opened TimerTime
  import opened TimerProtocol
  import opened TimerLifetime

  // ---------- One step ----------

  // Does this step start a timer, with the delegate d?
  ghost predicate IsStart(s: State, a: Action, d: nat) {
    a.Start? && Enabled(s, a) && s.clients[a.client].current.None? && s.next == d
  }

  // start() makes a running delegate whose time is the delay after now, and sends its push.
  lemma StartMakes(s: State, a: Action, d: nat)
    requires IsStart(s, a, d)
    ensures var s' := Next(s, a);
      d in s'.delegates && s'.next == d + 1 && s'.clients[a.client].current == Some(d) &&
      s'.queue == s.queue + [PushMsg(a.kind, d)] &&
      var x := s'.delegates[d];
      x.attached && x.client == a.client && x.kind == a.kind && Normalised(x.timer.time) &&
      Nanos(x.timer.time) == Nanos(s.now) + a.ms * 1_000_000
  {
  }

  // A start() while a timer is running changes nothing.
  lemma StartWhileRunning(s: State, a: Action)
    requires a.Start? && Enabled(s, a) && s.clients[a.client].current.Some?
    ensures Next(s, a) == s
  {
  }

  ghost predicate SameTimer(x: Delegate, y: Delegate) {
    x.client == y.client && x.kind == y.kind && x.timer == y.timer
  }

  // No step but a start makes a delegate, and none changes the client, kind or time of one.
  ghost predicate KeepsTimers(s: State, s': State) {
    s.next <= s'.next &&
    forall d :: d in s'.delegates ==> d in s.delegates && SameTimer(s'.delegates[d], s.delegates[d])
  }

  lemma StopKeepsTimers(s: State, c: nat, onExpiry: bool)
    requires c in s.clients
    ensures KeepsTimers(s, StopTimer(s, c, onExpiry))
  {
  }

  lemma ReceiveKeepsTimers(s: State)
    requires s.queue != [] && s.handling.None?
    ensures KeepsTimers(s, Receive(s))
  {
    ReceiveChanges(s);
  }

  lemma ExpireKeepsTimers(s: State)
    requires s.handling.Some?
    ensures KeepsTimers(s, ExpireStep(s))
  {
    if s.handling.value.target.Some? && s.handling.value.target.value.client in s.clients {
      StopKeepsTimers(s, s.handling.value.target.value.client, true);
    }
  }

  lemma OthersKeepTimers(s: State, a: Action)
    requires forall d :: !IsStart(s, a, d)
    ensures KeepsTimers(s, Next(s, a))
  {
    if Enabled(s, a) {
      match a
      case Start(c, ms, k) => assert !IsStart(s, a, s.next);
      case Stop(c) => StopKeepsTimers(s, c, false);
      case Delete(c) => StopKeepsTimers(BeginDelete(s, c), c, false);
      case PollAct => PollChanges(s);
      case MsgReceive => ReceiveKeepsTimers(s);
      case MsgExpire => ExpireKeepsTimers(s);
      case _ =>
    }
  }

  // Whatever the step: what is there afterwards and was not just started is unchanged.
  lemma NextKeepsTimers(s: State, a: Action, d: nat)
    requires d in Next(s, a).delegates && !IsStart(s, a, d)
    ensures d in s.delegates && SameTimer(Next(s, a).delegates[d], s.delegates[d])
  {
    if a.Start? && IsStart(s, a, s.next) {
      assert d != s.next;
    } else {
      OthersKeepTimers(s, a);
    }
  }

  lemma NextGrows(s: State, a: Action)
    ensures s.next <= Next(s, a).next
  {
    if !(a.Start? && IsStart(s, a, s.next)) {
      OthersKeepTimers(s, a);
    }
  }

  // ---------- Runs ----------

  // Step i of the run is the start of delegate d.
  ghost predicate StartedAt(now: Clock, run: seq<Action>, i: nat, d: nat) {
    i < |run| && IsStart(After(now, run[..i]), run[i], d)
  }

  lemma AfterLast(now: Clock, run: seq<Action>)
    requires run != []
    ensures After(now, run) == Next(After(now, run[..|run| - 1]), run[|run| - 1])
  {
  }

  lemma StartedBefore(now: Clock, run: seq<Action>, i: nat, d: nat)
    requires run != [] && i < |run| - 1
    ensures StartedAt(now, run, i, d) <==> StartedAt(now, run[..|run| - 1], i, d)
  {
    assert run[..|run| - 1][..i] == run[..i];
  }

  lemma {:induction false} StartedIsPast(now: Clock, run: seq<Action>, i: nat, d: nat)
    requires StartedAt(now, run, i, d)
    ensures d < After(now, run).next
  {
    AfterLast(now, run);
    var s, a := After(now, run[..|run| - 1]), run[|run| - 1];
    if i == |run| - 1 {
      StartMakes(s, a, d);
    } else {
      StartedBefore(now, run, i, d);
      StartedIsPast(now, run[..|run| - 1], i, d);
      NextGrows(s, a);
    }
  }

  // Every delegate was started.
  lemma {:induction false} EveryDelegateWasStarted(now: Clock, run: seq<Action>, d: nat) returns (i: nat)
    requires d in After(now, run).delegates
    ensures StartedAt(now, run, i, d)
  {
    AfterLast(now, run);
    var s, a := After(now, run[..|run| - 1]), run[|run| - 1];
    if IsStart(s, a, d) {
      i := |run| - 1;
    } else {
      NextKeepsTimers(s, a, d);
      i := EveryDelegateWasStarted(now, run[..|run| - 1], d);
      StartedBefore(now, run, i, d);
    }
  }

  // In every run: as long as it exists, a delegate has the client and the kind of its start, and its
  // time is exactly the delay given there after the clock at that moment.
  lemma {:induction false} DelegateIsItsStart(now: Clock, run: seq<Action>, i: nat, d: nat)
    requires StartedAt(now, run, i, d) && d in After(now, run).delegates
    ensures var x := After(now, run).delegates[d];
      x.client == run[i].client && x.kind == run[i].kind && Normalised(x.timer.time) &&
      Nanos(x.timer.time) == Nanos(After(now, run[..i]).now) + run[i].ms * 1_000_000
  {
    AfterLast(now, run);
    var s, a := After(now, run[..|run| - 1]), run[|run| - 1];
    if i == |run| - 1 {
      StartMakes(s, a, d);
    } else {
      StartedBefore(now, run, i, d);
      StartedIsPast(now, run[..|run| - 1], i, d);
      NextKeepsTimers(s, a, d);
      DelegateIsItsStart(now, run[..|run| - 1], i, d);
      assert run[..|run| - 1][..i] == run[..i];
    }
  }

  // When the delay given to the start at step i ends, in nanoseconds.
  ghost function DelayEnd(now: Clock, run: seq<Action>, i: nat): int
    requires i < |run| && run[i].Start?
  {
    Nanos(After(now, run[..i]).now) + run[i].ms * 1_000_000
  }

  // The delay with which d was started is not yet over at that time.
  ghost predicate EndsLater(now: Clock, run: seq<Action>, d: nat, at: int) {
    exists i: nat :: StartedAt(now, run, i, d) && at < DelayEnd(now, run, i)
  }

  ghost predicate BeforeItsDelay(now: Clock, run: seq<Action>, d: nat) {
    EndsLater(now, run, d, Nanos(After(now, run).now))
  }

  lemma EndsLaterIff(now: Clock, run: seq<Action>, d: nat, at: int)
    requires d in After(now, run).delegates
    ensures EndsLater(now, run, d, at) <==> at < Nanos(After(now, run).delegates[d].timer.time)
  {
    var i := EveryDelegateWasStarted(now, run, d);
    forall j: nat | StartedAt(now, run, j, d)
      ensures DelayEnd(now, run, j) == Nanos(After(now, run).delegates[d].timer.time)
    {
      DelegateIsItsStart(now, run, j, d);
    }
  }

  lemma DelayIsTimersTime(now: Clock, run: seq<Action>, d: nat)
    requires d in After(now, run).delegates
    ensures BeforeItsDelay(now, run, d) <==> Earlier(After(now, run).now, After(now, run).delegates[d].timer.time)
  {
    EndsLaterIff(now, run, d, Nanos(After(now, run).now));
    EarlierIsFewerNanos(After(now, run).now, After(now, run).delegates[d].timer.time);
  }
}
