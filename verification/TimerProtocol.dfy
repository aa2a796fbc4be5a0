/** The timer service of gps/utils/LocTimer.cpp as a state machine: client threads that create, start,
    stop and delete LocTimers, the epoll thread, and the message thread that owns the heaps. Each
    action is one lock-protected region or one system call, so that runs interleave them freely. */
module TimerProtocol {
  import opened Options
  import opened HeapTree
  import opened TimerTime
  import opened TimerContainer
  import opened LocSharedLock

  // Timers (sw) and alarms (hw) have a container each.
  datatype Kind = Sw | Hw

  datatype Msg = PushMsg(kind: Kind, id: nat) | RemoveMsg(kind: Kind, id: nat) | ExpireMsg(kind: Kind)

  // A LocTimer: does it still hold its lock?, has its destructor begun?, and mTimer.
  datatype Client = Client(alive: bool, dying: bool, current: Option<nat>)

  // A LocTimerDelegate; attached while mClient and mContainer are not NULL.
  datatype Delegate = Delegate(client: nat, attached: bool, kind: Kind, timer: Timer)

  // The epoll thread: in epoll_wait, or with containers left on which to call expire() and the
  // number of actions of expire() already done on the first of them.
  datatype Poll = Waiting | Serving(todo: seq<Kind>, stage: nat)

  // The message thread inside a popped timer's expire(), between its read of mClient and its stop():
  // the delegate, the client read, and whether the pop was the first one of the expire message.
  datatype Target = Target(popped: nat, client: nat, first: bool)

  // The message thread inside MsgTimerExpire::proc; first while it has not popped anything yet.
  datatype Expiring = Expiring(kind: Kind, now: Timer, first: bool, target: Option<Target>)

  // How a started timer ended.
  datatype Ending = CalledBack(id: nat) | Stopped(id: nat)

  // A boot clock early enough for every start() to stay within InClockRange.
  type Clock = t: Timespec |
    Normalised(t) && 0 <= t.sec < 0x8000_0000 - MAX_DELAY_SEC && t != Timespec(0, 0)
    witness Timespec(1, 0)

  datatype State = State(
    now: Clock,
    clients: map<nat, Client>,
    delegates: map<nat, Delegate>,
    next: nat,
    locks: map<nat, int>,
    queue: seq<Msg>,
    handling: Option<Expiring>,
    poll: Poll,
    sw: Container,
    hw: Container,
    ended: seq<Ending>,
    deleted: seq<nat>,
    destroyed: seq<nat>)

  // The delegates that have not been deleted are the keys of delegates, the locks that have not
  // deleted themselves those of locks; ended, deleted and destroyed are logs.
  function Init(now: Clock): State {
    var c := Container(Empty, None, false);
    State(now, map[], map[], 0, map[], [], None, Waiting, c, c, [], [], [])
  }

  function ContainerOf(s: State, k: Kind): Container {
    if k.Sw? then s.sw else s.hw
  }

  function WithContainer(s: State, k: Kind, c: Container): State {
    if k.Sw? then s.(sw := c) else s.(hw := c)
  }

  function Send(s: State, m: Msg): State {
    s.(queue := s.queue + [m])
  }

  // ---------- LocSharedLock ----------

  function RefOf(locks: map<nat, int>, c: nat): int {
    if c in locks then locks[c] else 0
  }

  function Share(s: State, c: nat): State {
    s.(locks := s.locks[c := AfterShare(RefOf(s.locks, c))])
  }

  function Dropped(locks: map<nat, int>, c: nat): map<nat, int> {
    match AfterDrop(RefOf(locks, c))
    case None => locks - {c}
    case Some(left) => locks[c := left]
  }

  function Drop(s: State, c: nat): State {
    s.(locks := Dropped(s.locks, c),
       destroyed := if AfterDrop(RefOf(s.locks, c)).None? then s.destroyed + [c] else s.destroyed)
  }

  // ---------- LocTimer ----------

  function StartTimer(s: State, c: nat, ms: UInt32, k: Kind): State
    requires c in s.clients
  {
    if s.clients[c].current.Some? then s else
    var timer: Timer := TimerRecord(s.next, FutureTime(s.now, ms));
    var s1 := Share(s, c).(
      delegates := s.delegates[s.next := Delegate(c, true, k, timer)],
      clients := s.clients[c := s.clients[c].(current := Some(s.next))],
      next := s.next + 1);
    Send(s1, PushMsg(k, s.next))
  }

  // LocTimer::stop with LocTimerDelegate::destroyLocked; onExpiry when the caller is expire().
  function StopTimer(s: State, c: nat, onExpiry: bool): State
    requires c in s.clients
  {
    match s.clients[c].current
    case None => s
    case Some(d) =>
      var s1 := s.(
        clients := s.clients[c := s.clients[c].(current := None)],
        ended := s.ended + [if onExpiry then CalledBack(d) else Stopped(d)]);
      if d in s.delegates && s.delegates[d].attached then
        var s2 := s1.(delegates := s.delegates[d := s.delegates[d].(attached := false)]);
        Send(s2, RemoveMsg(s.delegates[d].kind, d))
      else s1
  }

  function BeginDelete(s: State, c: nat): State
    requires c in s.clients
  {
    s.(clients := s.clients[c := s.clients[c].(dying := true)])
  }

  // LocTimer::~LocTimer takes two steps: the stop(), then the drop of the lock.
  function DeleteTimer(s: State, c: nat): State
    requires c in s.clients
  {
    StopTimer(BeginDelete(s, c), c, false)
  }

  function DropLock(s: State, c: nat): State
    requires c in s.clients
  {
    Drop(s.(clients := s.clients[c := s.clients[c].(alive := false)]), c)
  }

  // ---------- The epoll thread ----------

  predicate Ready(s: State, k: Kind) {
    var c := ContainerOf(s, k);
    c.polled && c.armed.Some? && !Earlier(s.now, c.armed.value)
  }

  // The next of the three actions of LocTimerContainer::expire.
  function PollStep(s: State): State
    requires s.poll.Serving? && s.poll.todo != []
  {
    var k, c := s.poll.todo[0], ContainerOf(s, s.poll.todo[0]);
    if s.poll.stage == 0 then
      WithContainer(s, k, c.(armed := SetTime(Timespec(0, 0)))).(poll := s.poll.(stage := 1))
    else if s.poll.stage == 1 then
      WithContainer(s, k, c.(polled := false)).(poll := s.poll.(stage := 2))
    else
      Send(s, ExpireMsg(k)).(poll := if |s.poll.todo| == 1 then Waiting else Serving(s.poll.todo[1..], 0))
  }

  // ---------- The message thread ----------

  function Receive(s: State): State
    requires s.queue != []
  {
    var s0 := s.(queue := s.queue[1..]);
    match s.queue[0]
    case PushMsg(k, d) =>
      if d !in s.delegates then s0
      else WithContainer(s0, k, ProcPush(ContainerOf(s, k), s.delegates[d].timer))
    case RemoveMsg(k, d) =>
      if d !in s.delegates then s0
      else
        var s1 := WithContainer(s0, k, ProcRemove(ContainerOf(s, k), s.delegates[d].timer));
        Drop(s1.(delegates := s.delegates - {d}, deleted := s.deleted + [d]), s.delegates[d].client)
    case ExpireMsg(k) => s0.(handling := Some(Expiring(k, TimerRecord(0, s.now), true, None)))
  }

  // Does the loop of MsgTimerExpire::proc pop next? The first pop does not look at the time.
  predicate PopsOnce(s: State)
    requires s.handling.Some?
  {
    var h, heap := s.handling.value, ContainerOf(s, s.handling.value.kind).heap;
    h.target.None? && heap.Node? && (h.first || TopIsDue(heap, h.now))
  }

  // What expire() of delegate d reads from mClient. Only the message thread deletes delegates.
  function TargetOf(s: State, d: nat, first: bool): Option<Target> {
    if d in s.delegates && s.delegates[d].attached then Some(Target(d, s.delegates[d].client, first)) else None
  }

  // A pop, and the read of the popped timer's mClient. No other thread uses the heap, so that what a
  // client does between the two might as well be done before both.
  function PopTop(s: State): State
    requires s.handling.Some? && PopsOnce(s)
  {
    var h, c := s.handling.value, ContainerOf(s, s.handling.value.kind);
    WithContainer(s, h.kind, c.(heap := Pop(Ranks, c.heap))).(
      handling := Some(h.(first := false, target := TargetOf(s, c.heap.data.id, h.first))))
  }

  // The stop() in LocTimerDelegate::expire. It stops what the client is running by now.
  function ExpireStop(s: State): State
    requires s.handling.Some? && s.handling.value.target.Some?
  {
    var c := s.handling.value.target.value.client;
    (if c in s.clients then StopTimer(s, c, true) else s).(handling := Some(s.handling.value.(target := None)))
  }

  // One step of the loop: a pop, the stop() of its expire(), or the end.
  function ExpireStep(s: State): State
    requires s.handling.Some?
  {
    var k := s.handling.value.kind;
    if s.handling.value.target.Some? then ExpireStop(s)
    else if PopsOnce(s) then PopTop(s)
    else WithContainer(s, k, UpdateSoonestTime(ContainerOf(s, k), None)).(handling := None)
  }

  // ---------- Runs ----------

  datatype Action =
    | New(client: nat)
    | Start(client: nat, ms: UInt32, kind: Kind)
    | Stop(client: nat)
    | Delete(client: nat)
    | FinishDelete(client: nat)
    | Tick(to: Clock)
    | PollWake(todo: seq<Kind>)
    | PollAct
    | MsgReceive
    | MsgExpire

  // A client calls no method of a LocTimer that it has begun to delete.
  predicate Usable(s: State, c: nat) {
    c in s.clients && s.clients[c].alive && !s.clients[c].dying
  }

  // Is the message thread between the read of mClient and the stop() of this client? A LocTimer is not
  // deleted in between: the source does not guard against it.
  predicate Remembered(s: State, c: nat) {
    s.handling.Some? && s.handling.value.target.Some? && s.handling.value.target.value.client == c
  }

  ghost predicate Enabled(s: State, a: Action) {
    match a
    case New(c) => c !in s.clients
    case Start(c, _, _) => Usable(s, c)
    case Stop(c) => Usable(s, c)
    case Delete(c) => Usable(s, c) && !Remembered(s, c)
    case FinishDelete(c) => c in s.clients && s.clients[c].alive && s.clients[c].dying
    case Tick(t) => !Earlier(t, s.now)
    case PollWake(todo) => s.poll.Waiting? && todo != [] && forall k :: k in todo ==> Ready(s, k)
    case PollAct => s.poll.Serving? && s.poll.todo != []
    case MsgReceive => s.handling.None? && s.queue != []
    case MsgExpire => s.handling.Some?
  }

  // A disabled action leaves the state as it is, so that every sequence of actions is a run.
  ghost function Next(s: State, a: Action): State {
    if !Enabled(s, a) then s else
    match a
    case New(c) => s.(clients := s.clients[c := Client(true, false, None)], locks := s.locks[c := 1])
    case Start(c, ms, k) => StartTimer(s, c, ms, k)
    case Stop(c) => StopTimer(s, c, false)
    case Delete(c) => DeleteTimer(s, c)
    case FinishDelete(c) => DropLock(s, c)
    case Tick(t) => s.(now := t)
    case PollWake(todo) => s.(poll := Serving(todo, 0))
    case PollAct => PollStep(s)
    case MsgReceive => Receive(s)
    case MsgExpire => ExpireStep(s)
  }

  ghost function After(now: Clock, run: seq<Action>): State {
    if run == [] then Init(now) else Next(After(now, run[..|run| - 1]), run[|run| - 1])
  }

  // ---------- No lost wake-up ----------

  // Inside expire(), having disarmed the timer but not yet sent the expire message.
  predicate PollInside(s: State, k: Kind) {
    s.poll.Serving? && s.poll.todo != [] && s.poll.todo[0] == k && s.poll.stage > 0
  }

  ghost predicate Attended(s: State, k: Kind) {
    ArmedForTop(ContainerOf(s, k)) || PollInside(s, k) || ExpireMsg(k) in s.queue ||
    (s.handling.Some? && s.handling.value.kind == k)
  }

  lemma StopLeavesContainers(s: State, c: nat, onExpiry: bool)
    requires c in s.clients
    ensures var s' := StopTimer(s, c, onExpiry);
      s'.sw == s.sw && s'.hw == s.hw && s'.poll == s.poll && s'.handling == s.handling && s.queue <= s'.queue
  {
  }

  lemma ReceiveKeepsAttended(s: State, k: Kind)
    requires s.handling.None? && s.queue != [] && Attended(s, k)
    ensures Attended(Receive(s), k)
  {
    var m := s.queue[0];
    assert s.queue == [m] + s.queue[1..];
    if !m.ExpireMsg? && m.kind == k && m.id in s.delegates && ArmedForTop(ContainerOf(s, k)) {
      PushKeepsArmed(ContainerOf(s, k), s.delegates[m.id].timer);
      RemoveKeepsArmed(ContainerOf(s, k), s.delegates[m.id].timer);
    }
  }

  lemma ExpireStopLeavesContainers(s: State)
    requires s.handling.Some? && s.handling.value.target.Some?
    ensures var s' := ExpireStop(s);
      s'.sw == s.sw && s'.hw == s.hw && s'.poll == s.poll && s.queue <= s'.queue &&
      s'.handling == Some(s.handling.value.(target := None))
  {
    var c := s.handling.value.target.value.client;
    if c in s.clients {
      StopLeavesContainers(s, c, true);
    }
  }

  lemma ExpireKeepsAttended(s: State, k: Kind)
    requires s.handling.Some? && Attended(s, k)
    ensures Attended(ExpireStep(s), k)
  {
    if s.handling.value.target.Some? {
      ExpireStopLeavesContainers(s);
    }
  }

  lemma NextKeepsAttended(s: State, a: Action, k: Kind)
    requires Attended(s, k)
    ensures Attended(Next(s, a), k)
  {
    if Enabled(s, a) {
      match a
      case Stop(c) => StopLeavesContainers(s, c, false);
      case Delete(c) => StopLeavesContainers(BeginDelete(s, c), c, false);
      case MsgReceive => ReceiveKeepsAttended(s, k);
      case MsgExpire => ExpireKeepsAttended(s, k);
      case _ =>
    }
  }

  // In every reachable state, either the timerfd is set for the top of the heap and polled, or an
  // expiration is under way that will set it again.
  lemma {:induction false} NoLostWakeUp(now: Clock, run: seq<Action>, k: Kind)
    ensures Attended(After(now, run), k)
  {
    if run != [] {
      NoLostWakeUp(now, run[..|run| - 1], k);
      NextKeepsAttended(After(now, run[..|run| - 1]), run[|run| - 1], k);
    }
  }

  predicate Quiet(s: State) {
    s.queue == [] && s.handling.None? && s.poll.Waiting?
  }

  // When nothing is under way, epoll_wait returns a container if and only if its soonest timer is due.
  lemma DueTimerWakesPoll(now: Clock, run: seq<Action>, k: Kind)
    requires Quiet(After(now, run)) && ContainerOf(After(now, run), k).heap.Node?
    ensures Enabled(After(now, run), PollWake([k])) <==>
      !Earlier(After(now, run).now, ContainerOf(After(now, run), k).heap.data.time)
  {
    NoLostWakeUp(now, run, k);
    WakesIffDue(After(now, run), k);
  }

  lemma WakesIffDue(s: State, k: Kind)
    requires Quiet(s) && Attended(s, k) && ContainerOf(s, k).heap.Node?
    ensures Enabled(s, PollWake([k])) <==> !Earlier(s.now, ContainerOf(s, k).heap.data.time)
  {
    assert k in [k];
  }

  // ---------- What the epoll thread does ----------

  // It wakes only for containers in the epoll set whose kernel timer is set and has gone off, and
  // waking changes nothing but the epoll thread itself.
  lemma WakesOnlyWhenFired(s: State, todo: seq<Kind>)
    requires Enabled(s, PollWake(todo))
    ensures s.poll == Waiting && todo != [] && Next(s, PollWake(todo)) == s.(poll := Serving(todo, 0))
    ensures forall k :: k in todo ==> var c := ContainerOf(s, k);
      c.polled && c.armed.Some? && (c.armed.value.sec < s.now.sec ||
        (c.armed.value.sec == s.now.sec && c.armed.value.nsec <= s.now.nsec))
  {
    forall k | k in todo ensures ContainerOf(s, k).polled && ContainerOf(s, k).armed.Some? {
      assert Ready(s, k);
    }
  }

  function OtherKind(k: Kind): Kind {
    if k.Sw? then Hw else Sw
  }

  // expire(): the kernel timer is disarmed, then the container leaves the epoll set, and only then the
  // expire message is sent; each step does one of the three and touches nothing else.
  lemma PollStepIs(s: State)
    requires s.poll.Serving? && s.poll.todo != [] && s.poll.stage <= 2
    ensures var s', k := PollStep(s), s.poll.todo[0];
      ContainerOf(s', OtherKind(k)) == ContainerOf(s, OtherKind(k)) &&
      ContainerOf(s', k) == (if s.poll.stage == 0 then ContainerOf(s, k).(armed := None)
                             else if s.poll.stage == 1 then ContainerOf(s, k).(polled := false)
                             else ContainerOf(s, k)) &&
      s'.queue == (if s.poll.stage == 2 then s.queue + [ExpireMsg(k)] else s.queue)
    ensures var p' := PollStep(s).poll;
      if s.poll.stage < 2 then p' == Serving(s.poll.todo, s.poll.stage + 1)
      else if |s.poll.todo| > 1 then p' == Serving(s.poll.todo[1..], 0)
      else p' == Waiting
  {
  }
}
