/** LocTimerContainer of gps/utils/LocTimer.cpp: a heap of timers that keeps the kernel timer of its
    file descriptor set to the soonest one. The message handlers are methods on a class that owns a
    LocHeap; `Container` and the functions on it say what they do to the abstract state. */
module TimerContainer {
  import opened Options
  import opened HeapTree
  import opened TimerTime
  import opened LocHeap

  // The heap, the time for which the timerfd is set (None when disarmed), and whether the timerfd
  // is in the epoll set.
  datatype Container = Container(heap: Tree<Timer>, armed: Option<Timespec>, polled: bool)

  function Top(c: Container): Option<Timer> {
    if c.heap.Empty? then None else Some(c.heap.data)
  }

  // timerfd_settime with TFD_TIMER_ABSTIME: an all-zero time disarms.
  function SetTime(t: Timespec): Option<Timespec> {
    if t == Timespec(0, 0) then None else Some(t)
  }

  function UpdateSoonestTime(c: Container, priorTop: Option<Timer>): Container {
    var curTop := Top(c);
    if curTop == priorTop then c
    else if curTop.None? then c.(polled := false, armed := SetTime(Timespec(0, 0)))
    else if priorTop.None? || OutRanks(Ranks, curTop.value, priorTop.value)
    then c.(polled := true, armed := SetTime(curTop.value.time))
    else c
  }

  // MsgTimerPush::proc
  function ProcPush(c: Container, t: Timer): Container {
    UpdateSoonestTime(c.(heap := Push(Ranks, c.heap, t)), Top(c))
  }

  // MsgTimerRemove::proc, up to the deletion of the timer
  function ProcRemove(c: Container, t: Timer): Container {
    match Remove(Ranks, c.heap, t)
    case Some(heap') =>
      if Top(c) == Some(t) then UpdateSoonestTime(c.(heap := heap'), None) else c.(heap := heap')
    case None => if Top(c) == None then UpdateSoonestTime(c, None) else c
  }

  // popIfOutRanks: does the loop of MsgTimerExpire::proc go on?
  predicate TopIsDue(heap: Tree<Timer>, now: Timer) {
    heap.Node? && !OutRanks(Ranks, now, heap.data)
  }

  // The pops of the loop after the first one: the timers in order, and the heap that is left.
  function PopDue(heap: Tree<Timer>, now: Timer): (seq<Timer>, Tree<Timer>)
    decreases Count(heap)
  {
    if TopIsDue(heap, now) then
      PopElems(Ranks, heap);
      var (popped, rest) := PopDue(Pop(Ranks, heap), now);
      ([heap.data] + popped, rest)
    else ([], heap)
  }

  // All the pops of MsgTimerExpire::proc: the first one does not look at the time.
  function PopExpired(heap: Tree<Timer>, now: Timer): (seq<Timer>, Tree<Timer>) {
    if heap.Empty? then ([], Empty) else
    var (popped, rest) := PopDue(Pop(Ranks, heap), now);
    ([heap.data] + popped, rest)
  }

  // MsgTimerExpire::proc, apart from what the popped timers' clients do
  function ProcExpire(c: Container, now: Timer): Container {
    UpdateSoonestTime(c.(heap := PopExpired(c.heap, now).1), None)
  }

  // ---------- What handling an expire message does ----------

  predicate IsDue(t: Timer, now: Timer) {
    !Earlier(now.time, t.time)
  }

  ghost predicate InTimeOrder(ts: seq<Timer>) {
    forall i, j :: 0 <= i < j < |ts| ==> !Earlier(ts[j].time, ts[i].time)
  }

  lemma NoneEarlierThanTop(heap: Tree<Timer>, x: Timer)
    requires Ordered(Ranks, heap) && x in Elems(heap)
    ensures !Earlier(x.time, heap.data.time)
  {
    RanksIsTotalPreorder();
    RootIsHighest(Ranks, heap, x);
    OutRanksIsEarlier(x, heap.data);
  }

  lemma PopTimer(heap: Tree<Timer>)
    requires IsHeap(Ranks, heap) && heap.Node?
    ensures IsHeap(Ranks, Pop(Ranks, heap)) && Elems(heap) == Elems(Pop(Ranks, heap)) + multiset{heap.data}
    ensures Count(Pop(Ranks, heap)) < Count(heap)
  {
    RanksIsTotalPreorder();
    PopElems(Ranks, heap);
    PopOrdered(Ranks, heap);
  }

  function AfterRemove(heap: Tree<Timer>, t: Timer): Tree<Timer> {
    match Remove(Ranks, heap, t)
    case Some(r) => r
    case None => heap
  }

  lemma RemoveTimer(heap: Tree<Timer>, t: Timer)
    requires IsHeap(Ranks, heap)
    ensures IsHeap(Ranks, AfterRemove(heap, t)) && Elems(AfterRemove(heap, t)) == Elems(heap) - multiset{t}
  {
    RanksIsTotalPreorder();
    RemoveFinds(Ranks, heap, t);
    var r := Remove(Ranks, heap, t);
    if r.Some? {
      RemoveRefines(Ranks, heap, t, r.value);
    }
  }

  lemma PushTimer(heap: Tree<Timer>, t: Timer)
    requires IsHeap(Ranks, heap)
    ensures IsHeap(Ranks, Push(Ranks, heap, t))
  {
    RanksIsTotalPreorder();
    PushRefines(Ranks, heap, t);
  }

  // The handlers change the heap by exactly the operation they are named after.
  lemma HandlersOnHeap(c: Container, t: Timer)
    ensures ProcPush(c, t).heap == Push(Ranks, c.heap, t)
    ensures ProcRemove(c, t).heap == AfterRemove(c.heap, t)
  {
  }

  lemma {:induction false} PopDueKeeps(heap: Tree<Timer>, now: Timer)
    ensures var (popped, rest) := PopDue(heap, now); Elems(heap) == multiset(popped) + Elems(rest)
    decreases Count(heap)
  {
    if TopIsDue(heap, now) {
      PopElems(Ranks, heap);
      PopDueKeeps(Pop(Ranks, heap), now);
    }
  }

  lemma {:induction false} PopDueIsDue(heap: Tree<Timer>, now: Timer, i: nat)
    requires i < |PopDue(heap, now).0|
    ensures IsDue(PopDue(heap, now).0[i], now)
    decreases i
  {
    OutRanksIsEarlier(now, heap.data);
    if i > 0 {
      PopDueIsDue(Pop(Ranks, heap), now, i - 1);
    }
  }

  lemma {:induction false} PopDueLeavesLater(heap: Tree<Timer>, now: Timer)
    requires IsHeap(Ranks, heap)
    ensures var rest := PopDue(heap, now).1; IsHeap(Ranks, rest) && (rest.Node? ==> !IsDue(rest.data, now))
    decreases Count(heap)
  {
    if heap.Node? { OutRanksIsEarlier(now, heap.data); }
    if TopIsDue(heap, now) {
      PopTimer(heap);
      PopDueLeavesLater(Pop(Ranks, heap), now);
    }
  }

  // What comes out later was below what comes out now.
  lemma AfterTop(heap: Tree<Timer>, now: Timer, j: nat)
    requires IsHeap(Ranks, heap) && heap.Node? && j < |PopDue(Pop(Ranks, heap), now).0|
    ensures !Earlier(PopDue(Pop(Ranks, heap), now).0[j].time, heap.data.time)
  {
    var popped := PopDue(Pop(Ranks, heap), now).0;
    PopDueKeeps(Pop(Ranks, heap), now);
    PopElems(Ranks, heap);
    assert popped[j] in multiset(popped);
    NoneEarlierThanTop(heap, popped[j]);
  }

  lemma {:induction false} PopDueInOrder(heap: Tree<Timer>, now: Timer, i: nat, j: nat)
    requires IsHeap(Ranks, heap) && i < j < |PopDue(heap, now).0|
    ensures !Earlier(PopDue(heap, now).0[j].time, PopDue(heap, now).0[i].time)
    decreases i
  {
    if i == 0 {
      AfterTop(heap, now, j - 1);
    } else {
      PopTimer(heap);
      PopDueInOrder(Pop(Ranks, heap), now, i - 1, j - 1);
    }
  }

  lemma PopExpiredInOrder(heap: Tree<Timer>, now: Timer)
    requires IsHeap(Ranks, heap)
    ensures InTimeOrder(PopExpired(heap, now).0)
  {
    var popped := PopExpired(heap, now).0;
    forall i, j | 0 <= i < j < |popped| ensures !Earlier(popped[j].time, popped[i].time) {
      if i == 0 {
        AfterTop(heap, now, j - 1);
      } else {
        PopTimer(heap);
        PopDueInOrder(Pop(Ranks, heap), now, i - 1, j - 1);
      }
    }
  }

  lemma PopExpiredKeeps(heap: Tree<Timer>, now: Timer)
    ensures var (popped, rest) := PopExpired(heap, now); Elems(heap) == multiset(popped) + Elems(rest)
  {
    if heap.Node? {
      PopElems(Ranks, heap);
      PopDueKeeps(Pop(Ranks, heap), now);
    }
  }

  lemma PopExpiredLeavesLater(heap: Tree<Timer>, now: Timer)
    requires IsHeap(Ranks, heap)
    ensures var rest := PopExpired(heap, now).1; IsHeap(Ranks, rest) && forall x :: x in Elems(rest) ==> !IsDue(x, now)
  {
    if heap.Node? {
      PopTimer(heap);
      PopDueLeavesLater(Pop(Ranks, heap), now);
      var rest := PopExpired(heap, now).1;
      forall x | x in Elems(rest) ensures !IsDue(x, now) {
        NoneEarlierThanTop(rest, x);
      }
    }
  }

  lemma PopExpiredStartsAtTop(heap: Tree<Timer>, now: Timer)
    ensures var popped := PopExpired(heap, now).0;
      (if heap.Empty? then popped == [] else popped != [] && popped[0] == heap.data) &&
      forall i :: 1 <= i < |popped| ==> IsDue(popped[i], now)
  {
    forall i | 1 <= i < |PopExpired(heap, now).0| ensures IsDue(PopExpired(heap, now).0[i], now) {
      PopDueIsDue(Pop(Ranks, heap), now, i - 1);
    }
  }

  // Nothing is lost; the timers come out in time order; after the previous top, which comes out
  // whatever its time, only due timers do; and no due timer stays behind.
  lemma PopExpiredIsExact(heap: Tree<Timer>, now: Timer)
    requires IsHeap(Ranks, heap)
    ensures var (popped, rest) := PopExpired(heap, now);
      Elems(heap) == multiset(popped) + Elems(rest) && InTimeOrder(popped) &&
      (if heap.Empty? then popped == [] else popped != [] && popped[0] == heap.data) &&
      (forall i :: 1 <= i < |popped| ==> IsDue(popped[i], now)) &&
      IsHeap(Ranks, rest) && forall x :: x in Elems(rest) ==> !IsDue(x, now)
  {
    PopExpiredKeeps(heap, now);
    PopExpiredInOrder(heap, now);
    PopExpiredStartsAtTop(heap, now);
    PopExpiredLeavesLater(heap, now);
  }

  // A timer comes out before its time exactly when it is the top and nothing at all is due.
  lemma EarlyPopIff(heap: Tree<Timer>, now: Timer)
    requires IsHeap(Ranks, heap)
    ensures (exists t :: t in PopExpired(heap, now).0 && !IsDue(t, now))
      <==> heap.Node? && forall x :: x in Elems(heap) ==> !IsDue(x, now)
  {
    PopExpiredIsExact(heap, now);
    var popped := PopExpired(heap, now).0;
    if heap.Node? {
      assert popped[0] in popped && heap.data in Elems(heap);
      forall x | x in Elems(heap) && !IsDue(heap.data, now) ensures !IsDue(x, now) {
        NoneEarlierThanTop(heap, x);
      }
    }
  }

  // ---------- The kernel timer follows the top ----------

  ghost predicate ArmedForTop(c: Container) {
    c.heap.Node? ==> c.polled && c.armed == Some(c.heap.data.time)
  }

  // The push rests on the top changing only when the new timer strictly outranks it.
  lemma PushKeepsArmed(c: Container, t: Timer)
    requires ArmedForTop(c)
    ensures ArmedForTop(ProcPush(c, t))
  {
  }

  lemma RemoveKeepsArmed(c: Container, t: Timer)
    requires ArmedForTop(c)
    ensures ArmedForTop(ProcRemove(c, t))
  {
  }

  // A push or a remove leaves the kernel timer alone unless the soonest timer is another one
  // afterwards, and a remove of any other timer than the top never touches it.
  lemma OnlyNewTopIsSet(c: Container, t: Timer)
    ensures var c' := ProcPush(c, t);
      if Top(c') == Top(c) then c'.armed == c.armed && c'.polled == c.polled
      else c'.armed == Some(t.time) && c'.polled && c'.heap.data == t
    ensures var c' := ProcRemove(c, t);
      if c.heap.Node? && c.heap.data == t && c'.heap.Node?
      then c'.armed == Some(c'.heap.data.time) && c'.polled
      else c'.armed == c.armed && c'.polled == c.polled
  {
    OnlyTopEmpties(c.heap, t);
    if Remove(Ranks, c.heap, t).Some? && c.heap.data != t {
      RemoveKeepsRoot(Ranks, c.heap, t, Remove(Ranks, c.heap, t).value);
    }
  }

  // updateSoonestTime on its own, the branch for an emptied tree included, which no handler takes.
  lemma SoonestTimeIs(c: Container, priorTop: Option<Timer>)
    ensures var c' := UpdateSoonestTime(c, priorTop);
      c'.heap == c.heap &&
      (c.heap.Empty? && priorTop.Some? ==> c'.armed == None && !c'.polled) &&
      (c.heap.Empty? && priorTop.None? ==> c' == c) &&
      (c.heap.Node? && priorTop.None? ==> c'.armed == Some(c.heap.data.time) && c'.polled) &&
      (c.heap.Node? && priorTop.Some? ==>
        if Earlier(c.heap.data.time, priorTop.value.time) then c'.armed == Some(c.heap.data.time) && c'.polled
        else c' == c)
  {
    if c.heap.Node? && priorTop.Some? {
      OutRanksIsEarlier(c.heap.data, priorTop.value);
    }
  }

  // Without any assumption: an expire message repairs whatever the poll thread undid.
  lemma ExpireRearms(c: Container, now: Timer)
    ensures ArmedForTop(ProcExpire(c, now))
  {
  }

  // The branch that would disarm the kernel timer needs a prior top and no current one, and no
  // handler calls it like that: the container keeps its last setting when its last timer goes.
  lemma EmptyingLeavesKernelTimer(c: Container, t: Timer, now: Timer)
    ensures ProcRemove(c, t).heap.Empty? ==> ProcRemove(c, t) == c.(heap := Empty)
    ensures ProcExpire(c, now).heap.Empty? ==> ProcExpire(c, now) == c.(heap := Empty)
    ensures ProcPush(c, t).heap.Node?
  {
    OnlyTopEmpties(c.heap, t);
  }

  // A handler that empties the heap leaves the kernel timer disarmed, as the comment on its branch in
  // updateSoonestTime says, if and only if the epoll thread had disarmed it before.
  lemma EmptiedIsDisarmedIff(c: Container, t: Timer, now: Timer)
    requires c.heap.Node?
    ensures ProcRemove(c, t).heap.Empty? ==> (ProcRemove(c, t).armed.None? <==> c.armed.None?)
    ensures ProcExpire(c, now).heap.Empty? ==> (ProcExpire(c, now).armed.None? <==> c.armed.None?)
    ensures ArmedForTop(c) && ProcRemove(c, t).heap.Empty? ==>
      ProcRemove(c, t).polled && ProcRemove(c, t).armed == Some(t.time)
  {
    EmptyingLeavesKernelTimer(c, t, now);
    OnlyTopEmpties(c.heap, t);
  }

  // Two timers due at the same time rank the same, and yet one is not removed for the other.
  lemma SameTimeIsNotRemoved() returns (heap: Tree<Timer>, t: Timer)
    ensures IsHeap(Ranks, heap) && HoldsRank(Ranks, heap, t) && Remove(Ranks, heap, t) == None
  {
    var x: Timer := TimerRecord(0, Timespec(1, 0));
    heap, t := Push(Ranks, Empty, x), TimerRecord(1, Timespec(1, 0));
    assert x in Elems(heap);
  }

  // Only the removal of the top can empty the heap.
  lemma OnlyTopEmpties(heap: Tree<Timer>, t: Timer)
    ensures heap.Node? && heap.data != t ==> AfterRemove(heap, t).Node?
  {
    var r := Remove(Ranks, heap, t);
    if r.Some? && heap.data != t {
      RemoveKeepsRoot(Ranks, heap, t, r.value);
    }
  }

  // The outcome of the expiration loop, seen from one of its iterations.
  ghost function Remaining(expired: seq<Timer>, timer: Option<Timer>, heap: Tree<Timer>, now: Timer)
    : (seq<Timer>, Tree<Timer>)
  {
    match timer
    case None => (expired, heap)
    case Some(t) => (expired + ([t] + PopDue(heap, now).0), PopDue(heap, now).1)
  }

  lemma RemainingStep(expired: seq<Timer>, t: Timer, heap: Tree<Timer>, now: Timer)
    ensures Remaining(expired, Some(t), heap, now) ==
      if TopIsDue(heap, now) then Remaining(expired + [t], Some(heap.data), Pop(Ranks, heap), now)
      else Remaining(expired + [t], None, heap, now)
  {
    var more := PopDue(heap, now).0;
    assert expired + ([t] + more) == (expired + [t]) + more;
    assert more == [] ==> (expired + [t]) + more == expired + [t];
  }

  lemma RemainingAtFirst(heap: Tree<Timer>, now: Timer)
    ensures PopExpired(heap, now) ==
      if heap.Empty? then Remaining([], None, heap, now) else Remaining([], Some(heap.data), Pop(Ranks, heap), now)
  {
    if heap.Node? {
      var more := [heap.data] + PopDue(Pop(Ranks, heap), now).0;
      assert [] + more == more;
    }
  }

  // ---------- The class ----------

  class LocTimerContainer {
    const heap: LocHeap<Timer>
    var armed: Option<Timespec>
    var polled: bool

    ghost predicate Valid()
      reads this, heap, heap.mTree, heap.Repr()
    {
      heap.Valid() && heap.ranks == Ranks && this !in heap.Repr()
    }

    ghost function View(): Container
      reads this, heap, heap.mTree
    {
      Container(heap.Tree(), armed, polled)
    }

    constructor ()
      ensures Valid() && View() == Container(Empty, None, false) && fresh(heap.Repr())
    {
      heap := new LocHeap(Ranks);
      armed, polled := None, false;
    }

    method UpdateSoonest(priorTop: Option<Timer>)
      requires Valid()
      modifies this
      ensures Valid() && View() == UpdateSoonestTime(old(View()), priorTop)
    {
      var curTop := heap.Peek();
      if curTop != priorTop {
        var delay := Timespec(0, 0);
        var toSetTime := false;
        if curTop.None? {
          polled := false;
          toSetTime := true;
        } else if priorTop.None? || OutRanks<Timer>(Ranks, curTop.value, priorTop.value) {
          polled := true;
          delay := curTop.value.time;
          toSetTime := true;
        }
        if toSetTime {
          armed := SetTime(delay);
        }
      }
    }

    method HandlePush(timer: Timer)
      requires Valid()
      modifies this, heap.Repr()
      ensures Valid() && View() == ProcPush(old(View()), timer) && fresh(heap.Repr() - old(heap.Repr()))
    {
      var priorTop := heap.Peek();
      heap.Push(timer);
      UpdateSoonest(priorTop);
    }

    method HandleRemove(timer: Timer)
      requires Valid()
      modifies this, heap.Repr()
      ensures Valid() && View() == ProcRemove(old(View()), timer) && heap.Repr() <= old(heap.Repr())
    {
      var priorTop := heap.Peek();
      var removed := heap.Remove(timer);
      if priorTop == removed {
        UpdateSoonest(None);
      }
    }

    method PopIfOutRanks(now: Timer) returns (popped: Option<Timer>)
      requires Valid()
      modifies heap.Repr()
      ensures Valid() && heap.Repr() <= old(heap.Repr()) && armed == old(armed) && polled == old(polled)
      ensures TopIsDue(old(heap.Tree()), now) ==>
        popped == Some(old(heap.Tree()).data) && heap.Tree() == Pop(Ranks, old(heap.Tree()))
      ensures !TopIsDue(old(heap.Tree()), now) ==> popped == None && heap.Tree() == old(heap.Tree())
    {
      popped := None;
      var top := heap.Peek();
      if top.Some? && !OutRanks(Ranks, now, top.value) {
        popped := heap.Pop();
      }
    }

    // The timers whose expire() is called, in order.
    method HandleExpire(now: Timer) returns (expired: seq<Timer>)
      requires Valid()
      modifies this, heap.Repr()
      ensures Valid() && View() == ProcExpire(old(View()), now) && heap.Repr() <= old(heap.Repr())
      ensures expired == PopExpired(old(heap.Tree()), now).0
    {
      expired := [];
      ghost var before := heap.Tree();
      RemainingAtFirst(before, now);
      var timer := heap.Pop();
      while timer.Some?
        invariant Valid() && heap.Repr() <= old(heap.Repr())
        invariant armed == old(armed) && polled == old(polled)
        invariant PopExpired(before, now) == Remaining(expired, timer, heap.Tree(), now)
        decreases timer.Some?, Count(heap.Tree())
      {
        RemainingStep(expired, timer.value, heap.Tree(), now);
        expired := expired + [timer.value];
        if heap.Tree().Node? { PopElems(Ranks, heap.Tree()); }
        timer := PopIfOutRanks(now);
      }
      UpdateSoonest(None);
    }
  }
}
