/** What holds of the delegates of the timer service in every reachable state: where a delegate may be
    referred to from, and that it is deleted after everything else has let go of it. */
module TimerLifetime {
  import opened Options
  import opened HeapTree
  import opened TimerTime
  import opened TimerContainer
  import opened TimerProtocol

  type Clients = map<nat, Client>
  type Delegates = map<nat, Delegate>

  // ---------- The invariant ----------

  // Only a LocTimer whose destructor has not begun has a timer.
  predicate Running(c: Client) {
    c.alive && !c.dying
  }

  // mTimer of a LocTimer and mClient of a delegate point at each other.
  ghost predicate LinksOk(cs: Clients, ds: Delegates, next: nat) {
    (forall c :: c in cs && cs[c].current.Some? ==>
      var d := cs[c].current.value; Running(cs[c]) && d in ds && ds[d].attached && ds[d].client == c) &&
    (forall d :: d in ds ==>
      d < next && ds[d].client in cs && (ds[d].attached ==> cs[ds[d].client].current == Some(d)))
  }

  // A message about a delegate is sent once, to its own container, and its push before its remove.
  ghost predicate QueueOk(ds: Delegates, q: seq<Msg>) {
    (forall m :: m in q && !m.ExpireMsg? ==> m.id in ds && ds[m.id].kind == m.kind) &&
    (forall d :: d in ds ==> ds[d].timer.id == d && (!ds[d].attached <==> RemoveMsg(ds[d].kind, d) in q)) &&
    Once(q) && PushesFirst(q)
  }

  ghost predicate Once(q: seq<Msg>) {
    forall i, j :: 0 <= i < j < |q| && !q[i].ExpireMsg? ==> q[i] != q[j]
  }

  ghost predicate PushesFirst(q: seq<Msg>) {
    forall i, j :: 0 <= i < |q| && 0 <= j < |q| && q[i].RemoveMsg? && q[j] == PushMsg(q[i].kind, q[i].id) ==> j < i
  }

  // A heap holds undeleted delegates only, each once, and not while its push is still queued.
  ghost predicate EntriesOk(e: multiset<Timer>, k: Kind, ds: Delegates, q: seq<Msg>) {
    forall x :: x in e ==> e[x] == 1 && EntryOk(x, k, ds, q)
  }

  ghost predicate EntryOk(x: Timer, k: Kind, ds: Delegates, q: seq<Msg>) {
    x.id in ds && ds[x.id].timer == x && ds[x.id].kind == k && PushMsg(k, x.id) !in q
  }

  // A running timer is on its way to the heap or in it.
  ghost predicate Placed(id: nat, d: Delegate, q: seq<Msg>, e: multiset<Timer>) {
    PushMsg(d.kind, id) in q || d.timer in e
  }

  ghost predicate PlacedOk(e: multiset<Timer>, k: Kind, ds: Delegates, q: seq<Msg>, popped: Option<nat>) {
    forall d :: d in ds && ds[d].attached && ds[d].kind == k && popped != Some(d) ==> Placed(d, ds[d], q, e)
  }

  // The contents e of the heap for k fit the rest of the state; popped is a timer just taken out.
  ghost predicate Fits(e: multiset<Timer>, k: Kind, ds: Delegates, q: seq<Msg>, popped: Option<nat>) {
    EntriesOk(e, k, ds, q) && PlacedOk(e, k, ds, q, popped)
  }

  // The timer that has been popped from the heap for k and not yet been stopped.
  function PoppedFrom(h: Option<Expiring>, k: Kind): Option<nat> {
    if h.Some? && h.value.kind == k && h.value.target.Some? then Some(h.value.target.value.popped) else None
  }

  // The popped timer belongs to the client remembered, which is still there; and a timer that was not
  // popped first is due.
  ghost predicate TargetOk(h: Option<Expiring>, cs: Clients, ds: Delegates) {
    h.Some? && h.value.target.Some? ==>
      var t := h.value.target.value;
      t.popped in ds && ds[t.popped].client == t.client && t.client in cs && Running(cs[t.client]) &&
      (!t.first ==> !Earlier(h.value.now.time, ds[t.popped].timer.time))
  }

  ghost predicate Life(s: State) {
    LinksOk(s.clients, s.delegates, s.next) && QueueOk(s.delegates, s.queue) &&
    Fits(Elems(s.sw.heap), Sw, s.delegates, s.queue, PoppedFrom(s.handling, Sw)) &&
    Fits(Elems(s.hw.heap), Hw, s.delegates, s.queue, PoppedFrom(s.handling, Hw)) &&
    TargetOk(s.handling, s.clients, s.delegates)
  }

  ghost predicate Heaps(s: State) {
    IsHeap(Ranks, s.sw.heap) && IsHeap(Ranks, s.hw.heap)
  }

  // ---------- Sending ----------

  lemma SendKeepsOrder(q: seq<Msg>, m: Msg)
    requires Once(q) && PushesFirst(q) && (m.ExpireMsg? || m !in q)
    requires m.PushMsg? ==> RemoveMsg(m.kind, m.id) !in q
    ensures Once(q + [m]) && PushesFirst(q + [m])
  {
  }

  lemma SendExpireFits(e: multiset<Timer>, k: Kind, ds: Delegates, q: seq<Msg>, popped: Option<nat>, m: Msg)
    requires Fits(e, k, ds, q, popped) && m.ExpireMsg?
    ensures Fits(e, k, ds, q + [m], popped)
  {
    forall x | x in e ensures EntryOk(x, k, ds, q + [m]) {
      assert EntryOk(x, k, ds, q);
    }
  }

  // A new delegate, with its push at the end of the queue.
  lemma StartKeepsQueue(ds: Delegates, q: seq<Msg>, id: nat, d: Delegate)
    requires QueueOk(ds, q) && id !in ds && d.attached && d.timer.id == id
    ensures QueueOk(ds[id := d], q + [PushMsg(d.kind, id)])
  {
    SendKeepsOrder(q, PushMsg(d.kind, id));
  }

  lemma StartFits(e: multiset<Timer>, k: Kind, ds: Delegates, q: seq<Msg>, popped: Option<nat>,
                  id: nat, d: Delegate)
    requires Fits(e, k, ds, q, popped) && id !in ds
    ensures Fits(e, k, ds[id := d], q + [PushMsg(d.kind, id)], popped)
  {
    forall x | x in e ensures EntryOk(x, k, ds[id := d], q + [PushMsg(d.kind, id)]) {
      assert EntryOk(x, k, ds, q);
    }
  }

  ghost function Detached(ds: Delegates, id: nat): Delegates
    requires id in ds
  {
    ds[id := ds[id].(attached := false)]
  }

  // A delegate loses its client, with its remove at the end of the queue.
  lemma StopKeepsQueue(ds: Delegates, q: seq<Msg>, id: nat)
    requires QueueOk(ds, q) && id in ds && ds[id].attached
    ensures QueueOk(Detached(ds, id), q + [RemoveMsg(ds[id].kind, id)])
  {
    SendKeepsOrder(q, RemoveMsg(ds[id].kind, id));
  }

  lemma StopFits(e: multiset<Timer>, k: Kind, ds: Delegates, q: seq<Msg>, popped: Option<nat>, id: nat)
    requires Fits(e, k, ds, q, popped) && id in ds
    ensures Fits(e, k, Detached(ds, id), q + [RemoveMsg(ds[id].kind, id)], popped)
  {
    forall x | x in e ensures EntryOk(x, k, Detached(ds, id), q + [RemoveMsg(ds[id].kind, id)]) {
      assert EntryOk(x, k, ds, q);
    }
  }

  // ---------- Receiving ----------

  lemma ReceiveKeepsOrder(q: seq<Msg>)
    requires q != [] && Once(q) && PushesFirst(q)
    ensures Once(q[1..]) && PushesFirst(q[1..])
    ensures !q[0].ExpireMsg? ==> q[0] !in q[1..]
    ensures q[0].RemoveMsg? ==> PushMsg(q[0].kind, q[0].id) !in q
    ensures forall m :: m in q <==> m == q[0] || m in q[1..]
  {
    assert q == [q[0]] + q[1..];
  }

  // An expire message, or a push for the other heap.
  lemma SkipFits(e: multiset<Timer>, k: Kind, ds: Delegates, q: seq<Msg>)
    requires q != [] && QueueOk(ds, q) && Fits(e, k, ds, q, None)
    requires !q[0].PushMsg? || q[0].kind != k
    ensures Fits(e, k, ds, q[1..], None)
  {
    ReceiveKeepsOrder(q);
    forall x | x in e ensures EntryOk(x, k, ds, q[1..]) {
      assert EntryOk(x, k, ds, q);
    }
  }

  lemma PushFits(e: multiset<Timer>, k: Kind, ds: Delegates, q: seq<Msg>, id: nat)
    requires q != [] && QueueOk(ds, q) && Fits(e, k, ds, q, None)
    requires q[0] == PushMsg(k, id)
    ensures Fits(e + multiset{ds[id].timer}, k, ds, q[1..], None)
  {
    ReceiveKeepsOrder(q);
    var t := ds[id].timer;
    assert t in e ==> EntryOk(t, k, ds, q);
    forall x | x in e + multiset{t} ensures (e + multiset{t})[x] == 1 && EntryOk(x, k, ds, q[1..]) {
      assert x in e ==> EntryOk(x, k, ds, q);
    }
  }

  // With its remove, a delegate is deleted: neither queue nor heap refers to it any more.
  lemma DeleteKeepsQueue(ds: Delegates, q: seq<Msg>)
    requires q != [] && QueueOk(ds, q) && q[0].RemoveMsg?
    ensures QueueOk(ds - {q[0].id}, q[1..])
    ensures forall m :: m in q[1..] && !m.ExpireMsg? ==> m.id != q[0].id
  {
    ReceiveKeepsOrder(q);
    forall m | m in q[1..] && !m.ExpireMsg? ensures m.id != q[0].id {
      assert m in q && m.kind == ds[m.id].kind;
    }
  }

  lemma DeleteFits(e: multiset<Timer>, k: Kind, ds: Delegates, q: seq<Msg>)
    requires q != [] && QueueOk(ds, q) && Fits(e, k, ds, q, None) && q[0].RemoveMsg?
    ensures Fits(e - multiset{ds[q[0].id].timer}, k, ds - {q[0].id}, q[1..], None)
    ensures q[0].kind != k ==> ds[q[0].id].timer !in e
  {
    var id, t := q[0].id, ds[q[0].id].timer;
    ReceiveKeepsOrder(q);
    assert t in e ==> EntryOk(t, k, ds, q);
    forall x | x in e - multiset{t} ensures (e - multiset{t})[x] == 1 && EntryOk(x, k, ds - {id}, q[1..]) {
      assert x in e && EntryOk(x, k, ds, q);
    }
  }

  lemma PopFits(e: multiset<Timer>, k: Kind, ds: Delegates, q: seq<Msg>, t: Timer)
    requires QueueOk(ds, q) && Fits(e + multiset{t}, k, ds, q, None)
    ensures Fits(e, k, ds, q, Some(t.id)) && EntryOk(t, k, ds, q)
  {
    assert t in e + multiset{t};
    forall x | x in e ensures e[x] == 1 && EntryOk(x, k, ds, q) {
      assert x in e + multiset{t} && EntryOk(x, k, ds, q);
    }
    forall d | d in ds && ds[d].attached && ds[d].kind == k && d != t.id ensures Placed(d, ds[d], q, e) {
      assert Placed(d, ds[d], q, e + multiset{t});
    }
  }

  // ---------- The steps, by what they change ----------

  ghost predicate SameHeaps(s: State, s': State) {
    s'.sw.heap == s.sw.heap && s'.hw.heap == s.hw.heap
  }

  ghost predicate SamePopped(s: State, s': State) {
    PoppedFrom(s'.handling, Sw) == PoppedFrom(s.handling, Sw) &&
    PoppedFrom(s'.handling, Hw) == PoppedFrom(s.handling, Hw)
  }

  // The invariant does not look at locks, logs, the kernel timers or the other threads.
  lemma SameLife(s: State, s': State)
    requires Life(s) && LinksOk(s'.clients, s'.delegates, s'.next)
    requires s'.delegates == s.delegates && s'.queue == s.queue && SameHeaps(s, s')
    requires SamePopped(s, s') && TargetOk(s'.handling, s'.clients, s'.delegates)
    ensures Life(s')
  {
  }

  lemma AddedKeepsLinks(cs: Clients, ds: Delegates, next: nat, d: Delegate)
    requires LinksOk(cs, ds, next) && d.client in cs && Running(cs[d.client]) && cs[d.client].current == None
    requires d.attached
    ensures LinksOk(cs[d.client := cs[d.client].(current := Some(next))], ds[next := d], next + 1)
  {
  }

  lemma DetachedKeepsLinks(cs: Clients, cs': Clients, ds: Delegates, next: nat, c: nat, d: nat)
    requires LinksOk(cs, ds, next) && c in cs && cs[c].current == Some(d)
    requires c in cs' && cs' == cs[c := cs'[c]] && cs'[c].current == None
    ensures d in ds && LinksOk(cs', Detached(ds, d), next)
  {
  }

  lemma DeletedKeepsLinks(cs: Clients, ds: Delegates, next: nat, d: nat)
    requires LinksOk(cs, ds, next) && d in ds && !ds[d].attached
    ensures LinksOk(cs, ds - {d}, next)
  {
  }

  lemma AddedKeepsLife(s: State, s': State, d: Delegate)
    requires Life(s) && d.attached && d.timer.id == s.next
    requires d.client in s.clients && Running(s.clients[d.client]) && s.clients[d.client].current == None
    requires s'.clients == s.clients[d.client := s.clients[d.client].(current := Some(s.next))]
    requires s'.delegates == s.delegates[s.next := d] && s'.next == s.next + 1
    requires s'.queue == s.queue + [PushMsg(d.kind, s.next)] && SameHeaps(s, s') && s'.handling == s.handling
    ensures Life(s')
  {
    assert s.next !in s.delegates;
    AddedKeepsLinks(s.clients, s.delegates, s.next, d);
    StartKeepsQueue(s.delegates, s.queue, s.next, d);
    StartFits(Elems(s.sw.heap), Sw, s.delegates, s.queue, PoppedFrom(s.handling, Sw), s.next, d);
    StartFits(Elems(s.hw.heap), Hw, s.delegates, s.queue, PoppedFrom(s.handling, Hw), s.next, d);
  }

  // Client c loses its delegate d; its destructor may have begun, unless it is remembered.
  lemma DetachedKeepsLife(s: State, s': State, c: nat, d: nat)
    requires Life(s) && c in s.clients && s.clients[c].current == Some(d)
    requires c in s'.clients && s'.clients == s.clients[c := s'.clients[c]] && s'.clients[c].current == None
    requires Remembered(s, c) ==> Running(s'.clients[c])
    requires s'.next == s.next && s'.delegates == Detached(s.delegates, d)
    requires s'.queue == s.queue + [RemoveMsg(s.delegates[d].kind, d)] && SameHeaps(s, s') && s'.handling == s.handling
    ensures Life(s')
  {
    DetachedKeepsLinks(s.clients, s'.clients, s.delegates, s.next, c, d);
    StopKeepsQueue(s.delegates, s.queue, d);
    StopFits(Elems(s.sw.heap), Sw, s.delegates, s.queue, PoppedFrom(s.handling, Sw), d);
    StopFits(Elems(s.hw.heap), Hw, s.delegates, s.queue, PoppedFrom(s.handling, Hw), d);
  }

  lemma ExpireSentKeepsLife(s: State, s': State, k: Kind)
    requires Life(s) && s'.clients == s.clients && s'.delegates == s.delegates && s'.next == s.next
    requires s'.queue == s.queue + [ExpireMsg(k)] && SameHeaps(s, s') && s'.handling == s.handling
    ensures Life(s')
  {
    SendKeepsOrder(s.queue, ExpireMsg(k));
    SendExpireFits(Elems(s.sw.heap), Sw, s.delegates, s.queue, PoppedFrom(s.handling, Sw), ExpireMsg(k));
    SendExpireFits(Elems(s.hw.heap), Hw, s.delegates, s.queue, PoppedFrom(s.handling, Hw), ExpireMsg(k));
  }

  // The heap for k after the message at the head of the queue has been handled.
  function ReceivedHeap(s: State, k: Kind): Tree<Timer>
    requires s.queue != []
  {
    var m, heap := s.queue[0], ContainerOf(s, k).heap;
    if m.ExpireMsg? || m.kind != k || m.id !in s.delegates then heap
    else if m.PushMsg? then Push(Ranks, heap, s.delegates[m.id].timer)
    else AfterRemove(heap, s.delegates[m.id].timer)
  }

  ghost predicate IsReceived(s: State, s': State) {
    s.queue != [] && s.handling.None? && (s'.handling.Some? ==> s'.handling.value.target.None?) &&
    s'.clients == s.clients && s'.next == s.next && s'.queue == s.queue[1..] &&
    s'.delegates == (if s.queue[0].RemoveMsg? then s.delegates - {s.queue[0].id} else s.delegates) &&
    s'.sw.heap == ReceivedHeap(s, Sw) && s'.hw.heap == ReceivedHeap(s, Hw)
  }

  lemma PushedKeepsLife(s: State, s': State)
    requires Life(s) && IsReceived(s, s') && s.queue[0].PushMsg?
    ensures Life(s')
  {
    var k, id := s.queue[0].kind, s.queue[0].id;
    var heap, other := ContainerOf(s, k).heap, if k.Sw? then Hw else Sw;
    ReceiveKeepsOrder(s.queue);
    PushElems(Ranks, heap, s.delegates[id].timer);
    PushFits(Elems(heap), k, s.delegates, s.queue, id);
    SkipFits(Elems(ContainerOf(s, other).heap), other, s.delegates, s.queue);
  }

  lemma DeletedKeepsLife(s: State, s': State)
    requires Life(s) && IsReceived(s, s') && s.queue[0].RemoveMsg?
    requires Elems(s'.sw.heap) == Elems(s.sw.heap) - multiset{s.delegates[s.queue[0].id].timer}
    requires Elems(s'.hw.heap) == Elems(s.hw.heap) - multiset{s.delegates[s.queue[0].id].timer}
    ensures Life(s')
  {
    assert s.queue[0] in s.queue;
    DeletedKeepsLinks(s.clients, s.delegates, s.next, s.queue[0].id);
    DeleteKeepsQueue(s.delegates, s.queue);
    DeleteFits(Elems(s.sw.heap), Sw, s.delegates, s.queue);
    DeleteFits(Elems(s.hw.heap), Hw, s.delegates, s.queue);
  }

  lemma SkippedKeepsLife(s: State, s': State)
    requires Life(s) && IsReceived(s, s') && s.queue[0].ExpireMsg?
    ensures Life(s')
  {
    ReceiveKeepsOrder(s.queue);
    SkipFits(Elems(s.sw.heap), Sw, s.delegates, s.queue);
    SkipFits(Elems(s.hw.heap), Hw, s.delegates, s.queue);
  }

  // What is removed from its own heap was in no other.
  lemma RemovedFromHeap(s: State, k: Kind)
    requires Life(s) && s.handling.None? && s.queue != [] && s.queue[0].RemoveMsg?
    requires IsHeap(Ranks, ContainerOf(s, k).heap)
    ensures Elems(ReceivedHeap(s, k)) == Elems(ContainerOf(s, k).heap) - multiset{s.delegates[s.queue[0].id].timer}
  {
    var m, heap := s.queue[0], ContainerOf(s, k).heap;
    var t := s.delegates[m.id].timer;
    if m.kind == k {
      RemoveTimer(heap, t);
    } else {
      DeleteFits(Elems(heap), k, s.delegates, s.queue);
    }
  }

  lemma ReceivedKeepsLife(s: State, s': State)
    requires Life(s) && Heaps(s) && IsReceived(s, s')
    ensures Life(s')
  {
    match s.queue[0]
    case PushMsg(_, _) => PushedKeepsLife(s, s');
    case RemoveMsg(_, _) =>
      RemovedFromHeap(s, Sw);
      RemovedFromHeap(s, Hw);
      DeletedKeepsLife(s, s');
    case ExpireMsg(_) => SkippedKeepsLife(s, s');
  }

  // A pop from the heap for k, and the read of the popped timer's client.
  ghost predicate IsPopped(s: State, s': State, k: Kind) {
    s.handling.Some? && s.handling.value.kind == k && PopsOnce(s) && s'.handling.Some? &&
    var h, heap, other := s.handling.value, ContainerOf(s, k).heap, if k.Sw? then Hw else Sw;
    s'.handling == Some(h.(first := false, target := TargetOf(s, heap.data.id, h.first))) &&
    s'.clients == s.clients && s'.delegates == s.delegates && s'.next == s.next && s'.queue == s.queue &&
    ContainerOf(s', other).heap == ContainerOf(s, other).heap &&
    ContainerOf(s', k).heap == Pop(Ranks, heap)
  }

  // The popped timer need not be placed until it is stopped, and afterwards no more.
  lemma PoppedKeepsLife(s: State, s': State, k: Kind)
    requires Life(s) && IsPopped(s, s', k)
    ensures Life(s')
  {
    var heap: Tree<Timer> := ContainerOf(s, k).heap;
    var rest: multiset<Timer> := Elems<Timer>(Pop<Timer>(Ranks, heap));
    PopElems<Timer>(Ranks, heap);
    assert Elems<Timer>(heap) == rest + multiset{heap.data};
    PopFits(rest, k, s.delegates, s.queue, heap.data);
    OutRanksIsEarlier(s.handling.value.now, heap.data);
    if !s.delegates[heap.data.id].attached {
      NotPlaced(rest, k, s.delegates, s.queue, heap.data.id);
    }
  }

  // A detached delegate need not be in any heap.
  lemma NotPlaced(e: multiset<Timer>, k: Kind, ds: Delegates, q: seq<Msg>, popped: nat)
    requires Fits(e, k, ds, q, Some(popped)) && popped in ds && !ds[popped].attached
    ensures Fits(e, k, ds, q, None)
  {
  }

  // Once the popped timer is detached, it can be forgotten.
  lemma ForgottenKeepsLife(s: State, s': State)
    requires Life(s) && s.handling.Some? && s.handling.value.target.Some?
    requires !s.delegates[s.handling.value.target.value.popped].attached
    requires s' == s.(handling := Some(s.handling.value.(target := None)))
    ensures Life(s')
  {
    var k, popped := s.handling.value.kind, s.handling.value.target.value.popped;
    NotPlaced(Elems(ContainerOf(s, k).heap), k, s.delegates, s.queue, popped);
  }

  // ---------- The steps themselves ----------

  lemma StartKeepsLife(s: State, c: nat, ms: UInt32, k: Kind)
    requires Life(s) && c in s.clients && Running(s.clients[c])
    ensures Life(StartTimer(s, c, ms, k))
  {
    if s.clients[c].current.None? {
      var s' := StartTimer(s, c, ms, k);
      AddedKeepsLife(s, s', s'.delegates[s.next]);
    }
  }

  // stop(), called by a client or by expire().
  lemma StopKeepsLife(s: State, c: nat, onExpiry: bool)
    requires Life(s) && c in s.clients
    ensures var s' := StopTimer(s, c, onExpiry);
      Life(s') && s'.handling == s.handling && c in s'.clients && s'.clients[c].current == None
  {
    if s.clients[c].current.Some? {
      DetachedKeepsLife(s, StopTimer(s, c, onExpiry), c, s.clients[c].current.value);
    }
  }

  // The destructor's stop().
  lemma DeleteKeepsLife(s: State, c: nat)
    requires Life(s) && c in s.clients && !Remembered(s, c)
    ensures Life(DeleteTimer(s, c))
  {
    if s.clients[c].current.Some? {
      DetachedKeepsLife(s, DeleteTimer(s, c), c, s.clients[c].current.value);
    } else {
      SameLife(s, DeleteTimer(s, c));
    }
  }

  // The destructor's drop of the lock.
  lemma FinishKeepsLife(s: State, c: nat)
    requires Life(s) && c in s.clients && s.clients[c].dying
    ensures Life(DropLock(s, c))
  {
    SameLife(s, DropLock(s, c));
  }

  lemma PollChanges(s: State)
    requires s.poll.Serving? && s.poll.todo != []
    ensures var s' := PollStep(s);
      s'.clients == s.clients && s'.delegates == s.delegates && s'.next == s.next && s'.handling == s.handling &&
      s'.queue == (if s.poll.stage < 2 then s.queue else s.queue + [ExpireMsg(s.poll.todo[0])]) && SameHeaps(s, s')
  {
  }

  lemma PollKeepsLife(s: State)
    requires Life(s) && s.poll.Serving? && s.poll.todo != []
    ensures Life(PollStep(s))
  {
    PollChanges(s);
    if s.poll.stage < 2 {
      SameLife(s, PollStep(s));
    } else {
      ExpireSentKeepsLife(s, PollStep(s), s.poll.todo[0]);
    }
  }

  lemma ReceiveChanges(s: State)
    requires s.queue != [] && s.handling.None?
    ensures IsReceived(s, Receive(s))
  {
    var m := s.queue[0];
    if !m.ExpireMsg? {
      if m.id in s.delegates {
        HandlersOnHeap(ContainerOf(s, m.kind), s.delegates[m.id].timer);
      } else {
        assert s.delegates - {m.id} == s.delegates;
      }
    }
  }

  lemma PopChanges(s: State)
    requires s.handling.Some? && PopsOnce(s)
    ensures IsPopped(s, PopTop(s), s.handling.value.kind)
  {
  }

  // After expire()'s stop() the popped timer is detached, whoever stopped it.
  lemma ExpireStopKeepsLife(s: State)
    requires Life(s) && s.handling.Some? && s.handling.value.target.Some?
    ensures Life(ExpireStop(s))
  {
    var t := s.handling.value.target.value;
    StopKeepsLife(s, t.client, true);
    ForgottenKeepsLife(StopTimer(s, t.client, true), ExpireStop(s));
  }

  lemma ExpireKeepsLife(s: State)
    requires Life(s) && s.handling.Some?
    ensures Life(ExpireStep(s))
  {
    if s.handling.value.target.Some? {
      ExpireStopKeepsLife(s);
    } else if PopsOnce(s) {
      PopChanges(s);
      PoppedKeepsLife(s, PopTop(s), s.handling.value.kind);
    } else {
      SameLife(s, ExpireStep(s));
    }
  }

  lemma NextKeepsLife(s: State, a: Action)
    requires Life(s) && Heaps(s)
    ensures Life(Next(s, a))
  {
    if Enabled(s, a) {
      match a
      case New(c) => SameLife(s, Next(s, a));
      case Start(c, ms, k) => StartKeepsLife(s, c, ms, k);
      case Stop(c) => StopKeepsLife(s, c, false);
      case Delete(c) => DeleteKeepsLife(s, c);
      case FinishDelete(c) => FinishKeepsLife(s, c);
      case Tick(t) => SameLife(s, Next(s, a));
      case PollWake(todo) => SameLife(s, Next(s, a));
      case PollAct => PollKeepsLife(s);
      case MsgReceive =>
        ReceiveChanges(s);
        ReceivedKeepsLife(s, Receive(s));
      case MsgExpire => ExpireKeepsLife(s);
    }
  }

  // ---------- The heaps stay heaps ----------

  lemma ReceivedHeapIsHeap(s: State, k: Kind)
    requires IsHeap(Ranks, ContainerOf(s, k).heap) && s.queue != []
    ensures IsHeap(Ranks, ReceivedHeap(s, k))
  {
    var m, heap := s.queue[0], ContainerOf(s, k).heap;
    if !m.ExpireMsg? && m.kind == k && m.id in s.delegates {
      if m.PushMsg? {
        PushTimer(heap, s.delegates[m.id].timer);
      } else {
        RemoveTimer(heap, s.delegates[m.id].timer);
      }
    }
  }

  lemma ExpiredHeap(s: State, k: Kind)
    requires s.handling.Some?
    ensures ContainerOf(ExpireStep(s), k).heap ==
      if PopsOnce(s) && s.handling.value.kind == k then Pop(Ranks, ContainerOf(s, k).heap) else ContainerOf(s, k).heap
  {
  }

  lemma NextKeepsHeap(s: State, a: Action, k: Kind)
    requires IsHeap(Ranks, ContainerOf(s, k).heap)
    ensures IsHeap(Ranks, ContainerOf(Next(s, a), k).heap)
  {
    if Enabled(s, a) && a.MsgReceive? {
      ReceiveChanges(s);
      ReceivedHeapIsHeap(s, k);
    } else if Enabled(s, a) && a.MsgExpire? {
      ExpiredHeap(s, k);
      if PopsOnce(s) && s.handling.value.kind == k { PopTimer(ContainerOf(s, k).heap); }
    } else {
      assert ContainerOf(Next(s, a), k).heap == ContainerOf(s, k).heap;
    }
  }

  // ---------- All runs ----------

  lemma {:induction false} LifeAlways(now: Clock, run: seq<Action>)
    ensures Life(After(now, run)) && Heaps(After(now, run))
  {
    if run != [] {
      LifeAlways(now, run[..|run| - 1]);
      var s, a := After(now, run[..|run| - 1]), run[|run| - 1];
      NextKeepsLife(s, a);
      NextKeepsHeap(s, a, Sw);
      NextKeepsHeap(s, a, Hw);
    }
  }
}
