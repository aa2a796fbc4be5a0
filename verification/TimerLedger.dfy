/** The books of the timer service: who holds a shared lock, how each started timer ended, and what
    was deleted. */
module TimerLedger {
  import opened Options
  import opened TimerTime
  import opened TimerProtocol
  import opened TimerLifetime
  import opened LocSharedLock

  // ---------- The invariant ----------

  // The delegates that share the lock of client c.
  ghost function Holders(ds: Delegates, c: nat): set<nat> {
    set d | d in ds && ds[d].client == c
  }

  // mRef counts the LocTimer, while it is alive, and the delegates that have not been deleted.
  ghost predicate RefsOk(cs: Clients, ds: Delegates, locks: map<nat, int>) {
    (forall c :: c in cs ==> RefOf(locks, c) == (if cs[c].alive then 1 else 0) + |Holders(ds, c)|) &&
    forall c :: c in locks ==> c in cs && locks[c] >= 1
  }

  ghost predicate Distinct(s: seq<nat>) {
    forall i, j :: 0 <= i < j < |s| ==> s[i] != s[j]
  }

  // A lock is destroyed once, and exactly when its count is gone.
  ghost predicate DestroyedOk(cs: Clients, locks: map<nat, int>, destroyed: seq<nat>) {
    Distinct(destroyed) && forall c :: c in destroyed <==> c in cs && c !in locks
  }

  // A delegate is deleted once, and exactly when it is gone.
  ghost predicate DeletedOk(ds: Delegates, next: nat, deleted: seq<nat>) {
    Distinct(deleted) && forall d :: d in deleted <==> 0 <= d < next && d !in ds
  }

  ghost predicate HasEnded(ended: seq<Ending>, d: nat) {
    exists i :: 0 <= i < |ended| && ended[i].id == d
  }

  // Every start ends at most once, by its callback or by a stop, and has not ended while it runs.
  ghost predicate EndedOk(ds: Delegates, next: nat, ended: seq<Ending>) {
    (forall i, j :: 0 <= i < j < |ended| ==> ended[i].id != ended[j].id) &&
    (forall i :: 0 <= i < |ended| ==> ended[i].id < next) &&
    forall d: nat :: d < next ==> (HasEnded(ended, d) <==> !(d in ds && ds[d].attached))
  }

  ghost predicate Ledger(s: State) {
    RefsOk(s.clients, s.delegates, s.locks) && DestroyedOk(s.clients, s.locks, s.destroyed) &&
    DeletedOk(s.delegates, s.next, s.deleted) && EndedOk(s.delegates, s.next, s.ended)
  }

  // ---------- Counting holders ----------

  lemma HoldersOfAdded(ds: Delegates, id: nat, d: Delegate, c: nat)
    requires id !in ds
    ensures |Holders(ds[id := d], c)| == |Holders(ds, c)| + if d.client == c then 1 else 0
  {
    if d.client == c {
      assert Holders(ds[id := d], c) == Holders(ds, c) + {id};
    } else {
      assert Holders(ds[id := d], c) == Holders(ds, c);
    }
  }

  lemma HoldersOfRemoved(ds: Delegates, id: nat, c: nat)
    requires id in ds
    ensures |Holders(ds, c)| == |Holders(ds - {id}, c)| + if ds[id].client == c then 1 else 0
  {
    if ds[id].client == c {
      assert Holders(ds, c) == Holders(ds - {id}, c) + {id};
    } else {
      assert Holders(ds, c) == Holders(ds - {id}, c);
    }
  }

  lemma HoldersOfDetached(ds: Delegates, id: nat, c: nat)
    requires id in ds
    ensures Holders(Detached(ds, id), c) == Holders(ds, c)
  {
  }

  // ---------- Locks ----------

  lemma NewKeepsRefs(cs: Clients, ds: Delegates, locks: map<nat, int>, c: nat)
    requires RefsOk(cs, ds, locks) && c !in cs && forall d :: d in ds ==> ds[d].client in cs
    ensures RefsOk(cs[c := Client(true, false, None)], ds, locks[c := 1])
  {
    assert Holders(ds, c) == {};
  }

  lemma ShareKeepsRefs(cs: Clients, ds: Delegates, locks: map<nat, int>, id: nat, d: Delegate)
    requires RefsOk(cs, ds, locks) && id !in ds && d.client in cs && cs[d.client].alive
    ensures RefsOk(cs[d.client := cs[d.client].(current := Some(id))], ds[id := d],
                   locks[d.client := AfterShare(RefOf(locks, d.client))])
  {
    forall c | c in cs ensures |Holders(ds[id := d], c)| == |Holders(ds, c)| + if d.client == c then 1 else 0 {
      HoldersOfAdded(ds, id, d, c);
    }
  }

  lemma DeadDropKeepsRefs(cs: Clients, ds: Delegates, locks: map<nat, int>, c: nat)
    requires RefsOk(cs, ds, locks) && c in cs && cs[c].alive
    ensures c in locks && RefsOk(cs[c := cs[c].(alive := false)], ds, Dropped(locks, c))
  {
  }

  lemma DeletedDropKeepsRefs(cs: Clients, ds: Delegates, locks: map<nat, int>, id: nat)
    requires RefsOk(cs, ds, locks) && id in ds && ds[id].client in cs
    ensures ds[id].client in locks && RefsOk(cs, ds - {id}, Dropped(locks, ds[id].client))
  {
    forall c | c in cs ensures |Holders(ds, c)| == |Holders(ds - {id}, c)| + if ds[id].client == c then 1 else 0 {
      HoldersOfRemoved(ds, id, c);
    }
  }

  lemma DropKeepsDestroyed(cs: Clients, locks: map<nat, int>, destroyed: seq<nat>, c: nat)
    requires DestroyedOk(cs, locks, destroyed) && c in cs && c in locks
    ensures DestroyedOk(cs, Dropped(locks, c), if RefOf(locks, c) == 1 then destroyed + [c] else destroyed)
  {
  }

  // ---------- Endings ----------

  lemma StartKeepsEnded(ds: Delegates, next: nat, ended: seq<Ending>, d: Delegate)
    requires EndedOk(ds, next, ended) && d.attached
    ensures EndedOk(ds[next := d], next + 1, ended)
  {
  }

  lemma StopKeepsEnded(ds: Delegates, next: nat, ended: seq<Ending>, e: Ending)
    requires EndedOk(ds, next, ended) && e.id < next && e.id in ds && ds[e.id].attached
    ensures EndedOk(Detached(ds, e.id), next, ended + [e])
  {
    forall d: nat | d < next
      ensures HasEnded(ended + [e], d) <==> !(d in ds && Detached(ds, e.id)[d].attached)
    {
      if HasEnded(ended, d) {
        var i :| 0 <= i < |ended| && ended[i].id == d;
        assert (ended + [e])[i].id == d;
      }
      if d == e.id { assert (ended + [e])[|ended|].id == d; }
      if d != e.id && HasEnded(ended + [e], d) {
        var i :| 0 <= i < |ended + [e]| && (ended + [e])[i].id == d;
        assert ended[i].id == d;
      }
    }
  }

  lemma DeleteKeepsLogs(ds: Delegates, next: nat, ended: seq<Ending>, deleted: seq<nat>, d: nat)
    requires EndedOk(ds, next, ended) && DeletedOk(ds, next, deleted) && d < next && d in ds && !ds[d].attached
    ensures EndedOk(ds - {d}, next, ended) && DeletedOk(ds - {d}, next, deleted + [d])
  {
  }

  // ---------- The steps ----------

  lemma NewKeepsLedger(s: State, c: nat)
    requires Ledger(s) && Life(s) && c !in s.clients
    ensures Ledger(Next(s, New(c)))
  {
    NewKeepsRefs(s.clients, s.delegates, s.locks, c);
  }

  lemma StartKeepsLedger(s: State, c: nat, ms: UInt32, k: Kind)
    requires Ledger(s) && Life(s) && c in s.clients && Running(s.clients[c])
    ensures Ledger(StartTimer(s, c, ms, k))
  {
    if s.clients[c].current.None? {
      StartBooks(s, c, ms, k);
      StartedKeepsLedger(s, StartTimer(s, c, ms, k), StartTimer(s, c, ms, k).delegates[s.next]);
    }
  }

  lemma StartBooks(s: State, c: nat, ms: UInt32, k: Kind)
    requires c in s.clients && s.clients[c].current.None?
    ensures var s' := StartTimer(s, c, ms, k);
      s.next in s'.delegates && s'.delegates[s.next].attached && s'.delegates[s.next].client == c &&
      s'.clients == s.clients[c := s.clients[c].(current := Some(s.next))] &&
      s'.delegates == s.delegates[s.next := s'.delegates[s.next]] && s'.next == s.next + 1 &&
      s'.locks == s.locks[c := AfterShare(RefOf(s.locks, c))] &&
      s'.ended == s.ended && s'.deleted == s.deleted && s'.destroyed == s.destroyed
  {
  }

  // The books of a start: a new delegate d with a share of its client's lock.
  lemma StartedKeepsLedger(s: State, s': State, d: Delegate)
    requires Ledger(s) && Life(s) && d.client in s.clients && Running(s.clients[d.client]) && d.attached
    requires s'.clients == s.clients[d.client := s.clients[d.client].(current := Some(s.next))]
    requires s'.delegates == s.delegates[s.next := d] && s'.next == s.next + 1
    requires s'.locks == s.locks[d.client := AfterShare(RefOf(s.locks, d.client))]
    requires s'.ended == s.ended && s'.deleted == s.deleted && s'.destroyed == s.destroyed
    ensures Ledger(s')
  {
    assert s.next !in s.delegates;
    ShareKeepsRefs(s.clients, s.delegates, s.locks, s.next, d);
    StartKeepsEnded(s.delegates, s.next, s.ended, d);
  }

  // What the books know of a step in which client c loses its delegate d.
  lemma DetachedKeepsLedger(s: State, s': State, c: nat, e: Ending)
    requires Ledger(s) && Life(s) && c in s.clients && s.clients[c].current == Some(e.id)
    requires c in s'.clients && s'.clients == s.clients[c := s'.clients[c]] && s'.next == s.next
    requires s'.clients[c].alive == s.clients[c].alive
    requires s'.delegates == Detached(s.delegates, e.id) && s'.ended == s.ended + [e]
    requires s'.locks == s.locks && s'.deleted == s.deleted && s'.destroyed == s.destroyed
    ensures Ledger(s')
  {
    StopKeepsEnded(s.delegates, s.next, s.ended, e);
    forall c' | c' in s.clients ensures Holders(s'.delegates, c') == Holders(s.delegates, c') {
      HoldersOfDetached(s.delegates, e.id, c');
    }
  }

  ghost predicate SameBooks(s: State, s': State) {
    s'.clients == s.clients && s'.delegates == s.delegates && s'.next == s.next && s'.locks == s.locks &&
    s'.ended == s.ended && s'.deleted == s.deleted && s'.destroyed == s.destroyed
  }

  lemma SameBooksKeepLedger(s: State, s': State)
    requires Ledger(s) && SameBooks(s, s')
    ensures Ledger(s')
  {
  }

  lemma StopKeepsLedger(s: State, c: nat, onExpiry: bool)
    requires Ledger(s) && Life(s) && c in s.clients
    ensures Ledger(StopTimer(s, c, onExpiry))
  {
    if s.clients[c].current.Some? {
      var d := s.clients[c].current.value;
      DetachedKeepsLedger(s, StopTimer(s, c, onExpiry), c, if onExpiry then CalledBack(d) else Stopped(d));
    }
  }

  lemma DeadKeepsLedger(s: State, s': State, c: nat)
    requires Ledger(s) && c in s.clients && s.clients[c].alive
    requires s'.clients == s.clients[c := s.clients[c].(alive := false)] && s'.locks == Dropped(s.locks, c)
    requires s'.destroyed == if RefOf(s.locks, c) == 1 then s.destroyed + [c] else s.destroyed
    requires s'.delegates == s.delegates && s'.next == s.next && s'.ended == s.ended && s'.deleted == s.deleted
    ensures Ledger(s')
  {
    DeadDropKeepsRefs(s.clients, s.delegates, s.locks, c);
    DropKeepsDestroyed(s.clients, s.locks, s.destroyed, c);
  }

  // The destructor's stop().
  lemma DeleteTimerKeepsLedger(s: State, c: nat)
    requires Ledger(s) && Life(s) && c in s.clients
    ensures Ledger(DeleteTimer(s, c))
  {
    if s.clients[c].current.Some? {
      var d := s.clients[c].current.value;
      DeleteBooks(s, c);
      DetachedKeepsLedger(s, DeleteTimer(s, c), c, Stopped(d));
    } else {
      UnchangedCountsKeepLedger(s, DeleteTimer(s, c));
    }
  }

  // The destructor's drop of the lock; the message thread may have deleted the delegate before.
  lemma FinishKeepsLedger(s: State, c: nat)
    requires Ledger(s) && c in s.clients && s.clients[c].alive
    ensures Ledger(DropLock(s, c))
  {
    FinishBooks(s, c);
    DeadKeepsLedger(s, DropLock(s, c), c);
  }

  lemma FinishBooks(s: State, c: nat)
    requires c in s.clients
    ensures var s' := DropLock(s, c);
      s'.clients == s.clients[c := s.clients[c].(alive := false)] && s'.locks == Dropped(s.locks, c) &&
      s'.destroyed == (if RefOf(s.locks, c) == 1 then s.destroyed + [c] else s.destroyed) &&
      s'.delegates == s.delegates && s'.next == s.next && s'.ended == s.ended && s'.deleted == s.deleted
  {
  }

  // The books do not record that a destructor has begun.
  lemma UnchangedCountsKeepLedger(s: State, s': State)
    requires Ledger(s) && s'.clients.Keys == s.clients.Keys
    requires forall c :: c in s.clients ==> s'.clients[c].alive == s.clients[c].alive
    requires SameBooks(s, s'.(clients := s.clients))
    ensures Ledger(s')
  {
  }

  lemma DeleteBooks(s: State, c: nat)
    requires c in s.clients && s.clients[c].current.Some?
    requires s.clients[c].current.value in s.delegates && s.delegates[s.clients[c].current.value].attached
    ensures var s', d := DeleteTimer(s, c), s.clients[c].current.value;
      c in s'.clients && s'.clients == s.clients[c := s'.clients[c]] && s'.clients[c].alive == s.clients[c].alive &&
      s'.next == s.next && s'.delegates == Detached(s.delegates, d) && s'.ended == s.ended + [Stopped(d)] &&
      s'.locks == s.locks && s'.deleted == s.deleted && s'.destroyed == s.destroyed
  {
    StopBooks(BeginDelete(s, c), c, false);
  }

  lemma DeletedKeepsLedger(s: State, s': State, d: nat)
    requires Ledger(s) && d in s.delegates && !s.delegates[d].attached
    requires d < s.next && s.delegates[d].client in s.clients
    requires s'.clients == s.clients && s'.next == s.next && s'.ended == s.ended
    requires s'.delegates == s.delegates - {d} && s'.deleted == s.deleted + [d]
    requires s'.locks == Dropped(s.locks, s.delegates[d].client)
    requires s'.destroyed ==
      if RefOf(s.locks, s.delegates[d].client) == 1 then s.destroyed + [s.delegates[d].client] else s.destroyed
    ensures Ledger(s')
  {
    DeletedDropKeepsRefs(s.clients, s.delegates, s.locks, d);
    DropKeepsDestroyed(s.clients, s.locks, s.destroyed, s.delegates[d].client);
    DeleteKeepsLogs(s.delegates, s.next, s.ended, s.deleted, d);
  }

  // The books of a message: only a remove changes them.
  lemma ReceiveBooks(s: State)
    requires s.queue != [] && (!s.queue[0].ExpireMsg? ==> s.queue[0].id in s.delegates)
    ensures var s', m := Receive(s), s.queue[0];
      if !m.RemoveMsg? then SameBooks(s, s') else
      s'.clients == s.clients && s'.next == s.next && s'.ended == s.ended &&
      s'.delegates == s.delegates - {m.id} && s'.deleted == s.deleted + [m.id] &&
      s'.locks == Dropped(s.locks, s.delegates[m.id].client) &&
      s'.destroyed == if RefOf(s.locks, s.delegates[m.id].client) == 1
                      then s.destroyed + [s.delegates[m.id].client] else s.destroyed
  {
  }

  lemma ReceiveKeepsLedger(s: State)
    requires Ledger(s) && Life(s) && s.queue != []
    ensures Ledger(Receive(s))
  {
    var m := s.queue[0];
    assert m in s.queue;
    ReceiveBooks(s);
    if m.RemoveMsg? {
      DeletedKeepsLedger(s, Receive(s), m.id);
    } else {
      SameBooksKeepLedger(s, Receive(s));
    }
  }

  lemma PopTopBooks(s: State)
    requires s.handling.Some? && PopsOnce(s)
    ensures SameBooks(s, PopTop(s))
  {
  }

  // expire()'s stop() is a stop() on the client remembered.
  lemma ExpireStopBooks(s: State)
    requires s.handling.Some? && s.handling.value.target.Some? && s.handling.value.target.value.client in s.clients
    ensures SameBooks(StopTimer(s, s.handling.value.target.value.client, true), ExpireStop(s))
  {
  }

  lemma ExpireStopKeepsLedger(s: State)
    requires Ledger(s) && Life(s) && s.handling.Some? && s.handling.value.target.Some?
    ensures Ledger(ExpireStop(s))
  {
    var c := s.handling.value.target.value.client;
    StopKeepsLedger(s, c, true);
    ExpireStopBooks(s);
    SameBooksKeepLedger(StopTimer(s, c, true), ExpireStop(s));
  }

  lemma HandlingEndBooks(s: State)
    requires s.handling.Some? && s.handling.value.target.None? && !PopsOnce(s)
    ensures SameBooks(s, ExpireStep(s))
  {
  }

  lemma ExpireKeepsLedger(s: State)
    requires Ledger(s) && Life(s) && s.handling.Some?
    ensures Ledger(ExpireStep(s))
  {
    if s.handling.value.target.Some? {
      ExpireStopKeepsLedger(s);
    } else if PopsOnce(s) {
      PopTopBooks(s);
      SameBooksKeepLedger(s, PopTop(s));
    } else {
      HandlingEndBooks(s);
      SameBooksKeepLedger(s, ExpireStep(s));
    }
  }

  lemma StopBooks(s: State, c: nat, onExpiry: bool)
    requires c in s.clients && s.clients[c].current.Some?
    requires s.clients[c].current.value in s.delegates && s.delegates[s.clients[c].current.value].attached
    ensures var s', d := StopTimer(s, c, onExpiry), s.clients[c].current.value;
      s'.clients == s.clients[c := s.clients[c].(current := None)] && s'.next == s.next &&
      s'.delegates == Detached(s.delegates, d) &&
      s'.ended == s.ended + [if onExpiry then CalledBack(d) else Stopped(d)] &&
      s'.locks == s.locks && s'.deleted == s.deleted && s'.destroyed == s.destroyed
  {
  }

  // The clock and the epoll thread do not touch the books.
  lemma ClockAndPollBooks(s: State, a: Action)
    requires a.Tick? || a.PollWake? || a.PollAct?
    ensures SameBooks(s, Next(s, a))
  {
  }

  lemma ClientKeepsLedger(s: State, a: Action)
    requires Ledger(s) && Life(s) && Enabled(s, a) && (a.New? || a.Start? || a.Stop? || a.Delete? || a.FinishDelete?)
    ensures Ledger(Next(s, a))
  {
    match a
    case New(c) => NewKeepsLedger(s, c);
    case Start(c, ms, k) => StartKeepsLedger(s, c, ms, k);
    case Stop(c) => StopKeepsLedger(s, c, false);
    case Delete(c) => DeleteTimerKeepsLedger(s, c);
    case FinishDelete(c) => FinishKeepsLedger(s, c);
  }

  lemma NextKeepsLedger(s: State, a: Action)
    requires Ledger(s) && Life(s)
    ensures Ledger(Next(s, a))
  {
    if Enabled(s, a) {
      if a.Tick? || a.PollWake? || a.PollAct? {
        ClockAndPollBooks(s, a);
        SameBooksKeepLedger(s, Next(s, a));
      } else if a.MsgReceive? {
        ReceiveKeepsLedger(s);
      } else if a.MsgExpire? {
        ExpireKeepsLedger(s);
      } else {
        ClientKeepsLedger(s, a);
      }
    }
  }

  // ---------- All runs ----------

  lemma {:induction false} LedgerAlways(now: Clock, run: seq<Action>)
    ensures Ledger(After(now, run))
  {
    if run == [] {
      assert forall d :: !HasEnded([], d);
    } else {
      LedgerAlways(now, run[..|run| - 1]);
      LifeAlways(now, run[..|run| - 1]);
      NextKeepsLedger(After(now, run[..|run| - 1]), run[|run| - 1]);
    }
  }
}
