/** The life of a LocThreadDelegate of gps/utils/LocThread.cpp, shared between the thread that created
    it and the thread it runs. Every access to the object is a step of its own, so that runs
    interleave the two threads at that grain. */
module LocThread {
  import opened Options

  // The last calls of either thread: destroy() tests mRefCount, then decrements it under the mutex,
  // and whoever took it to zero deletes the object.
  datatype Leaving = TestCount | Decrement | Delete | Gone

  datatype Parent =
    | Idle                        // before LocThread::start
    | Constructing                // the thread runs; naming or detaching it is still to come
    | Checking                    // create() is about to look at isRunning()
    | Holding                     // start() has returned true
    | Stopping                    // stop() has reset mRunnable
    | Joining                     // inside pthread_join
    | ParentLeaves(at: Leaving)

  datatype Child =
    | Unborn
    | Born                        // about to read mRunnable
    | Looping                     // in threadMain's while loop
    | Resetting                   // about to set mRunnable to NULL
    | Releasing                   // about to delete the runnable
    | ChildLeaves(at: Leaving)

  datatype State = State(
    parent: Parent,
    child: Child,
    runnable: bool,               // mRunnable != NULL
    joinable: bool,
    refCount: int,
    started: Option<bool>,        // what start() returned
    spawned: bool,
    sawRunnable: bool,            // the child found mRunnable set
    runnableDeletes: nat,
    deletes: nat,                 // of the delegate
    dangling: bool)               // some step touched it after that

  const INIT := State(Idle, Unborn, false, false, 0, None, false, false, 0, 0, false)

  datatype Action =
    | Start(created: bool, joinable: bool)
    | FinishConstruction
    | CheckRunning
    | CallStop
    | CallBye
    | AfterReset
    | Joined
    | ParentStep
    | ReadRunnable
    | Loop(again: bool)           // what run() returns
    | Reset
    | DeleteRunnable
    | ChildStep

  predicate Enabled(s: State, a: Action) {
    match a
    case Start(_, _) => s.parent.Idle?
    case FinishConstruction => s.parent.Constructing?
    case CheckRunning => s.parent.Checking?
    case CallStop => s.parent.Holding?
    case CallBye => s.parent.Holding?
    case AfterReset => s.parent.Stopping?
    case Joined => s.parent.Joining? && s.child == ChildLeaves(Gone)
    case ParentStep => s.parent.ParentLeaves? && !s.parent.at.Gone?
    case ReadRunnable => s.child.Born?
    case Loop(_) => s.child.Looping?
    case Reset => s.child.Resetting?
    case DeleteRunnable => s.child.Releasing?
    case ChildStep => s.child.ChildLeaves? && !s.child.at.Gone?
  }

  // An access to the delegate.
  function Touch(s: State): State {
    s.(dangling := s.dangling || s.deletes > 0)
  }

  // One step of destroy(); the result is where the caller stands after it.
  function Destroy(s: State, at: Leaving): (State, Leaving) {
    match at
    case TestCount => (Touch(s), if s.refCount > 0 then Decrement else Gone)
    case Decrement => (Touch(s).(refCount := s.refCount - 1), if s.refCount == 1 then Delete else Gone)
    case Delete => (Touch(s).(deletes := s.deletes + 1), Gone)
    case Gone => (s, Gone)
  }

  function Next(s: State, a: Action): State {
    if !Enabled(s, a) then s else
    match a
    case Start(true, j) =>
      s.(parent := Constructing, child := Born, runnable := true, joinable := j, refCount := 2, spawned := true)
    case Start(false, j) =>
      s.(parent := Checking, runnable := false, joinable := false, refCount := 1)
    case FinishConstruction => Touch(s).(parent := Checking)
    case CheckRunning =>
      if s.runnable then Touch(s).(parent := Holding, started := Some(true))
      else Touch(s).(parent := ParentLeaves(TestCount), started := Some(false))
    case CallStop => Touch(s).(parent := Stopping, runnable := false)
    case CallBye =>
      if s.joinable then Touch(s).(parent := Stopping, runnable := false)
      else Touch(s).(parent := ParentLeaves(TestCount))
    case AfterReset =>
      if s.joinable then Touch(s).(joinable := false, parent := Joining)
      else Touch(s).(parent := ParentLeaves(TestCount))
    case Joined => s.(parent := ParentLeaves(TestCount))
    case ParentStep =>
      var (s', at) := Destroy(s, s.parent.at);
      s'.(parent := ParentLeaves(at))
    case ReadRunnable =>
      Touch(s).(child := if s.runnable then Looping else ChildLeaves(TestCount), sawRunnable := s.runnable)
    case Loop(again) => Touch(s).(child := if s.runnable && again then Looping else Resetting)
    case Reset => Touch(s).(runnable := false, child := Releasing)
    case DeleteRunnable => s.(runnableDeletes := s.runnableDeletes + 1, child := ChildLeaves(TestCount))
    case ChildStep =>
      var (s', at) := Destroy(s, s.child.at);
      s'.(child := ChildLeaves(at))
  }

  function After(run: seq<Action>): State {
    if run == [] then INIT else Next(After(run[..|run| - 1]), run[|run| - 1])
  }

  // ---------- The reference count ----------

  // Has this thread still to give up its reference?
  predicate ParentHolds(s: State) {
    !s.parent.Idle? && (s.parent.ParentLeaves? ==> s.parent.at.TestCount? || s.parent.at.Decrement?)
  }

  predicate ChildHolds(s: State) {
    !s.child.Unborn? && (s.child.ChildLeaves? ==> s.child.at.TestCount? || s.child.at.Decrement?)
  }

  predicate ParentDeletes(s: State) { s.parent == ParentLeaves(Delete) }

  predicate ChildDeletes(s: State) { s.child == ChildLeaves(Delete) }

  ghost predicate Counted(s: State) {
    s.refCount == (if ParentHolds(s) then 1 else 0) + (if ChildHolds(s) then 1 else 0) &&
    !s.dangling && !(ParentDeletes(s) && ChildDeletes(s)) &&
    (ParentDeletes(s) || ChildDeletes(s) ==> s.refCount == 0) &&
    s.deletes == (if s.refCount == 0 && !s.parent.Idle? && !ParentDeletes(s) && !ChildDeletes(s) then 1 else 0) &&
    (s.parent.Idle? ==> s.child.Unborn?)
  }

  // The runnable is the child's to delete once the child has seen it, and nobody else's.
  ghost predicate RunnableOwned(s: State) {
    (s.spawned <==> !s.child.Unborn?) && (s.child.Born? ==> !s.sawRunnable) &&
    (s.child.Looping? || s.child.Resetting? || s.child.Releasing? ==> s.sawRunnable) &&
    s.runnableDeletes == (if s.child.ChildLeaves? && s.sawRunnable then 1 else 0) &&
    (s.child.Unborn? ==> !s.sawRunnable) &&
    (s.started == Some(false) && s.spawned ==> s.sawRunnable) &&
    (s.parent.Constructing? || s.parent.Checking? ==>
      s.started == None && (s.child.Born? ==> s.runnable) && (s.child.ChildLeaves? ==> s.sawRunnable)) &&
    (s.parent.Checking? && s.spawned && !s.runnable ==> s.sawRunnable) &&
    (s.parent.Idle? ==> s.started == None && s.child.Unborn?)
  }

  // Only a thread that was created is ever joined.
  ghost predicate JoinsAThread(s: State) {
    (s.parent.Joining? || s.joinable ==> !s.child.Unborn?) && (s.parent.Idle? ==> !s.joinable)
  }

  predicate OfChild(a: Action) {
    a.ReadRunnable? || a.Loop? || a.Reset? || a.DeleteRunnable? || a.ChildStep?
  }

  lemma ParentKeepsCount(s: State, a: Action)
    requires Counted(s) && !OfChild(a)
    ensures Counted(Next(s, a))
  {
  }

  lemma ChildKeepsCount(s: State, a: Action)
    requires Counted(s) && OfChild(a)
    ensures Counted(Next(s, a))
  {
  }

  lemma ParentKeepsOwner(s: State, a: Action)
    requires RunnableOwned(s) && JoinsAThread(s) && !OfChild(a)
    ensures RunnableOwned(Next(s, a)) && JoinsAThread(Next(s, a))
  {
  }

  lemma ChildKeepsOwner(s: State, a: Action)
    requires RunnableOwned(s) && JoinsAThread(s) && OfChild(a)
    ensures RunnableOwned(Next(s, a)) && JoinsAThread(Next(s, a))
  {
  }

  lemma {:induction false} CountedAlways(run: seq<Action>)
    ensures Counted(After(run)) && RunnableOwned(After(run)) && JoinsAThread(After(run))
  {
    if run != [] {
      CountedAlways(run[..|run| - 1]);
      var s, a := After(run[..|run| - 1]), run[|run| - 1];
      if OfChild(a) {
        ChildKeepsCount(s, a);
        ChildKeepsOwner(s, a);
      } else {
        ParentKeepsCount(s, a);
        ParentKeepsOwner(s, a);
      }
    }
  }

  // ---------- What follows for every interleaving ----------

  predicate Finished(s: State) {
    s.parent == ParentLeaves(Gone) && (s.child.Unborn? || s.child == ChildLeaves(Gone))
  }

  // The delegate is never deleted twice, never touched after its deletion, and deleted in the end.
  lemma DeletedExactlyOnce(run: seq<Action>)
    ensures After(run).deletes <= 1 && !After(run).dangling
    ensures Finished(After(run)) ==> After(run).deletes == 1
    ensures After(run).deletes == 1 ==> !ParentHolds(After(run)) && !ChildHolds(After(run))
  {
    CountedAlways(run);
  }

  // The deletion is the end: the delegate is deleted exactly when both threads are done with it, and
  // then neither can take another step.
  lemma DeletionIsTheEnd(run: seq<Action>, a: Action)
    ensures After(run).deletes == (if Finished(After(run)) then 1 else 0)
    ensures Finished(After(run)) ==> !Enabled(After(run), a)
  {
    CountedAlways(run);
    DeletedIsFinished(After(run), a);
  }

  lemma DeletedIsFinished(s: State, a: Action)
    requires Counted(s)
    ensures s.deletes == (if Finished(s) then 1 else 0) && (Finished(s) ==> !Enabled(s, a))
  {
  }

  // dangling records every access to a deleted delegate: each step of either thread is one, but for
  // pthread_join and the deletion of the runnable, which only use what is on the thread's stack.
  lemma AccessIsRecorded(s: State, a: Action)
    requires Enabled(s, a) && s.deletes > 0 && !a.Start? && !a.Joined? && !a.DeleteRunnable?
    ensures Next(s, a).dangling
  {
    if a.ParentStep? { assert Destroy(s, s.parent.at).0.dangling; }
    if a.ChildStep? { assert Destroy(s, s.child.at).0.dangling; }
  }

  // Neither thread can be stuck before the end, except that a parent that holds its thread may keep it.
  lemma SomeoneCanStep(run: seq<Action>)
    requires !Finished(After(run))
    ensures exists a :: Enabled(After(run), a)
  {
    var s := After(run);
    assert s.parent.Idle? ==> Enabled(s, Start(true, true));
    assert s.parent.Constructing? ==> Enabled(s, FinishConstruction);
    assert s.parent.Checking? ==> Enabled(s, CheckRunning);
    assert s.parent.Holding? ==> Enabled(s, CallStop);
    assert s.parent.Stopping? ==> Enabled(s, AfterReset);
    assert s.parent.ParentLeaves? && !s.parent.at.Gone? ==> Enabled(s, ParentStep);
    assert s.child.Born? ==> Enabled(s, ReadRunnable);
    assert s.child.Looping? ==> Enabled(s, Loop(true));
    assert s.child.Resetting? ==> Enabled(s, Reset);
    assert s.child.Releasing? ==> Enabled(s, DeleteRunnable);
    assert s.child.ChildLeaves? && !s.child.at.Gone? ==> Enabled(s, ChildStep);
    CountedAlways(run);
    assert s.parent.Joining? && s.child == ChildLeaves(Gone) ==> Enabled(s, Joined);
  }

  // ---------- Who deletes the runnable ----------

  // LocThread.h promises that LocThread deletes the runnable if start() returned true and leaves it
  // to the client otherwise. What decides is the order of two accesses to mRunnable: the thread's first
  // read of it, and its reset by stop() or by the release of a joinable thread.

  // Step i of the run is the thread's first read.
  ghost predicate Reads(run: seq<Action>, i: nat) {
    i < |run| && run[i].ReadRunnable? && Enabled(After(run[..i]), run[i])
  }

  // Step i of the run is a reset by the client.
  ghost predicate Resets(run: seq<Action>, i: nat) {
    i < |run| && Enabled(After(run[..i]), run[i]) &&
    (run[i].CallStop? || (run[i].CallBye? && After(run[..i]).joinable))
  }

  ghost predicate ReadsFirst(run: seq<Action>) {
    exists i: nat :: Reads(run, i) && forall k: nat :: Resets(run, k) ==> i < k
  }

  lemma StepsOfLonger(run: seq<Action>, a: Action, i: nat)
    requires i <= |run|
    ensures (run + [a])[..i] == run[..i]
    ensures i < |run| ==> (Reads(run + [a], i) <==> Reads(run, i)) && (Resets(run + [a], i) <==> Resets(run, i))
  {
    assert (run + [a])[..i] == run[..i];
  }

  // No thread has read mRunnable yet; if there is one, the field says whether the client has reset it.
  ghost predicate Unread(run: seq<Action>) {
    var s := After(run);
    (forall i: nat :: !Reads(run, i)) && !s.sawRunnable &&
    (s.child.Born? ==> (s.runnable <==> forall k: nat :: !Resets(run, k)))
  }

  // The thread has read mRunnable, and what it saw tells which came first.
  ghost predicate HasRead(run: seq<Action>) {
    (After(run).sawRunnable <==> ReadsFirst(run)) && !After(run).child.Born? && !After(run).child.Unborn?
  }

  // Only a client that holds its thread resets, and holding it needs a start that found it running.
  ghost predicate NoResetYet(run: seq<Action>) {
    After(run).parent.Idle? || After(run).parent.Constructing? || After(run).parent.Checking? ==>
      forall k: nat :: !Resets(run, k)
  }

  lemma NoResetYetStays(run: seq<Action>, a: Action)
    requires NoResetYet(run)
    ensures NoResetYet(run + [a])
  {
    assert (run + [a])[..|run|] == run;
    forall k: nat | k < |run| ensures Resets(run + [a], k) <==> Resets(run, k) { StepsOfLonger(run, a, k); }
  }

  lemma HasReadStays(run: seq<Action>, a: Action)
    requires HasRead(run)
    ensures HasRead(run + [a])
  {
    var longer := run + [a];
    assert longer[..|run|] == run && !Reads(longer, |run|);
    FirstReadStays(run, a);
    CountedAlways(run);
    ReadStaysRead(After(run), a);
    assert After(longer) == Next(After(run), a);
  }

  lemma ReadStaysRead(s: State, a: Action)
    requires !s.child.Born? && !s.child.Unborn? && !s.parent.Idle?
    ensures !Next(s, a).child.Born? && !Next(s, a).child.Unborn? && Next(s, a).sawRunnable == s.sawRunnable
  {
  }

  lemma FirstReadStays(run: seq<Action>, a: Action)
    requires !Reads(run + [a], |run|)
    ensures ReadsFirst(run + [a]) <==> ReadsFirst(run)
  {
    var longer := run + [a];
    forall k: nat | k < |run|
      ensures (Reads(longer, k) <==> Reads(run, k)) && (Resets(longer, k) <==> Resets(run, k))
    {
      StepsOfLonger(run, a, k);
    }
    if ReadsFirst(run) {
      var i: nat :| Reads(run, i) && forall k: nat :: Resets(run, k) ==> i < k;
      assert Reads(longer, i);
    }
    if ReadsFirst(longer) {
      var i: nat :| Reads(longer, i) && forall k: nat :: Resets(longer, k) ==> i < k;
      assert Reads(run, i);
    }
  }

  lemma UnreadThenRead(run: seq<Action>, a: Action)
    requires Unread(run) && a.ReadRunnable? && Enabled(After(run), a)
    ensures HasRead(run + [a])
  {
    var longer := run + [a];
    assert longer[..|run|] == run && Reads(longer, |run|);
    forall k: nat | k < |run|
      ensures (Reads(longer, k) <==> Reads(run, k)) && (Resets(longer, k) <==> Resets(run, k))
    {
      StepsOfLonger(run, a, k);
    }
  }

  // What a step other than the first read does to mRunnable before that read.
  lemma StepBeforeRead(s: State, a: Action)
    requires !s.sawRunnable && !(a.ReadRunnable? && Enabled(s, a)) && JoinsAThread(s) && RunnableOwned(s)
    ensures !Next(s, a).sawRunnable
    ensures var reset := Enabled(s, a) && (a.CallStop? || (a.CallBye? && s.joinable)); Next(s, a).child.Born? ==>
      if s.child.Born? then Next(s, a).runnable == (s.runnable && !reset)
      else s.parent.Idle? && Next(s, a).runnable && !reset
  {
  }

  lemma UnreadStays(run: seq<Action>, a: Action)
    requires Unread(run) && NoResetYet(run) && JoinsAThread(After(run)) && RunnableOwned(After(run))
    requires !(a.ReadRunnable? && Enabled(After(run), a))
    ensures Unread(run + [a])
  {
    var longer := run + [a];
    assert longer[..|run|] == run && After(longer) == Next(After(run), a);
    StepBeforeRead(After(run), a);
    forall k: nat | k < |run|
      ensures (Reads(longer, k) <==> Reads(run, k)) && (Resets(longer, k) <==> Resets(run, k))
    {
      StepsOfLonger(run, a, k);
    }
    assert Resets(longer, |run|) <==> Enabled(After(run), a) && (a.CallStop? || (a.CallBye? && After(run).joinable));
  }

  lemma {:induction false} ReadOrUnread(run: seq<Action>)
    ensures (Unread(run) || HasRead(run)) && NoResetYet(run)
  {
    if run != [] {
      var before, a := run[..|run| - 1], run[|run| - 1];
      assert run == before + [a];
      ReadOrUnread(before);
      CountedAlways(before);
      NoResetYetStays(before, a);
      if HasRead(before) {
        HasReadStays(before, a);
      } else if a.ReadRunnable? && Enabled(After(before), a) {
        UnreadThenRead(before, a);
      } else {
        UnreadStays(before, a);
      }
    }
  }

  // Whatever start() returned: the runnable is deleted, and then once, if and only if the thread's
  // first read comes before every reset by the client.
  lemma RunnableDeletedIff(run: seq<Action>)
    requires Finished(After(run))
    ensures After(run).runnableDeletes == if ReadsFirst(run) then 1 else 0
  {
    CountedAlways(run);
    ReadOrUnread(run);
  }

  // After a failed start that means: if and only if there was a thread at all.
  lemma DeletedAfterFailureIff(run: seq<Action>)
    requires Finished(After(run)) && After(run).started == Some(false)
    ensures After(run).runnableDeletes == if After(run).spawned then 1 else 0
  {
    CountedAlways(run);
  }

  ghost predicate Reachable(s: State) {
    exists run :: s == After(run)
  }

  lemma ReachNext(s: State, a: Action)
    requires Reachable(s)
    ensures Reachable(Next(s, a))
  {
    var run :| s == After(run);
    assert (run + [a])[..|run|] == run;
    assert Next(s, a) == After(run + [a]);
  }

  lemma ChildLeavesLast(s: State) returns (e: State)
    requires Reachable(s) && s.parent == ParentLeaves(Gone) && s.child == ChildLeaves(TestCount) && s.refCount == 1
    ensures Reachable(e) && Finished(e) && e.started == s.started && e.runnableDeletes == s.runnableDeletes
  {
    ReachNext(s, ChildStep);
    var s1 := Next(s, ChildStep);
    assert s1.child == ChildLeaves(Decrement);
    ReachNext(s1, ChildStep);
    var s2 := Next(s1, ChildStep);
    assert s2.child == ChildLeaves(Delete);
    ReachNext(s2, ChildStep);
    e := Next(s2, ChildStep);
  }

  // From a state in which both threads are about to call destroy(), to the end.
  lemma BothLeave(s: State) returns (e: State)
    requires Reachable(s) && s.parent == ParentLeaves(TestCount) && s.child == ChildLeaves(TestCount) && s.refCount == 2
    ensures Reachable(e) && Finished(e) && e.started == s.started && e.runnableDeletes == s.runnableDeletes
  {
    ReachNext(s, ParentStep);
    var s1 := Next(s, ParentStep);
    assert s1.parent == ParentLeaves(Decrement);
    ReachNext(s1, ParentStep);
    e := ChildLeavesLast(Next(s1, ParentStep));
  }

  lemma ThreadReturnsAtOnce() returns (s: State)
    ensures Reachable(s) && s == State(Constructing, Resetting, true, false, 2, None, true, true, 0, 0, false)
  {
    assert INIT == After([]);
    ReachNext(INIT, Start(true, false));
    var s1 := Next(INIT, Start(true, false));
    ReachNext(s1, ReadRunnable);
    var s2 := Next(s1, ReadRunnable);
    ReachNext(s2, Loop(false));
    s := Next(s2, Loop(false));
  }

  lemma ThreadDeletesRunnable() returns (s: State)
    ensures Reachable(s)
    ensures s == State(Constructing, ChildLeaves(TestCount), false, false, 2, None, true, true, 1, 0, false)
  {
    var s0 := ThreadReturnsAtOnce();
    ReachNext(s0, Reset);
    var s1 := Next(s0, Reset);
    ReachNext(s1, DeleteRunnable);
    s := Next(s1, DeleteRunnable);
  }

  // start() returned false, but the runnable is already deleted: the thread was done with it before
  // create() looked.
  lemma RunnableMayBeDeletedOnFailure() returns (e: State)
    ensures Reachable(e) && Finished(e) && e.started == Some(false) && e.runnableDeletes == 1
  {
    var s := ThreadDeletesRunnable();
    ReachNext(s, FinishConstruction);
    var s1 := Next(s, FinishConstruction);
    assert s1.parent == Checking;
    ReachNext(s1, CheckRunning);
    e := BothLeave(Next(s1, CheckRunning));
  }

  // ---------- stop() ends the thread ----------

  // Step i of the run is a turn of the loop in threadMain: the test of mRunnable, and run() after it.
  ghost predicate Loops(run: seq<Action>, i: nat) {
    i < |run| && run[i].Loop? && Enabled(After(run[..i]), run[i])
  }

  // mRunnable has been reset, and nothing sets it again.
  predicate Told(s: State) {
    !s.runnable && !s.parent.Idle?
  }

  // A thread that has been told and has left its loop does not come back to it.
  predicate OutOfLoop(s: State) {
    Told(s) && !s.child.Looping?
  }

  lemma ToldStays(s: State, a: Action)
    requires Told(s)
    ensures Told(Next(s, a)) && (OutOfLoop(s) ==> OutOfLoop(Next(s, a)))
    ensures a.Loop? && Enabled(s, a) ==> Next(s, a).child == Resetting
  {
  }

  lemma AfterLast(run: seq<Action>, more: seq<Action>)
    requires more != []
    ensures After(run + more) == Next(After(run + more[..|more| - 1]), more[|more| - 1])
  {
    assert (run + more)[..|run + more| - 1] == run + more[..|more| - 1];
  }

  lemma {:induction false} ToldForGood(run: seq<Action>, more: seq<Action>)
    requires Told(After(run))
    ensures Told(After(run + more)) && (OutOfLoop(After(run)) ==> OutOfLoop(After(run + more)))
    decreases |more|
  {
    if more == [] {
      assert run + more == run;
    } else {
      var n := |more| - 1;
      ToldForGood(run, more[..n]);
      AfterLast(run, more);
      ToldStays(After(run + more[..n]), more[n]);
    }
  }

  lemma ToldBetween(run: seq<Action>, i: nat, k: nat)
    requires i <= k <= |run| && Told(After(run[..i]))
    ensures Told(After(run[..k])) && (OutOfLoop(After(run[..i])) ==> OutOfLoop(After(run[..k])))
  {
    assert run[..i] + run[i..k] == run[..k];
    ToldForGood(run[..i], run[i..k]);
  }

  lemma AfterStep(run: seq<Action>, i: nat)
    requires i < |run|
    ensures After(run[..i + 1]) == Next(After(run[..i]), run[i])
  {
    assert run[..i + 1][..i] == run[..i];
  }

  // After a reset the loop makes at most one more turn, whatever run() returns: the one that finds it.
  lemma AtMostOneTurn(run: seq<Action>, i: nat, j: nat, k: nat)
    requires Resets(run, i) && i < j < k && Loops(run, j)
    ensures !Loops(run, k)
  {
    AfterStep(run, i);
    AfterStep(run, j);
    ToldBetween(run, i + 1, j);
    ToldStays(After(run[..j]), run[j]);
    if k < |run| {
      ToldBetween(run, j + 1, k);
    }
  }

  // The steps that the thread has still to take at most, once it has been told.
  function StepsToExit(s: State): (n: nat)
    ensures n <= 7
  {
    match s.child
    case Unborn => 0
    case Born => 7
    case Looping => 6
    case Resetting => 5
    case Releasing => 4
    case ChildLeaves(TestCount) => 3
    case ChildLeaves(Decrement) => 2
    case ChildLeaves(Delete) => 1
    case ChildLeaves(Gone) => 0
  }

  lemma ExitProgresses(s: State, a: Action)
    requires Told(s) && OfChild(a) && Enabled(s, a)
    ensures Told(Next(s, a)) && StepsToExit(Next(s, a)) < StepsToExit(s)
  {
  }

  ghost predicate ChildOnly(run: seq<Action>, more: seq<Action>) {
    forall i: nat {:trigger more[i]} :: i < |more| ==> OfChild(more[i]) && Enabled(After(run + more[..i]), more[i])
  }

  lemma ChildOnlyBefore(run: seq<Action>, more: seq<Action>)
    requires ChildOnly(run, more) && more != []
    ensures var n := |more| - 1;
      ChildOnly(run, more[..n]) && OfChild(more[n]) && Enabled(After(run + more[..n]), more[n])
  {
    assert forall i: nat :: i < |more| - 1 ==> more[..|more| - 1][..i] == more[..i];
  }

  lemma {:induction false} ExitIsNear(run: seq<Action>, more: seq<Action>)
    requires Told(After(run)) && ChildOnly(run, more)
    ensures Told(After(run + more)) && |more| + StepsToExit(After(run + more)) <= StepsToExit(After(run))
    decreases |more|
  {
    if more == [] {
      assert run + more == run;
    } else {
      var n := |more| - 1;
      ChildOnlyBefore(run, more);
      ExitIsNear(run, more[..n]);
      AfterLast(run, more);
      var s := After(run + more[..n]);
      ExitProgresses(s, more[n]);
    }
  }

  // The calls that wait for the thread, or are about to, come after a reset.
  lemma {:induction false} JoiningIsTold(run: seq<Action>)
    ensures After(run).parent.Stopping? || After(run).parent.Joining? ==> Told(After(run))
  {
    if run != [] {
      JoiningIsTold(run[..|run| - 1]);
      if Told(After(run[..|run| - 1])) {
        ToldStays(After(run[..|run| - 1]), run[|run| - 1]);
      }
    }
  }

  // pthread_join returns: from every reachable state in which the client is in it, whatever run()
  // returns, the thread on its own takes at most seven steps, and until it has exited it can take one.
  lemma JoinReturns(run: seq<Action>, more: seq<Action>)
    requires After(run).parent.Joining? && ChildOnly(run, more)
    ensures |more| <= 7 && After(run + more).parent.Joining?
    ensures var s := After(run + more);
      if s.child == ChildLeaves(Gone) then Enabled(s, Joined) else exists a :: OfChild(a) && Enabled(s, a)
  {
    JoiningIsTold(run);
    ExitIsNear(run, more);
    JoinIsAwaited(run, more);
  }

  lemma JoinIsAwaited(run: seq<Action>, more: seq<Action>)
    requires After(run).parent.Joining? && ChildOnly(run, more)
    ensures After(run + more).parent.Joining?
    ensures var s := After(run + more);
      if s.child == ChildLeaves(Gone) then Enabled(s, Joined) else exists a :: OfChild(a) && Enabled(s, a)
  {
    ParentStays(run, more);
    OnlyThreadsAreJoined(run + more);
    ChildCanStep(After(run + more));
  }

  lemma OnlyThreadsAreJoined(run: seq<Action>)
    ensures JoinsAThread(After(run))
  {
    CountedAlways(run);
  }

  lemma ChildCanStep(s: State)
    requires JoinsAThread(s) && s.parent.Joining?
    ensures if s.child == ChildLeaves(Gone) then Enabled(s, Joined) else exists a :: OfChild(a) && Enabled(s, a)
  {
    assert s.child.Born? ==> OfChild(ReadRunnable) && Enabled(s, ReadRunnable);
    assert s.child.Looping? ==> OfChild(Loop(true)) && Enabled(s, Loop(true));
    assert s.child.Resetting? ==> OfChild(Reset) && Enabled(s, Reset);
    assert s.child.Releasing? ==> OfChild(DeleteRunnable) && Enabled(s, DeleteRunnable);
    assert s.child.ChildLeaves? && !s.child.at.Gone? ==> OfChild(ChildStep) && Enabled(s, ChildStep);
  }

  lemma {:induction false} ParentStays(run: seq<Action>, more: seq<Action>)
    requires ChildOnly(run, more)
    ensures After(run + more).parent == After(run).parent
    decreases |more|
  {
    if more == [] {
      assert run + more == run;
    } else {
      var n := |more| - 1;
      ChildOnlyBefore(run, more);
      ParentStays(run, more[..n]);
      AfterLast(run, more);
      ChildLeavesParent(After(run + more[..n]), more[n]);
    }
  }

  lemma ChildLeavesParent(s: State, a: Action)
    requires OfChild(a)
    ensures Next(s, a).parent == s.parent
  {
    if a.ChildStep? && s.child.ChildLeaves? {
      assert Destroy(s, s.child.at).0.parent == s.parent;
    }
  }

  // ---------- Which clients never leak ----------

  // A client whose threads are created as given by joinable, and which lets go of them by stop(), or
  // else by deleting its LocThread.
  ghost predicate IsClient(run: seq<Action>, joinable: bool, stops: bool) {
    forall i :: 0 <= i < |run| ==>
      (run[i].Start? ==> run[i] == Start(true, joinable)) &&
      (run[i].CallStop? ==> stops) && (run[i].CallBye? ==> !stops)
  }

  lemma DetachedStep(s: State, a: Action)
    requires !s.joinable && (!s.parent.Idle? ==> s.spawned)
    requires a.Start? ==> a == Start(true, false)
    ensures !Next(s, a).joinable && (!Next(s, a).parent.Idle? ==> Next(s, a).spawned)
  {
  }

  lemma {:induction false} DetachedNeverResets(run: seq<Action>)
    requires IsClient(run, false, false)
    ensures !After(run).joinable && (!After(run).parent.Idle? ==> After(run).spawned)
    ensures forall k: nat :: !Resets(run, k)
  {
    if run != [] {
      var before, a := run[..|run| - 1], run[|run| - 1];
      assert run == before + [a];
      DetachedNeverResets(before);
      DetachedStep(After(before), a);
      assert !Resets(run, |before|);
      forall k: nat | k < |before| ensures !Resets(run, k) {
        StepsOfLonger(before, a, k);
      }
    }
  }

  lemma {:induction false} SpawnedReads(run: seq<Action>)
    requires After(run).spawned && !After(run).child.Born?
    ensures exists i: nat :: Reads(run, i)
  {
    CountedAlways(run);
    var before, a := run[..|run| - 1], run[|run| - 1];
    assert run == before + [a];
    CountedAlways(before);
    if After(before).child.Born? {
      assert Reads(run, |before|);
    } else {
      SpawnedReads(before);
      var i: nat :| Reads(before, i);
      StepsOfLonger(before, a, i);
      assert Reads(run, i);
    }
  }

  // The guarantee: a detached thread that is never stopped deletes its runnable, always and once.
  lemma DetachedAlwaysDeletes(run: seq<Action>)
    requires IsClient(run, false, false) && Finished(After(run))
    ensures After(run).runnableDeletes == 1
  {
    DetachedNeverResets(run);
    SpawnedReads(run);
    RunnableDeletedIff(run);
  }

  lemma Extend(run: seq<Action>, a: Action, joinable: bool, stops: bool) returns (longer: seq<Action>)
    requires IsClient(run, joinable, stops) && !a.Start?
    requires (a.CallStop? ==> stops) && (a.CallBye? ==> !stops)
    ensures After(longer) == Next(After(run), a) && IsClient(longer, joinable, stops)
  {
    longer := run + [a];
    assert longer[..|run|] == run;
  }

  // The client resets mRunnable before the new thread has read it.
  lemma ResetFirst(joinable: bool, stops: bool) returns (run: seq<Action>)
    requires joinable || stops
    ensures IsClient(run, joinable, stops)
    ensures After(run) ==
      State(Stopping, ChildLeaves(TestCount), false, joinable, 2, Some(true), true, false, 0, 0, false)
  {
    run := [Start(true, joinable)];
    assert After(run[..0]) == INIT;
    run := Extend(run, FinishConstruction, joinable, stops);
    run := Extend(run, CheckRunning, joinable, stops);
    assert After(run) == State(Holding, Born, true, joinable, 2, Some(true), true, false, 0, 0, false);
    run := Extend(run, if stops then CallStop else CallBye, joinable, stops);
    run := Extend(run, ReadRunnable, joinable, stops);
  }

  lemma LeavesBeforeJoin(joinable: bool, stops: bool) returns (run: seq<Action>)
    requires joinable || stops
    ensures IsClient(run, joinable, stops)
    ensures After(run) == State(Stopping, ChildLeaves(Gone), false, joinable, 1, Some(true), true, false, 0, 0, false)
  {
    run := ResetFirst(joinable, stops);
    run := Extend(run, ChildStep, joinable, stops);
    assert After(run).child == ChildLeaves(Decrement) && After(run).refCount == 2;
    run := Extend(run, ChildStep, joinable, stops);
  }

  lemma LeaksBeforeLeaving(joinable: bool, stops: bool) returns (run: seq<Action>)
    requires joinable || stops
    ensures IsClient(run, joinable, stops)
    ensures After(run) ==
      State(ParentLeaves(TestCount), ChildLeaves(Gone), false, false, 1, Some(true), true, false, 0, 0, false)
  {
    run := LeavesBeforeJoin(joinable, stops);
    run := Extend(run, AfterReset, joinable, stops);
    if joinable {
      run := Extend(run, Joined, joinable, stops);
    }
  }

  lemma LeakingRun(joinable: bool, stops: bool) returns (run: seq<Action>)
    requires joinable || stops
    ensures IsClient(run, joinable, stops) && Finished(After(run))
    ensures After(run).started == Some(true) && After(run).runnableDeletes == 0
  {
    run := LeaksBeforeLeaving(joinable, stops);
    run := Extend(run, ParentStep, joinable, stops);
    assert After(run).parent == ParentLeaves(Decrement) && After(run).refCount == 1;
    run := Extend(run, ParentStep, joinable, stops);
    assert After(run).parent == ParentLeaves(Delete);
    run := Extend(run, ParentStep, joinable, stops);
  }

  // start() returned true, but the runnable is never deleted: the reset came before the first read.
  lemma RunnableMayLeak() returns (e: State)
    ensures Reachable(e) && Finished(e) && e.started == Some(true) && e.runnableDeletes == 0
  {
    var run := LeakingRun(false, true);
    e := After(run);
  }

  // What a client can decide beforehand: the runnable of every created thread is deleted in every
  // interleaving if and only if the thread is detached and the client never calls stop() on it.
  lemma NeverLeaksIff(joinable: bool, stops: bool)
    ensures (forall run :: IsClient(run, joinable, stops) && Finished(After(run)) ==> After(run).runnableDeletes == 1)
      <==> !joinable && !stops
  {
    if joinable || stops {
      var run := LeakingRun(joinable, stops);
      assert After(run).runnableDeletes == 0;
    } else {
      forall run | IsClient(run, joinable, stops) && Finished(After(run)) ensures After(run).runnableDeletes == 1 {
        DetachedAlwaysDeletes(run);
      }
    }
  }

  // A client whose runnable goes on until it is stopped: its run() does not return false.
  ghost predicate NeverEnds(run: seq<Action>) {
    forall i :: 0 <= i < |run| ==> run[i] != Loop(false)
  }

  // Until start() returns, the thread of such a client is still before or in its loop.
  ghost predicate StillRunning(s: State) {
    (s.parent.Idle? ==> !s.spawned && s.started == None) && (s.started == Some(false) ==> !s.spawned) &&
    (s.spawned && (s.parent.Constructing? || s.parent.Checking?) ==>
      s.runnable && (s.child.Born? || s.child.Looping?))
  }

  lemma EndlessStep(s: State, a: Action)
    requires StillRunning(s) && a != Loop(false)
    ensures StillRunning(Next(s, a))
  {
  }

  lemma {:induction false} EndlessRuns(run: seq<Action>)
    requires NeverEnds(run)
    ensures StillRunning(After(run))
  {
    if run != [] {
      EndlessRuns(run[..|run| - 1]);
      EndlessStep(After(run[..|run| - 1]), run[|run| - 1]);
    }
  }

  // After a failed start the runnable is left to the client.
  ghost predicate LeavesRunnable(run: seq<Action>) {
    Finished(After(run)) && After(run).started == Some(false) ==> After(run).runnableDeletes == 0
  }

  // When start() returns false, the runnable is the client's to delete, as documented, in every
  // interleaving if and only if its run() never returns false.
  lemma FailureLeavesRunnableIff(ends: bool)
    ensures (forall run :: ends || NeverEnds(run) ==> LeavesRunnable(run)) <==> !ends
  {
    if ends {
      var e := RunnableMayBeDeletedOnFailure();
      var run :| e == After(run);
      assert !LeavesRunnable(run);
    } else {
      forall run | NeverEnds(run) ensures LeavesRunnable(run) {
        EndlessRuns(run);
        if Finished(After(run)) && After(run).started == Some(false) {
          DeletedAfterFailureIff(run);
        }
      }
    }
  }

  // ---------- stop() on a joinable thread waits for it ----------

  // Past the join, the thread has exited.
  ghost predicate JoinedMeansExited(s: State) {
    (s.started != Some(true) ==> !s.parent.Stopping? && !s.parent.Joining?) &&
    (s.parent.Holding? ==> s.joinable && s.started == Some(true)) &&
    (s.parent.Stopping? ==> s.joinable) &&
    (s.parent.Constructing? || s.parent.Checking? ==> s.started == None && (s.spawned ==> s.joinable)) &&
    (s.parent.Idle? ==> s.started == None && !s.spawned) &&
    (s.parent.Checking? && !s.spawned ==> !s.runnable) && (s.parent.Constructing? ==> s.spawned) &&
    (s.parent.ParentLeaves? && s.started == Some(true) ==> s.child == ChildLeaves(Gone))
  }

  lemma JoinedStep(s: State, a: Action)
    requires JoinedMeansExited(s) && (a.Start? ==> a == Start(a.created, true))
    ensures JoinedMeansExited(Next(s, a))
  {
  }

  lemma {:induction false} JoinedRuns(run: seq<Action>)
    requires forall i :: 0 <= i < |run| && run[i].Start? ==> run[i].joinable
    ensures JoinedMeansExited(After(run))
  {
    if run != [] {
      JoinedRuns(run[..|run| - 1]);
      JoinedStep(After(run[..|run| - 1]), run[|run| - 1]);
    }
  }

  // stop(), or the deletion of the LocThread, of a thread started as joinable goes on to destroy() and
  // returns only when the thread has exited.
  lemma StopWaitsForExit(run: seq<Action>)
    requires forall i :: 0 <= i < |run| && run[i].Start? ==> run[i].joinable
    requires After(run).started == Some(true) && After(run).parent.ParentLeaves?
    ensures After(run).child == ChildLeaves(Gone)
  {
    JoinedRuns(run);
  }
}
