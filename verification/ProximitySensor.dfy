/** The event assembly of camera/proximity/ProximitySensor.cpp: raw input events from the circular
    reader become sensor reports. */
module ProximitySensor {
  import opened InputEventReader
  import opened Binary32

  // Numbers of the Linux input subsystem.
  const EV_SYN := 0
  const EV_ABS := 3
  const ABS_HAT0X := 0x10
  const ABS_HAT0Y := 0x11
  const ABS_HAT1X := 0x12
  const ABS_HAT1Y := 0x13
  const ABS_HAT2X := 0x14
  const ABS_HAT2Y := 0x15
  const ABS_HAT3X := 0x16
  const ABS_HAT3Y := 0x17
  const ABS_DISTANCE := 0x19

  // mPendingEvent: nine measured values, which are floats with an integer value, and a timestamp in
  // nanoseconds.
  datatype SensorEvent = SensorEvent(data: seq<int>, timestamp: int)

  type Pending = p: SensorEvent | |p.data| == 9 witness SensorEvent([0, 0, 0, 0, 0, 0, 0, 0, 0], 0)

  function TimevalToNano(e: InputEvent): int {
    e.sec * 1_000_000_000 + e.usec * 1000
  }

  // The data slot an event sets, or -1. A distance of -1 is ignored.
  function SlotOf(e: InputEvent): (slot: int)
    ensures -1 <= slot < 9
  {
    if e.kind != EV_ABS then -1
    else if e.code == ABS_DISTANCE then (if e.value != -1 then 0 else -1)
    else if ABS_HAT0X <= e.code <= ABS_HAT3Y then 1 + e.code - ABS_HAT0X
    else -1
  }

  // ---------- Specification ----------

  function Absorb(p: Pending, e: InputEvent): Pending {
    if SlotOf(e) >= 0 then p.(data := p.data[SlotOf(e) := ToFloat(e.value)])
    else if e.kind == EV_SYN then p.(timestamp := TimevalToNano(e))
    else p
  }

  // What a stream of raw events turns into: the reports, and the event still being assembled.
  datatype Assembled = Assembled(reports: seq<Pending>, pending: Pending)

  function Fold(p: Pending, enabled: bool, es: seq<InputEvent>): Assembled
    decreases es
  {
    if es == [] then Assembled([], p) else
    var p' := Absorb(p, es[0]);
    var rest := Fold(p', enabled, es[1..]);
    if enabled && es[0].kind == EV_SYN then rest.(reports := [p'] + rest.reports) else rest
  }

  // How many of the unread events one call consumes, when it may deliver count reports.
  function Consumed(enabled: bool, es: seq<InputEvent>, count: nat): (k: nat)
    ensures k <= |es|
  {
    if es == [] || count == 0 then 0
    else 1 + Consumed(enabled, es[1..], if enabled && es[0].kind == EV_SYN then count - 1 else count)
  }

  // A call stops when it has consumed everything or has delivered all it may, and not before or after.
  lemma {:induction false} ConsumedIsMaximal(p: Pending, enabled: bool, es: seq<InputEvent>, count: nat)
    ensures var k := Consumed(enabled, es, count);
      |Fold(p, enabled, es[..k]).reports| <= count &&
      (k == |es| || |Fold(p, enabled, es[..k]).reports| == count) &&
      (k > 0 ==> |Fold(p, enabled, es[..k - 1]).reports| < count)
    decreases es
  {
    if es != [] && count > 0 {
      var count' := if enabled && es[0].kind == EV_SYN then count - 1 else count;
      var k := Consumed(enabled, es, count);
      assert es[..k][1..] == es[1..][..k - 1] && es[..k][0] == es[0];
      if k > 1 {
        assert es[..k - 1][1..] == es[1..][..k - 2] && es[..k - 1][0] == es[0];
      }
      ConsumedIsMaximal(Absorb(p, es[0]), enabled, es[1..], count');
    }
  }

  lemma {:induction false} FoldConcat(p: Pending, enabled: bool, es: seq<InputEvent>, fs: seq<InputEvent>)
    ensures var a := Fold(p, enabled, es); var b := Fold(a.pending, enabled, fs);
      Fold(p, enabled, es + fs) == Assembled(a.reports + b.reports, b.pending)
    decreases es
  {
    if es == [] {
      assert es + fs == fs;
    } else {
      assert (es + fs)[1..] == es[1..] + fs && (es + fs)[0] == es[0];
      FoldConcat(Absorb(p, es[0]), enabled, es[1..], fs);
    }
  }

  // ---------- What a report contains ----------

  // Does this event measure something under that code? A distance of -1 does not.
  predicate Measures(e: InputEvent, code: int) {
    e.kind == EV_ABS && e.code == code && (code == ABS_DISTANCE ==> e.value != -1)
  }

  // The value the stream last gave for that code, or the initial one.
  function Latest(es: seq<InputEvent>, code: int, initial: int): int {
    if es == [] then initial
    else if Measures(es[|es| - 1], code) then ToFloat(es[|es| - 1].value)
    else Latest(es[..|es| - 1], code, initial)
  }

  // data holds the latest distance, and the latest value of each of the eight axes, in this order.
  ghost predicate HoldsLatest(data: seq<int>, es: seq<InputEvent>, initial: Pending) {
    data == [
      Latest(es, ABS_DISTANCE, initial.data[0]),
      Latest(es, ABS_HAT0X, initial.data[1]), Latest(es, ABS_HAT0Y, initial.data[2]),
      Latest(es, ABS_HAT1X, initial.data[3]), Latest(es, ABS_HAT1Y, initial.data[4]),
      Latest(es, ABS_HAT2X, initial.data[5]), Latest(es, ABS_HAT2Y, initial.data[6]),
      Latest(es, ABS_HAT3X, initial.data[7]), Latest(es, ABS_HAT3Y, initial.data[8])]
  }

  // Which slot an event sets, code by code; everything else leaves all nine alone.
  lemma SlotsOfCodes(p: Pending, enabled: bool, e: InputEvent)
    ensures Fold(p, enabled, [e]).pending.data ==
      if e.kind != EV_ABS then p.data
      else if e.code == ABS_DISTANCE then (if e.value == -1 then p.data else p.data[0 := ToFloat(e.value)])
      else if e.code == ABS_HAT0X then p.data[1 := ToFloat(e.value)]
      else if e.code == ABS_HAT0Y then p.data[2 := ToFloat(e.value)]
      else if e.code == ABS_HAT1X then p.data[3 := ToFloat(e.value)]
      else if e.code == ABS_HAT1Y then p.data[4 := ToFloat(e.value)]
      else if e.code == ABS_HAT2X then p.data[5 := ToFloat(e.value)]
      else if e.code == ABS_HAT2Y then p.data[6 := ToFloat(e.value)]
      else if e.code == ABS_HAT3X then p.data[7 := ToFloat(e.value)]
      else if e.code == ABS_HAT3Y then p.data[8 := ToFloat(e.value)]
      else p.data
  {
  }

  function CountSyn(es: seq<InputEvent>): nat {
    if es == [] then 0 else CountSyn(es[..|es| - 1]) + if es[|es| - 1].kind == EV_SYN then 1 else 0
  }

  lemma FoldLast(p: Pending, enabled: bool, es: seq<InputEvent>)
    requires es != []
    ensures var n := |es| - 1; var a := Fold(p, enabled, es[..n]); var p' := Absorb(a.pending, es[n]);
      Fold(p, enabled, es) ==
      Assembled(if enabled && es[n].kind == EV_SYN then a.reports + [p'] else a.reports, p')
  {
    var n := |es| - 1;
    assert es == es[..n] + [es[n]];
    FoldConcat(p, enabled, es[..n], [es[n]]);
  }

  lemma {:induction false} PendingIsLatest(p: Pending, enabled: bool, es: seq<InputEvent>)
    ensures HoldsLatest(Fold(p, enabled, es).pending.data, es, p)
    ensures |Fold(p, enabled, es).reports| == if enabled then CountSyn(es) else 0
  {
    if es != [] {
      FoldLast(p, enabled, es);
      PendingIsLatest(p, enabled, es[..|es| - 1]);
    }
  }

  // Every sync event of an enabled sensor gives one report, in order, with its time in nanoseconds and
  // the latest value of every slot.
  lemma ReportOfSync(p: Pending, es: seq<InputEvent>, i: nat)
    requires i < |es| && es[i].kind == EV_SYN
    ensures var k, reports := CountSyn(es[..i]), Fold(p, true, es).reports;
      k < |reports| && HoldsLatest(reports[k].data, es[..i], p) &&
      reports[k].timestamp == es[i].sec * 1_000_000_000 + es[i].usec * 1000
  {
    var upTo := es[..i + 1];
    assert upTo[..i] == es[..i] && es == upTo + es[i + 1..];
    FoldConcat(p, true, upTo, es[i + 1..]);
    FoldLast(p, true, upTo);
    PendingIsLatest(p, true, es[..i]);
  }

  // ---------- Chunk independence ----------

  // A successful call of readEvents: what its fill() read, and how many reports it may deliver.
  datatype Call = Call(chunk: seq<InputEvent>, count: nat)

  datatype Session = Session(pending: Pending, unread: seq<InputEvent>, delivered: seq<Pending>)

  function Step(enabled: bool, s: Session, c: Call): Session {
    var es := s.unread + c.chunk;
    var k := Consumed(enabled, es, c.count);
    var a := Fold(s.pending, enabled, es[..k]);
    Session(a.pending, es[k..], s.delivered + a.reports)
  }

  function Calls(enabled: bool, p: Pending, calls: seq<Call>): Session {
    if calls == [] then Session(p, [], [])
    else Step(enabled, Calls(enabled, p, calls[..|calls| - 1]), calls[|calls| - 1])
  }

  function Stream(calls: seq<Call>): seq<InputEvent> {
    if calls == [] then [] else Stream(calls[..|calls| - 1]) + calls[|calls| - 1].chunk
  }

  // Whatever the sizes of the reads and of the result buffers, the reports delivered so far are those
  // of one pass over the events consumed so far, and the rest of the stream is still unread.
  lemma {:induction false} CallsAreOneFold(enabled: bool, p: Pending, calls: seq<Call>)
    ensures var s, all := Calls(enabled, p, calls), Stream(calls);
      |s.unread| <= |all| && s.unread == all[|all| - |s.unread|..] &&
      Fold(p, enabled, all[..|all| - |s.unread|]) == Assembled(s.delivered, s.pending)
  {
    if calls != [] {
      var before := calls[..|calls| - 1];
      CallsAreOneFold(enabled, p, before);
      StepExtendsFold(enabled, p, Calls(enabled, p, before), Stream(before), calls[|calls| - 1]);
    }
  }

  lemma StepExtendsFold(enabled: bool, p: Pending, s: Session, all: seq<InputEvent>, c: Call)
    requires |s.unread| <= |all| && s.unread == all[|all| - |s.unread|..]
    requires Fold(p, enabled, all[..|all| - |s.unread|]) == Assembled(s.delivered, s.pending)
    ensures var s', all' := Step(enabled, s, c), all + c.chunk;
      |s'.unread| <= |all'| && s'.unread == all'[|all'| - |s'.unread|..] &&
      Fold(p, enabled, all'[..|all'| - |s'.unread|]) == Assembled(s'.delivered, s'.pending)
  {
    var used, es := all[..|all| - |s.unread|], s.unread + c.chunk;
    var k := Consumed(enabled, es, c.count);
    FoldConcat(p, enabled, used, es[..k]);
    assert all + c.chunk == used + es;
    assert (used + es)[..|used| + k] == used + es[..k];
  }

  // Two ways of reading the same stream to its end deliver the same reports.
  lemma ChunkIndependence(enabled: bool, p: Pending, calls: seq<Call>, calls': seq<Call>)
    requires Stream(calls) == Stream(calls')
    requires Calls(enabled, p, calls).unread == [] == Calls(enabled, p, calls').unread
    ensures Calls(enabled, p, calls) == Calls(enabled, p, calls')
  {
    CallsAreOneFold(enabled, p, calls);
    CallsAreOneFold(enabled, p, calls');
  }

  // ---------- The sensor ----------

  // The loop of readEvents after k events: what has been delivered, and what is still allowed.
  ghost predicate InProgress(p0: Pending, enabled: bool, es: seq<InputEvent>, count: nat,
                             k: nat, left: nat, done: seq<Pending>, pending: Pending)
  {
    k <= |es| && Fold(p0, enabled, es[..k]) == Assembled(done, pending) &&
    Consumed(enabled, es, count) == k + Consumed(enabled, es[k..], left) && |done| + left == count
  }

  lemma DeliverStep(p0: Pending, enabled: bool, es: seq<InputEvent>, count: nat,
                    k: nat, left: nat, done: seq<Pending>, pending: Pending,
                    left': nat, done': seq<Pending>, pending': Pending)
    requires InProgress(p0, enabled, es, count, k, left, done, pending) && k < |es| && left > 0
    requires pending' == Absorb(pending, es[k])
    requires if enabled && es[k].kind == EV_SYN then left' == left - 1 && done' == done + [pending']
             else left' == left && done' == done
    ensures InProgress(p0, enabled, es, count, k + 1, left', done', pending')
  {
    FoldLast(p0, enabled, es[..k + 1]);
    assert es[..k + 1][..k] == es[..k];
    assert es[k..][1..] == es[k + 1..];
  }

  lemma DeliverEnds(p0: Pending, enabled: bool, es: seq<InputEvent>, count: nat,
                    k: nat, left: nat, done: seq<Pending>, pending: Pending)
    requires InProgress(p0, enabled, es, count, k, left, done, pending) && (k == |es| || left == 0)
    ensures k == Consumed(enabled, es, count) && Fold(p0, enabled, es[..k]) == Assembled(done, pending)
  {
  }

  // The step of a session, for a call on its own.
  lemma StepIs(enabled: bool, p: Pending, unread: seq<InputEvent>, c: Call)
    ensures var es := unread + c.chunk; var k := Consumed(enabled, es, c.count);
      Step(enabled, Session(p, unread, []), c) ==
      Session(Fold(p, enabled, es[..k]).pending, es[k..], Fold(p, enabled, es[..k]).reports)
  {
  }

  class Sensor {
    const mInputReader: InputEventCircularReader
    var mEnabled: bool
    var mHasPendingEvent: bool
    var mPendingEvent: Pending

    ghost predicate Valid()
      reads this, mInputReader
    {
      mInputReader.Valid()
    }

    constructor ()
      ensures Valid() && mInputReader.Contents() == [] && !mEnabled && !mHasPendingEvent
      ensures fresh(mInputReader) && fresh(mInputReader.mBuffer)
    {
      mInputReader := new InputEventCircularReader(4);
      mEnabled, mHasPendingEvent := false, false;
      mPendingEvent := SensorEvent([0, 0, 0, 0, 0, 0, 0, 0, 0], 0);
    }

    // The result is the number of reports stored in data, or a negative error. A successful call is a
    // Step; a call that fails changes nothing.
    method ReadEvents(data: array<Pending>, count: int, r: ReadResult, now: int) returns (n: int)
      requires Valid() && count <= data.Length && data as object != mInputReader.mBuffer
      requires (r.ReadError? ==> r.errno > 0) && (r.Read? ==> |r.events| <= mInputReader.mFreeSpace)
      modifies this, mInputReader, mInputReader.mBuffer, data
      ensures Valid() && mEnabled == old(mEnabled)
      ensures n < 0 ==> mPendingEvent == old(mPendingEvent) && mInputReader.Contents() == old(mInputReader.Contents())
      ensures n < 0 ==> mHasPendingEvent == old(mHasPendingEvent)
      ensures n < 0 <==>
        (count < 1 || (!old(mHasPendingEvent) && old(mInputReader.mFreeSpace) > 0 && (r.ReadError? || r.torn)))
      ensures n < 0 ==> n == if count >= 1 && r.ReadError? then -r.errno else -EINVAL
      ensures n >= 0 && old(mHasPendingEvent) ==>
        !mHasPendingEvent && n == (if mEnabled then 1 else 0) &&
        mInputReader.Contents() == old(mInputReader.Contents()) &&
        mPendingEvent == old(mPendingEvent).(timestamp := now) && data[0] == mPendingEvent
      ensures n >= 0 && !old(mHasPendingEvent) ==>
        var chunk := if old(mInputReader.mFreeSpace) == 0 then [] else r.events;
        var s := Step(mEnabled, Session(old(mPendingEvent), old(mInputReader.Contents()), []), Call(chunk, count));
        n <= count && data[..n] == s.delivered && mPendingEvent == s.pending && mInputReader.Contents() == s.unread
    {
      if count < 1 {
        return -EINVAL;
      }
      if mHasPendingEvent {
        mHasPendingEvent := false;
        mPendingEvent := mPendingEvent.(timestamp := now);
        data[0] := mPendingEvent;
        return if mEnabled then 1 else 0;
      }
      n := mInputReader.Fill(r);
      if n < 0 {
        return n;
      }
      ghost var chunk := if old(mInputReader.mFreeSpace) == 0 then [] else r.events;
      assert mInputReader.Contents() == old(mInputReader.Contents()) + chunk;
      StepIs(mEnabled, mPendingEvent, old(mInputReader.Contents()), Call(chunk, count));
      n := Deliver(data, count);
    }

    // The loop of readEvents.
    method Deliver(data: array<Pending>, count: nat) returns (n: nat)
      requires Valid() && count <= data.Length && data as object != mInputReader.mBuffer
      modifies this`mPendingEvent, mInputReader, data
      ensures Valid() && n <= count
      ensures var es, k := old(mInputReader.Contents()), Consumed(mEnabled, old(mInputReader.Contents()), count);
        mInputReader.Contents() == es[k..] &&
        Fold(old(mPendingEvent), mEnabled, es[..k]) == Assembled(data[..n], mPendingEvent)
    {
      ghost var es, p0, k := mInputReader.Contents(), mPendingEvent, 0;
      n := 0;
      var left := count;
      var available, event := mInputReader.ReadEvent();
      while left > 0 && available
        invariant Valid() && k <= |es| && mInputReader.Contents() == es[k..] && n + left == count
        invariant available == (k < |es|) && (available ==> event == es[k])
        invariant InProgress(p0, mEnabled, es, count, k, left, data[..n], mPendingEvent)
        decreases |es| - k
      {
        n, left := DeliverOne(data, n, left, event, p0, es, count, k);
        k := k + 1;
        available, event := mInputReader.ReadEvent();
      }
      DeliverEnds(p0, mEnabled, es, count, k, left, data[..n], mPendingEvent);
    }

    // One iteration: event k of es is absorbed, reported if it has to be, and consumed.
    method DeliverOne(data: array<Pending>, n: nat, left: nat, event: InputEvent,
                      ghost p0: Pending, ghost es: seq<InputEvent>, ghost count: nat, ghost k: nat)
      returns (n': nat, left': nat)
      requires Valid() && n + left == count <= data.Length && data as object != mInputReader.mBuffer && left > 0
      requires k < |es| && mInputReader.Contents() == es[k..] && event == es[k]
      requires InProgress(p0, mEnabled, es, count, k, left, data[..n], mPendingEvent)
      modifies this`mPendingEvent, mInputReader, data
      ensures Valid() && n' + left' == count && mInputReader.Contents() == es[k + 1..]
      ensures InProgress(p0, mEnabled, es, count, k + 1, left', data[..n'], mPendingEvent)
    {
      ghost var done0, pending0 := data[..n], mPendingEvent;
      n', left' := n, left;
      var reported := Handle(data, n, event);
      if reported {
        n', left' := n + 1, left - 1;
      }
      DeliverStep(p0, mEnabled, es, count, k, left, done0, pending0, left', data[..n'], mPendingEvent);
      mInputReader.Next();
      assert es[k..][1..] == es[k + 1..];
    }

    // The branches on the type of one event.
    method Handle(data: array<Pending>, n: nat, event: InputEvent) returns (reported: bool)
      requires n < data.Length
      modifies this`mPendingEvent, data
      ensures mPendingEvent == Absorb(old(mPendingEvent), event)
      ensures reported == (mEnabled && event.kind == EV_SYN)
      ensures reported ==> data[..n + 1] == old(data[..n]) + [mPendingEvent]
      ensures !reported ==> data[..n] == old(data[..n])
    {
      reported := false;
      if event.kind == EV_ABS {
        if event.code == ABS_DISTANCE {
          if event.value != -1 {
            mPendingEvent := mPendingEvent.(data := mPendingEvent.data[0 := ToFloat(event.value)]);
          }
        } else if event.code == ABS_HAT0X {
          mPendingEvent := mPendingEvent.(data := mPendingEvent.data[1 := ToFloat(event.value)]);
        } else if event.code == ABS_HAT0Y {
          mPendingEvent := mPendingEvent.(data := mPendingEvent.data[2 := ToFloat(event.value)]);
        } else if event.code == ABS_HAT1X {
          mPendingEvent := mPendingEvent.(data := mPendingEvent.data[3 := ToFloat(event.value)]);
        } else if event.code == ABS_HAT1Y {
          mPendingEvent := mPendingEvent.(data := mPendingEvent.data[4 := ToFloat(event.value)]);
        } else if event.code == ABS_HAT2X {
          mPendingEvent := mPendingEvent.(data := mPendingEvent.data[5 := ToFloat(event.value)]);
        } else if event.code == ABS_HAT2Y {
          mPendingEvent := mPendingEvent.(data := mPendingEvent.data[6 := ToFloat(event.value)]);
        } else if event.code == ABS_HAT3X {
          mPendingEvent := mPendingEvent.(data := mPendingEvent.data[7 := ToFloat(event.value)]);
        } else if event.code == ABS_HAT3Y {
          mPendingEvent := mPendingEvent.(data := mPendingEvent.data[8 := ToFloat(event.value)]);
        }
      } else if event.kind == EV_SYN {
        mPendingEvent := mPendingEvent.(timestamp := TimevalToNano(event));
        if mEnabled {
          data[n] := mPendingEvent;
          reported := true;
        }
      }
    }
  }
}
