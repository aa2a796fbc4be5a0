/** The double-length circular event buffer of camera/proximity/InputEventReader.cpp. */
module InputEventReader {

  datatype InputEvent = InputEvent(sec: int, usec: int, kind: int, code: int, value: int)

  // What read() does: it fails with errno, or it stores events; torn when the last of them is not whole.
  datatype ReadResult = ReadError(errno: int) | Read(events: seq<InputEvent>, torn: bool)

  const EINVAL := 22

  // Positions past the logical end n continue at its start.
  function Slot(n: nat, p: int): int {
    if p >= n then p - n else p
  }

  // The len events from position curr on, in a buffer with logical end n.
  function Ring(b: seq<InputEvent>, n: nat, curr: nat, len: nat): (s: seq<InputEvent>)
    requires |b| == 2 * n && len <= n && (curr < n || n == 0)
    ensures |s| == len && forall i :: 0 <= i < len ==> s[i] == b[Slot(n, curr + i)]
  {
    seq(len, i requires 0 <= i < len => b[Slot(n, curr + i)])
  }

  // Storing c <= n - len events from head on overwrites no unread event.
  lemma RingUntouched(b: seq<InputEvent>, b': seq<InputEvent>, n: nat, curr: nat, len: nat, head: nat, c: nat)
    requires |b| == |b'| == 2 * n && len + c <= n && (curr < n || n == 0)
    requires head <= n && Slot(n, head) == Slot(n, curr + len)
    requires forall j :: 0 <= j < n && !(head <= j < head + c) ==> b'[j] == b[j]
    ensures Ring(b', n, curr, len) == Ring(b, n, curr, len)
  {
  }

  // Stored from head on, with what went past the logical end copied to the start, events extend the ring.
  lemma RingFilled(b: seq<InputEvent>, b': seq<InputEvent>, n: nat, curr: nat, len: nat, head: nat, es: seq<InputEvent>)
    requires |b| == |b'| == 2 * n && len + |es| <= n && (curr < n || n == 0)
    requires head <= n && Slot(n, head) == Slot(n, curr + len)
    requires forall j :: 0 <= j < n ==>
      b'[j] == (if head <= j < head + |es| then es[j - head]
                else if j < head + |es| - n then es[j + n - head] else b[j])
    ensures Ring(b', n, curr, len + |es|) == Ring(b, n, curr, len) + es
  {
    forall i | 0 <= i < len + |es|
      ensures Ring(b', n, curr, len + |es|)[i] == (Ring(b, n, curr, len) + es)[i]
    {
      if i >= len {
        var j := Slot(n, curr + i);
        assert j == head + (i - len) || j == head + (i - len) - n;
      }
    }
  }

  class InputEventCircularReader {
    const mBuffer: array<InputEvent>
    const mBufferEnd: nat
    var mHead: nat
    var mCurr: nat
    var mFreeSpace: nat

    ghost predicate Valid()
      reads this
    {
      mBuffer.Length == 2 * mBufferEnd && mFreeSpace <= mBufferEnd &&
      mHead <= mBufferEnd && (mCurr < mBufferEnd || (mBufferEnd == 0 && mCurr == 0)) &&
      Slot(mBufferEnd, mHead) == Slot(mBufferEnd, mCurr + Available())
    }

    function Available(): int
      reads this
    {
      mBufferEnd - mFreeSpace
    }

    // The events not yet consumed, oldest first.
    ghost function Contents(): (s: seq<InputEvent>)
      requires Valid()
      reads this, mBuffer
    {
      Ring(mBuffer[..], mBufferEnd, mCurr, Available())
    }

    constructor (numEvents: nat)
      ensures Valid() && fresh(mBuffer) && mBufferEnd == numEvents && Contents() == []
    {
      mBuffer := new InputEvent[2 * numEvents](_ => InputEvent(0, 0, 0, 0, 0));
      mBufferEnd, mHead, mCurr, mFreeSpace := numEvents, 0, 0, numEvents;
    }

    // read() never stores more than it was asked for. An error leaves the unread events alone, even
    // when a torn read has scribbled over the free slots.
    method Fill(r: ReadResult) returns (n: int)
      requires Valid() && (r.ReadError? ==> r.errno > 0) && (r.Read? ==> |r.events| <= mFreeSpace)
      modifies this, mBuffer
      ensures Valid()
      ensures old(mFreeSpace) == 0 ==> n == 0 && Contents() == old(Contents())
      ensures old(mFreeSpace) > 0 && r.ReadError? ==> n == -r.errno && Contents() == old(Contents())
      ensures old(mFreeSpace) > 0 && r.Read? && r.torn ==> n == -EINVAL && Contents() == old(Contents())
      ensures old(mFreeSpace) > 0 && r.Read? && !r.torn ==>
        n == |r.events| && Contents() == old(Contents()) + r.events
    {
      if mFreeSpace == 0 {
        return 0;
      }
      if r.ReadError? {
        return -r.errno;
      }
      forall i | 0 <= i < |r.events| {
        mBuffer[mHead + i] := r.events[i];
      }
      if r.torn {
        RingUntouched(old(mBuffer[..]), mBuffer[..], mBufferEnd, mCurr, Available(), mHead, |r.events|);
        return -EINVAL;
      }
      ghost var len, head := Available(), mHead;
      n := |r.events|;
      if n > 0 {
        mHead := mHead + n;
        mFreeSpace := mFreeSpace - n;
        if mHead > mBufferEnd {
          var s := mHead - mBufferEnd;
          forall i | 0 <= i < s {
            mBuffer[i] := mBuffer[mBufferEnd + i];
          }
          mHead := s;
        }
      }
      RingFilled(old(mBuffer[..]), mBuffer[..], mBufferEnd, mCurr, len, head, r.events);
    }

    method ReadEvent() returns (available: bool, event: InputEvent)
      requires Valid()
      ensures available <==> Contents() != []
      ensures available ==> event == Contents()[0]
    {
      available := mBufferEnd - mFreeSpace != 0;
      assert available ==> Contents()[0] == mBuffer[mCurr];
      event := if mCurr < mBuffer.Length then mBuffer[mCurr] else InputEvent(0, 0, 0, 0, 0);
    }

    // To be called only after ReadEvent() has reported an event.
    method Next()
      requires Valid() && Contents() != []
      modifies this
      ensures Valid() && Contents() == old(Contents())[1..]
    {
      mCurr := mCurr + 1;
      mFreeSpace := mFreeSpace + 1;
      if mCurr >= mBufferEnd {
        mCurr := 0;
      }
    }
  }
}
