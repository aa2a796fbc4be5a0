/** Time arithmetic and ranking of gps/utils/LocTimer.cpp. */
module TimerTime {
  import opened HeapTree

  const NANOS_PER_SEC := 1_000_000_000

  datatype Timespec = Timespec(sec: int, nsec: int)

  predicate Normalised(t: Timespec) {
    0 <= t.nsec < NANOS_PER_SEC
  }

  function Nanos(t: Timespec): int {
    t.sec * NANOS_PER_SEC + t.nsec
  }

  // Lexicographic order on (sec, nsec).
  predicate Earlier(a: Timespec, b: Timespec) {
    a.sec < b.sec || (a.sec == b.sec && a.nsec < b.nsec)
  }

  lemma EarlierIsFewerNanos(a: Timespec, b: Timespec)
    requires Normalised(a) && Normalised(b)
    ensures Earlier(a, b) <==> Nanos(a) < Nanos(b)
  {
  }

  // ---------- LocTimer::start ----------

  type UInt32 = x: int | 0 <= x < 0x1_0000_0000

  method ComputeFutureTime(now: Timespec, timeOutInMs: UInt32) returns (futureTime: Timespec)
    requires Normalised(now)
    ensures futureTime == FutureTime(now, timeOutInMs)
  {
    futureTime := now;
    futureTime := futureTime.(sec := futureTime.sec + timeOutInMs / 1000);
    futureTime := futureTime.(nsec := futureTime.nsec + (timeOutInMs % 1000) * 1_000_000);
    if futureTime.nsec >= NANOS_PER_SEC {
      futureTime := Timespec(futureTime.sec + futureTime.nsec / NANOS_PER_SEC, futureTime.nsec % NANOS_PER_SEC);
    }
  }

  // The one normalised time that lies timeOutInMs milliseconds after now.
  function FutureTime(now: Timespec, timeOutInMs: UInt32): (t: Timespec)
    requires Normalised(now)
    ensures Normalised(t) && Nanos(t) == Nanos(now) + timeOutInMs * 1_000_000
    ensures now.sec <= t.sec <= now.sec + MAX_DELAY_SEC
  {
    var total := now.nsec + (timeOutInMs % 1000) * 1_000_000;
    Timespec(now.sec + timeOutInMs / 1000 + total / NANOS_PER_SEC, total % NANOS_PER_SEC)
  }

  // 2^32 - 1 milliseconds, rounded up.
  const MAX_DELAY_SEC := 4_294_968

  // Of two starts, the one whose delay ends sooner gets the earlier time.
  lemma StartsInOrder(now: Timespec, ms: UInt32, now': Timespec, ms': UInt32)
    requires Normalised(now) && Normalised(now')
    ensures Earlier(FutureTime(now, ms), FutureTime(now', ms')) <==>
      Nanos(now) + ms * 1_000_000 < Nanos(now') + ms' * 1_000_000
  {
    EarlierIsFewerNanos(FutureTime(now, ms), FutureTime(now', ms'));
  }

  // ---------- LocTimerDelegate::ranks ----------

  // Conversion of a wider integer to a 32-bit int.
  function ToInt32(x: int): int {
    var low := x % 0x1_0000_0000;
    if low < 0x8000_0000 then low else low - 0x1_0000_0000
  }

  function RankOf(a: Timespec, b: Timespec): int {
    var rank := ToInt32(b.sec - a.sec);
    if rank == 0 then ToInt32(b.nsec - a.nsec) else rank
  }

  ghost predicate RanksCorrectly(a: Timespec, b: Timespec) {
    (RankOf(a, b) > 0 <==> Earlier(a, b)) && (RankOf(a, b) < 0 <==> Earlier(b, a))
  }

  lemma RankIsReversedOrder(a: Timespec, b: Timespec)
    requires Normalised(a) && Normalised(b) && -0x8000_0000 <= b.sec - a.sec < 0x8000_0000
    ensures RanksCorrectly(a, b)
  {
    assert forall d :: -0x8000_0000 <= d < 0x8000_0000 ==> ToInt32(d) == d;
  }

  ghost predicate Within(t: Timespec, lo: int, hi: int) {
    Normalised(t) && lo <= t.sec <= hi
  }

  // The truncation to int is harmless on a range of seconds if and only if the range is shorter
  // than 2^31.
  lemma RankExactlyOnShortRanges(lo: int, hi: int)
    requires lo <= hi
    ensures (forall a, b :: Within(a, lo, hi) && Within(b, lo, hi) ==> RanksCorrectly(a, b)) <==> hi - lo < 0x8000_0000
  {
    if hi - lo < 0x8000_0000 {
      forall a, b | Within(a, lo, hi) && Within(b, lo, hi) ensures RanksCorrectly(a, b) {
        RankIsReversedOrder(a, b);
      }
    } else {
      var a, b := Timespec(lo, 0), Timespec(lo + 0x8000_0000, 0);
      assert Within(a, lo, hi) && Within(b, lo, hi) && !RanksCorrectly(a, b);
    }
  }

  // ---------- Timers as heap elements ----------

  // A delegate as the heap sees it: its identity and its mFutureTime.
  datatype TimerRecord = TimerRecord(id: nat, time: Timespec)

  // Times of a boot clock that has started and has run for less than 2^31 seconds.
  predicate InClockRange(t: Timespec) {
    Normalised(t) && 0 <= t.sec < 0x8000_0000 && t != Timespec(0, 0)
  }

  type Timer = r: TimerRecord | InClockRange(r.time) witness TimerRecord(0, Timespec(1, 0))

  function Ranks(a: Timer, b: Timer): int {
    RankOf(a.time, b.time)
  }

  lemma OutRanksIsEarlier(a: Timer, b: Timer)
    ensures OutRanks(Ranks, a, b) <==> Earlier(a.time, b.time)
  {
    RankIsReversedOrder(a.time, b.time);
  }

  // In the heap, of two started timers the one whose delay ends sooner outranks the other.
  lemma SoonerEndOutRanks(a: Timer, now: Timespec, ms: UInt32, b: Timer, now': Timespec, ms': UInt32)
    requires Normalised(now) && Normalised(now')
    requires a.time == FutureTime(now, ms) && b.time == FutureTime(now', ms')
    ensures OutRanks(Ranks, a, b) <==> Nanos(now) + ms * 1_000_000 < Nanos(now') + ms' * 1_000_000
  {
    OutRanksIsEarlier(a, b);
    StartsInOrder(now, ms, now', ms');
  }

  // What the heap requires of ranks.
  lemma RanksIsTotalPreorder()
    ensures TotalPreorder(Ranks)
  {
    forall a: Timer, b: Timer ensures OutRanks(Ranks, a, b) <==> Earlier(a.time, b.time) {
      OutRanksIsEarlier(a, b);
    }
  }
}
