/**
 * The SuperMemo SM-2 variant of ReviewService.calculateSM2 and the next-review date
 * SubmitReview derives from it (internal/services/review_service.go).
 */
module Sm2 {
  import opened Models

  const MinEaseFactor: real := 1.3
  /** An interval of this many days or more makes a word "mastered". */
  const MasteredInterval: int := 21

  /** What calculateSM2 returns: (newEaseFactor, newIntervalDays, newStatus). */
  datatype Schedule = Schedule(easeFactor: real, intervalDays: int, status: Status)

  /** The ease-factor adjustment 0.1 - (5 - q) * (0.08 + (5 - q) * 0.02). */
  function EaseDelta(quality: int): real {
    0.1 - (5 - quality) as real * (0.08 + (5 - quality) as real * 0.02)
  }

  /** `math.Round`: the nearest integer, halves rounded away from zero. */
  function Round(x: real): (n: int)
    ensures x >= 0.0 ==> x - 0.5 < n as real <= x + 0.5
    ensures x < 0.0 ==> x - 0.5 <= n as real < x + 0.5
  {
    if x >= 0.0 then (x + 0.5).Floor else -((-x + 0.5).Floor)
  }

  /**
   * calculateSM2. The current status is accepted and never consulted: the new status
   * depends only on the quality and on the new interval.
   */
  function CalculateSM2(currentEF: real, currentInterval: int, quality: int, currentStatus: Status): (s: Schedule)
    ensures s.easeFactor >= MinEaseFactor
    ensures s.easeFactor >= currentEF + EaseDelta(quality)
    ensures s.easeFactor == MinEaseFactor || s.easeFactor == currentEF + EaseDelta(quality)
    ensures currentEF + EaseDelta(quality) >= MinEaseFactor ==> s.easeFactor == currentEF + EaseDelta(quality)
    ensures s.intervalDays >= 1
    ensures quality < 3 ==> s.intervalDays == 1 && s.status == Learning
    ensures quality >= 3 && currentInterval == 1 ==> s.intervalDays == 6 && s.status == Reviewing
    ensures quality >= 3 ==> s.status != Learning && (s.status == Reviewing <==> s.intervalDays < MasteredInterval)
    ensures quality >= 3 && currentInterval != 1 ==>
      var n := Round(currentInterval as real * s.easeFactor);
      s.intervalDays == (if n < 1 then 1 else n)
    ensures quality >= 3 && currentInterval > 1 ==>
      var x := currentInterval as real * s.easeFactor;
      x - 0.5 < s.intervalDays as real <= x + 0.5
  {
    var raw := currentEF + EaseDelta(quality);
    var ef := if raw < MinEaseFactor then MinEaseFactor else raw;
    if quality < 3 then
      Schedule(ef, 1, Learning)
    else
      var interval := if currentInterval == 1 then 6 else Round(currentInterval as real * ef);
      var status := if interval < MasteredInterval then Reviewing else Mastered;
      Schedule(ef, if interval < 1 then 1 else interval, status)
  }

  /** The adjustments for each valid rating: +0.1, 0, -0.14, -0.32, -0.54, -0.8. */
  lemma EaseDeltaTable()
    ensures EaseDelta(5) == 0.1 && EaseDelta(4) == 0.0 && EaseDelta(3) == -0.14
    ensures EaseDelta(2) == -0.32 && EaseDelta(1) == -0.54 && EaseDelta(0) == -0.8
  {
  }

  /** A better rating never yields a smaller ease factor. */
  lemma EaseFactorMonotone(ef: real, interval: int, q1: int, q2: int, st: Status)
    requires 0 <= q1 <= q2 <= 5
    ensures CalculateSM2(ef, interval, q1, st).easeFactor <= CalculateSM2(ef, interval, q2, st).easeFactor
  {
    var d1, d2 := (5 - q1) as real, (5 - q2) as real;
    assert d1 >= d2 >= 0.0;
    assert EaseDelta(q1) == 0.1 - d1 * (0.08 + d1 * 0.02);
    assert EaseDelta(q2) == 0.1 - d2 * (0.08 + d2 * 0.02);
    assert EaseDelta(q2) - EaseDelta(q1) == (d1 - d2) * (0.08 + (d1 + d2) * 0.02);
    MulNonNegative(d1 - d2, 0.08 + (d1 + d2) * 0.02);
  }

  /**
   * Above the floor, a 5 raises the ease factor, a 4 keeps it and anything lower
   * lowers it (down to the floor).
   */
  lemma EaseFactorDirection(ef: real, interval: int, quality: int, st: Status)
    requires 0 <= quality <= 5 && ef > MinEaseFactor
    ensures var s := CalculateSM2(ef, interval, quality, st);
      && (quality == 5 <==> s.easeFactor > ef)
      && (quality == 4 <==> s.easeFactor == ef)
      && (quality <= 3 <==> s.easeFactor < ef)
  {
    EaseDeltaTable();
  }

  /** A successful recall always lengthens an interval of at least one day. */
  lemma IntervalGrows(ef: real, interval: int, quality: int, st: Status)
    requires quality >= 3 && interval >= 1
    ensures CalculateSM2(ef, interval, quality, st).intervalDays > interval
  {
    var s := CalculateSM2(ef, interval, quality, st);
    if interval > 1 {
      var x := interval as real * s.easeFactor;
      assert x >= interval as real * MinEaseFactor by {
        MulNonNegative(interval as real, s.easeFactor - MinEaseFactor);
      }
      assert x >= interval as real + 0.6;
      assert Round(x) as real > x - 0.5;
    }
  }

  lemma MulNonNegative(a: real, b: real)
    requires a >= 0.0 && b >= 0.0
    ensures a * b >= 0.0
  {
  }

  /** The new schedule never depends on the status the word had before the review. */
  lemma StatusNotConsulted(ef: real, interval: int, quality: int, s1: Status, s2: Status)
    ensures CalculateSM2(ef, interval, quality, s1) == CalculateSM2(ef, interval, quality, s2)
  {
  }

  /** The worked example: interval 6, ease factor 2.5, rating 5 gives 2.6 and 16 days, still reviewing. */
  lemma WorkedExample()
    ensures CalculateSM2(2.5, 6, 5, Reviewing) == Schedule(2.6, 16, Reviewing)
  {
    assert 6.0 * 2.6 == 15.6;
    assert Round(15.6) == 16;
  }

  // ---- The next-review date --------------------------------------------------------------

  const MinInt64: int := -0x8000_0000_0000_0000
  const MaxInt64: int := 0x7FFF_FFFF_FFFF_FFFF

  /** Two's-complement 64-bit wrap-around, as Go's int64 multiplication does silently. */
  function Wrap64(x: int): (r: int)
    ensures MinInt64 <= r <= MaxInt64
    ensures MinInt64 <= x <= MaxInt64 ==> r == x
  {
    (x - MinInt64) % 0x1_0000_0000_0000_0000 + MinInt64
  }

  /** As written: `time.Now().Add(time.Duration(newInterval) * 24 * time.Hour)`, in int64 nanoseconds. */
  function NextReviewAsWritten(now: int, intervalDays: int): int {
    now + Wrap64(Wrap64(intervalDays * 24) * Hour)
  }

  /** As intended: exactly `intervalDays` days after `now`. */
  function NextReview(now: int, intervalDays: int): (t: int)
    ensures intervalDays >= 1 ==> t >= now + Day
  {
    now + intervalDays * Day
  }

  /** The two agree while the delay fits in a time.Duration (up to 106751 days) ... */
  lemma NextReviewAgreesWhileInRange(now: int, intervalDays: int)
    requires 0 <= intervalDays <= 106751
    ensures NextReviewAsWritten(now, intervalDays) == NextReview(now, intervalDays)
  {
  }

  /** ... and from 106752 days on the product wraps and the "next" review lies in the past. */
  lemma NextReviewOverflows(now: int)
    ensures NextReviewAsWritten(now, 106752) < now
    ensures NextReview(now, 106752) > now
  {
  }

  /** Applies `n` reviews rated 5 to a fresh record (ease factor 2.5, interval 1). */
  function PerfectReviews(n: nat): (s: Schedule)
    ensures s.intervalDays >= 1
  {
    if n == 0 then Schedule(2.5, 1, Learning)
    else
      var prev := PerfectReviews(n - 1);
      CalculateSM2(prev.easeFactor, prev.intervalDays, 5, prev.status)
  }

  /** Every perfect review lengthens the interval, from the first (which sets 6 days) on. */
  lemma PerfectReviewsLengthen(n: nat)
    ensures PerfectReviews(n + 1).intervalDays > PerfectReviews(n).intervalDays
    ensures PerfectReviews(n + 1).intervalDays >= 6
  {
    var prev := PerfectReviews(n);
    IntervalGrows(prev.easeFactor, prev.intervalDays, 5, prev.status);
    if n > 0 {
      PerfectReviewsLengthen(n - 1);
    }
  }

  /** Ten perfect reviews of a newly added word reach an interval whose delay overflows. */
  lemma TenPerfectReviewsOverflow(now: int)
    ensures PerfectReviews(10).intervalDays == 153069
    ensures NextReviewAsWritten(now, PerfectReviews(10).intervalDays) < now
  {
    assert PerfectReviews(1) == Schedule(2.6, 6, Reviewing);
    assert Round(6.0 * 2.7) == 16;
    assert PerfectReviews(2) == Schedule(2.7, 16, Reviewing);
    assert Round(16.0 * 2.8) == 45;
    assert PerfectReviews(3) == Schedule(2.8, 45, Mastered);
    assert Round(45.0 * 2.9) == 131;
    assert PerfectReviews(4) == Schedule(2.9, 131, Mastered);
    assert Round(131.0 * 3.0) == 393;
    assert PerfectReviews(5) == Schedule(3.0, 393, Mastered);
    assert Round(393.0 * 3.1) == 1218;
    assert PerfectReviews(6) == Schedule(3.1, 1218, Mastered);
    assert Round(1218.0 * 3.2) == 3898;
    assert PerfectReviews(7) == Schedule(3.2, 3898, Mastered);
    assert Round(3898.0 * 3.3) == 12863;
    assert PerfectReviews(8) == Schedule(3.3, 12863, Mastered);
    assert Round(12863.0 * 3.4) == 43734;
    assert PerfectReviews(9) == Schedule(3.4, 43734, Mastered);
    assert Round(43734.0 * 3.5) == 153069;
    assert PerfectReviews(10) == Schedule(3.5, 153069, Mastered);
  }
}
