/** The countdown (function runCountdown): ten one-second steps whose pauses are measured
    against the start time, so that display and processing delays do not accumulate. */
module Countdown {
  import opened Arith
  import opened SharedState

  /** countLength: the countdown's length in seconds. */
  const CountLength := 10

  /** The clock reading at which the step that left the counter at count should end. */
  function Boundary(startTime: int, count: int): int
  {
    startTime + 1000 * (CountLength - count)
  }

  /** pauseTime: the time left until the boundary, or no pause once it has passed. */
  function PauseTime(startTime: int, count: int, now: int): (pause: int)
    ensures pause >= 0
    ensures now < Boundary(startTime, count) ==> now + pause == Boundary(startTime, count)
    ensures Boundary(startTime, count) <= now ==> pause == 0
  {
    Max(startTime + 1000 * (CountLength - count) - now, 0)
  }

  /** The numbers c, c-1, ..., 1. */
  function Descending(c: int): (r: seq<int>)
    ensures |r| == if c > 0 then c else 0
    ensures forall k :: 0 <= k < |r| ==> r[k] == c - k
  {
    if c <= 0 then [] else [c] + Descending(c - 1)
  }

  /** The pauses of a countdown that reads status 2 at every loop test, on the clock
      readings clock[0] (the start time) and clock[k + 1] (the reading of step k): each
      step sleeps until its whole-second boundary, or not at all once that has passed. */
  function CountdownPauses(clock: seq<int>): (pauses: seq<int>)
    requires |clock| > CountLength
    ensures |pauses| == CountLength
    ensures forall k :: 0 <= k < CountLength ==>
              pauses[k] >= 0 && clock[k + 1] + pauses[k] == Max(clock[k + 1], clock[0] + 1000 * (k + 1))
  {
    seq(CountLength, k requires 0 <= k < CountLength => PauseTime(clock[0], CountLength - 1 - k, clock[k + 1]))
  }

  /** The first k + 1 numbers of c, c-1, ..., 1 are c followed by the first k of
      c-1, ..., 1. */
  lemma DescendingCons(c: int, k: nat)
    requires k < c
    ensures Descending(c)[..k + 1] == [c] + Descending(c - 1)[..k]
  {
    assert Descending(c) == [c] + Descending(c - 1);
  }

  /** The first k + 1 numbers of c, c-1, ..., 1 are the first k followed by c - k. */
  lemma DescendingSnoc(c: int, k: nat)
    requires k < c
    ensures Descending(c)[..k + 1] == Descending(c)[..k] + [c - k]
  {
    var d := Descending(c);
    assert d[..k + 1] == d[..k] + [d[k]];
  }

  /** The runCountdown loop and its expiry test. clock[0] is the start time read before
      the loop and clock[k] the reading taken in step k; checks[k] is the status the k-th
      loop test reads. The test after the loop follows the failing loop test with no
      pause in between, so it reads the same status as that loop test. */
  method RunCountdown(clock: seq<int>, checks: seq<Status>)
    returns (shown: seq<int>, pauses: seq<int>, count: int, explodes: bool)
    requires |clock| > CountLength && |checks| > CountLength
    ensures 0 <= count <= CountLength
    ensures shown == Descending(CountLength)[..CountLength - count]
    ensures |pauses| == CountLength - count
    ensures forall k :: 0 <= k < |pauses| ==>
              pauses[k] == PauseTime(clock[0], CountLength - 1 - k, clock[k + 1])
    ensures forall k :: 0 <= k < CountLength - count ==> checks[k] == Counting
    ensures count > 0 ==> checks[CountLength - count] != Counting
    ensures explodes <==> count == 0 && checks[CountLength] == Counting
    ensures (forall k :: 0 <= k <= CountLength ==> checks[k] == Counting) ==>
              explodes && count == 0 && shown == Descending(CountLength)
  {
    var startTime := clock[0];
    count := CountLength;
    shown, pauses := [], [];
    while checks[CountLength - count] == Counting && count > 0
      invariant 0 <= count <= CountLength
      invariant shown == Descending(CountLength)[..CountLength - count]
      invariant |pauses| == CountLength - count
      invariant forall k :: 0 <= k < |pauses| ==>
                  pauses[k] == PauseTime(startTime, CountLength - 1 - k, clock[k + 1])
      invariant forall k :: 0 <= k < CountLength - count ==> checks[k] == Counting
    {
      DescendingSnoc(CountLength, CountLength - count);
      shown := shown + [count];
      count := count - 1;
      pauses := pauses + [PauseTime(startTime, count, clock[CountLength - count])];
    }
    explodes := checks[CountLength - count] == Counting;
    assert Descending(CountLength)[..CountLength] == Descending(CountLength);
  }

  /** The pauses RunCountdown sleeps, computed step by step against the start time, are
      a prefix of CountdownPauses, and all of it when the countdown runs to the end. */
  lemma CountdownPausesPrefix(clock: seq<int>, pauses: seq<int>)
    requires |clock| > CountLength && |pauses| <= CountLength
    requires forall k :: 0 <= k < |pauses| ==>
               pauses[k] == PauseTime(clock[0], CountLength - 1 - k, clock[k + 1])
    ensures pauses == CountdownPauses(clock)[..|pauses|]
    ensures |pauses| == CountLength ==> pauses == CountdownPauses(clock)
  {
  }

  /** The clock reading at which step k of an undisturbed countdown wakes from its pause,
      when it started at startTime and delays[j] is the time from waking (or from the
      start) to the clock reading of step j + 1 (display and processing overhead). */
  function WakeTime(startTime: int, delays: seq<int>, k: nat): (wake: int)
    requires k <= |delays|
    ensures k > 0 ==> wake >= Boundary(startTime, CountLength - k)
  {
    if k == 0 then startTime
    else
      var now := WakeTime(startTime, delays, k - 1) + delays[k - 1];
      now + PauseTime(startTime, CountLength - k, now)
  }

  /** As long as no step's overhead reaches a full second, every step ends exactly on
      its whole-second boundary: no drift accumulates. */
  lemma {:induction false} WakeTimeIsExact(startTime: int, delays: seq<int>, k: nat)
    requires k <= |delays|
    requires forall j :: 0 <= j < k ==> 0 <= delays[j] <= 1000
    ensures WakeTime(startTime, delays, k) == startTime + 1000 * k
  {
    if k > 0 {
      WakeTimeIsExact(startTime, delays, k - 1);
    }
  }

  /** The sum of a sequence. */
  function Sum(s: seq<int>): int
  {
    if s == [] then 0 else Sum(s[..|s| - 1]) + s[|s| - 1]
  }

  /** The wake times a countdown would have that paused a fixed 1000 ms each step. */
  function NaiveWakeTime(startTime: int, delays: seq<int>, k: nat): int
    requires k <= |delays|
  {
    if k == 0 then startTime else NaiveWakeTime(startTime, delays, k - 1) + delays[k - 1] + 1000
  }

  /** A fixed 1000 ms pause is late by the sum of all overheads so far. */
  lemma {:induction false} NaiveWakeTimeDrifts(startTime: int, delays: seq<int>, k: nat)
    requires k <= |delays|
    ensures NaiveWakeTime(startTime, delays, k) == startTime + 1000 * k + Sum(delays[..k])
  {
    if k > 0 {
      NaiveWakeTimeDrifts(startTime, delays, k - 1);
      assert delays[..k][..k - 1] == delays[..k - 1];
    }
  }

  /** With overheads below a second, the countdown reaches its expiry test exactly
      countLength seconds after it started. */
  lemma ExpiresOnTime(startTime: int, delays: seq<int>)
    requires |delays| == CountLength
    requires forall j :: 0 <= j < |delays| ==> 0 <= delays[j] <= 1000
    ensures WakeTime(startTime, delays, CountLength) - startTime == CountLength * 1000
    ensures NaiveWakeTime(startTime, delays, CountLength) - WakeTime(startTime, delays, CountLength)
            == Sum(delays)
  {
    WakeTimeIsExact(startTime, delays, CountLength);
    NaiveWakeTimeDrifts(startTime, delays, CountLength);
    assert delays[..CountLength] == delays;
  }
}
