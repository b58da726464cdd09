/** The beeper (function doBeeps): a tone, then a pause of beepPeriod, then the period
    shrinks by 15 %, rounded, but never below 200 ms. */
module Beeper {
  import opened Arith
  import opened SharedState

  /** The period doBeeps is started with, in milliseconds. */
  const InitialBeepPeriod := 1000

  /** The floor the period is clamped to, in milliseconds. */
  const MinBeepPeriod := 200

  /** Math.max(Math.round(b * 0.85), 200), with 0.85 exact: round(0.85 b) is (85 b + 50) / 100. */
  function NextBeepPeriod(b: int): (r: int)
    ensures r >= MinBeepPeriod
    ensures b > MinBeepPeriod ==> r < b
    ensures b <= MinBeepPeriod ==> r == MinBeepPeriod
  {
    Max((85 * b + 50) / 100, MinBeepPeriod)
  }

  /** The integer update is the program's formula evaluated on exact reals. */
  lemma NextBeepPeriodMatchesSource(b: int)
    ensures NextBeepPeriod(b) == Max(RoundHalfUp(b as real * 0.85), MinBeepPeriod)
  {
    assert b as real * 0.85 + 0.5 == (85 * b + 50) as real / 100 as real;
    FloorOfQuotient(85 * b + 50, 100);
  }

  /** Above the floor, one update takes off at least 29 ms or lands on the floor. */
  lemma NextBeepPeriodDrops(b: int)
    requires b > MinBeepPeriod
    ensures NextBeepPeriod(b) <= Max(b - 29, MinBeepPeriod)
  {
    assert (85 * b + 50) / 100 * 100 <= 85 * b + 50;
  }

  /** The period in force after n updates from b. */
  function BeepPeriodAfter(b: int, n: nat): (r: int)
    ensures n > 0 ==> r >= MinBeepPeriod
    ensures b >= MinBeepPeriod ==> r <= b
  {
    if n == 0 then b else NextBeepPeriod(BeepPeriodAfter(b, n - 1))
  }

  /** The period converges to the floor at no less than 29 ms per update. */
  lemma {:induction false} BeepPeriodConverges(b: int, n: nat)
    ensures BeepPeriodAfter(b, n) <= Max(b - 29 * n, MinBeepPeriod)
  {
    if n > 0 {
      BeepPeriodConverges(b, n - 1);
      var prev := BeepPeriodAfter(b, n - 1);
      if prev > MinBeepPeriod {
        NextBeepPeriodDrops(prev);
      }
    }
  }

  /** After enough updates the period sits on the floor. */
  lemma BeepPeriodReachesFloor(b: int, n: nat)
    requires n >= 1 && 29 * n >= b - MinBeepPeriod
    ensures BeepPeriodAfter(b, n) == MinBeepPeriod
  {
    BeepPeriodConverges(b, n);
  }

  /** The schedule from the initial period under exact arithmetic: ten shrinking periods,
      then the floor. */
  lemma InitialBeepSchedule()
    ensures seq(11, k requires 0 <= k < 11 => BeepPeriodAfter(InitialBeepPeriod, k))
            == [1000, 850, 723, 615, 523, 445, 378, 321, 273, 232, 200]
  {
    assert BeepPeriodAfter(1000, 1) == 850;
    assert BeepPeriodAfter(1000, 2) == 723;
    assert BeepPeriodAfter(1000, 3) == 615;
    assert BeepPeriodAfter(1000, 4) == 523;
    assert BeepPeriodAfter(1000, 5) == 445;
    assert BeepPeriodAfter(1000, 6) == 378;
    assert BeepPeriodAfter(1000, 7) == 321;
    assert BeepPeriodAfter(1000, 8) == 273;
    assert BeepPeriodAfter(1000, 9) == 232;
    assert BeepPeriodAfter(1000, 10) == 200;
  }

  /** From the tenth update on, the initial schedule stays on the floor. */
  lemma {:induction false} InitialBeepScheduleSettles(n: nat)
    requires n >= 10
    ensures BeepPeriodAfter(InitialBeepPeriod, n) == MinBeepPeriod
  {
    if n == 10 {
      InitialBeepSchedule();
      ghost var schedule := seq(11, k requires 0 <= k < 11 => BeepPeriodAfter(InitialBeepPeriod, k));
      assert schedule[10] == 200;
    } else {
      InitialBeepScheduleSettles(n - 1);
    }
  }

  /** The first n pauses doBeeps sleeps when started with period b. */
  function BeepSchedule(b: int, n: nat): (r: seq<int>)
    ensures |r| == n
    ensures forall j :: 0 <= j < n ==> r[j] == BeepPeriodAfter(b, j)
  {
    if n == 0 then [] else BeepSchedule(b, n - 1) + [BeepPeriodAfter(b, n - 1)]
  }

  /** The doBeeps loop: checks[k] is the status it reads at its k-th loop test, and the
      result lists the pauses it sleeps before it reads a status other than Counting. */
  method DoBeeps(beepPeriod: int, checks: seq<Status>) returns (pauses: seq<int>)
    requires exists k :: 0 <= k < |checks| && checks[k] != Counting
    ensures |pauses| < |checks| && checks[|pauses|] != Counting
    ensures forall j :: 0 <= j < |pauses| ==> checks[j] == Counting
    ensures pauses == BeepSchedule(beepPeriod, |pauses|)
  {
    ghost var stop :| 0 <= stop < |checks| && checks[stop] != Counting;
    var period := beepPeriod;
    var i := 0;
    pauses := [];
    while checks[i] == Counting
      invariant 0 <= i <= stop
      invariant forall j :: 0 <= j < i ==> checks[j] == Counting
      invariant pauses == BeepSchedule(beepPeriod, i)
      invariant period == BeepPeriodAfter(beepPeriod, i)
      decreases stop - i
    {
      pauses := pauses + [period];
      period := NextBeepPeriod(period);
      i := i + 1;
    }
  }
}
