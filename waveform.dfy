/** The triangular LED brightness waveform (function LED_level) and the four-slot
    frame the idle scanner samples from it. Times are whole milliseconds and the
    phase offset is a whole number of quarter periods, so everything is exact in
    integers: the position within the cycle is kept in quarter-milliseconds. */
module Waveform {
  import opened Arith

  /** The scanner's cycle length in milliseconds. */
  const ScanPeriod := 2000

  /** Phase offsets, in quarter periods, of the four LED slots 0..3 (0, 0.75, 0.5, 0.25). */
  const ScanPhases: seq<nat> := [0, 3, 2, 1]

  /** Four times the reduced time `(t + phase*period) % period`, phase being quarters/4. */
  function CyclePos(t: nat, period: nat, quarters: nat): (pos: nat)
    requires period > 0
    ensures pos < 4 * period
  {
    (4 * t + quarters * period) % (4 * period)
  }

  /** The rounded intensity at cycle position pos (in quarter-milliseconds):
      a linear rise over the first third, a linear fall over the second, dark after. */
  function Level(pos: int, period: int): (level: int)
    requires period > 0 && 0 <= pos < 4 * period
    ensures 0 <= level <= 100
  {
    if 3 * pos <= 4 * period then
      DivRange(150 * pos + period, 2 * period, 101);
      (150 * pos + period) / (2 * period)
    else if 3 * pos <= 8 * period then
      DivRange(401 * period - 150 * pos, 2 * period, 101);
      (401 * period - 150 * pos) / (2 * period)
    else
      0
  }

  /** LED_level(t, period, quarters/4). */
  function LedLevel(t: nat, period: nat, quarters: nat): (level: int)
    requires period > 0
    ensures 0 <= level <= 100
  {
    Level(CyclePos(t, period, quarters), period)
  }

  /** Taking off the whole multiples of m leaves a remainder in [0, m). */
  lemma FloorRemainder(a: real, m: real)
    requires a >= 0.0 && m > 0.0
    ensures 0.0 <= a - m * (a / m).Floor as real < m
  {
    var q := a / m;
    var f := q.Floor as real;
    assert f <= q < f + 1.0;
    assert m * q == a;
    RealMulMonotone(f, q, m);
    RealMulStrict(q, f + 1.0, m);
    calc {
      a;
    ==
      m * q;
    <
      m * (f + 1.0);
    ==
      m * f + m;
    }
  }

  /** A multiple of m divided by m is its factor. */
  lemma MultipleQuotient(f: real, m: real)
    requires m > 0.0
    ensures (m * f) / m == f && (-(m * f)) / m == -f
  {
    RealQuotient(f, m * f, m);
    RealQuotient(-f, -(m * f), m);
  }

  /** On a non-negative reduced time, both rounded branches take arguments in [0, 100]. */
  lemma RoundedBranchesInRange(tv: real, period: real)
    requires period > 0.0
    ensures 0.0 <= tv <= period / 3.0 ==> 0.0 <= 100.0 * (tv * 3.0 / period) <= 100.0
    ensures period / 3.0 < tv <= 2.0 * period / 3.0 ==> 0.0 <= 100.0 * (2.0 - tv * 3.0 / period) <= 100.0
  {
    var u := tv * 3.0 / period;
    RealQuotient(0.0, 0.0, period);
    RealQuotient(1.0, period, period);
    RealQuotient(2.0, 2.0 * period, period);
    if 0.0 <= tv <= period / 3.0 {
      RealDivMonotone(0.0, tv * 3.0, period);
      RealDivMonotone(tv * 3.0, period, period);
    }
    if period / 3.0 < tv <= 2.0 * period / 3.0 {
      RealDivStrict(period, tv * 3.0, period);
      RealDivMonotone(tv * 3.0, 2.0 * period, period);
    }
  }

  /** JavaScript's `%` on numbers: the remainder takes the sign of the dividend. */
  function JsRemainder(x: real, m: real): real
    requires m > 0.0
  {
    if x >= 0.0 then x - m * (x / m).Floor as real
    else -(-x - m * (-x / m).Floor as real)
  }

  /** On a non-negative dividend, `%` takes off the whole multiples of the divisor. */
  lemma JsRemainderOfNonNegative(x: real, m: real)
    requires x >= 0.0 && m > 0.0
    ensures 0.0 <= JsRemainder(x, m) < m
    ensures ((x - JsRemainder(x, m)) / m).Floor as real == (x - JsRemainder(x, m)) / m
  {
    var k := (x / m).Floor;
    FloorRemainder(x, m);
    MultipleQuotient(k as real, m);
    var r := JsRemainder(x, m);
    assert x - r == m * k as real;
    assert (x - r) / m == k as real;
    assert (k as real).Floor == k;
  }

  /** On a negative dividend, `%` takes off whole multiples towards zero. */
  lemma JsRemainderOfNegative(x: real, m: real)
    requires x < 0.0 && m > 0.0
    ensures -m < JsRemainder(x, m) <= 0.0
    ensures ((x - JsRemainder(x, m)) / m).Floor as real == (x - JsRemainder(x, m)) / m
  {
    var k := (-x / m).Floor;
    FloorRemainder(-x, m);
    MultipleQuotient(k as real, m);
    var r := JsRemainder(x, m);
    assert x - r == -(m * k as real);
    assert (x - r) / m == -(k as real);
    assert (-(k as real)).Floor == -k;
  }

  /** JavaScript's `%` leaves a remainder smaller in size than the divisor, with the sign
      of the dividend, and takes off a whole multiple of the divisor. */
  lemma JsRemainderSign(x: real, m: real)
    requires m > 0.0
    ensures x >= 0.0 ==> 0.0 <= JsRemainder(x, m) < m
    ensures x < 0.0 ==> -m < JsRemainder(x, m) <= 0.0
    ensures ((x - JsRemainder(x, m)) / m).Floor as real == (x - JsRemainder(x, m)) / m
  {
    if x >= 0.0 {
      JsRemainderOfNonNegative(x, m);
    } else {
      JsRemainderOfNegative(x, m);
    }
  }

  /** LED_level as the program writes it, over exact reals. */
  function LedLevelOfSource(timeval: real, period: real, phase: real): int
    requires period > 0.0
  {
    var tv := JsRemainder(timeval + phase * period, period);
    if tv <= period / 3.0 then RoundHalfUp(100.0 * (tv * 3.0 / period))
    else if tv <= 2.0 * period / 3.0 then RoundHalfUp(100.0 * (2.0 - tv * 3.0 / period))
    else 0
  }

  /** For any non-negative phase-shifted time, and any real phase, the program's formula
      yields a level in [0, 100]. */
  lemma LedLevelOfSourceRange(timeval: real, period: real, phase: real)
    requires period > 0.0 && timeval + phase * period >= 0.0
    ensures 0 <= LedLevelOfSource(timeval, period, phase) <= 100
  {
    var tv := JsRemainder(timeval + phase * period, period);
    JsRemainderSign(timeval + phase * period, period);
    RoundedBranchesInRange(tv, period);
  }

  /** JavaScript's remainder of n/4 by the period is the integer remainder of n
      by four periods, divided by four. */
  lemma RemainderOfQuarters(n: nat, period: nat)
    requires period > 0
    ensures JsRemainder(n as real / 4.0, period as real) == (n % (4 * period)) as real / 4.0
  {
    var p := period as real;
    var m := 4 * period;
    var x := n as real / 4.0;
    var q, r := n / m, n % m;
    var y := n as real / m as real;
    assert m as real == 4.0 * p;
    assert y * m as real == n as real;
    assert y * p == x;
    RealQuotient(y, x, p);
    FloorOfQuotient(n, m);
    assert n == q * m + r;
    assert n as real == q as real * (4.0 * p) + r as real;
    assert x == p * q as real + r as real / 4.0;
  }

  /** The program's reduced time is the cycle position divided by four. */
  lemma ReducedTimeIsCyclePos(t: nat, period: nat, quarters: nat)
    requires period > 0
    ensures JsRemainder(t as real + (quarters as real / 4.0) * period as real, period as real)
            == CyclePos(t, period, quarters) as real / 4.0
  {
    var n := 4 * t + quarters * period;
    assert (quarters * period) as real == quarters as real * period as real;
    assert t as real + (quarters as real / 4.0) * period as real == n as real / 4.0;
    RemainderOfQuarters(n, period);
  }

  /** The rising branch's argument to Math.round, plus one half, as a quotient of integers. */
  lemma RisingArgument(pos: nat, period: nat)
    requires period > 0
    ensures 100.0 * ((pos as real / 4.0) * 3.0 / period as real) + 0.5
            == (150 * pos + period) as real / (2 * period) as real
  {
    var p := period as real;
    var lhs := 100.0 * ((pos as real / 4.0) * 3.0 / p) + 0.5;
    assert lhs * (2.0 * p) == 150.0 * pos as real + p;
    assert (150 * pos + period) as real == 150.0 * pos as real + p;
    assert (2 * period) as real == 2.0 * p;
    RealQuotient(lhs, 150.0 * pos as real + p, 2.0 * p);
  }

  /** The falling branch's argument to Math.round, plus one half, as a quotient of integers. */
  lemma FallingArgument(pos: nat, period: nat)
    requires period > 0
    ensures 100.0 * (2.0 - (pos as real / 4.0) * 3.0 / period as real) + 0.5
            == (401 * period - 150 * pos) as real / (2 * period) as real
  {
    var p := period as real;
    var lhs := 100.0 * (2.0 - (pos as real / 4.0) * 3.0 / p) + 0.5;
    assert lhs * (2.0 * p) == 401.0 * p - 150.0 * pos as real;
    assert (401 * period - 150 * pos) as real == 401.0 * p - 150.0 * pos as real;
    assert (2 * period) as real == 2.0 * p;
    RealQuotient(lhs, 401.0 * p - 150.0 * pos as real, 2.0 * p);
  }

  /** The integer model computes exactly what the program's formula gives on exact reals. */
  lemma LedLevelMatchesSource(t: nat, period: nat, quarters: nat)
    requires period > 0
    ensures LedLevel(t, period, quarters) == LedLevelOfSource(t as real, period as real, quarters as real / 4.0)
  {
    var p := period as real;
    var pos := CyclePos(t, period, quarters);
    ReducedTimeIsCyclePos(t, period, quarters);
    var tv := pos as real / 4.0;
    if 3 * pos <= 4 * period {
      assert tv <= p / 3.0;
      RisingArgument(pos, period);
      FloorOfQuotient(150 * pos + period, 2 * period);
    } else if 3 * pos <= 8 * period {
      assert !(tv <= p / 3.0) && tv <= 2.0 * p / 3.0;
      FallingArgument(pos, period);
      FloorOfQuotient(401 * period - 150 * pos, 2 * period);
    } else {
      assert !(tv <= 2.0 * p / 3.0);
    }
  }

  /** Shifting the time by whole periods does not change the level. */
  lemma LedLevelPeriodic(t: nat, period: nat, quarters: nat, k: nat)
    requires period > 0
    ensures LedLevel(t + k * period, period, quarters) == LedLevel(t, period, quarters)
  {
    assert 4 * (t + k * period) + quarters * period == (4 * t + quarters * period) + k * (4 * period);
    ModAddMultiple(4 * t + quarters * period, k, 4 * period);
  }

  /** A phase of a whole period is no phase at all. */
  lemma LedLevelPhaseWraps(t: nat, period: nat, quarters: nat)
    requires period > 0
    ensures LedLevel(t, period, quarters + 4) == LedLevel(t, period, quarters)
  {
    assert 4 * t + (quarters + 4) * period == (4 * t + quarters * period) + 1 * (4 * period);
    ModAddMultiple(4 * t + quarters * period, 1, 4 * period);
  }

  /** One more quarter of phase is the same as a quarter period later in time. */
  lemma LedLevelPhaseShift(t: nat, period: nat, quarters: nat)
    requires period > 0 && period % 4 == 0
    ensures LedLevel(t + period / 4, period, quarters) == LedLevel(t, period, quarters + 1)
  {
    assert 4 * (t + period / 4) + quarters * period == 4 * t + (quarters + 1) * period;
  }

  /** Full brightness exactly within 1/600 of a period around the peak at a third of the cycle. */
  lemma LevelPeak(pos: int, period: int)
    requires period > 0 && 0 <= pos < 4 * period
    ensures Level(pos, period) == 100 <==> 199 * period <= 150 * pos <= 201 * period
  {
    if 3 * pos <= 4 * period {
      DivIs(150 * pos + period, 2 * period, 100);
    } else if 3 * pos <= 8 * period {
      DivIs(401 * period - 150 * pos, 2 * period, 100);
    }
  }

  /** Dark exactly near the start of the cycle and from just before two thirds on. */
  lemma LevelZero(pos: int, period: int)
    requires period > 0 && 0 <= pos < 4 * period
    ensures Level(pos, period) == 0 <==> 150 * pos < period || 399 * period < 150 * pos
  {
    if 3 * pos <= 4 * period {
      DivIs(150 * pos + period, 2 * period, 0);
    } else if 3 * pos <= 8 * period {
      DivIs(401 * period - 150 * pos, 2 * period, 0);
    }
  }

  /** The level never decreases over the first third of the cycle. */
  lemma LevelRises(pos1: int, pos2: int, period: int)
    requires period > 0 && 0 <= pos1 <= pos2 && 3 * pos2 <= 4 * period
    ensures Level(pos1, period) <= Level(pos2, period)
  {
    DivMonotone(150 * pos1 + period, 150 * pos2 + period, 2 * period);
  }

  /** The level never increases over the second third of the cycle. */
  lemma LevelFalls(pos1: int, pos2: int, period: int)
    requires period > 0 && 4 * period < 3 * pos1 && pos1 <= pos2 && 3 * pos2 <= 8 * period
    ensures Level(pos2, period) <= Level(pos1, period)
  {
    DivMonotone(401 * period - 150 * pos2, 401 * period - 150 * pos1, 2 * period);
  }

  /** The landmarks of the waveform: dark at the start of the cycle, 100 at a third of it,
      and dark throughout the last third. */
  lemma LedLevelLandmarks(t: nat, period: nat, quarters: nat)
    requires period > 0
    ensures CyclePos(t, period, quarters) == 0 ==> LedLevel(t, period, quarters) == 0
    ensures 3 * CyclePos(t, period, quarters) == 4 * period ==> LedLevel(t, period, quarters) == 100
    ensures 3 * CyclePos(t, period, quarters) > 8 * period ==> LedLevel(t, period, quarters) == 0
  {
    var pos := CyclePos(t, period, quarters);
    LevelPeak(pos, period);
    LevelZero(pos, period);
  }

  /** The green levels scanLEDS writes to slots 0..3 at running time t: each a valid
      rgb channel value. */
  function ScanFrame(t: nat): (frame: seq<int>)
    ensures |frame| == 4
    ensures forall i :: 0 <= i < 4 ==> 0 <= frame[i] <= 100
    ensures forall i :: 0 <= i < 4 ==> frame[i] == LedLevel(t, ScanPeriod, ScanPhases[i])
  {
    seq(4, i requires 0 <= i < 4 => LedLevel(t, ScanPeriod, ScanPhases[i]))
  }

  /** Every quarter period the pattern moves on by one slot: what slot i-1 showed,
      slot i shows a quarter period later. */
  lemma ScanFrameRotates(t: nat, i: nat)
    requires i < 4
    ensures ScanFrame(t + ScanPeriod / 4)[i] == ScanFrame(t)[(i + 3) % 4]
  {
    LedLevelPhaseShift(t, ScanPeriod, ScanPhases[i]);
    if i == 1 {
      LedLevelPhaseWraps(t, ScanPeriod, 0);
    }
  }
}
