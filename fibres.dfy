/** The program's fibres as a state machine. The status register, the fibres alive and
    the numbers the countdown has displayed form a Machine; an Event is a trigger handler
    running to completion, or one fibre running from where it is suspended up to its next
    suspension point. A fibre suspends where it blocks (a pause, a display call, a tone);
    blocking points between which it reads no shared state are merged into one. The
    scheduler's freedom is
    the freedom to choose any sequence of events. Clock readings are carried by the
    events; actuator output is not part of the state. */
module Fibres {
  import opened SharedState
  import opened Beeper
  import opened Countdown

  /** Where a fibre is suspended, with the locals it will resume with. */
  datatype Fibre =
    | Main                                          // the main program, inside showString("Ready")
    | Scanner                                       // scanLEDS, about to test status == 1
    | BeepStart(period: int)                        // doBeeps(period) launched, about to test status == 2
    | BeepPaused(period: int)                       // doBeeps in pause(period)
    | CountStart                                    // runCountdown launched, not yet run
    | CountShown(start: int, count: int)            // runCountdown inside showNumber, count already decremented
    | CountPaused(start: int, count: int, pause: int)  // runCountdown in pause(pauseTime)
    | Explosion                                     // explode, after status = 3
    | Done                                          // the fibre has ended

  /** A runCountdown fibre that has not yet left its loop. */
  predicate IsCountdown(f: Fibre)
  {
    f.CountStart? || f.CountShown? || f.CountPaused?
  }

  /** A doBeeps fibre that has not yet left its loop. */
  predicate IsBeeper(f: Fibre)
  {
    f.BeepStart? || f.BeepPaused?
  }

  datatype Machine = Machine(status: Status, fibres: seq<Fibre>, shown: seq<int>)

  datatype Event =
    | Logo                          // the logo-press handler
    | ButtonB                       // the button-B handler
    | Resume(fibre: nat, now: int)  // fibre number `fibre` runs; input.runningTime() reads `now`

  /** Power on: status 0, and the main program about to show "Ready". */
  const PowerOn: Machine := Machine(Idle, [Main], [])

  /** The logo-press handler: from Waiting only, go to Counting and launch a beeper and
      a countdown. */
  function OnLogo(m: Machine): (r: Machine)
    ensures r.status != m.status ==> m.status == Waiting && r.status == Counting
    ensures m.status == Waiting ==>
              r.status == Counting && r.shown == m.shown &&
              r.fibres == m.fibres + [BeepStart(InitialBeepPeriod), CountStart]
    ensures m.status != Waiting ==> r == m
  {
    if m.status == Waiting then
      m.(status := Counting, fibres := m.fibres + [BeepStart(InitialBeepPeriod), CountStart])
    else
      m
  }

  /** The button-B handler: from Counting only, go back to Waiting and relaunch the scanner. */
  function OnButtonB(m: Machine): (r: Machine)
    ensures r.status != m.status ==> m.status == Counting && r.status == Waiting
    ensures m.status == Counting ==>
              r.status == Waiting && r.shown == m.shown && r.fibres == m.fibres + [Scanner]
    ensures m.status != Counting ==> r == m
  {
    if m.status == Counting then
      m.(status := Waiting, fibres := m.fibres + [Scanner])
    else
      m
  }

  /** doBeeps' loop test with beepPeriod = period: go on to the tone and the pause, or end. */
  function BeepTest(m: Machine, i: nat, period: int): (r: Machine)
    requires i < |m.fibres|
    ensures r.status == m.status && r.shown == m.shown
    ensures |r.fibres| == |m.fibres| && r.fibres == m.fibres[i := r.fibres[i]]
    ensures r.fibres[i] == BeepPaused(period) || r.fibres[i] == Done
    ensures r.fibres[i].BeepPaused? <==> m.status == Counting
  {
    if m.status == Counting then m.(fibres := m.fibres[i := BeepPaused(period)])
    else m.(fibres := m.fibres[i := Done])
  }

  /** runCountdown's loop test with the counter at count and, when it fails, the expiry
      test right after it: show the count and decrement it, or start the explosion, or end. */
  function CountTest(m: Machine, i: nat, start: int, count: int): (r: Machine)
    requires i < |m.fibres|
    ensures |r.fibres| == |m.fibres| && r.fibres == m.fibres[i := r.fibres[i]]
    ensures r.status != m.status <==> m.status == Counting && count <= 0
    ensures r.status != m.status ==> r.status == Exploding
    ensures r.fibres[i] == Explosion <==> m.status == Counting && count <= 0
    ensures r.fibres[i] == Done <==> m.status != Counting
    ensures r.fibres[i] == Explosion || r.fibres[i] == Done || r.fibres[i] == CountShown(start, count - 1)
    ensures r.shown == m.shown + (if r.fibres[i].CountShown? then [count] else [])
  {
    if m.status == Counting && count > 0 then
      m.(fibres := m.fibres[i := CountShown(start, count - 1)], shown := m.shown + [count])
    else if m.status == Counting then
      m.(status := Exploding, fibres := m.fibres[i := Explosion])
    else
      m.(fibres := m.fibres[i := Done])
  }

  /** Fibre i runs from its suspension point to the next one. */
  function ResumeFibre(m: Machine, i: nat, now: int): Machine
  {
    if i >= |m.fibres| then m
    else
      match m.fibres[i]
      case Main => m.(status := Waiting, fibres := m.fibres[i := Done] + [Scanner])
      case Scanner => if m.status == Waiting then m else m.(fibres := m.fibres[i := Done])
      case BeepStart(p) => BeepTest(m, i, p)
      case BeepPaused(p) => BeepTest(m, i, NextBeepPeriod(p))
      case CountStart => CountTest(m, i, now, CountLength)
      case CountShown(s, c) => m.(fibres := m.fibres[i := CountPaused(s, c, PauseTime(s, c, now))])
      case CountPaused(s, c, _) => CountTest(m, i, s, c)
      case Explosion => m.(status := Waiting, fibres := m.fibres[i := Done] + [Scanner])
      case Done => m
  }

  /** One event: a handler, or one fibre's turn. */
  function Step(m: Machine, e: Event): Machine
  {
    match e
    case Logo => OnLogo(m)
    case ButtonB => OnButtonB(m)
    case Resume(i, now) => ResumeFibre(m, i, now)
  }

  /** The events applied one at a time, first to last. */
  function Run(m: Machine, events: seq<Event>): Machine
    decreases |events|
  {
    if events == [] then m else Run(Step(m, events[0]), events[1..])
  }

  /** A fibre's turn changes no other fibre, launches at most one (a scanner, with the
      status back at Waiting), shows at most one number, and a fibre number nobody was
      given is a turn that does nothing. */
  lemma ResumeFibreFrame(m: Machine, i: nat, now: int)
    ensures var r := ResumeFibre(m, i, now);
      (i >= |m.fibres| ==> r == m) &&
      |m.fibres| <= |r.fibres| <= |m.fibres| + 1 &&
      (forall j :: 0 <= j < |m.fibres| && j != i ==> r.fibres[j] == m.fibres[j]) &&
      (|r.fibres| > |m.fibres| ==> r.fibres[|m.fibres|] == Scanner && r.status == Waiting) &&
      m.shown <= r.shown && |r.shown| <= |m.shown| + 1
  {
  }

  /** Among the fibres already launched an event changes at most the one it resumes; it
      launches at most two fibres, and only a fibre's turn shows a number, at most one. */
  lemma StepFrame(m: Machine, e: Event)
    ensures var r := Step(m, e);
      |m.fibres| <= |r.fibres| <= |m.fibres| + 2 &&
      (forall j :: 0 <= j < |m.fibres| && !(e.Resume? && e.fibre == j) ==> r.fibres[j] == m.fibres[j]) &&
      m.shown <= r.shown && |r.shown| <= |m.shown| + 1 &&
      (!e.Resume? ==> r.shown == m.shown)
  {
    if e.Resume? {
      ResumeFibreFrame(m, e.fibre, e.now);
    }
  }

  /** Launched fibres are never removed, and the display log only grows, by at most one
      number per event. */
  lemma {:induction false} RunOnlyGrows(m: Machine, events: seq<Event>)
    ensures |m.fibres| <= |Run(m, events).fibres|
    ensures m.shown <= Run(m, events).shown && |Run(m, events).shown| <= |m.shown| + |events|
    decreases |events|
  {
    if events != [] {
      StepFrame(m, events[0]);
      RunOnlyGrows(Step(m, events[0]), events[1..]);
    }
  }

  /** Running one more event is one more step. */
  lemma {:induction false} RunSnoc(m: Machine, events: seq<Event>, e: Event)
    ensures Run(m, events + [e]) == Step(Run(m, events), e)
    decreases |events|
  {
    if events == [] {
      assert [e][1..] == [];
    } else {
      assert (events + [e])[1..] == events[1..] + [e];
      RunSnoc(Step(m, events[0]), events[1..], e);
    }
  }

  /** Two events are two steps. */
  lemma RunPair(m: Machine, a: Event, b: Event)
    ensures Run(m, [a, b]) == Step(Step(m, a), b)
  {
    assert [a, b][1..] == [b];
    assert [b][1..] == [];
    assert Run(m, [a, b]) == Run(Step(m, a), [b]);
    assert Run(Step(m, a), [b]) == Run(Step(Step(m, a), b), []);
  }

  /** The locals a suspended fibre can hold. */
  predicate WellFormed(f: Fibre)
  {
    match f
    case BeepStart(p) => p == InitialBeepPeriod
    case BeepPaused(p) => MinBeepPeriod <= p <= InitialBeepPeriod
    case CountShown(_, c) => 0 <= c < CountLength
    case CountPaused(_, c, p) => 0 <= c < CountLength && p >= 0
    case _ => true
  }

  /** The invariant of every reachable machine: the activities that the status calls for
      are alive, the explosion runs exactly while the status is Exploding, and the
      fibres' locals are in range. */
  ghost predicate Inv(m: Machine)
  {
    (m.status == Idle ==> m.fibres == [Main] && m.shown == []) &&
    (m.status != Idle ==> Main !in m.fibres) &&
    (m.status == Waiting ==> Scanner in m.fibres) &&
    (m.status == Counting ==>
       (exists f :: f in m.fibres && IsCountdown(f)) &&
       (exists f :: f in m.fibres && IsBeeper(f))) &&
    (Explosion in m.fibres <==> m.status == Exploding) &&
    (forall i, j :: 0 <= i < j < |m.fibres| ==> !(m.fibres[i] == Explosion && m.fibres[j] == Explosion)) &&
    (forall f :: f in m.fibres ==> WellFormed(f)) &&
    (forall k :: 0 <= k < |m.shown| ==> 1 <= m.shown[k] <= CountLength)
  }

  /** Replacing one element keeps every other element and adds the new one. */
  lemma InUpdate<T>(s: seq<T>, i: nat, x: T)
    requires i < |s|
    ensures x in s[i := x]
    ensures forall y :: y in s && y != s[i] ==> y in s[i := x]
    ensures forall y :: y in s[i := x] ==> y == x || y in s
  {
    assert s[i := x][i] == x;
    forall y | y in s && y != s[i]
      ensures y in s[i := x]
    {
      var j :| 0 <= j < |s| && s[j] == y;
      assert s[i := x][j] == y;
    }
  }

  /** Under the invariant, a fibre set to explode is the only one. */
  lemma ExplosionIsUnique(m: Machine, i: nat)
    requires Inv(m) && i < |m.fibres| && m.fibres[i] == Explosion
    ensures Explosion !in m.fibres[i := Done]
  {
  }

  /** Fibre i moves to x, a fibre that is neither the main program nor the explosion,
      and the status stays as it is. */
  lemma ReplaceKeepsInv(m: Machine, i: nat, x: Fibre, shown: seq<int>)
    requires Inv(m) && i < |m.fibres|
    requires m.fibres[i] != Explosion && m.fibres[i] != Main
    requires x != Explosion && x != Main && WellFormed(x)
    requires m.status == Waiting && m.fibres[i] == Scanner ==> x == Scanner
    requires m.status == Counting && IsCountdown(m.fibres[i]) ==> IsCountdown(x)
    requires m.status == Counting && IsBeeper(m.fibres[i]) ==> IsBeeper(x)
    requires m.status != Idle
    requires forall k :: 0 <= k < |shown| ==> 1 <= shown[k] <= CountLength
    ensures Inv(m.(fibres := m.fibres[i := x], shown := shown))
  {
    InUpdate(m.fibres, i, x);
    var r := m.(fibres := m.fibres[i := x], shown := shown);
    if m.status == Counting {
      var c :| c in m.fibres && IsCountdown(c);
      assert c in r.fibres || IsCountdown(x);
      var b :| b in m.fibres && IsBeeper(b);
      assert b in r.fibres || IsBeeper(x);
    }
  }

  /** Launched fibres join the end of the list. */
  lemma AppendKeepsInv(m: Machine, status: Status, added: seq<Fibre>)
    requires Inv(m) && m.status != Idle && status != Idle
    requires Explosion !in m.fibres && Explosion !in added && Main !in added
    requires status != Exploding
    requires forall f :: f in added ==> WellFormed(f)
    requires status == Waiting ==> Scanner in added
    requires status == Counting ==>
               (exists f :: f in added && IsCountdown(f)) && (exists f :: f in added && IsBeeper(f))
    ensures Inv(m.(status := status, fibres := m.fibres + added))
  {
    var r := m.(status := status, fibres := m.fibres + added);
    if status == Counting {
      var c :| c in added && IsCountdown(c);
      assert c in r.fibres;
      var b :| b in added && IsBeeper(b);
      assert b in r.fibres;
    }
    if status == Waiting {
      assert Scanner in r.fibres;
    }
  }

  /** Every event keeps the invariant. */
  lemma StepPreservesInv(m: Machine, e: Event)
    requires Inv(m)
    ensures Inv(Step(m, e))
  {
    match e
    case Logo =>
      if m.status == Waiting {
        var added := [BeepStart(InitialBeepPeriod), CountStart];
        assert CountStart in added && BeepStart(InitialBeepPeriod) in added;
        AppendKeepsInv(m, Counting, added);
      }
    case ButtonB =>
      if m.status == Counting {
        assert Explosion !in m.fibres;
        AppendKeepsInv(m, Waiting, [Scanner]);
      }
    case Resume(i, now) =>
      if i < |m.fibres| {
        assert m.fibres[i] in m.fibres;
        match m.fibres[i]
        case Main =>
          assert m.fibres == [Main] && i == 0;
          assert m.fibres[i := Done] + [Scanner] == [Done, Scanner];
        case Explosion =>
          ExplosionIsUnique(m, i);
          InUpdate(m.fibres, i, Done);
          var m1 := m.(status := Waiting, fibres := m.fibres[i := Done]);
          assert m.fibres[i := Done] + [Scanner] == m1.fibres + [Scanner];
          assert Main !in m1.fibres;
        case Scanner =>
          if m.status != Waiting {
            ReplaceKeepsInv(m, i, Done, m.shown);
          }
        case BeepStart(p) =>
          if m.status == Counting {
            ReplaceKeepsInv(m, i, BeepPaused(p), m.shown);
          } else {
            ReplaceKeepsInv(m, i, Done, m.shown);
          }
        case BeepPaused(p) =>
          if m.status == Counting {
            ReplaceKeepsInv(m, i, BeepPaused(NextBeepPeriod(p)), m.shown);
          } else {
            ReplaceKeepsInv(m, i, Done, m.shown);
          }
        case CountStart =>
          CountTestKeepsInv(m, i, now, CountLength);
        case CountShown(s, c) =>
          ReplaceKeepsInv(m, i, CountPaused(s, c, PauseTime(s, c, now)), m.shown);
        case CountPaused(s, c, _) =>
          CountTestKeepsInv(m, i, s, c);
        case Done =>
      }
  }

  /** The countdown's loop and expiry tests keep the invariant. */
  lemma CountTestKeepsInv(m: Machine, i: nat, start: int, count: int)
    requires Inv(m) && i < |m.fibres| && IsCountdown(m.fibres[i])
    requires 0 <= count <= CountLength
    ensures Inv(CountTest(m, i, start, count))
  {
    if m.status == Counting && count > 0 {
      ReplaceKeepsInv(m, i, CountShown(start, count - 1), m.shown + [count]);
    } else if m.status == Counting {
      InUpdate(m.fibres, i, Explosion);
      assert Explosion !in m.fibres;
    } else {
      ReplaceKeepsInv(m, i, Done, m.shown);
    }
  }

  /** Every machine reached from power-on satisfies the invariant. */
  lemma {:induction false} RunPreservesInv(m: Machine, events: seq<Event>)
    requires Inv(m)
    ensures Inv(Run(m, events))
    decreases |events|
  {
    if events != [] {
      StepPreservesInv(m, events[0]);
      RunPreservesInv(Step(m, events[0]), events[1..]);
    }
  }

  lemma ReachableSatisfiesInv(events: seq<Event>)
    ensures Inv(Run(PowerOn, events))
  {
    RunPreservesInv(PowerOn, events);
  }

  /** The only status changes are these four: start (Waiting to Counting,
      by the logo handler), cancel (Counting to Waiting, by button B), expiry (Counting
      to Exploding, by a countdown whose counter has reached 0), and the end of the
      explosion (Exploding to Waiting), besides the main program leaving Idle once. */
  lemma StatusTransitions(m: Machine, e: Event)
    requires Inv(m)
    ensures var r := Step(m, e);
      r.status != m.status ==>
        (e.Logo? && m.status == Waiting && r.status == Counting) ||
        (e.ButtonB? && m.status == Counting && r.status == Waiting) ||
        (e.Resume? && e.fibre < |m.fibres| &&
          ((m.fibres[e.fibre] == Main && m.status == Idle && r.status == Waiting) ||
           (m.fibres[e.fibre].CountPaused? && m.fibres[e.fibre].count == 0 &&
            m.status == Counting && r.status == Exploding) ||
           (m.fibres[e.fibre] == Explosion && m.status == Exploding && r.status == Waiting)))
  {
    if e.Resume? && e.fibre < |m.fibres| {
      assert m.fibres[e.fibre] in m.fibres;
    }
  }

  /** In any reachable machine the explosion's turn finishes explode: the status was
      Exploding, and the turn sets it back to Waiting and relaunches the scanner. */
  lemma ExplosionEnds(m: Machine, i: nat, now: int)
    requires Inv(m) && i < |m.fibres| && m.fibres[i] == Explosion
    ensures m.status == Exploding
    ensures ResumeFibre(m, i, now) == m.(status := Waiting, fibres := m.fibres[i := Done] + [Scanner])
  {
    assert m.fibres[i] in m.fibres;
  }

  /** In any reachable machine the main program's turn finishes start-up: the status was
      Idle, and the turn sets it to Waiting and launches the scanner. */
  lemma MainStartsScanner(m: Machine, i: nat, now: int)
    requires Inv(m) && i < |m.fibres| && m.fibres[i] == Main
    ensures m.status == Idle
    ensures ResumeFibre(m, i, now) == m.(status := Waiting, fibres := m.fibres[i := Done] + [Scanner])
  {
    assert m.fibres[i] in m.fibres;
  }

  /** The events that resume fibre i once per clock reading. */
  function Resumes(i: nat, clocks: seq<int>): (events: seq<Event>)
    ensures |events| == |clocks|
    ensures forall k :: 0 <= k < |clocks| ==> events[k] == Resume(i, clocks[k])
  {
    seq(|clocks|, k requires 0 <= k < |clocks| => Resume(i, clocks[k]))
  }

  /** A countdown left undisturbed while the status stays Counting shows count, count-1,
      ..., 1, one number per two resumptions, and then sets the status to Exploding,
      whatever the clock reads. */
  lemma {:induction false} CountdownRunsOut(m: Machine, i: nat, clocks: seq<int>)
    requires i < |m.fibres| && m.status == Counting
    requires m.fibres[i].CountPaused? && m.fibres[i].count >= 0
    requires |clocks| == 2 * m.fibres[i].count + 1
    ensures Run(m, Resumes(i, clocks)) ==
            m.(status := Exploding, fibres := m.fibres[i := Explosion],
               shown := m.shown + Descending(m.fibres[i].count))
    decreases m.fibres[i].count
  {
    var s, c := m.fibres[i].start, m.fibres[i].count;
    var events := Resumes(i, clocks);
    var m1 := Step(m, events[0]);
    assert Run(m, events) == Run(m1, events[1..]);
    if c == 0 {
      assert events[1..] == [];
      assert m.shown + Descending(0) == m.shown;
    } else {
      var m2 := Step(m1, events[1]);
      assert events[1..][1..] == events[2..];
      assert Run(m1, events[1..]) == Run(m2, events[2..]);
      assert m2 == m.(fibres := m.fibres[i := CountPaused(s, c - 1, PauseTime(s, c - 1, clocks[1]))],
                      shown := m.shown + [c]);
      assert events[2..] == Resumes(i, clocks[2..]);
      CountdownRunsOut(m2, i, clocks[2..]);
      assert m.shown + [c] + Descending(c - 1) == m.shown + Descending(c);
      assert m.fibres[i := CountPaused(s, c - 1, PauseTime(s, c - 1, clocks[1]))][i := Explosion]
             == m.fibres[i := Explosion];
    }
  }

  /** A freshly launched countdown that nobody cancels runs countLength steps showing
      10, 9, ..., 1 and then starts the explosion: 2 * countLength + 1 resumptions. */
  lemma CountdownFromStart(m: Machine, i: nat, clocks: seq<int>)
    requires i < |m.fibres| && m.status == Counting && m.fibres[i] == CountStart
    requires |clocks| == 2 * CountLength + 1
    ensures Run(m, Resumes(i, clocks)) ==
            m.(status := Exploding, fibres := m.fibres[i := Explosion],
               shown := m.shown + Descending(CountLength))
  {
    var events := Resumes(i, clocks);
    var s := clocks[0];
    var m1 := Step(m, events[0]);
    var m2 := Step(m1, events[1]);
    assert Run(m, events) == Run(m1, events[1..]);
    assert events[1..][1..] == events[2..];
    assert Run(m1, events[1..]) == Run(m2, events[2..]);
    var p := PauseTime(s, CountLength - 1, clocks[1]);
    assert m2 == m.(fibres := m.fibres[i := CountPaused(s, CountLength - 1, p)],
                    shown := m.shown + [CountLength]);
    assert events[2..] == Resumes(i, clocks[2..]);
    CountdownRunsOut(m2, i, clocks[2..]);
    assert m.shown + [CountLength] + Descending(CountLength - 1) == m.shown + Descending(CountLength);
    assert m.fibres[i := CountPaused(s, CountLength - 1, p)][i := Explosion] == m.fibres[i := Explosion];
  }

  /** The clock readings a countdown fibre resumed once per entry of clocks takes, in
      runCountdown's order: the start time, then the reading of each step, taken at
      every other resumption. */
  function CountReadings(clocks: seq<int>): (readings: seq<int>)
    requires |clocks| == 2 * CountLength + 1
    ensures |readings| == CountLength + 1 && readings[0] == clocks[0]
    ensures forall k :: 0 <= k < CountLength ==> readings[k + 1] == clocks[2 * k + 1]
  {
    [clocks[0]] + seq(CountLength, k requires 0 <= k < CountLength => clocks[2 * k + 1])
  }

  /** One step of a countdown that reads status 2: the loop test shows count and
      decrements it, and the next turn reads the clock and pauses until the boundary. */
  lemma CountdownStep(m: Machine, i: nat, s: int, c: int, now: int, later: int)
    requires i < |m.fibres| && m.status == Counting && c > 0
    requires (m.fibres[i] == CountStart && c == CountLength && s == now) ||
             (m.fibres[i].CountPaused? && m.fibres[i].start == s && m.fibres[i].count == c)
    ensures Step(Step(m, Resume(i, now)), Resume(i, later)) ==
            m.(fibres := m.fibres[i := CountPaused(s, c - 1, PauseTime(s, c - 1, later))],
               shown := m.shown + [c])
  {
    var m1 := Step(m, Resume(i, now));
    assert m1 == m.(fibres := m.fibres[i := CountShown(s, c - 1)], shown := m.shown + [c]);
    assert m.fibres[i := CountShown(s, c - 1)][i := CountPaused(s, c - 1, PauseTime(s, c - 1, later))]
           == m.fibres[i := CountPaused(s, c - 1, PauseTime(s, c - 1, later))];
  }

  /** Resuming fibre i once per reading is two turns on the first two readings, then the
      rest. */
  lemma RunResumesTwice(m: Machine, i: nat, clocks: seq<int>)
    requires |clocks| >= 2
    ensures Run(m, Resumes(i, clocks)) ==
            Run(Step(Step(m, Resume(i, clocks[0])), Resume(i, clocks[1])), Resumes(i, clocks[2..]))
  {
    var events := Resumes(i, clocks);
    assert events[1..][1..] == Resumes(i, clocks[2..]);
    assert Run(m, events) == Run(Step(m, events[0]), events[1..]);
  }

  /** j further steps of a countdown paused at count c that keeps reading status 2: it
      shows c, c-1, ..., c-j+1 and is then in the pause of the step that left the counter
      at c - j, computed from that step's clock reading. */
  lemma {:induction false} CountdownSteps(m: Machine, i: nat, clocks: seq<int>, j: nat)
    requires i < |m.fibres| && m.status == Counting && m.fibres[i].CountPaused?
    requires 0 < j <= m.fibres[i].count && |clocks| == 2 * j
    ensures var s, c := m.fibres[i].start, m.fibres[i].count;
      Run(m, Resumes(i, clocks)) ==
        m.(fibres := m.fibres[i := CountPaused(s, c - j, PauseTime(s, c - j, clocks[2 * j - 1]))],
           shown := m.shown + Descending(c)[..j])
    decreases j
  {
    var s, c := m.fibres[i].start, m.fibres[i].count;
    var m2 := m.(fibres := m.fibres[i := CountPaused(s, c - 1, PauseTime(s, c - 1, clocks[1]))],
                 shown := m.shown + [c]);
    RunResumesTwice(m, i, clocks);
    CountdownStep(m, i, s, c, clocks[0], clocks[1]);
    assert Run(m, Resumes(i, clocks)) == Run(m2, Resumes(i, clocks[2..]));
    DescendingCons(c, j - 1);
    var shown := m.shown + Descending(c)[..j];
    assert m2.shown + Descending(c - 1)[..j - 1] == shown;
    var last := CountPaused(s, c - j, PauseTime(s, c - j, clocks[2 * j - 1]));
    if j > 1 {
      assert clocks[2..][2 * (j - 1) - 1] == clocks[2 * j - 1];
      CountdownSteps(m2, i, clocks[2..], j - 1);
      assert m2.fibres[i := last] == m.fibres[i := last];
      assert Run(m2, Resumes(i, clocks[2..])) == m.(fibres := m.fibres[i := last], shown := shown);
    } else {
      assert Resumes(i, clocks[2..]) == [];
      assert m2 == m.(fibres := m.fibres[i := last], shown := shown);
    }
  }

  /** Step k's pause on the readings a countdown fibre takes uses the start time and the
      clock reading of its (2k+2)-th turn. */
  lemma PauseOfStep(clocks: seq<int>, k: nat)
    requires |clocks| == 2 * CountLength + 1 && k < CountLength
    ensures CountdownPauses(CountReadings(clocks))[k] == PauseTime(clocks[0], CountLength - 1 - k, clocks[2 * k + 1])
  {
    var readings := CountReadings(clocks);
    assert readings[0] == clocks[0] && readings[k + 1] == clocks[2 * k + 1];
  }

  /** The countdown fibre does what the runCountdown loop method does: after step k of an
      undisturbed countdown it has shown the first k + 1 numbers of 10, 9, ..., 1 and
      sleeps the pause CountdownPauses gives for step k on the readings it took, the
      numbers and pauses RunCountdown produces on those readings while status is 2. */
  lemma CountdownStepsMatchLoop(m: Machine, i: nat, clocks: seq<int>, k: nat)
    requires i < |m.fibres| && m.status == Counting && m.fibres[i] == CountStart
    requires |clocks| == 2 * CountLength + 1 && k < CountLength
    ensures Run(m, Resumes(i, clocks[..2 * k + 2])) ==
            m.(fibres := m.fibres[i := CountPaused(clocks[0], CountLength - 1 - k,
                                                   CountdownPauses(CountReadings(clocks))[k])],
               shown := m.shown + Descending(CountLength)[..k + 1])
  {
    PauseOfStep(clocks, k);
    LaunchedCountdownSteps(m, i, clocks[..2 * k + 2], k, CountLength);
  }

  /** k + 1 steps of a countdown launched with counter n, while the status stays 2. */
  lemma LaunchedCountdownSteps(m: Machine, i: nat, clocks: seq<int>, k: nat, n: int)
    requires i < |m.fibres| && m.status == Counting && m.fibres[i] == CountStart
    requires n == CountLength && |clocks| == 2 * k + 2 && k < n
    ensures Run(m, Resumes(i, clocks)) ==
            m.(fibres := m.fibres[i := CountPaused(clocks[0], n - 1 - k, PauseTime(clocks[0], n - 1 - k, clocks[2 * k + 1]))],
               shown := m.shown + Descending(n)[..k + 1])
  {
    var s, c := clocks[0], n - 1;
    DescendingCons(n, k);
    var last := CountPaused(s, c - k, PauseTime(s, c - k, clocks[2 * k + 1]));
    var m2 := m.(fibres := m.fibres[i := CountPaused(s, c, PauseTime(s, c, clocks[1]))], shown := m.shown + [n]);
    var rest := clocks[2..];
    CountdownFirstStep(m, i, clocks);
    if k > 0 {
      assert rest[2 * k - 1] == clocks[2 * k + 1];
      CountdownSteps(m2, i, rest, k);
      assert m.fibres[i := m2.fibres[i]][i := last] == m.fibres[i := last];
    } else {
      assert Resumes(i, rest) == [];
    }
  }

  /** The first step of a launched countdown: it reads the start time, shows countLength
      and pauses until the first boundary. */
  lemma CountdownFirstStep(m: Machine, i: nat, clocks: seq<int>)
    requires i < |m.fibres| && m.status == Counting && m.fibres[i] == CountStart
    requires |clocks| >= 2
    ensures var s := clocks[0];
      Run(m, Resumes(i, clocks)) ==
        Run(m.(fibres := m.fibres[i := CountPaused(s, CountLength - 1, PauseTime(s, CountLength - 1, clocks[1]))],
               shown := m.shown + [CountLength]),
            Resumes(i, clocks[2..]))
  {
    RunResumesTwice(m, i, clocks);
    CountdownStep(m, i, clocks[0], CountLength, clocks[0], clocks[1]);
  }

  /** A beeper launched with period p, while the status stays Counting, is at its (n+1)-th
      turn in the pause of the n-th entry of the schedule DoBeeps sleeps, and nothing else
      changes. */
  lemma {:induction false} BeeperFollowsSchedule(m: Machine, i: nat, p: int, clocks: seq<int>)
    requires i < |m.fibres| && m.status == Counting && m.fibres[i] == BeepStart(p)
    requires |clocks| > 0
    ensures Run(m, Resumes(i, clocks)) ==
            m.(fibres := m.fibres[i := BeepPaused(BeepSchedule(p, |clocks|)[|clocks| - 1])])
    decreases |clocks|
  {
    var n := |clocks| - 1;
    assert Resumes(i, clocks) == Resumes(i, clocks[..n]) + [Resume(i, clocks[n])];
    RunSnoc(m, Resumes(i, clocks[..n]), Resume(i, clocks[n]));
    if n == 0 {
      assert Resumes(i, clocks[..0]) == [];
    } else {
      BeeperFollowsSchedule(m, i, p, clocks[..n]);
      assert m.fibres[i := BeepPaused(BeepPeriodAfter(p, n - 1))][i := BeepPaused(BeepPeriodAfter(p, n))]
             == m.fibres[i := BeepPaused(BeepPeriodAfter(p, n))];
    }
  }

  /** Power on, press the logo, let the countdown run out and the explosion finish:
      the display has shown 10, ..., 1, the status passed through Exploding and is
      back at Waiting with a fresh scanner. */
  lemma UncancelledCountdownExplodes(boot: int, clocks: seq<int>, done: int)
    requires |clocks| == 2 * CountLength + 1
    ensures var armed := Run(PowerOn, [Resume(0, boot), Logo]);
      armed.status == Counting &&
      Run(armed, Resumes(3, clocks)).status == Exploding &&
      Run(armed, Resumes(3, clocks) + [Resume(3, done)]) ==
        Machine(Waiting, [Done, Scanner, BeepStart(InitialBeepPeriod), Done, Scanner],
                Descending(CountLength))
  {
    var armed := Run(PowerOn, [Resume(0, boot), Logo]);
    RunPair(PowerOn, Resume(0, boot), Logo);
    assert armed == Machine(Counting, [Done, Scanner, BeepStart(InitialBeepPeriod), CountStart], []);
    CountdownFromStart(armed, 3, clocks);
    RunSnoc(armed, Resumes(3, clocks), Resume(3, done));
  }

  /** Pressing button B during the countdown returns the status to Waiting at once; the
      countdown and the beeper each end the next time they test the status, without
      touching it, and nothing explodes. */
  lemma CancelStopsCountdown(m: Machine, count: nat, beep: nat, now: int, later: int)
    requires m.status == Counting
    requires count < |m.fibres| && m.fibres[count].CountPaused?
    requires beep < |m.fibres| && IsBeeper(m.fibres[beep]) && beep != count
    ensures var cancelled := OnButtonB(m);
      cancelled.status == Waiting &&
      Run(cancelled, [Resume(count, now), Resume(beep, later)]) ==
        cancelled.(fibres := cancelled.fibres[count := Done][beep := Done])
  {
    var cancelled := OnButtonB(m);
    RunPair(cancelled, Resume(count, now), Resume(beep, later));
  }

  /** A stale countdown or beeper, one that finds the status other than Counting, ends at
      its next loop test without changing anything else; a countdown inside showNumber
      gets there within one more resumption. A stale scanner does the same when the
      status is not Waiting. */
  lemma StaleFibreEnds(m: Machine, i: nat, now: int, later: int)
    requires i < |m.fibres|
    ensures m.status != Counting && (IsBeeper(m.fibres[i]) || m.fibres[i].CountStart? || m.fibres[i].CountPaused?) ==>
              ResumeFibre(m, i, now) == m.(fibres := m.fibres[i := Done])
    ensures m.status != Counting && m.fibres[i].CountShown? ==>
              Run(m, [Resume(i, now), Resume(i, later)]) == m.(fibres := m.fibres[i := Done])
    ensures m.status != Waiting && m.fibres[i] == Scanner ==>
              ResumeFibre(m, i, now) == m.(fibres := m.fibres[i := Done])
  {
    if m.status != Counting && m.fibres[i].CountShown? {
      var m1 := ResumeFibre(m, i, now);
      RunPair(m, Resume(i, now), Resume(i, later));
      assert m.fibres[i := m1.fibres[i]][i := Done] == m.fibres[i := Done];
    }
  }

  /** As written, cancelling and restarting within one pause of the countdown revives the
      cancelled countdown: it finds the status Counting again and carries on counting
      beside the new one, so two countdowns (and two beepers) are alive at once. */
  lemma CancelAndRestartRevivesCountdown()
    ensures var events := [Resume(0, 0), Logo, Resume(3, 0), Resume(3, 100), ButtonB, Logo, Resume(3, 1000)];
      Run(PowerOn, events) ==
        Machine(Counting,
                [Done, Scanner, BeepStart(1000), CountShown(0, 8), Scanner, BeepStart(1000), CountStart],
                [10, 9])
  {
    var events := [Resume(0, 0), Logo, Resume(3, 0), Resume(3, 100), ButtonB, Logo, Resume(3, 1000)];
    var m1 := Step(PowerOn, events[0]);
    assert m1 == Machine(Waiting, [Done, Scanner], []);
    var m2 := Step(m1, events[1]);
    var m3 := Step(m2, events[2]);
    assert m3 == Machine(Counting, [Done, Scanner, BeepStart(1000), CountShown(0, 9)], [10]);
    var m4 := Step(m3, events[3]);
    assert m4 == Machine(Counting, [Done, Scanner, BeepStart(1000), CountPaused(0, 9, 900)], [10]);
    var m5 := Step(m4, events[4]);
    var m6 := Step(m5, events[5]);
    var m7 := Step(m6, events[6]);
    assert m7 == Machine(Counting,
                         [Done, Scanner, BeepStart(1000), CountShown(0, 8), Scanner, BeepStart(1000), CountStart],
                         [10, 9]);
    assert Run(PowerOn, events) == Run(m1, events[1..]);
    assert Run(m1, events[1..]) == Run(m2, events[2..]);
    assert Run(m2, events[2..]) == Run(m3, events[3..]);
    assert Run(m3, events[3..]) == Run(m4, events[4..]);
    assert Run(m4, events[4..]) == Run(m5, events[5..]);
    assert Run(m5, events[5..]) == Run(m6, events[6..]);
    assert Run(m6, events[6..]) == Run(m7, events[7..]);
  }
}
