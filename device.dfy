/** The device as the program holds it: the global status register and the fibres that
    share it, updated in place by the trigger handlers and by each fibre in turn. Every
    method is tied to the transition function of the machine in module Fibres and keeps
    its invariant, so the lemmas proved there hold of the object. */
module Device {
  import opened SharedState
  import opened Beeper
  import opened Countdown
  import opened Fibres

  class Device {
    /** The global `status` (main.ts: let status = 0). */
    var status: Status
    /** The fibres launched so far, each where it is suspended. */
    var fibres: seq<Fibre>
    /** The numbers the countdown has passed to showNumber, in order. */
    var shown: seq<int>

    function State(): Machine
      reads this
    {
      Machine(status, fibres, shown)
    }

    ghost predicate Valid()
      reads this
    {
      Inv(State())
    }

    /** Power on: status 0, and the main program about to show "Ready". */
    constructor ()
      ensures State() == PowerOn && Valid()
    {
      status := Idle;
      fibres := [Main];
      shown := [];
    }

    /** The logo-press handler. */
    method LogoPressed()
      requires Valid()
      modifies this
      ensures Valid() && State() == OnLogo(old(State()))
    {
      StepPreservesInv(State(), Logo);
      if status == Waiting {
        status := Counting;
        fibres := fibres + [BeepStart(InitialBeepPeriod), CountStart];
      }
    }

    /** The button-B handler. */
    method ButtonBPressed()
      requires Valid()
      modifies this
      ensures Valid() && State() == OnButtonB(old(State()))
    {
      StepPreservesInv(State(), ButtonB);
      if status == Counting {
        status := Waiting;
        fibres := fibres + [Scanner];
      }
    }

    /** runCountdown's loop test and, when it fails, its expiry test, run by the
        countdown fibre i with its counter in range. */
    method CountdownTest(i: nat, startTime: int, count: int)
      requires Valid() && i < |fibres| && IsCountdown(fibres[i]) && 0 <= count <= CountLength
      modifies this
      ensures Valid() && State() == CountTest(old(State()), i, startTime, count)
    {
      CountTestKeepsInv(State(), i, startTime, count);
      if status == Counting && count > 0 {
        shown := shown + [count];
        fibres := fibres[i := CountShown(startTime, count - 1)];
      } else if status == Counting {
        status := Exploding;
        fibres := fibres[i := Explosion];
      } else {
        fibres := fibres[i := Done];
      }
    }

    /** Fibre i runs from where it is suspended to its next suspension point;
        `now` is what input.runningTime() returns if it reads the clock. */
    method RunFibre(i: nat, now: int)
      requires Valid()
      modifies this
      ensures Valid() && State() == ResumeFibre(old(State()), i, now)
    {
      StepPreservesInv(State(), Resume(i, now));
      if i < |fibres| {
        match fibres[i]
        case Main =>
          status := Waiting;
          fibres := fibres[i := Done] + [Scanner];
        case Scanner =>
          if status != Waiting {
            fibres := fibres[i := Done];
          }
        case BeepStart(beepPeriod) =>
          if status == Counting {
            fibres := fibres[i := BeepPaused(beepPeriod)];
          } else {
            fibres := fibres[i := Done];
          }
        case BeepPaused(p) =>
          var beepPeriod := NextBeepPeriod(p);
          if status == Counting {
            fibres := fibres[i := BeepPaused(beepPeriod)];
          } else {
            fibres := fibres[i := Done];
          }
        case CountStart =>
          var startTime := now;
          CountdownTest(i, startTime, CountLength);
        case CountShown(startTime, count) =>
          var pauseTime := PauseTime(startTime, count, now);
          fibres := fibres[i := CountPaused(startTime, count, pauseTime)];
        case CountPaused(startTime, count, _) =>
          assert fibres[i] in fibres;
          CountdownTest(i, startTime, count);
        case Explosion =>
          status := Waiting;
          fibres := fibres[i := Done] + [Scanner];
        case Done =>
      }
    }

    /** One event: a handler, or one fibre's turn. */
    method Handle(e: Event)
      requires Valid()
      modifies this
      ensures Valid() && State() == Step(old(State()), e)
    {
      match e
      case Logo => LogoPressed();
      case ButtonB => ButtonBPressed();
      case Resume(i, now) => RunFibre(i, now);
    }

    /** The events applied one at a time: the scheduler's chosen interleaving. */
    method HandleAll(events: seq<Event>)
      requires Valid()
      modifies this
      ensures Valid() && State() == Run(old(State()), events)
    {
      var k := 0;
      while k < |events|
        invariant 0 <= k <= |events|
        invariant Valid() && State() == Run(old(State()), events[..k])
      {
        RunSnoc(old(State()), events[..k], events[k]);
        assert events[..k + 1] == events[..k] + [events[k]];
        Handle(events[k]);
        k := k + 1;
      }
      assert events[..|events|] == events;
    }
  }
}
