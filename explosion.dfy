/** The explosion sequence (function explode). Its motor, LED and display calls and its
    pauses are output only; what is kept is the speed ramp of its loop. */
module Explosion {

  /** The speeds the spin-down loop of explode passes to the motor, in order. */
  method SpinDownSpeeds() returns (speeds: seq<int>)
    ensures |speeds| == 9
    ensures forall k :: 0 <= k < |speeds| ==> speeds[k] == 90 - 10 * k
    ensures forall k :: 0 <= k < |speeds| ==> 0 < speeds[k] <= 100
  {
    speeds := [];
    var spinspeed := 90;
    while spinspeed > 0
      invariant 0 <= spinspeed <= 90 && spinspeed % 10 == 0
      invariant |speeds| == (90 - spinspeed) / 10
      invariant forall k :: 0 <= k < |speeds| ==> speeds[k] == 90 - 10 * k
    {
      speeds := speeds + [spinspeed];
      spinspeed := spinspeed - 10;
    }
  }
}
