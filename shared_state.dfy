/** The process-wide status register of the countdown device. */
module SharedState {

  /** The four values the register takes; the program stores them as the numbers 0 to 3. */
  datatype Status = Idle | Waiting | Counting | Exploding
  {
    /** The number the program stores for this status. */
    function Code(): (n: int)
      ensures 0 <= n <= 3
    {
      match this
      case Idle => 0
      case Waiting => 1
      case Counting => 2
      case Exploding => 3
    }
  }

  /** Distinct statuses are stored as distinct numbers, so a test such as status == 2
      singles out exactly one status. */
  lemma CodeIsInjective(a: Status, b: Status)
    ensures a.Code() == b.Code() ==> a == b
  {
  }
}
