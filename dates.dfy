/** Timestamps are integers; the date library's `endOfDay` and `addMonths` are kept
    abstract, as the two functions of a Calendar. */
module Dates {

  /** `endOfDay(t)` is the last instant of t's calendar day; `addMonths(t, m)` is t moved
      m calendar months later. */
  datatype Calendar = Calendar(endOfDay: int -> int, addMonths: (int, nat) -> int)

  /** The one property of the calendar the model relies on: adding a non-negative number
      of months never moves a timestamp backwards. */
  ghost predicate Forward(cal: Calendar)
  {
    forall t: int, m: nat :: t <= cal.addMonths(t, m)
  }
}
