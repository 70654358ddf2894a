/** The wall clock that the core reads through `datetime.now()`. The model
    replaces it by a counter that every reading advances, so a later
    reading is always strictly greater than an earlier one: the monotonic
    clock the entity tests assume when they compare `updated_at` values. */
module Clock {

  class Clock {
    /** The latest reading handed out. */
    var time: int

    constructor (start: int)
      ensures time == start
    {
      time := start;
    }

    /** `datetime.now()`: a reading later than every earlier one. */
    method Now() returns (t: int)
      modifies this
      ensures t == time && old(time) < t
    {
      time := time + 1;
      t := time;
    }
  }
}
