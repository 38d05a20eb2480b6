/**
 * The process-wide incrementing identifier counters of the Java model
 * (Place.NextID, Transition.NextID, AArc.nextID), made explicit: a counter
 * object that every construction draws from.
 */
module Ids {

  class IdCounter {
    /** The identifier the next construction receives. */
    var next: nat

    /** A counter starts at 1, as the Java static fields do. */
    constructor ()
      ensures next == 1
    {
      next := 1;
    }

    /** Post-increment: hands out the current value and advances by one. */
    method Take() returns (id: nat)
      modifies this
      ensures id == old(next)
      ensures next == old(next) + 1
    {
      id := next;
      next := next + 1;
    }
  }
}
