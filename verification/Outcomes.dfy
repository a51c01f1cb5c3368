/** How a kernel operation can end. */
module Outcomes {

  datatype Option<+T> = None | Some(value: T)

  /** `Done` is a normal return.  `Panic` is a call of the kernel's `panic`, which
      never returns, so no state follows it.  `Wild` is an access outside the table
      or the map that the code believes it is using, which C leaves undefined. */
  datatype Outcome<+T> = Done(value: T) | Panic | Wild
}
