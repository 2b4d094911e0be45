/** What an integrator's policy may answer when something full is asked to take more. */
module DiscardPolicy {
  datatype Policy = Oldest | Newest | Halt
}
