/**
  The number of worker threads the programs start: the count the hardware reports, or
  four when the hardware reports none.
 */
module Threads {

  function ThreadCount(detected: nat): (k: nat)
    ensures k >= 1
    ensures detected >= 1 ==> k == detected
    ensures detected == 0 ==> k == 4
  {
    if detected == 0 then 4 else detected
  }
}
