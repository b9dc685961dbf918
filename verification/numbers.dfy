/** Integer helpers shared by the puzzles. */
module Numbers {

  /** Python's `abs` on an integer. */
  function Abs(x: int): (r: nat)
    ensures r == x || r == -x
  {
    if x < 0 then -x else x
  }
}
