/** Three-way comparison results, as Rust's `Ordering`. */
module Orderings {
  datatype Ordering = Less | Equal | Greater

  /** `Ord::cmp` on integers. */
  function CompareInt(a: int, b: int): (o: Ordering)
    ensures o == Less <==> a < b
    ensures o == Equal <==> a == b
    ensures o == Greater <==> a > b
  {
    if a < b then Less else if a == b then Equal else Greater
  }

  /** `partial_cmp` on reals, where it never fails. */
  function CompareReal(a: real, b: real): (o: Ordering)
    ensures o == Less <==> a < b
    ensures o == Equal <==> a == b
    ensures o == Greater <==> a > b
  {
    if a < b then Less else if a == b then Equal else Greater
  }
}
