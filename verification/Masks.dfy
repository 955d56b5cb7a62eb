/** The two events an fd can be watched for. */
module Masks {

  /** EV_READ and EV_WRITE. */
  datatype Mask = Mask(read: bool, write: bool)

  const NONE := Mask(false, false)

  /** a | b */
  function Or(a: Mask, b: Mask): Mask
  {
    Mask(a.read || b.read, a.write || b.write)
  }

  /** a & b */
  function And(a: Mask, b: Mask): Mask
  {
    Mask(a.read && b.read, a.write && b.write)
  }

  /** Does a & ~b have a bit? */
  predicate Unwanted(a: Mask, b: Mask)
  {
    (a.read && !b.read) || (a.write && !b.write)
  }
}
