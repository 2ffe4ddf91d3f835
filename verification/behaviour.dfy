/** Which reading of the script a definition follows. */
module Behaviour {
  /**
    `AsWritten` is the script as it stands; `Intended` applies the two
    corrections listed under Findings in the README: the food filter
    compares the submitted `0`/`1` value, and an admin write clears the
    cache after writing instead of only before the request's reads.
   */
  datatype Variant = AsWritten | Intended
}
