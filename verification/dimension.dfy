/** The world dimensions (`enum Dimension` in dimension.h). */
module Dimensions {

  datatype Dimension = Overworld

  /** `Dimension::Last`: the number of real dimensions. */
  const Last: nat := 1

  function Index(d: Dimension): (i: nat)
    ensures i < Last
  {
    match d
    case Overworld => 0
  }

  /** The C++ cast from an integer in `0 .. Last - 1` to `Dimension`. */
  function FromIndex(i: nat): (d: Dimension)
    requires i < Last
    ensures Index(d) == i
  {
    Overworld
  }
}
