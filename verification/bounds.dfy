/** The four sides of an axis-aligned box. The same enum is declared in
    several source files with identical bodies; it is defined once here. */
module Bounds {

  datatype BoundType = Left | Right | Up | Down

  predicate Horizontal(b: BoundType) {
    b == Left || b == Right
  }

  predicate Vertical(b: BoundType) {
    !Horizontal(b)
  }

  /** The side facing `b`: it differs from `b` and lies on the same axis. */
  function Opposite(b: BoundType): (r: BoundType)
    ensures r != b
    ensures Horizontal(r) == Horizontal(b)
  {
    match b
    case Up => Down
    case Down => Up
    case Left => Right
    case Right => Left
  }

  /** `opposite` undoes itself, and `vertical` is the complement of `horizontal`. */
  lemma OppositeInvolution(b: BoundType)
    ensures Opposite(Opposite(b)) == b
    ensures Vertical(b) == !Horizontal(b)
    ensures Horizontal(b) <==> (b == Left || b == Right)
  {
  }
}
