/** A value that may be missing. */
module Wrappers {
  datatype Option<+T> = None | Some(value: T)
}

/** What both area-of-interest indexes store. */
module AoiEntities {
  /** An entity at a position; id 0 is not an entity. */
  datatype Entity = Entity(id: nat, x: int, y: int)
}

/** A product grows with its factor. */
module Arithmetic {
  lemma MulMono(a: int, b: int, w: int)
    requires a <= b && 0 <= w
    ensures a * w <= b * w
  {}
}
