/** Enumerations shared by every component.  A C++ enumeration may hold a value outside its list. */
module Kinds {
  datatype Option<+T> = None | Some(value: T)

  datatype ScalarType = Boolean | Integer | DoublePrecision | UnknownScalar

  predicate ValidScalarType(s: ScalarType) {
    s != UnknownScalar
  }

  /** Largest `std::size_t` of the two supported 64-bit targets. */
  const SIZE_MAX: nat := 0xFFFF_FFFF_FFFF_FFFF
}
