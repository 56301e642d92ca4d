/** Small shared vocabulary: optional values, injectivity of digests, integer bounds, minimum and maximum. */
module Prelude {

  datatype Option<+T> = None | Some(value: T)

  /** SHA-256 is never interpreted: models take it as a parameter and state injectivity where it is used. */
  ghost predicate Injective<A(!new), B(!new)>(f: A -> B) {
    forall x, y :: f(x) == f(y) ==> x == y
  }

  const U32_MAX: nat := 0xffff_ffff
  const U64_MAX: nat := 0xffff_ffff_ffff_ffff
  const I64_MAX: nat := 0x7fff_ffff_ffff_ffff

  function Min(a: int, b: int): int { if a <= b then a else b }

  function Max(a: int, b: int): int { if a <= b then b else a }
}
