/** Points of the curve in coordinates over field elements. */
module Jacobians {
  import opened NumberTheory
  import opened Field52

  datatype Affine = Affine(x: Fe, y: Fe, infinity: bool)

  datatype Jacobian = Jacobian(x: Fe, y: Fe, z: Fe, infinity: bool)

  /** Invertible modulo p. */
  ghost predicate Unit(z: nat) { Gcd(z % P, P) == 1 }
}
