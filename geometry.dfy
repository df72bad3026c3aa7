/// Vector algebra behind the slice geometry: the Image Orientation (Patient)
/// direction cosines (DICOM PS3.3 section C.7.6.2.1.1), the slice normal as
/// their cross product, dot-product projection and normalisation.
/// Doubles are modelled as reals; the platform square root is a parameter.
module Geometry {

  /** A point or direction in the patient (LPS) frame. */
  datatype Vec3 = Vec3(x: real, y: real, z: real)

  /** The six values of Image Orientation (Patient): row cosines, then column cosines. */
  datatype Orientation = Orientation(row: Vec3, col: Vec3)
  {
    /** The j-th value in attribute order (row x, y, z, column x, y, z). */
    function Component(j: nat): (r: real)
      requires j < 6
      ensures j < 3 ==> r == [row.x, row.y, row.z][j]
      ensures 3 <= j ==> r == [col.x, col.y, col.z][j - 3]
    {
      match j
      case 0 => row.x
      case 1 => row.y
      case 2 => row.z
      case 3 => col.x
      case 4 => col.y
      case 5 => col.z
    }
  }

  /** Threshold below which a vector is left unnormalised. */
  const NormEpsilon: real := 1e-12

  function Abs(a: real): real { if a < 0.0 then -a else a }

  function Add(a: Vec3, b: Vec3): Vec3 { Vec3(a.x + b.x, a.y + b.y, a.z + b.z) }

  function Sub(a: Vec3, b: Vec3): Vec3 { Vec3(a.x - b.x, a.y - b.y, a.z - b.z) }

  function Scale(k: real, a: Vec3): Vec3 { Vec3(k * a.x, k * a.y, k * a.z) }

  /** dotProduct: the sum of the component-wise products. */
  function Dot(a: Vec3, b: Vec3): real { a.x * b.x + a.y * b.y + a.z * b.z }

  function SqNorm(a: Vec3): real { Dot(a, a) }

  /** The right-handed cross product a x b. */
  function Cross(a: Vec3, b: Vec3): Vec3
  {
    Vec3(a.y * b.z - a.z * b.y, a.z * b.x - a.x * b.z, a.x * b.y - a.y * b.x)
  }

  /** computeSliceDirection: the slice normal row x column. */
  function SliceDirection(iop: Orientation): Vec3
  {
    Cross(iop.row, iop.col)
  }

  /** The slice normal is perpendicular to both cosine vectors, and its squared
      length obeys Lagrange's identity. */
  lemma SliceDirectionNormal(iop: Orientation)
    ensures Dot(SliceDirection(iop), iop.row) == 0.0 && Dot(SliceDirection(iop), iop.col) == 0.0
    ensures SqNorm(SliceDirection(iop)) == SqNorm(iop.row) * SqNorm(iop.col) - Dot(iop.row, iop.col) * Dot(iop.row, iop.col)
  {
    CrossPerpendicular(iop.row, iop.col);
    Lagrange(iop.row, iop.col);
  }

  /** Two orthogonal unit cosines give a unit normal. */
  lemma UnitSliceDirection(iop: Orientation)
    requires SqNorm(iop.row) == 1.0 && SqNorm(iop.col) == 1.0 && Dot(iop.row, iop.col) == 0.0
    ensures SqNorm(SliceDirection(iop)) == 1.0
  {
    Lagrange(iop.row, iop.col);
  }

  /** The axial orientation (1, 0, 0, 0, 1, 0) has slice normal (0, 0, 1), which
      normalisation leaves as it is when the square root is exact at 1. */
  lemma AxialSliceDirection(sqrt: real -> real)
    requires sqrt(1.0) == 1.0
    ensures SliceDirection(Orientation(Vec3(1.0, 0.0, 0.0), Vec3(0.0, 1.0, 0.0))) == Vec3(0.0, 0.0, 1.0)
    ensures Normalize(Vec3(0.0, 0.0, 1.0), sqrt) == Vec3(0.0, 0.0, 1.0)
  {
    var v := Vec3(0.0, 0.0, 1.0);
    assert SqNorm(v) == 1.0;
    assert sqrt(SqNorm(v)) == 1.0;
    assert Normalize(v, sqrt) == Vec3(0.0 / 1.0, 0.0 / 1.0, 1.0 / 1.0);
  }

  lemma CrossPerpendicular(a: Vec3, b: Vec3)
    ensures Dot(Cross(a, b), a) == 0.0 && Dot(Cross(a, b), b) == 0.0
  {
  }

  lemma Lagrange(a: Vec3, b: Vec3)
    ensures SqNorm(Cross(a, b)) == SqNorm(a) * SqNorm(b) - Dot(a, b) * Dot(a, b)
  {
  }

  /** The square root the platform supplies is exact at x. */
  ghost predicate ExactSqrtAt(sqrt: real -> real, x: real)
  {
    sqrt(x) >= 0.0 && sqrt(x) * sqrt(x) == x
  }

  /** normalizeVector: divides by the length when the length exceeds 1e-12 and
      leaves the vector as it is otherwise. */
  function Normalize(v: Vec3, sqrt: real -> real): Vec3
  {
    var length := sqrt(SqNorm(v));
    if length > NormEpsilon then Vec3(v.x / length, v.y / length, v.z / length) else v
  }

  /** A vector at or below the threshold is returned unchanged; above it,
      multiplying the result back by the length restores the input. */
  lemma NormalizeRestores(v: Vec3, sqrt: real -> real)
    ensures sqrt(SqNorm(v)) <= NormEpsilon ==> Normalize(v, sqrt) == v
    ensures sqrt(SqNorm(v)) > NormEpsilon ==> Scale(sqrt(SqNorm(v)), Normalize(v, sqrt)) == v
  {
  }

  /** With an exact square root, a normalised vector longer than the threshold has unit length. */
  lemma NormalizeUnit(v: Vec3, sqrt: real -> real)
    requires ExactSqrtAt(sqrt, SqNorm(v))
    requires sqrt(SqNorm(v)) > NormEpsilon
    ensures SqNorm(Normalize(v, sqrt)) == 1.0
  {
    var l := sqrt(SqNorm(v));
    var r := Normalize(v, sqrt);
    NormalizeRestores(v, sqrt);
    assert v == Scale(l, r);
    ScaleSqNorm(l, r);
    PositiveProduct(l, l);
    UnitFactor(l * l, SqNorm(r), SqNorm(v));
  }

  lemma PositiveProduct(a: real, b: real)
    requires a > 0.0 && b > 0.0
    ensures a * b > 0.0
  {
  }

  lemma ScaleSqNorm(k: real, a: Vec3)
    ensures SqNorm(Scale(k, a)) == (k * k) * SqNorm(a)
  {
  }

  lemma UnitFactor(k: real, a: real, s: real)
    requires k > 0.0 && s == k * a && k == s
    ensures a == 1.0
  {
  }

  /** The linear combination a*u + b*v + c*w. */
  function Combine(a: real, u: Vec3, b: real, v: Vec3, c: real, w: Vec3): Vec3
  {
    Add(Add(Scale(a, u), Scale(b, v)), Scale(c, w))
  }

  /** Dot products distribute over a linear combination. */
  lemma DotCombine(a: real, u: Vec3, b: real, v: Vec3, c: real, w: Vec3, e: Vec3)
    ensures Dot(Combine(a, u, b, v, c, w), e) == a * Dot(u, e) + b * Dot(v, e) + c * Dot(w, e)
  {
  }
}
