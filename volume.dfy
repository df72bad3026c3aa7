/// Volume3D.h: a scalar volume in the patient (LPS) frame. Voxels are kept in
/// one flat buffer in slice-major order ([z][y][x]); spacing, origin and the
/// three direction vectors place voxel coordinates in the world.
module Volume3D {
  import opened Geometry

  /** numeric_limits<float>::max(), the largest finite float. */
  const FloatMax: real := 340282346638528859811704183484516925440.0

  /** Position of voxel (x, y, z) in the flat buffer of a volume `w` wide and `h` high. */
  function Index(w: int, h: int, x: int, y: int, z: int): int
  {
    z * (w * h) + y * w + x
  }

  /** An in-bounds coordinate lands inside the buffer, inside the block of
      its own slice z, at offset y*w + x of that block. */
  lemma IndexInRange(w: int, h: int, d: int, x: int, y: int, z: int)
    requires 0 <= x < w && 0 <= y < h && 0 <= z < d
    ensures 0 <= z * (w * h) && z * (w * h) + w * h <= w * h * d
    ensures Index(w, h, x, y, z) == z * (w * h) + (y * w + x)
    ensures 0 <= y * w + x < w * h
    ensures 0 <= Index(w, h, x, y, z) < w * h * d
  {
    MulMonotone(y, h - 1, w);
    assert (h - 1) * w == h * w - w;
    MulMonotone(z + 1, d, w * h);
    assert (z + 1) * (w * h) == z * (w * h) + w * h;
    assert w * h * d == d * (w * h);
    MulNonNegative(z, w * h);
  }

  /** The buffer index determines the coordinate: distinct in-bounds voxels
      never share a buffer element. */
  lemma IndexInjective(w: int, h: int, d: int, x: int, y: int, z: int, x': int, y': int, z': int)
    requires 0 <= x < w && 0 <= y < h && 0 <= z < d
    requires 0 <= x' < w && 0 <= y' < h && 0 <= z' < d
    requires Index(w, h, x, y, z) == Index(w, h, x', y', z')
    ensures x == x' && y == y' && z == z'
  {
    IndexInRange(w, h, d, x, y, z);
    IndexInRange(w, h, d, x', y', z');
    var i := Index(w, h, x, y, z);
    DivModUnique(i, w * h, z, y * w + x);
    DivModUnique(i, w * h, z', y' * w + x');
    DivModUnique(y * w + x, w, y, x);
    DivModUnique(y' * w + x', w, y', x');
  }

  /** Quotient and remainder are unique. */
  lemma DivModUnique(i: int, m: int, q: int, r: int)
    requires m > 0 && 0 <= r < m && i == q * m + r
    ensures i / m == q && i % m == r
  {
    var q', r' := i / m, i % m;
    assert q' * m + r' == i;
    assert (q - q') * m == r' - r;
    MulBetween(q - q', m);
  }

  /** The only multiple of m strictly between -m and m is 0. */
  lemma MulBetween(k: int, m: int)
    requires m > 0 && -m < k * m < m
    ensures k == 0
  {
    if k >= 1 {
      MulMonotone(1, k, m);
    } else if k <= -1 {
      MulMonotone(k, -1, m);
    }
  }

  lemma MulMonotone(a: int, b: int, c: int)
    requires a <= b && c >= 0
    ensures a * c <= b * c
  {
    MulNonNegative(b - a, c);
    assert (b - a) * c == b * c - a * c;
  }

  lemma MulNonNegative(a: int, b: int)
    requires a >= 0 && b >= 0
    ensures a * b >= 0
  {
  }

  class Volume {
    var width: int
    var height: int
    var depth: int
    /** Voxel spacing in mm along x, y, z. */
    var spacing: Vec3
    /** World position of voxel (0, 0, 0). */
    var origin: Vec3
    var rowDir: Vec3
    var colDir: Vec3
    var sliceDir: Vec3
    var voxels: seq<real>
    var vmin: real
    var vmax: real
    var modality: string
    var patientID: string
    var studyUID: string
    var seriesUID: string
    var studyDate: string
    var seriesDescription: string
    var rescaleIntercept: real
    var rescaleSlope: real
    var hasRescaleParams: bool

    /** The buffer holds exactly width*height*depth voxels. */
    ghost predicate Wellformed()
      reads this
    {
      width >= 0 && height >= 0 && depth >= 0 && |voxels| == width * height * depth
    }

    /** Everything but the dimensions and the buffer is at its default initialiser. */
    ghost predicate DefaultAttributes()
      reads this
    {
      && spacing == Vec3(1.0, 1.0, 1.0) && origin == Vec3(0.0, 0.0, 0.0)
      && rowDir == Vec3(1.0, 0.0, 0.0) && colDir == Vec3(0.0, 1.0, 0.0) && sliceDir == Vec3(0.0, 0.0, 1.0)
      && vmin == 0.0 && vmax == 0.0
      && modality == "" && patientID == "" && studyUID == "" && seriesUID == ""
      && studyDate == "" && seriesDescription == ""
      && rescaleIntercept == 0.0 && rescaleSlope == 1.0 && !hasRescaleParams
    }

    /** Volume3D(): the empty volume every failed load returns; it is not valid. */
    constructor Empty()
      ensures Wellformed() && !IsValid()
      ensures width == 0 && height == 0 && depth == 0 && voxels == []
      ensures DefaultAttributes()
    {
      width, height, depth := 0, 0, 0;
      spacing, origin := Vec3(1.0, 1.0, 1.0), Vec3(0.0, 0.0, 0.0);
      rowDir, colDir, sliceDir := Vec3(1.0, 0.0, 0.0), Vec3(0.0, 1.0, 0.0), Vec3(0.0, 0.0, 1.0);
      voxels := [];
      vmin, vmax := 0.0, 0.0;
      modality, patientID, studyUID, seriesUID, studyDate, seriesDescription := "", "", "", "", "", "";
      rescaleIntercept, rescaleSlope, hasRescaleParams := 0.0, 1.0, false;
    }

    /** Volume3D(w, h, d): a w x h x d volume whose every voxel is 0. */
    constructor (w: nat, h: nat, d: nat)
      ensures Wellformed()
      ensures width == w && height == h && depth == d
      ensures |voxels| == w * h * d && forall i :: 0 <= i < |voxels| ==> voxels[i] == 0.0
      ensures DefaultAttributes()
    {
      width, height, depth := w, h, d;
      spacing, origin := Vec3(1.0, 1.0, 1.0), Vec3(0.0, 0.0, 0.0);
      rowDir, colDir, sliceDir := Vec3(1.0, 0.0, 0.0), Vec3(0.0, 1.0, 0.0), Vec3(0.0, 0.0, 1.0);
      voxels := seq(w * h * d, _ => 0.0);
      vmin, vmax := 0.0, 0.0;
      modality, patientID, studyUID, seriesUID, studyDate, seriesDescription := "", "", "", "", "", "";
      rescaleIntercept, rescaleSlope, hasRescaleParams := 0.0, 1.0, false;
    }

    /** getTotalVoxels: the product of the dimensions, which for a well-formed
        volume is the length of the buffer. */
    function TotalVoxels(): (n: int)
      reads this
      ensures Wellformed() ==> n == |voxels|
    {
      width * height * depth
    }

    /** isValid: positive dimensions and a non-empty buffer. */
    predicate IsValid()
      reads this
    {
      width > 0 && height > 0 && depth > 0 && |voxels| > 0
    }

    /** For a well-formed volume the buffer test in IsValid is implied by the dimensions. */
    lemma ValidIffPositiveDimensions()
      requires Wellformed()
      ensures IsValid() <==> width > 0 && height > 0 && depth > 0
    {
      if width > 0 && height > 0 && depth > 0 {
        MulMonotone(1, width, height);
        MulMonotone(1, width * height, depth);
      }
    }

    predicate InBounds(x: int, y: int, z: int)
      reads this
    {
      0 <= x < width && 0 <= y < height && 0 <= z < depth
    }

    /** getVoxel: 0 outside the volume; inside, the value at row y, column x
        of slice z, that slice being the z-th block of width*height values. */
    function GetVoxel(x: int, y: int, z: int): (r: real)
      reads this
      requires Wellformed()
      ensures !InBounds(x, y, z) ==> r == 0.0
      ensures InBounds(x, y, z) ==>
        var block := width * height;
        0 <= z * block && z * block + block <= |voxels| && 0 <= y * width + x < block &&
        r == voxels[z * block..z * block + block][y * width + x]
    {
      if !InBounds(x, y, z) then
        0.0
      else
        IndexInRange(width, height, depth, x, y, z);
        voxels[Index(width, height, x, y, z)]
    }

    /** setVoxel: outside the volume nothing changes; inside, exactly the one
        voxel changes and reads back as the value written. */
    method SetVoxel(x: int, y: int, z: int, value: real)
      requires Wellformed()
      modifies this`voxels
      ensures Wellformed()
      ensures !InBounds(x, y, z) ==> voxels == old(voxels)
      ensures InBounds(x, y, z) ==> GetVoxel(x, y, z) == value
      ensures forall x', y', z' :: (x' != x || y' != y || z' != z) ==>
        GetVoxel(x', y', z') == old(GetVoxel(x', y', z'))
    {
      if !InBounds(x, y, z) {
        return;
      }
      IndexInRange(width, height, depth, x, y, z);
      var index := Index(width, height, x, y, z);
      voxels := voxels[index := value];
      forall x', y', z' | (x' != x || y' != y || z' != z) && InBounds(x', y', z')
        ensures Index(width, height, x', y', z') != index
      {
        if Index(width, height, x', y', z') == index {
          IndexInjective(width, height, depth, x, y, z, x', y', z');
        }
      }
    }

    predicate NonzeroSpacing()
      reads this
    {
      spacing.x != 0.0 && spacing.y != 0.0 && spacing.z != 0.0
    }

    /** worldToVoxel: the offset from the origin projected on each axis, in units of that axis' spacing. */
    function WorldToVoxel(world: Vec3): (v: Vec3)
      reads this
      requires NonzeroSpacing()
      ensures world == origin ==> v == Vec3(0.0, 0.0, 0.0)
    {
      var t := Sub(world, origin);
      Vec3(Dot(t, rowDir) / spacing.x, Dot(t, colDir) / spacing.y, Dot(t, sliceDir) / spacing.z)
    }

    /** voxelToWorld: the origin plus each coordinate times its spacing along its axis. */
    function VoxelToWorld(v: Vec3): (world: Vec3)
      reads this
      ensures v == Vec3(0.0, 0.0, 0.0) ==> world == origin
    {
      Add(origin, Combine(v.x * spacing.x, rowDir, v.y * spacing.y, colDir, v.z * spacing.z, sliceDir))
    }

    /** The direction vectors are exactly unit length and pairwise perpendicular. */
    ghost predicate ExactlyOrthonormal()
      reads this
    {
      && Dot(rowDir, rowDir) == 1.0 && Dot(colDir, colDir) == 1.0 && Dot(sliceDir, sliceDir) == 1.0
      && Dot(rowDir, colDir) == 0.0 && Dot(rowDir, sliceDir) == 0.0 && Dot(colDir, sliceDir) == 0.0
    }

    /** With an exactly orthonormal frame and nonzero spacing, worldToVoxel undoes voxelToWorld. */
    lemma VoxelWorldRoundTrip(v: Vec3)
      requires ExactlyOrthonormal() && NonzeroSpacing()
      ensures WorldToVoxel(VoxelToWorld(v)) == v
    {
      var a, b, c := v.x * spacing.x, v.y * spacing.y, v.z * spacing.z;
      var t := Combine(a, rowDir, b, colDir, c, sliceDir);
      assert Sub(VoxelToWorld(v), origin) == t;
      DotSymmetric(rowDir, colDir);
      DotSymmetric(rowDir, sliceDir);
      DotSymmetric(colDir, sliceDir);
      RecoverCoordinate(a, rowDir, b, colDir, c, sliceDir, spacing.x, v.x);
      CombineSwap(a, rowDir, b, colDir, c, sliceDir);
      RecoverCoordinate(b, colDir, a, rowDir, c, sliceDir, spacing.y, v.y);
      CombineRotate(a, rowDir, b, colDir, c, sliceDir);
      RecoverCoordinate(c, sliceDir, a, rowDir, b, colDir, spacing.z, v.z);
    }

    /** isOrthonormal: unit lengths (through the supplied square root), pairwise
        dot products and the right-handed cross product, each within epsilon. */
    predicate IsOrthonormal(epsilon: real, sqrt: real -> real)
      reads this
    {
      if Abs(sqrt(SqNorm(rowDir)) - 1.0) > epsilon
        || Abs(sqrt(SqNorm(colDir)) - 1.0) > epsilon
        || Abs(sqrt(SqNorm(sliceDir)) - 1.0) > epsilon then
        false
      else if Abs(Dot(rowDir, colDir)) > epsilon
        || Abs(Dot(rowDir, sliceDir)) > epsilon
        || Abs(Dot(colDir, sliceDir)) > epsilon then
        false
      else
        var cross := Cross(rowDir, colDir);
        !(Abs(cross.x - sliceDir.x) > epsilon
          || Abs(cross.y - sliceDir.y) > epsilon
          || Abs(cross.z - sliceDir.z) > epsilon)
    }

    /** A right-handed frame of orthogonal unit vectors passes the check at any
        tolerance, given a square root that is exact at 1. */
    lemma RightHandedFramePasses(epsilon: real, sqrt: real -> real)
      requires epsilon >= 0.0 && sqrt(1.0) == 1.0
      requires SqNorm(rowDir) == 1.0 && SqNorm(colDir) == 1.0 && Dot(rowDir, colDir) == 0.0
      requires sliceDir == Cross(rowDir, colDir)
      ensures IsOrthonormal(epsilon, sqrt)
    {
      Lagrange(rowDir, colDir);
      CrossPerpendicular(rowDir, colDir);
      assert Dot(rowDir, sliceDir) == Dot(sliceDir, rowDir);
      assert Dot(colDir, sliceDir) == Dot(sliceDir, colDir);
    }

    /** Conversely, passing the check at tolerance 0, with a square root exact at
        the three squared lengths, means the frame is exactly orthonormal and
        right-handed. */
    lemma PassingAtZeroIsExact(sqrt: real -> real)
      requires ExactSqrtAt(sqrt, SqNorm(rowDir)) && ExactSqrtAt(sqrt, SqNorm(colDir)) && ExactSqrtAt(sqrt, SqNorm(sliceDir))
      requires IsOrthonormal(0.0, sqrt)
      ensures ExactlyOrthonormal() && sliceDir == Cross(rowDir, colDir)
    {
    }
  }

  /** Projecting a*e + b*f + c*g on e, where e is a unit vector perpendicular
      to f and g, and dividing by s recovers x when a is x*s. */
  lemma RecoverCoordinate(a: real, e: Vec3, b: real, f: Vec3, c: real, g: Vec3, s: real, x: real)
    requires Dot(e, e) == 1.0 && Dot(f, e) == 0.0 && Dot(g, e) == 0.0
    requires s != 0.0 && a == x * s
    ensures Dot(Combine(a, e, b, f, c, g), e) / s == x
  {
    DotCombine(a, e, b, f, c, g, e);
    ProjectAxis(a, b, c, Dot(e, e), Dot(f, e), Dot(g, e));
    DivMul(x, s);
  }

  lemma ProjectAxis(a: real, b: real, c: real, ee: real, fe: real, ge: real)
    requires ee == 1.0 && fe == 0.0 && ge == 0.0
    ensures a * ee + b * fe + c * ge == a
  {
  }

  lemma DivMul(a: real, s: real)
    requires s != 0.0
    ensures (a * s) / s == a
  {
  }

  lemma DotSymmetric(a: Vec3, b: Vec3)
    ensures Dot(a, b) == Dot(b, a)
  {
  }

  lemma CombineSwap(a: real, u: Vec3, b: real, v: Vec3, c: real, w: Vec3)
    ensures Combine(a, u, b, v, c, w) == Combine(b, v, a, u, c, w)
  {
  }

  lemma CombineRotate(a: real, u: Vec3, b: real, v: Vec3, c: real, w: Vec3)
    ensures Combine(a, u, b, v, c, w) == Combine(c, w, a, u, b, v)
  {
  }
}
