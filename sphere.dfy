/**
 The planet sphere blocklist: every voxel of a `dim`-edged cube (32 in the
 script) whose centre, offset by half a voxel, lies within `dim/2 - 0.5` of
 the cube's centre, listed with y outermost, then z, then x.

 The script tests the condition in floating point on half-integers; doubling
 every term gives the exact integer test `InSphere`, and the two agree.
 */
module Sphere {

  const PlanetDim := 32

  datatype Voxel = Voxel(x: int, y: int, z: int)

  /**
   The square of `n`, by recursion on `|n|`: the solver then expands it only
   where a proof asks for it, and `SqIsProduct` gives `n * n` where needed.
   */
  function Sq(n: int): nat
    decreases if n < 0 then -n else n, if n < 0 then 1 else 0
  {
    if n < 0 then Sq(-n) else if n == 0 then 0 else Sq(n - 1) + 2 * n - 1
  }

  lemma {:induction false} SqIsProduct(n: int)
    ensures Sq(n) == n * n
    decreases if n < 0 then -n else n, if n < 0 then 1 else 0
  {
    if n < 0 {
      SqIsProduct(-n);
      assert (-n) * (-n) == n * n;
    } else if n > 0 {
      SqIsProduct(n - 1);
      assert (n - 1) * (n - 1) == (n - 1) * n - (n - 1);
      assert (n - 1) * n == n * n - n;
    }
  }

  predicate InCube(dim: nat, v: Voxel) {
    0 <= v.x < dim && 0 <= v.y < dim && 0 <= v.z < dim
  }

  /**
   Twice the offset of a voxel centre `n + 0.5` from the cube's centre
   `dim // 2`: an odd integer.
   */
  function Offset(dim: nat, n: int): int {
    2 * n - 2 * (dim / 2) + 1
  }

  /** The doubled radius `2 * (dim // 2) - 1`. */
  function DoubledRadius(dim: nat): int {
    2 * (dim / 2) - 1
  }

  /** The doubled test: `(2x-2r+1)² + (2y-2r+1)² + (2z-2r+1)² <= (2r-1)²` with `r = dim // 2`. */
  predicate InSphere(dim: nat, v: Voxel) {
    Sq(Offset(dim, v.x)) + Sq(Offset(dim, v.y)) + Sq(Offset(dim, v.z)) <= Sq(DoubledRadius(dim))
  }

  predicate InBall(dim: nat, v: Voxel) {
    InCube(dim, v) && InSphere(dim, v)
  }

  /** The test as the script writes it, on reals: `dx*dx + dy*dy + dz*dz <= (radius-0.5)**2`. */
  predicate InSphereAsWritten(dim: nat, v: Voxel) {
    var radius := dim / 2;
    var dx := (v.x - radius) as real + 0.5;
    var dy := (v.y - radius) as real + 0.5;
    var dz := (v.z - radius) as real + 0.5;
    dx * dx + dy * dy + dz * dz <= (radius as real - 0.5) * (radius as real - 0.5)
  }

  lemma MulAsReal(a: int, b: int)
    ensures (a * b) as real == (a as real) * (b as real)
  {
  }

  /** An odd integer `a` that is twice the half-integer `d` squares to four times `d * d`. */
  lemma DoubledHalfSquare(a: int, d: real)
    requires a as real == 2.0 * d
    ensures Sq(a) as real == 4.0 * (d * d)
  {
    SqIsProduct(a);
    MulAsReal(a, a);
  }

  /** Doubling every coordinate makes the half-voxel test exact on integers. */
  lemma DoubledTestExact(dim: nat, v: Voxel)
    ensures InSphereAsWritten(dim, v) <==> InSphere(dim, v)
  {
    var r := dim / 2;
    var dx := (v.x - r) as real + 0.5;
    var dy := (v.y - r) as real + 0.5;
    var dz := (v.z - r) as real + 0.5;
    var dr := r as real - 0.5;
    var a, b, c, t := Offset(dim, v.x), Offset(dim, v.y), Offset(dim, v.z), DoubledRadius(dim);
    DoubledHalfSquare(a, dx);
    DoubledHalfSquare(b, dy);
    DoubledHalfSquare(c, dz);
    DoubledHalfSquare(t, dr);
    ScaledComparison(Sq(a), Sq(b), Sq(c), Sq(t), dx * dx, dy * dy, dz * dz, dr * dr);
    AsWrittenTerms(dim, v, dx, dy, dz, dr);
  }

  lemma AsWrittenTerms(dim: nat, v: Voxel, dx: real, dy: real, dz: real, dr: real)
    requires dx == (v.x - dim / 2) as real + 0.5 && dy == (v.y - dim / 2) as real + 0.5
    requires dz == (v.z - dim / 2) as real + 0.5 && dr == (dim / 2) as real - 0.5
    ensures InSphereAsWritten(dim, v) <==> dx * dx + dy * dy + dz * dz <= dr * dr
  {
  }

  /** Integer terms that are four times real ones compare as the real ones do. */
  lemma ScaledComparison(a: int, b: int, c: int, t: int, x: real, y: real, z: real, u: real)
    requires a as real == 4.0 * x && b as real == 4.0 * y && c as real == 4.0 * z && t as real == 4.0 * u
    ensures a + b + c <= t <==> x + y + z <= u
  {
  }

  /** Emission order of the loops: by y, then z, then x. */
  predicate EmittedBefore(a: Voxel, b: Voxel) {
    a.y < b.y || (a.y == b.y && (a.z < b.z || (a.z == b.z && a.x < b.x)))
  }

  predicate StrictlyOrdered(s: seq<Voxel>) {
    forall i, j :: 0 <= i < j < |s| ==> EmittedBefore(s[i], s[j])
  }

  /**
   The sphere blocklist loop: `blocks` holds exactly the voxels of the ball,
   each once, in emission order.
   */
  method SphereBlocks(dim: nat) returns (blocks: seq<Voxel>)
    ensures forall v :: v in blocks <==> InBall(dim, v)
    ensures StrictlyOrdered(blocks)
    ensures forall i, j :: 0 <= i < j < |blocks| ==> blocks[i] != blocks[j]
  {
    blocks := [];
    var y := 0;
    while y < dim
      invariant 0 <= y <= dim
      invariant forall v :: v in blocks <==> InBall(dim, v) && v.y < y
      invariant StrictlyOrdered(blocks)
    {
      var z := 0;
      while z < dim
        invariant 0 <= z <= dim
        invariant forall v :: v in blocks <==> InBall(dim, v) && EmittedBefore(v, Voxel(0, y, z))
        invariant StrictlyOrdered(blocks)
      {
        var x := 0;
        while x < dim
          invariant 0 <= x <= dim
          invariant forall v :: v in blocks <==> InBall(dim, v) && EmittedBefore(v, Voxel(x, y, z))
          invariant StrictlyOrdered(blocks)
        {
          DoubledTestExact(dim, Voxel(x, y, z));
          if InSphereAsWritten(dim, Voxel(x, y, z)) {
            blocks := blocks + [Voxel(x, y, z)];
          }
          x := x + 1;
        }
        z := z + 1;
      }
      y := y + 1;
    }
  }

  /** Two strictly ordered listings of the same voxels are the same listing. */
  lemma {:induction false} OrderedListingUnique(s: seq<Voxel>, t: seq<Voxel>)
    requires StrictlyOrdered(s) && StrictlyOrdered(t)
    requires forall v :: v in s <==> v in t
    ensures s == t
    decreases |s|
  {
    if s == [] {
      assert forall i :: 0 <= i < |t| ==> t[i] in t;
    } else {
      assert s[0] in t;
      assert s[0] == t[0] by {
        assert t[0] in s;
        var i :| 0 <= i < |s| && s[i] == t[0];
        var j :| 0 <= j < |t| && t[j] == s[0];
        assert i == 0 || EmittedBefore(s[0], s[i]);
        assert j == 0 || EmittedBefore(t[0], t[j]);
      }
      forall v ensures v in s[1..] <==> v in t[1..] {
        if v in s[1..] {
          var i :| 1 <= i < |s| && s[i] == v;
          assert EmittedBefore(s[0], s[i]);
          assert v in t;
        }
        if v in t[1..] {
          var j :| 1 <= j < |t| && t[j] == v;
          assert EmittedBefore(t[0], t[j]);
          assert v in s;
        }
      }
      OrderedListingUnique(s[1..], t[1..]);
      assert s == [s[0]] + s[1..] && t == [t[0]] + t[1..];
    }
  }

  lemma SqNeg(n: int)
    ensures Sq(-n) == Sq(n)
  {
  }

  /** Reflecting `n -> dim - 1 - n` negates the doubled offset from the centre. */
  lemma ReflectedTerm(dim: nat, n: int)
    requires dim % 2 == 0
    ensures Sq(Offset(dim, dim - 1 - n)) == Sq(Offset(dim, n))
  {
    assert Offset(dim, dim - 1 - n) == -Offset(dim, n);
    SqNeg(Offset(dim, n));
  }

  /** Reflecting any one axis through the cube's centre, `v -> dim - 1 - v`, keeps a voxel in the ball. */
  lemma ReflectionSymmetric(dim: nat, v: Voxel)
    requires dim % 2 == 0 && InBall(dim, v)
    ensures InBall(dim, Voxel(dim - 1 - v.x, v.y, v.z))
    ensures InBall(dim, Voxel(v.x, dim - 1 - v.y, v.z))
    ensures InBall(dim, Voxel(v.x, v.y, dim - 1 - v.z))
  {
    ReflectedTerm(dim, v.x);
    ReflectedTerm(dim, v.y);
    ReflectedTerm(dim, v.z);
  }

  /** Swapping any two axes keeps a voxel in the ball; the swaps generate every permutation. */
  lemma PermutationSymmetric(dim: nat, v: Voxel)
    requires InBall(dim, v)
    ensures InBall(dim, Voxel(v.y, v.x, v.z))
    ensures InBall(dim, Voxel(v.z, v.y, v.x))
    ensures InBall(dim, Voxel(v.x, v.z, v.y))
  {
  }

  lemma OddSquarePositive(n: int)
    requires n % 2 == 1
    ensures Sq(n) >= 1
  {
    if n < 0 {
      assert Sq(n) == Sq(-n) == Sq(-n - 1) + 2 * -n - 1;
    }
  }

  /** A coordinate of 0 or `dim - 1` alone contributes the whole squared doubled radius. */
  lemma FaceTerm(dim: nat, n: int)
    requires dim % 2 == 0
    ensures n == 0 || n == dim - 1 ==> Sq(Offset(dim, n)) == Sq(DoubledRadius(dim))
  {
    assert Offset(dim, 0) == -DoubledRadius(dim);
    assert Offset(dim, dim - 1) == DoubledRadius(dim);
    SqNeg(DoubledRadius(dim));
  }

  /** Three terms, each at least 1, that sum to at most `total` are each below it. */
  lemma EachTermBelowTotal(a: int, b: int, c: int, total: int)
    requires a >= 1 && b >= 1 && c >= 1 && a + b + c <= total
    ensures a < total && b < total && c < total
  {
  }

  /** No voxel of the ball lies on a face of the cube: a coordinate of 0 or `dim - 1` alone uses up the radius. */
  lemma NoVoxelOnCubeFace(dim: nat, v: Voxel)
    requires dim % 2 == 0 && InBall(dim, v)
    ensures 0 < v.x < dim - 1 && 0 < v.y < dim - 1 && 0 < v.z < dim - 1
  {
    var a, b, c := Offset(dim, v.x), Offset(dim, v.y), Offset(dim, v.z);
    OddSquarePositive(a);
    OddSquarePositive(b);
    OddSquarePositive(c);
    EachTermBelowTotal(Sq(a), Sq(b), Sq(c), Sq(DoubledRadius(dim)));
    FaceTerm(dim, v.x);
    FaceTerm(dim, v.y);
    FaceTerm(dim, v.z);
  }

  /** The two voxels around the centre of the planet cube are in the ball. */
  lemma CentreVoxelsIncluded()
    ensures InBall(PlanetDim, Voxel(15, 15, 15)) && InBall(PlanetDim, Voxel(16, 16, 16))
  {
    SqIsProduct(Offset(PlanetDim, 15));
    SqIsProduct(Offset(PlanetDim, 16));
    SqIsProduct(DoubledRadius(PlanetDim));
  }

  /** In a 4-edged cube a coordinate's term is 1 on the two inner layers and 9 on the faces. */
  lemma FourCubeTerm(n: int)
    requires 0 <= n < 4
    ensures Sq(Offset(4, n)) == if n == 1 || n == 2 then 1 else 9
  {
    SqIsProduct(Offset(4, n));
  }

  /** In a 4-edged cube the ball is exactly the 2x2x2 block of inner voxels. */
  lemma FourCubeBall(v: Voxel)
    requires InCube(4, v)
    ensures InSphere(4, v) <==> 1 <= v.x <= 2 && 1 <= v.y <= 2 && 1 <= v.z <= 2
  {
    FourCubeTerm(v.x);
    FourCubeTerm(v.y);
    FourCubeTerm(v.z);
    SqIsProduct(DoubledRadius(4));
  }
}
