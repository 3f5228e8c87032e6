/**
 Oriented bounding boxes (pxr/base/gf/bbox3d.cpp): a range in the space of an affine matrix. A box stands
 for the world points its matrix takes the range to; combining two boxes must not lose any of them.
*/
module BBox3d {
  import opened AffineSpace
  import opened Basics

  const PRECISION_LIMIT: real := 0.0000000000001

  datatype Box = Box(range: Range, matrix: Matrix, inverse: Matrix, isDegenerate: bool, hasZeroAreaPrimitives: bool)

  // ---------- what a box stands for ----------

  /** w is a point of the box in the world. */
  ghost predicate InWorld(b: Box, w: Vec3) {
    exists p :: b.range.Contains(p) && Transform(p, b.matrix) == w
  }

  /** Box r covers box b. */
  ghost predicate Covers(r: Box, b: Box) {
    forall w :: InWorld(b, w) ==> InWorld(r, w)
  }

  /** The world points of a box whose matrix has been multiplied by m. */
  lemma InWorldMoved(b: Box, b': Box, m: Matrix, u: Vec3)
    requires b'.range == b.range && b'.matrix == Multiply(b.matrix, m)
    ensures InWorld(b', u) <==> exists w :: InWorld(b, w) && u == Transform(w, m)
  {
    hide Multiply, Transform;
    if InWorld(b', u) {
      var p :| b'.range.Contains(p) && Transform(p, b'.matrix) == u;
      TransformMultiply(p, b.matrix, m);
      assert InWorld(b, Transform(p, b.matrix));
    }
    forall w | InWorld(b, w) && u == Transform(w, m)
      ensures InWorld(b', u)
    {
      var p :| b.range.Contains(p) && Transform(p, b.matrix) == w;
      TransformMultiply(p, b.matrix, m);
      assert b'.range.Contains(p);
    }
  }

  predicate Singular(m: Matrix) {
    Abs(Det(m)) <= PRECISION_LIMIT
  }

  /** What _SetMatrices establishes. */
  predicate Valid(b: Box) {
    && b.isDegenerate == Singular(b.matrix)
    && (b.isDegenerate ==> b.inverse == IDENTITY)
    && (!b.isDegenerate ==> b.inverse == Inverse(b.matrix))
  }

  function OfRange(r: Range): (b: Box)
    ensures Valid(b)
  {
    IdentityRegular();
    Box(r, IDENTITY, IDENTITY, false, false)
  }

  lemma IdentityRegular()
    ensures !Singular(IDENTITY) && Det(IDENTITY) != 0.0 && Inverse(IDENTITY) == IDENTITY
  {
    hide Det, Inverse;
    IdentityDet();
    IdentityInverse();
  }

  lemma IdentityInverse()
    requires Det(IDENTITY) != 0.0
    ensures Inverse(IDENTITY) == IDENTITY
  {
    hide Det, Inverse, Direction;
    var inv := Inverse(IDENTITY);
    InverseRows(IDENTITY);
    IdentityIs(inv.r0);
    IdentityIs(inv.r1);
    IdentityIs(inv.r2);
    InverseTranslation(IDENTITY);
    IdentityIs(inv.t);
  }

  lemma IdentityDet()
    ensures Det(IDENTITY) == 1.0
  {
    UnitDet(IDENTITY.r0.x, IDENTITY.r0.y, IDENTITY.r0.z, IDENTITY.r1.x, IDENTITY.r1.y, IDENTITY.r1.z,
            IDENTITY.r2.x, IDENTITY.r2.y, IDENTITY.r2.z);
  }

  lemma UnitDet(a: real, b: real, c: real, d: real, e: real, f: real, g: real, h: real, i: real)
    requires a == e == i == 1.0 && b == c == d == f == g == h == 0.0
    ensures a * (e * i - f * h) - b * (d * i - f * g) + c * (d * h - e * g) == 1.0
  {
  }

  lemma IdentityIs(p: Vec3)
    ensures Direction(p, IDENTITY) == p
  {
    UnitDot(p, Column(IDENTITY, 0));
    UnitDot(p, Column(IDENTITY, 1));
    UnitDot(p, Column(IDENTITY, 2));
  }

  lemma UnitDot(p: Vec3, c: Vec3)
    ensures c == Vec3(1.0, 0.0, 0.0) ==> Dot(p, c) == p.x
    ensures c == Vec3(0.0, 1.0, 0.0) ==> Dot(p, c) == p.y
    ensures c == Vec3(0.0, 0.0, 1.0) ==> Dot(p, c) == p.z
  {
  }

  // ---------- the aligned range ----------

  function Product(x: real, m: real): real {
    x * m
  }

  /** The least and the greatest of x * m for lo <= x <= hi. */
  function Low(lo: real, hi: real, m: real): real {
    if Product(lo, m) < Product(hi, m) then Product(lo, m) else Product(hi, m)
  }

  function High(lo: real, hi: real, m: real): real {
    if Product(lo, m) < Product(hi, m) then Product(hi, m) else Product(lo, m)
  }

  /** The j-th bounds after the first n rows have been added to the translation. */
  function LowSum(r: Range, m: Matrix, j: nat, n: nat): real
    requires j < 3 && n <= 3
  {
    if n == 0 then m.t.At(j)
    else LowSum(r, m, j, n - 1) + Low(r.min.At(n - 1), r.max.At(n - 1), m.Row(n - 1).At(j))
  }

  function HighSum(r: Range, m: Matrix, j: nat, n: nat): real
    requires j < 3 && n <= 3
  {
    if n == 0 then m.t.At(j)
    else HighSum(r, m, j, n - 1) + High(r.min.At(n - 1), r.max.At(n - 1), m.Row(n - 1).At(j))
  }

  function AlignedRange(r: Range, m: Matrix): Range {
    if r.IsEmpty() then r
    else Range(Vec3(LowSum(r, m, 0, 3), LowSum(r, m, 1, 3), LowSum(r, m, 2, 3)),
               Vec3(HighSum(r, m, 0, 3), HighSum(r, m, 1, 3), HighSum(r, m, 2, 3)))
  }

  lemma LowHigh(lo: real, hi: real, m: real, x: real)
    requires lo <= x <= hi
    ensures Low(lo, hi, m) <= Product(x, m) <= High(lo, hi, m)
  {
    Monotone(lo, x, m);
    Monotone(x, hi, m);
  }

  lemma Monotone(x: real, y: real, m: real)
    requires x <= y
    ensures m >= 0.0 ==> x * m <= y * m
    ensures m <= 0.0 ==> y * m <= x * m
  {
    assert (y - x) * m == y * m - x * m;
  }

  /** The j-th coordinate of a transformed point, as the sums are built up. */
  lemma Coordinate(p: Vec3, m: Matrix, j: nat)
    requires j < 3
    ensures Transform(p, m).At(j)
         == m.t.At(j) + Product(p.x, m.r0.At(j)) + Product(p.y, m.r1.At(j)) + Product(p.z, m.r2.At(j))
  {
  }

  lemma AxisBounds(r: Range, m: Matrix, j: nat, p: Vec3)
    requires j < 3 && r.Contains(p)
    ensures LowSum(r, m, j, 3) <= Transform(p, m).At(j) <= HighSum(r, m, j, 3)
  {
    Coordinate(p, m, j);
    hide Transform, Low, High, Product, LowSum, HighSum;
    LowHigh(r.min.x, r.max.x, m.r0.At(j), p.x);
    LowHigh(r.min.y, r.max.y, m.r1.At(j), p.y);
    LowHigh(r.min.z, r.max.z, m.r2.At(j), p.z);
    SumUnfolds(r, m, j);
  }

  lemma SumUnfolds(r: Range, m: Matrix, j: nat)
    requires j < 3
    ensures LowSum(r, m, j, 3) == m.t.At(j) + Low(r.min.x, r.max.x, m.r0.At(j)) + Low(r.min.y, r.max.y, m.r1.At(j))
                                  + Low(r.min.z, r.max.z, m.r2.At(j))
    ensures HighSum(r, m, j, 3) == m.t.At(j) + High(r.min.x, r.max.x, m.r0.At(j)) + High(r.min.y, r.max.y, m.r1.At(j))
                                   + High(r.min.z, r.max.z, m.r2.At(j))
  {
    hide Low, High, Product;
    assert LowSum(r, m, j, 1) == m.t.At(j) + Low(r.min.x, r.max.x, m.r0.At(j));
    assert LowSum(r, m, j, 2) == LowSum(r, m, j, 1) + Low(r.min.y, r.max.y, m.r1.At(j));
    assert HighSum(r, m, j, 1) == m.t.At(j) + High(r.min.x, r.max.x, m.r0.At(j));
    assert HighSum(r, m, j, 2) == HighSum(r, m, j, 1) + High(r.min.y, r.max.y, m.r1.At(j));
  }

  /** Every transformed point of the range is in the aligned range. */
  lemma AlignedContains(r: Range, m: Matrix, p: Vec3)
    requires r.Contains(p)
    ensures AlignedRange(r, m).Contains(Transform(p, m))
  {
    hide Transform, LowSum, HighSum;
    AxisBounds(r, m, 0, p);
    AxisBounds(r, m, 1, p);
    AxisBounds(r, m, 2, p);
  }

  /** The corner at which the j-th coordinate is least. */
  function LowCorner(r: Range, m: Matrix, j: nat): Vec3
    requires j < 3
  {
    Vec3(if Product(r.min.x, m.r0.At(j)) < Product(r.max.x, m.r0.At(j)) then r.min.x else r.max.x,
         if Product(r.min.y, m.r1.At(j)) < Product(r.max.y, m.r1.At(j)) then r.min.y else r.max.y,
         if Product(r.min.z, m.r2.At(j)) < Product(r.max.z, m.r2.At(j)) then r.min.z else r.max.z)
  }

  function HighCorner(r: Range, m: Matrix, j: nat): Vec3
    requires j < 3
  {
    Vec3(if Product(r.min.x, m.r0.At(j)) < Product(r.max.x, m.r0.At(j)) then r.max.x else r.min.x,
         if Product(r.min.y, m.r1.At(j)) < Product(r.max.y, m.r1.At(j)) then r.max.y else r.min.y,
         if Product(r.min.z, m.r2.At(j)) < Product(r.max.z, m.r2.At(j)) then r.max.z else r.min.z)
  }

  lemma CornerAttains(r: Range, m: Matrix, j: nat)
    requires j < 3 && !r.IsEmpty()
    ensures r.Contains(LowCorner(r, m, j)) && Transform(LowCorner(r, m, j), m).At(j) == LowSum(r, m, j, 3)
    ensures r.Contains(HighCorner(r, m, j)) && Transform(HighCorner(r, m, j), m).At(j) == HighSum(r, m, j, 3)
  {
    hide Transform, Product, LowSum, HighSum;
    Coordinate(LowCorner(r, m, j), m, j);
    Coordinate(HighCorner(r, m, j), m, j);
    SumUnfolds(r, m, j);
  }

  /** Any range that contains the image of a non-empty range contains the aligned range. */
  lemma AlignedIsLeast(r: Range, m: Matrix, other: Range)
    requires !r.IsEmpty()
    requires forall p :: r.Contains(p) ==> other.Contains(Transform(p, m))
    ensures other.ContainsRange(AlignedRange(r, m))
  {
    CornerAttains(r, m, 0);
    CornerAttains(r, m, 1);
    CornerAttains(r, m, 2);
    hide LowCorner, HighCorner, Transform, LowSum, HighSum;
    assert other.Contains(Transform(LowCorner(r, m, 0), m)) && other.Contains(Transform(HighCorner(r, m, 0), m));
    assert other.Contains(Transform(LowCorner(r, m, 1), m)) && other.Contains(Transform(HighCorner(r, m, 1), m));
    assert other.Contains(Transform(LowCorner(r, m, 2), m)) && other.Contains(Transform(HighCorner(r, m, 2), m));
    AxisOrder(r, m, 0);
    AxisOrder(r, m, 1);
    AxisOrder(r, m, 2);
  }

  lemma AxisOrder(r: Range, m: Matrix, j: nat)
    requires j < 3 && !r.IsEmpty()
    ensures LowSum(r, m, j, 3) <= HighSum(r, m, j, 3)
  {
    AxisBounds(r, m, j, r.min);
  }

  // ---------- combining boxes ----------

  function Volume(b: Box): real {
    if b.range.IsEmpty() then 0.0
    else
      Abs(Det(b.matrix) * (b.range.max.x - b.range.min.x) * (b.range.max.y - b.range.min.y)
          * (b.range.max.z - b.range.min.z))
  }

  /** b1 extended by the projection of b2 into b1's space. */
  function CombineInOrder(b1: Box, b2: Box): Box {
    b1.(range := b1.range.UnionWith(AlignedRange(b2.range, Multiply(b2.matrix, b1.inverse))))
  }

  function Tolerance(v1: real, v2: real): real {
    Max(0.0000000001, 0.000001 * Abs(Max(v1, v2)))
  }

  function Smaller(r1: Box, r2: Box): Box {
    var v1, v2 := Volume(r1), Volume(r2);
    if Abs(v1 - v2) <= Tolerance(v1, v2) then r1 else if v1 < v2 then r1 else r2
  }

  function Combine(b1: Box, b2: Box): Box {
    var result :=
      if b1.range.IsEmpty() then b2
      else if b2.range.IsEmpty() then b1
      else if b1.isDegenerate then
        if b2.isDegenerate then
          OfRange(AlignedRange(b1.range, b1.matrix).UnionWith(AlignedRange(b2.range, b2.matrix)))
        else CombineInOrder(b2, b1)
      else if b2.isDegenerate then CombineInOrder(b1, b2)
      else Smaller(CombineInOrder(b1, b2), CombineInOrder(b2, b1));
    result.(hasZeroAreaPrimitives := b1.hasZeroAreaPrimitives || b2.hasZeroAreaPrimitives)
  }

  lemma UnionContains(a: Range, b: Range, p: Vec3)
    requires a.Contains(p) || b.Contains(p)
    ensures a.UnionWith(b).Contains(p)
  {
  }

  /** Projecting b2 into the space of a regular box loses neither box. */
  lemma CombineInOrderCovers(b1: Box, b2: Box)
    requires Valid(b1) && !b1.isDegenerate
    ensures Covers(CombineInOrder(b1, b2), b1) && Covers(CombineInOrder(b1, b2), b2)
  {
    hide Det, Transform, AlignedRange, Inverse, Multiply;
    var r := CombineInOrder(b1, b2);
    var proj := AlignedRange(b2.range, Multiply(b2.matrix, b1.inverse));
    forall w | InWorld(b1, w)
      ensures InWorld(r, w)
    {
      var p :| b1.range.Contains(p) && Transform(p, b1.matrix) == w;
      UnionContains(b1.range, proj, p);
    }
    forall w | InWorld(b2, w)
      ensures InWorld(r, w)
    {
      var p :| b2.range.Contains(p) && Transform(p, b2.matrix) == w;
      var q := Transform(w, b1.inverse);
      TransformMultiply(p, b2.matrix, b1.inverse);
      AlignedContains(b2.range, Multiply(b2.matrix, b1.inverse), p);
      UnionContains(b1.range, proj, q);
      InverseUndoes(w, b1.matrix);
    }
  }

  lemma AlignedCovers(b: Box, r: Range)
    requires forall p :: AlignedRange(b.range, b.matrix).Contains(p) ==> r.Contains(p)
    ensures Covers(OfRange(r), b)
  {
    hide Transform, AlignedRange, Valid;
    forall w | InWorld(b, w)
      ensures InWorld(OfRange(r), w)
    {
      var p :| b.range.Contains(p) && Transform(p, b.matrix) == w;
      AlignedContains(b.range, b.matrix, p);
      IdentityTransform(w);
    }
  }

  lemma IdentityTransform(p: Vec3)
    ensures Transform(p, IDENTITY) == p
  {
    IdentityIs(p);
  }

  /** Combine loses no world point of either box, in any of its branches, and keeps the boxes valid. */
  lemma CombineCovers(b1: Box, b2: Box)
    requires Valid(b1) && Valid(b2)
    ensures Valid(Combine(b1, b2))
    ensures Covers(Combine(b1, b2), b1) && Covers(Combine(b1, b2), b2)
  {
    hide Singular, Inverse, AlignedRange, CombineInOrder, Volume, Tolerance;
    var r := Combine(b1, b2);
    CoversFlagged(b1, b1.hasZeroAreaPrimitives || b2.hasZeroAreaPrimitives);
    CoversFlagged(b2, b1.hasZeroAreaPrimitives || b2.hasZeroAreaPrimitives);
    if b1.range.IsEmpty() {
      EmptyCovered(b1, r);
    } else if b2.range.IsEmpty() {
      EmptyCovered(b2, r);
    } else if b1.isDegenerate && b2.isDegenerate {
      var a1, a2 := AlignedRange(b1.range, b1.matrix), AlignedRange(b2.range, b2.matrix);
      AlignedCovers(b1, a1.UnionWith(a2));
      AlignedCovers(b2, a1.UnionWith(a2));
      CoversFlagged(OfRange(a1.UnionWith(a2)), r.hasZeroAreaPrimitives);
    } else {
      if !b1.isDegenerate {
        CombineInOrderCovers(b1, b2);
        CombineInOrderValid(b1, b2);
        CoversFlagged(CombineInOrder(b1, b2), r.hasZeroAreaPrimitives);
      }
      if !b2.isDegenerate {
        CombineInOrderCovers(b2, b1);
        CombineInOrderValid(b2, b1);
        CoversFlagged(CombineInOrder(b2, b1), r.hasZeroAreaPrimitives);
      }
    }
  }

  lemma CombineInOrderValid(b1: Box, b2: Box)
    requires Valid(b1)
    ensures Valid(CombineInOrder(b1, b2))
  {
    hide Inverse, Singular;
  }

  lemma CoversFlagged(b: Box, flag: bool)
    ensures Covers(b.(hasZeroAreaPrimitives := flag), b) && (Valid(b) ==> Valid(b.(hasZeroAreaPrimitives := flag)))
    ensures forall c :: Covers(b, c) ==> Covers(b.(hasZeroAreaPrimitives := flag), c)
  {
    hide Inverse, Singular, Transform;
    var f := b.(hasZeroAreaPrimitives := flag);
    forall w | InWorld(b, w)
      ensures InWorld(f, w)
    {
      var p :| b.range.Contains(p) && Transform(p, b.matrix) == w;
      assert f.range.Contains(p) && Transform(p, f.matrix) == w;
    }
  }

  lemma EmptyCovered(b: Box, r: Box)
    requires b.range.IsEmpty()
    ensures Covers(r, b)
  {
  }

  // ---------- folding over a list ----------

  /** Combine applied to a list, first to last, from the empty box of the default constructor. */
  function CombineAll(bs: seq<Box>): Box {
    if bs == [] then OfRange(EMPTY_RANGE) else Combine(CombineAll(bs[..|bs| - 1]), bs[|bs| - 1])
  }

  lemma {:induction false} CombineAllCovers(bs: seq<Box>)
    requires forall b :: b in bs ==> Valid(b)
    ensures Valid(CombineAll(bs))
    ensures forall b :: b in bs ==> Covers(CombineAll(bs), b)
    ensures (forall b :: b in bs ==> b.range.IsEmpty()) ==> CombineAll(bs).range.IsEmpty()
  {
    hide Valid, Covers, Combine;
    if bs != [] {
      if CombineAll(bs[..|bs| - 1]).range.IsEmpty() {
        CombineOfEmpty(CombineAll(bs[..|bs| - 1]), bs[|bs| - 1]);
      }
      var init, last := bs[..|bs| - 1], bs[|bs| - 1];
      CombineAllCovers(init);
      assert last in bs;
      CombineCovers(CombineAll(init), last);
      forall b | b in bs
        ensures Covers(CombineAll(bs), b)
      {
        if b in init {
          CoversTransitive(CombineAll(bs), CombineAll(init), b);
        } else {
          assert b == last;
        }
      }
    }
  }

  lemma CombineOfEmpty(b1: Box, b2: Box)
    requires b1.range.IsEmpty()
    ensures Combine(b1, b2).range == b2.range
  {
  }

  lemma CoversTransitive(a: Box, b: Box, c: Box)
    requires Covers(a, b) && Covers(b, c)
    ensures Covers(a, c)
  {
    hide InWorld;
  }

  // ---------- the aligned range of a combination ----------

  /** A box that covers another has the larger aligned range. */
  lemma CoveringAligned(r: Box, b: Box)
    requires Covers(r, b) && !b.range.IsEmpty()
    ensures AlignedRange(r.range, r.matrix).ContainsRange(AlignedRange(b.range, b.matrix))
  {
    hide Transform, AlignedRange;
    forall p | b.range.Contains(p)
      ensures AlignedRange(r.range, r.matrix).Contains(Transform(p, b.matrix))
    {
      var w := Transform(p, b.matrix);
      assert InWorld(b, w);
      assert InWorld(r, w);
      var q :| r.range.Contains(q) && Transform(q, r.matrix) == w;
      AlignedContains(r.range, r.matrix, q);
    }
    AlignedIsLeast(b.range, b.matrix, AlignedRange(r.range, r.matrix));
  }

  lemma CombineAligned(b1: Box, b2: Box)
    requires Valid(b1) && Valid(b2)
    ensures var a := AlignedRange(Combine(b1, b2).range, Combine(b1, b2).matrix);
            && (!b1.range.IsEmpty() ==> a.ContainsRange(AlignedRange(b1.range, b1.matrix)))
            && (!b2.range.IsEmpty() ==> a.ContainsRange(AlignedRange(b2.range, b2.matrix)))
  {
    hide Valid, Covers, Combine, AlignedRange;
    CombineCovers(b1, b2);
    if !b1.range.IsEmpty() {
      CoveringAligned(Combine(b1, b2), b1);
    }
    if !b2.range.IsEmpty() {
      CoveringAligned(Combine(b1, b2), b2);
    }
  }
}
