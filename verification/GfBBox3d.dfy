/**
 The box object of pxr/base/gf/bbox3d.cpp. Its fields form a Box; its methods are the operations on boxes.
*/
module GfBBox3d {
  import opened AffineSpace
  import opened Basics
  import BBox3d
  import BBoxLeast
  import BBoxVolume

  /** What stands for the inverse of a singular matrix: a scaling by the greatest float. */
  const HUGE: Matrix :=
    Matrix(Vec3(FLT_MAX, 0.0, 0.0), Vec3(0.0, FLT_MAX, 0.0), Vec3(0.0, 0.0, FLT_MAX), Vec3(0.0, 0.0, 0.0))

  class GfBBox3d {
    var box: Range
    var matrix: Matrix
    var inverse: Matrix
    var isDegenerate: bool
    var hasZeroAreaPrimitives: bool

    function Value(): BBox3d.Box
      reads this
    {
      BBox3d.Box(box, matrix, inverse, isDegenerate, hasZeroAreaPrimitives)
    }

    constructor OfRange(box: Range)
      ensures Value() == BBox3d.OfRange(box) && BBox3d.Valid(Value())
    {
      hide BBox3d.Valid;
      this.box, matrix, inverse := box, IDENTITY, IDENTITY;
      isDegenerate, hasZeroAreaPrimitives := false, false;
    }

    constructor (box: Range, matrix: Matrix)
      ensures BBox3d.Valid(Value())
      ensures Value().range == box && Value().matrix == matrix && !Value().hasZeroAreaPrimitives
    {
      this.box := box;
      hasZeroAreaPrimitives := false;
      new;
      SetMatrices(matrix);
    }

    /** The copy constructor. */
    constructor Copy(b: GfBBox3d)
      ensures Value() == b.Value()
    {
      box, matrix, inverse := b.box, b.matrix, b.inverse;
      isDegenerate, hasZeroAreaPrimitives := b.isDegenerate, b.hasZeroAreaPrimitives;
    }

    /**
     * GfMatrix4d::GetInverse, by the 4x4 cofactors: the determinant, and the inverse unless the matrix is singular
     * within eps. The last column of an affine matrix is constant, and so is that of its inverse.
     */
    static method GetInverse(m: Matrix, eps: real) returns (inv: Matrix, det: real)
      requires eps >= 0.0
      ensures det == Det(m) && (Abs(det) > eps ==> det != 0.0 && inv == Inverse(m))
      ensures Abs(det) <= eps ==> inv == HUGE
    {
      hide Abs, Inverse, Det, Adjugate, Direction;
      var z0, z1, z2, z3, last;
      z0, z1, z2, z3, last, det := Cofactors(m);
      if Abs(det) > eps {
        NotZero(det, eps);
        var rcp := 1.0 / det;
        inv := Matrix(Scaled(z0, rcp), Scaled(z1, rcp), Scaled(z2, rcp), Scaled(z3, rcp));
        CofactorInverse(m, z0, z1, z2, z3);
        assert last.0 * rcp == 0.0 && last.1 * rcp == 0.0 && last.2 * rcp == 0.0 && last.3 * rcp == 1.0;
      } else {
        inv := HUGE;
      }
    }

    /** The cofactors, and the determinant by its first column: the straight-line part of GetInverse. */
    static method Cofactors(m: Matrix)
      returns (z0: Vec3, z1: Vec3, z2: Vec3, z3: Vec3, last: (real, real, real, real), det: real)
      ensures det == Det(m) && last == (0.0, 0.0, 0.0, det)
      ensures z0 == Adjugate(m).r0 && z1 == Adjugate(m).r1 && z2 == Adjugate(m).r2
      ensures z3 == Scaled(Direction(m.t, Adjugate(m)), -1.0)
    {
      hide Direction, Det, Scaled;
      var z30, z31, z32, z33;
      z2, z3, z32, z33 := LastColumns(m);
      z0, z1, z30, z31 := FirstColumns(m);
      assert m.t.x * z30 == 0.0;
      det := m.t.x * z30 + m.r2.x * z0.z + m.r1.x * z0.y + m.r0.x * z0.x;
      AffineDet(m, z33, det);
      last := (z30, z31, z32, z33);
    }

    /** The cofactors of the last two columns, by the 2x2 determinants of the first two. */
    static method LastColumns(m: Matrix) returns (z2: Vec3, z3: Vec3, z32: real, z33: real)
      ensures z2 == Adjugate(m).r2 && z3 == Scaled(Direction(m.t, Adjugate(m)), -1.0) && z32 == 0.0
      ensures z33 == m.r0.z * (m.r1.x * m.r2.y - m.r2.x * m.r1.y) - m.r1.z * (m.r0.x * m.r2.y - m.r2.x * m.r0.y)
                     + m.r2.z * (m.r0.x * m.r1.y - m.r1.x * m.r0.y)
    {
      hide Direction, Det, Scaled, Adjugate;
      var x00, x01, x02, x03 := m.r0.x, m.r0.y, m.r0.z, 0.0;
      var x10, x11, x12, x13 := m.r1.x, m.r1.y, m.r1.z, 0.0;
      var x20, x21, x22, x23 := m.r2.x, m.r2.y, m.r2.z, 0.0;
      var x30, x31, x32, x33 := m.t.x, m.t.y, m.t.z, 1.0;
      var y01, y02, y03 := x00 * x11 - x10 * x01, x00 * x21 - x20 * x01, x00 * x31 - x30 * x01;
      var y12, y13, y23 := x10 * x21 - x20 * x11, x10 * x31 - x30 * x11, x20 * x31 - x30 * x21;
      var z23 := x12 * y03 - x32 * y01 - x02 * y13;
      var z13, z03 := x02 * y23 - x22 * y03 + x32 * y02, x22 * y13 - x32 * y12 - x12 * y23;
      var z22 := x03 * y13 - x13 * y03 + x33 * y01;
      var z12, z02 := x23 * y03 - x33 * y02 - x03 * y23, x13 * y23 - x23 * y13 + x33 * y12;
      z33, z32 := x02 * y12 - x12 * y02 + x22 * y01, x13 * y02 - x23 * y01 - x03 * y12;
      assert z32 == 0.0 && z22 == x00 * x11 - x10 * x01 && z12 == x20 * x01 - x00 * x21 && z02 == x10 * x21 - x20 * x11;
      AdjugateLast(m, z02, z12, z22);
      TranslationCofactors(m, z03, z13, z23);
      z2, z3 := Vec3(z02, z12, z22), Vec3(z03, z13, z23);
    }

    /** The cofactors of the first two columns, by the 2x2 determinants of the last two. */
    static method FirstColumns(m: Matrix) returns (z0: Vec3, z1: Vec3, z30: real, z31: real)
      ensures z0 == Adjugate(m).r0 && z1 == Adjugate(m).r1 && z30 == z31 == 0.0
    {
      hide Adjugate;
      var x00, x01, x02, x03 := m.r0.x, m.r0.y, m.r0.z, 0.0;
      var x10, x11, x12, x13 := m.r1.x, m.r1.y, m.r1.z, 0.0;
      var x20, x21, x22, x23 := m.r2.x, m.r2.y, m.r2.z, 0.0;
      var x30, x31, x32, x33 := m.t.x, m.t.y, m.t.z, 1.0;
      var y01, y02, y03 := x02 * x13 - x12 * x03, x02 * x23 - x22 * x03, x02 * x33 - x32 * x03;
      var y12, y13, y23 := x12 * x23 - x22 * x13, x12 * x33 - x32 * x13, x22 * x33 - x32 * x23;
      assert y01 == y02 == y12 == 0.0 && y03 == x02 && y13 == x12 && y23 == x22;
      var z20 := x01 * y13 - x11 * y03 + x31 * y01;
      var z10, z00 := x21 * y03 - x31 * y02 - x01 * y23, x11 * y23 - x21 * y13 + x31 * y12;
      var z21 := x10 * y03 - x30 * y01 - x00 * y13;
      var z11, z01 := x00 * y23 - x20 * y03 + x30 * y02, x20 * y13 - x30 * y12 - x10 * y23;
      z30, z31 := x11 * y02 - x21 * y01 - x01 * y12, x00 * y12 - x10 * y02 + x20 * y01;
      assert z30 == 0.0 && z31 == 0.0;
      assert z20 == x01 * x12 - x11 * x02 && z10 == x21 * x02 - x01 * x22 && z00 == x11 * x22 - x21 * x12;
      assert z21 == x10 * x02 - x00 * x12 && z11 == x00 * x22 - x20 * x02 && z01 == x20 * x12 - x10 * x22;
      AdjugateColumns(m, z00, z10, z20, z01, z11, z21);
      z0, z1 := Vec3(z00, z10, z20), Vec3(z01, z11, z21);
    }

    /** Whatever the matrix, the box is left valid, with its range and flag as they were. */
    method SetMatrices(m: Matrix)
      modifies this
      ensures BBox3d.Valid(Value()) && matrix == m
      ensures isDegenerate <==> -0.0000000000001 <= Det(m) <= 0.0000000000001
      ensures !isDegenerate ==> Det(m) != 0.0 && inverse == Inverse(m)
      ensures box == old(box) && hasZeroAreaPrimitives == old(hasZeroAreaPrimitives)
    {
      hide Inverse, Det;
      isDegenerate := false;
      matrix := m;
      var inv, det := GetInverse(m, BBox3d.PRECISION_LIMIT);
      inverse := inv;
      if Abs(det) <= BBox3d.PRECISION_LIMIT {
        isDegenerate := true;
        inverse := IDENTITY;
      }
    }

    /** Transforming the box moves its world points, and gives it no others. */
    method Transform(m: Matrix)
      modifies this
      ensures BBox3d.Valid(Value()) && matrix == Multiply(old(matrix), m)
      ensures box == old(box) && hasZeroAreaPrimitives == old(hasZeroAreaPrimitives)
      ensures forall u :: BBox3d.InWorld(Value(), u) <==>
                exists w :: BBox3d.InWorld(old(Value()), w) && u == AffineSpace.Transform(w, m)
      ensures BBox3d.Volume(Value()) == Abs(Det(m)) * BBox3d.Volume(old(Value()))
    {
      hide Inverse, Det, Multiply, AffineSpace.Transform;
      ghost var before := Value();
      SetMatrices(Multiply(matrix, m));
      BBoxVolume.VolumeMoved(before, Value(), m);
      forall u
        ensures BBox3d.InWorld(Value(), u) <==>
                  exists w :: BBox3d.InWorld(before, w) && u == AffineSpace.Transform(w, m)
      {
        BBox3d.InWorldMoved(before, Value(), m, u);
      }
    }

    method GetVolume() returns (v: real)
      ensures v == BBox3d.Volume(Value())
    {
      if box.IsEmpty() {
        return 0.0;
      }
      var size := Vec3(box.max.x - box.min.x, box.max.y - box.min.y, box.max.z - box.min.z);
      v := Abs(Det(matrix) * size.x * size.y * size.z);
    }

    /** Arvo's method: the bounds start at the translation and grow by one product of each row. */
    method ComputeAlignedRange() returns (r: Range)
      ensures r == BBox3d.AlignedRange(box, matrix)
    {
      if box.IsEmpty() {
        return box;
      }
      var alignedMin := new real[3](i requires 0 <= i < 3 reads this => matrix.t.At(i));
      var alignedMax := new real[3](i requires 0 <= i < 3 reads this => matrix.t.At(i));
      SumStarts(box, matrix);
      hide BBox3d.Low, BBox3d.High, BBox3d.LowSum, BBox3d.HighSum, Vec3.At, Matrix.Row;
      for j := 0 to 3
        invariant forall k :: 0 <= k < 3 ==> alignedMin[k] == BBox3d.LowSum(box, matrix, k, if k < j then 3 else 0)
        invariant forall k :: 0 <= k < 3 ==> alignedMax[k] == BBox3d.HighSum(box, matrix, k, if k < j then 3 else 0)
      {
        for i := 0 to 3
          invariant forall k :: 0 <= k < 3 ==>
            alignedMin[k] == BBox3d.LowSum(box, matrix, k, if k < j then 3 else if k == j then i else 0)
          invariant forall k :: 0 <= k < 3 ==>
            alignedMax[k] == BBox3d.HighSum(box, matrix, k, if k < j then 3 else if k == j then i else 0)
        {
          var a := box.min.At(i) * matrix.Row(i).At(j);
          var b := box.max.At(i) * matrix.Row(i).At(j);
          LowHighCases(box.min.At(i), box.max.At(i), matrix.Row(i).At(j), a, b);
          SumGrows(box, matrix, j, i);
          if a < b {
            alignedMin[j] := alignedMin[j] + a;
            alignedMax[j] := alignedMax[j] + b;
          } else {
            alignedMin[j] := alignedMin[j] + b;
            alignedMax[j] := alignedMax[j] + a;
          }
        }
      }
      return Range(Vec3(alignedMin[0], alignedMin[1], alignedMin[2]),
                   Vec3(alignedMax[0], alignedMax[1], alignedMax[2]));
    }

    /** The new box covers both, is valid, and is at least as big as either. */
    static method Combine(b1: GfBBox3d, b2: GfBBox3d) returns (result: GfBBox3d)
      requires BBox3d.Valid(b1.Value()) && BBox3d.Valid(b2.Value())
      ensures fresh(result) && result.Value() == BBox3d.Combine(b1.Value(), b2.Value())
      ensures BBox3d.Valid(result.Value())
      ensures BBox3d.Covers(result.Value(), b1.Value()) && BBox3d.Covers(result.Value(), b2.Value())
      ensures BBox3d.Volume(result.Value()) >= Max(BBox3d.Volume(b1.Value()), BBox3d.Volume(b2.Value()))
      ensures result.hasZeroAreaPrimitives == (b1.hasZeroAreaPrimitives || b2.hasZeroAreaPrimitives)
      ensures b1.box.IsEmpty() ==> result.box == b2.box && result.matrix == b2.matrix
      ensures b2.box.IsEmpty() && !b1.box.IsEmpty() ==> result.box == b1.box && result.matrix == b1.matrix
      ensures !b1.box.IsEmpty() && !b2.box.IsEmpty() ==>
                BBoxLeast.LeastFor(result.Value(), b1.Value(), b2.Value())
    {
      hide BBox3d.Valid, BBox3d.Covers, BBox3d.CombineInOrder, BBox3d.AlignedRange, BBox3d.Volume;
      hide BBoxLeast.LeastFor;
      ghost var c1, c2 := b1.Value(), b2.Value();
      if b1.box.IsEmpty() {
        result := new GfBBox3d.Copy(b2);
      } else if b2.box.IsEmpty() {
        result := new GfBBox3d.Copy(b1);
      } else if b1.isDegenerate {
        if b2.isDegenerate {
          var r1 := b1.ComputeAlignedRange();
          var r2 := b2.ComputeAlignedRange();
          result := new GfBBox3d.OfRange(r1.UnionWith(r2));
        } else {
          result := CombineInOrder(b2, b1);
        }
      } else if b2.isDegenerate {
        result := CombineInOrder(b1, b2);
      } else {
        var result1 := CombineInOrder(b1, b2);
        var result2 := CombineInOrder(b2, b1);
        var v1 := result1.GetVolume();
        var v2 := result2.GetVolume();
        var tolerance := Max(0.0000000001, 0.000001 * Abs(Max(v1, v2)));
        result := if Abs(v1 - v2) <= tolerance then result1 else if v1 < v2 then result1 else result2;
      }
      result.hasZeroAreaPrimitives := b1.hasZeroAreaPrimitives || b2.hasZeroAreaPrimitives;
      assert result.Value() == BBox3d.Combine(c1, c2);
      CombinePromises(c1, c2);
    }

    /** The first box, extended in its own space by no more than it takes to hold the second. */
    static method CombineInOrder(b1: GfBBox3d, b2: GfBBox3d) returns (result: GfBBox3d)
      ensures fresh(result) && result.Value() == BBox3d.CombineInOrder(b1.Value(), b2.Value())
      ensures result.matrix == b1.matrix && result.inverse == b1.inverse
      ensures BBox3d.Valid(b1.Value()) && !b1.isDegenerate && !b1.box.IsEmpty() && !b2.box.IsEmpty() ==>
                BBoxLeast.LeastFor(result.Value(), b1.Value(), b2.Value())
    {
      hide Multiply, BBox3d.AlignedRange, BBox3d.Valid, BBox3d.CombineInOrder, BBoxLeast.LeastFor;
      if BBox3d.Valid(b1.Value()) && !b1.isDegenerate && !b1.box.IsEmpty() && !b2.box.IsEmpty() {
        BBoxLeast.CombineInOrderLeast(b1.Value(), b2.Value());
      }
      InOrder(b1.Value(), b2.Value());
      // b2 in the space of b1.
      var b2t := new GfBBox3d.OfRange(b2.box);
      b2t.matrix := Multiply(b2.matrix, b1.inverse);
      b2t.inverse := Multiply(b1.matrix, b2.inverse);
      var proj := b2t.ComputeAlignedRange();
      result := new GfBBox3d.Copy(b1);
      result.box := result.box.UnionWith(proj);
    }
  }

  lemma CombinePromises(b1: BBox3d.Box, b2: BBox3d.Box)
    requires BBox3d.Valid(b1) && BBox3d.Valid(b2)
    ensures (var r := BBox3d.Combine(b1, b2);
             && BBox3d.Valid(r) && BBox3d.Covers(r, b1) && BBox3d.Covers(r, b2)
             && BBox3d.Volume(r) >= Max(BBox3d.Volume(b1), BBox3d.Volume(b2))
             && r.hasZeroAreaPrimitives == (b1.hasZeroAreaPrimitives || b2.hasZeroAreaPrimitives)
             && (b1.range.IsEmpty() ==> r.range == b2.range && r.matrix == b2.matrix)
             && (b2.range.IsEmpty() && !b1.range.IsEmpty() ==> r.range == b1.range && r.matrix == b1.matrix)
             && (!b1.range.IsEmpty() && !b2.range.IsEmpty() ==> BBoxLeast.LeastFor(r, b1, b2)))
  {
    hide BBox3d.Valid, BBox3d.Covers, BBox3d.CombineInOrder, BBox3d.AlignedRange, BBox3d.Volume, BBox3d.Smaller,
         BBoxLeast.LeastFor;
    BBoxVolume.CombineGrows(b1, b2);
    BBox3d.CombineCovers(b1, b2);
    if !b1.range.IsEmpty() && !b2.range.IsEmpty() {
      BBoxLeast.CombineIsLeast(b1, b2);
    }
  }

  lemma InOrder(b1: BBox3d.Box, b2: BBox3d.Box)
    ensures (var n := Multiply(b2.matrix, b1.inverse);
             BBox3d.CombineInOrder(b1, b2) == b1.(range := b1.range.UnionWith(BBox3d.AlignedRange(b2.range, n))))
  {
  }

  lemma NotZero(x: real, eps: real)
    requires Abs(x) > eps >= 0.0
    ensures x != 0.0
  {
  }

  /** The cofactor expansion of an affine matrix along its first column, and that of its last entry. */
  lemma AffineDet(m: Matrix, z: real, det: real)
    requires z == m.r0.z * (m.r1.x * m.r2.y - m.r2.x * m.r1.y) - m.r1.z * (m.r0.x * m.r2.y - m.r2.x * m.r0.y)
                  + m.r2.z * (m.r0.x * m.r1.y - m.r1.x * m.r0.y)
    requires det == m.r2.x * (m.r0.y * m.r1.z - m.r1.y * m.r0.z) + m.r1.x * (m.r2.y * m.r0.z - m.r0.y * m.r2.z)
                    + m.r0.x * (m.r1.y * m.r2.z - m.r2.y * m.r1.z)
    ensures z == Det(m) && det == Det(m)
  {
  }

  /** The cofactors of the last column: what the linear ones make of the translation. */
  lemma TranslationCofactors(m: Matrix, u: real, v: real, w: real)
    requires u == m.r2.z * (m.r1.x * m.t.y - m.t.x * m.r1.y) - m.t.z * (m.r1.x * m.r2.y - m.r2.x * m.r1.y)
                  - m.r1.z * (m.r2.x * m.t.y - m.t.x * m.r2.y)
    requires v == m.r0.z * (m.r2.x * m.t.y - m.t.x * m.r2.y) - m.r2.z * (m.r0.x * m.t.y - m.t.x * m.r0.y)
                  + m.t.z * (m.r0.x * m.r2.y - m.r2.x * m.r0.y)
    requires w == m.r1.z * (m.r0.x * m.t.y - m.t.x * m.r0.y) - m.t.z * (m.r0.x * m.r1.y - m.r1.x * m.r0.y)
                  - m.r0.z * (m.r1.x * m.t.y - m.t.x * m.r1.y)
    ensures Vec3(u, v, w) == Scaled(Direction(m.t, Adjugate(m)), -1.0)
  {
  }

  lemma AdjugateLast(m: Matrix, z02: real, z12: real, z22: real)
    requires z02 == m.r1.x * m.r2.y - m.r2.x * m.r1.y && z12 == m.r2.x * m.r0.y - m.r0.x * m.r2.y
    requires z22 == m.r0.x * m.r1.y - m.r1.x * m.r0.y
    ensures Adjugate(m).r2 == Vec3(z02, z12, z22)
  {
  }

  lemma AdjugateColumns(m: Matrix, z00: real, z10: real, z20: real, z01: real, z11: real, z21: real)
    requires z00 == m.r1.y * m.r2.z - m.r2.y * m.r1.z && z10 == m.r2.y * m.r0.z - m.r0.y * m.r2.z
    requires z20 == m.r0.y * m.r1.z - m.r1.y * m.r0.z && z01 == m.r2.x * m.r1.z - m.r1.x * m.r2.z
    requires z11 == m.r0.x * m.r2.z - m.r2.x * m.r0.z && z21 == m.r1.x * m.r0.z - m.r0.x * m.r1.z
    ensures Adjugate(m).r0 == Vec3(z00, z10, z20) && Adjugate(m).r1 == Vec3(z01, z11, z21)
  {
  }

  /** The cofactors of an affine matrix, over the determinant, make its inverse. */
  lemma CofactorInverse(m: Matrix, z0: Vec3, z1: Vec3, z2: Vec3, z3: Vec3)
    requires z0 == Adjugate(m).r0 && z1 == Adjugate(m).r1 && z2 == Adjugate(m).r2
    requires z3 == Scaled(Direction(m.t, Adjugate(m)), -1.0) && Det(m) != 0.0
    ensures (var k := 1.0 / Det(m); Matrix(Scaled(z0, k), Scaled(z1, k), Scaled(z2, k), Scaled(z3, k)) == Inverse(m))
  {
    hide Det, Adjugate, Direction;
    var a, k := Adjugate(m), 1.0 / Det(m);
    var d := Direction(m.t, a);
    var lin := Matrix(Scaled(z0, k), Scaled(z1, k), Scaled(z2, k), Vec3(0.0, 0.0, 0.0));
    DirectionScaledRows(m.t, a, k, lin);
    assert Scaled(Scaled(d, -1.0), k) == Scaled(Scaled(d, k), -1.0);
  }

  lemma DirectionScaledRows(p: Vec3, a: Matrix, k: real, b: Matrix)
    requires b.r0 == Scaled(a.r0, k) && b.r1 == Scaled(a.r1, k) && b.r2 == Scaled(a.r2, k)
    ensures Direction(p, b) == Scaled(Direction(p, a), k)
  {
    hide Dot, Column;
    ScaledColumn(a, k, b, 0);
    ScaledColumn(a, k, b, 1);
    ScaledColumn(a, k, b, 2);
    DotScaledRight(p, Column(a, 0), k);
    DotScaledRight(p, Column(a, 1), k);
    DotScaledRight(p, Column(a, 2), k);
  }

  lemma ScaledColumn(a: Matrix, k: real, b: Matrix, j: nat)
    requires b.r0 == Scaled(a.r0, k) && b.r1 == Scaled(a.r1, k) && b.r2 == Scaled(a.r2, k) && j < 3
    ensures Column(b, j) == Scaled(Column(a, j), k)
  {
  }

  lemma DotScaledRight(p: Vec3, c: Vec3, k: real)
    ensures Dot(p, Scaled(c, k)) == Dot(p, c) * k
  {
    DotScaled(c, k, p);
  }

  lemma SumStarts(r: Range, m: Matrix)
    ensures forall k :: 0 <= k < 3 ==> BBox3d.LowSum(r, m, k, 0) == m.t.At(k) == BBox3d.HighSum(r, m, k, 0)
  {
  }

  lemma SumGrows(r: Range, m: Matrix, j: nat, i: nat)
    requires j < 3 && i < 3
    ensures BBox3d.LowSum(r, m, j, i + 1)
         == BBox3d.LowSum(r, m, j, i) + BBox3d.Low(r.min.At(i), r.max.At(i), m.Row(i).At(j))
    ensures BBox3d.HighSum(r, m, j, i + 1)
         == BBox3d.HighSum(r, m, j, i) + BBox3d.High(r.min.At(i), r.max.At(i), m.Row(i).At(j))
  {
  }

  lemma LowHighCases(lo: real, hi: real, m: real, a: real, b: real)
    requires a == lo * m && b == hi * m
    ensures BBox3d.Low(lo, hi, m) == (if a < b then a else b) && BBox3d.High(lo, hi, m) == (if a < b then b else a)
  {
  }
}
