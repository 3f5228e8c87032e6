/**
 Combining boxes adds nothing that it need not add (pxr/base/gf/bbox3d.cpp): in the space the result is given in, its
 range is the least one that holds both boxes.
*/
module BBoxLeast {
  import opened AffineSpace
  import opened Basics
  import opened BBox3d
  import opened BBoxVolume

  /** The range holds the world points of the box, seen through m. */
  ghost predicate Holds(range: Range, b: Box, m: Matrix) {
    forall w :: InWorld(b, w) ==> range.Contains(Transform(w, m))
  }

  /** In the space of r, exactly the ranges that hold both boxes contain the range of r. */
  ghost predicate LeastFor(r: Box, b1: Box, b2: Box) {
    forall range: Range ::
      range.ContainsRange(r.range) <==> Holds(range, b1, r.inverse) && Holds(range, b2, r.inverse)
  }

  /** The aligned range is empty for an empty range only. */
  lemma AlignedEmptyIff(r: Range, m: Matrix)
    ensures AlignedRange(r, m).IsEmpty() <==> r.IsEmpty()
  {
    if !r.IsEmpty() {
      hide LowSum, HighSum;
      AxisOrder(r, m, 0);
      AxisOrder(r, m, 1);
      AxisOrder(r, m, 2);
    }
  }

  /** A range holds a box seen through m exactly if it contains the aligned range of the box moved by m. */
  lemma HoldsIff(range: Range, b: Box, m: Matrix)
    requires !b.range.IsEmpty()
    ensures Holds(range, b, m) <==> range.ContainsRange(AlignedRange(b.range, Multiply(b.matrix, m)))
  {
    hide Transform, Multiply, AlignedRange;
    var n := Multiply(b.matrix, m);
    if Holds(range, b, m) {
      forall p | b.range.Contains(p)
        ensures range.Contains(Transform(p, n))
      {
        assert InWorld(b, Transform(p, b.matrix));
        TransformMultiply(p, b.matrix, m);
      }
      AlignedIsLeast(b.range, n, range);
    }
    if range.ContainsRange(AlignedRange(b.range, n)) {
      forall w | InWorld(b, w)
        ensures range.Contains(Transform(w, m))
      {
        var p :| b.range.Contains(p) && Transform(p, b.matrix) == w;
        TransformMultiply(p, b.matrix, m);
        AlignedContains(b.range, n, p);
      }
    }
  }

  /** Seen through its own inverse, a regular box is its range. */
  lemma HoldsOwn(range: Range, b: Box)
    requires Valid(b) && !b.isDegenerate && !b.range.IsEmpty()
    ensures Holds(range, b, b.inverse) <==> range.ContainsRange(b.range)
  {
    hide Transform, Inverse, Det;
    if Holds(range, b, b.inverse) {
      assert InWorld(b, Transform(b.range.min, b.matrix)) && InWorld(b, Transform(b.range.max, b.matrix));
      InverseBothWays(b.range.min, b.matrix);
      InverseBothWays(b.range.max, b.matrix);
    }
    if range.ContainsRange(b.range) {
      forall w | InWorld(b, w)
        ensures range.Contains(Transform(w, b.inverse))
      {
        var p :| b.range.Contains(p) && Transform(p, b.matrix) == w;
        InverseBothWays(p, b.matrix);
      }
    }
  }

  lemma UnionIsLeast(range: Range, a: Range, b: Range)
    requires !a.IsEmpty() && !b.IsEmpty()
    ensures range.ContainsRange(a.UnionWith(b)) <==> range.ContainsRange(a) && range.ContainsRange(b)
  {
  }

  /** In the space of a regular first box the result has the least range that holds both. */
  lemma CombineInOrderLeast(b1: Box, b2: Box)
    requires Valid(b1) && !b1.isDegenerate && !b1.range.IsEmpty() && !b2.range.IsEmpty()
    ensures LeastFor(CombineInOrder(b1, b2), b1, b2)
  {
    hide AlignedRange, Multiply, Holds, Valid;
    var n := Multiply(b2.matrix, b1.inverse);
    AlignedEmptyIff(b2.range, n);
    forall range: Range
      ensures range.ContainsRange(CombineInOrder(b1, b2).range)
         <==> Holds(range, b1, b1.inverse) && Holds(range, b2, b1.inverse)
    {
      UnionIsLeast(range, b1.range, AlignedRange(b2.range, n));
      HoldsOwn(range, b1);
      HoldsIff(range, b2, b1.inverse);
    }
  }

  /** For two degenerate boxes it is the same in the world. */
  lemma UnionOfAlignedLeast(b1: Box, b2: Box)
    requires !b1.range.IsEmpty() && !b2.range.IsEmpty()
    ensures LeastFor(OfRange(AlignedRange(b1.range, b1.matrix).UnionWith(AlignedRange(b2.range, b2.matrix))), b1, b2)
  {
    hide AlignedRange, Multiply, Holds, Valid;
    var a1, a2 := AlignedRange(b1.range, b1.matrix), AlignedRange(b2.range, b2.matrix);
    AlignedEmptyIff(b1.range, b1.matrix);
    AlignedEmptyIff(b2.range, b2.matrix);
    TimesIdentity(b1.matrix);
    TimesIdentity(b2.matrix);
    forall range: Range
      ensures range.ContainsRange(a1.UnionWith(a2)) <==> Holds(range, b1, IDENTITY) && Holds(range, b2, IDENTITY)
    {
      UnionIsLeast(range, a1, a2);
      HoldsIff(range, b1, IDENTITY);
      HoldsIff(range, b2, IDENTITY);
    }
  }

  lemma TimesIdentity(m: Matrix)
    ensures Multiply(m, IDENTITY) == m
  {
    hide Direction, Transform;
    IdentityIs(m.r0);
    IdentityIs(m.r1);
    IdentityIs(m.r2);
    IdentityTransform(m.t);
  }

  /**
   * The result of combining two boxes that are not empty: seen in the space of the result, a range contains the
   * result's exactly if it holds both boxes.
   */
  lemma CombineIsLeast(b1: Box, b2: Box)
    requires Valid(b1) && Valid(b2) && !b1.range.IsEmpty() && !b2.range.IsEmpty()
    ensures LeastFor(Combine(b1, b2), b1, b2)
  {
    hide AlignedRange, CombineInOrder, LeastFor, Valid, Smaller, OfRange;
    var flag := b1.hasZeroAreaPrimitives || b2.hasZeroAreaPrimitives;
    var r1, r2 := CombineInOrder(b1, b2), CombineInOrder(b2, b1);
    if b1.isDegenerate && b2.isDegenerate {
      var u := OfRange(AlignedRange(b1.range, b1.matrix).UnionWith(AlignedRange(b2.range, b2.matrix)));
      UnionOfAlignedLeast(b1, b2);
      LeastFlagged(u, b1, b2, flag);
    } else {
      if !b1.isDegenerate {
        CombineInOrderLeast(b1, b2);
        LeastFlagged(r1, b1, b2, flag);
      }
      if !b2.isDegenerate {
        CombineInOrderLeast(b2, b1);
        LeastFlagged(r2, b2, b1, flag);
      }
      OneOfTwo(r1, r2);
    }
  }

  lemma LeastFlagged(r: Box, b1: Box, b2: Box, flag: bool)
    requires LeastFor(r, b1, b2)
    ensures (var f := r.(hasZeroAreaPrimitives := flag); LeastFor(f, b1, b2) && LeastFor(f, b2, b1))
  {
    hide Holds;
  }

  lemma OneOfTwo(r1: Box, r2: Box)
    ensures Smaller(r1, r2) == r1 || Smaller(r1, r2) == r2
  {
  }

  /** An empty box adds nothing to another. */
  lemma CombineEmpty(b1: Box, b2: Box)
    requires b1.range.IsEmpty() || b2.range.IsEmpty()
    ensures (var b, r := if b1.range.IsEmpty() then b2 else b1, Combine(b1, b2);
             r.range == b.range && r.matrix == b.matrix && r.inverse == b.inverse)
  {
  }
}
