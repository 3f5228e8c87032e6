/**
 Volumes of oriented boxes (GetVolume and Combine in pxr/base/gf/bbox3d.cpp). Combining never loses volume:
 the result is at least as big as either box, in every branch. The reason is a Hadamard-like bound: the
 aligned range of a transformed box is at least as big as the transformed box.
*/
module BBoxVolume {
  import opened AffineSpace
  import opened Basics
  import opened BBox3d

  // ---------- the determinant of a product ----------

  function Cross(v: Vec3, w: Vec3): Vec3 {
    Vec3(v.y * w.z - v.z * w.y, v.z * w.x - v.x * w.z, v.x * w.y - v.y * w.x)
  }

  /** How a normal is transformed: by the cofactors of m. */
  function NormalDirection(n: Vec3, m: Matrix): Vec3 {
    var a := Adjugate(m);
    Vec3(Dot(n, a.r0), Dot(n, a.r1), Dot(n, a.r2))
  }

  lemma CrossSums(d: real, e: real, f: real, g: real, h: real, i: real,
                  B: real, C: real, E: real, F: real, H: real, I: real,
                  q: real, r: real, s: real, t: real, m: real, n: real, k: real, x: real, y: real, z: real)
    requires q == d * B + e * E + f * H && r == g * C + h * F + i * I
    requires s == d * C + e * F + f * I && t == g * B + h * E + i * H
    requires m == e * i - f * h && n == f * g - d * i && k == d * h - e * g
    requires x == E * I - F * H && y == C * H - B * I && z == B * F - C * E
    ensures q * r - s * t == m * x + n * y + k * z
  {
  }

  /** The x coordinate of the cross product of two transformed vectors. */
  lemma CrossFirst(v: Vec3, w: Vec3, m: Matrix)
    ensures Cross(Direction(v, m), Direction(w, m)).x == NormalDirection(Cross(v, w), m).x
  {
    hide Direction, NormalDirection;
    var q, r, n, a := Direction(v, m), Direction(w, m), Cross(v, w), Adjugate(m).r0;
    DirectionSums(v, m);
    DirectionSums(w, m);
    CrossSums(v.x, v.y, v.z, w.x, w.y, w.z, m.r0.y, m.r0.z, m.r1.y, m.r1.z, m.r2.y, m.r2.z,
              q.y, r.z, q.z, r.y, n.x, n.y, n.z, a.x, a.y, a.z);
    NormalFirst(n, m);
  }

  lemma DirectionSums(v: Vec3, m: Matrix)
    ensures Direction(v, m).y == v.x * m.r0.y + v.y * m.r1.y + v.z * m.r2.y
    ensures Direction(v, m).z == v.x * m.r0.z + v.y * m.r1.z + v.z * m.r2.z
  {
  }

  lemma NormalFirst(n: Vec3, m: Matrix)
    ensures var a := Adjugate(m).r0; NormalDirection(n, m).x == n.x * a.x + n.y * a.y + n.z * a.z
  {
    hide Adjugate;
  }

  lemma CrossDirection(v: Vec3, w: Vec3, m: Matrix)
    ensures Cross(Direction(v, m), Direction(w, m)) == NormalDirection(Cross(v, w), m)
  {
    var m1, m2 := Turned(m), Turned(Turned(m));
    CrossFirst(v, w, m);
    CrossFirst(v, w, m1);
    CrossFirst(v, w, m2);
    TurnedAdjugate(m);
    TurnedAdjugate(m1);
    TurnedDirection(v, m);
    TurnedDirection(v, m1);
    TurnedDirection(w, m);
    TurnedDirection(w, m1);
    hide Dot, Adjugate, Direction;
  }

  lemma TurnedDirection(v: Vec3, m: Matrix)
    ensures var d := Direction(v, m); Direction(v, Turned(m)) == Vec3(d.y, d.z, d.x)
  {
    hide Dot;
    assert Column(Turned(m), 0) == Column(m, 1) && Column(Turned(m), 1) == Column(m, 2);
    assert Column(Turned(m), 2) == Column(m, 0);
  }

  /** A transformed vector against a transformed normal. */
  lemma DotNormal(u: Vec3, n: Vec3, m: Matrix)
    ensures Dot(Direction(u, m), NormalDirection(n, m)) == Dot(u, n) * Det(m)
  {
    hide Dot, Det, Adjugate, Direction, NormalDirection;
    var p, q := Direction(u, m), NormalDirection(n, m);
    DirectionIs(u, m);
    NormalIs(n, m);
    DetIs(m);
    DotIs(u, n);
    DotIs(p, q);
    NormalSums(u.x, u.y, u.z, n.x, n.y, n.z, m.r0.x, m.r0.y, m.r0.z, m.r1.x, m.r1.y, m.r1.z, m.r2.x, m.r2.y, m.r2.z,
               p.x, p.y, p.z, q.x, q.y, q.z, Det(m), Dot(u, n));
  }

  lemma DirectionIs(u: Vec3, m: Matrix)
    ensures Direction(u, m) == Vec3(u.x * m.r0.x + u.y * m.r1.x + u.z * m.r2.x,
                                    u.x * m.r0.y + u.y * m.r1.y + u.z * m.r2.y,
                                    u.x * m.r0.z + u.y * m.r1.z + u.z * m.r2.z)
  {
  }

  lemma NormalIs(n: Vec3, m: Matrix)
    ensures NormalDirection(n, m).x == n.x * (m.r1.y * m.r2.z - m.r1.z * m.r2.y)
              + n.y * (m.r0.z * m.r2.y - m.r0.y * m.r2.z) + n.z * (m.r0.y * m.r1.z - m.r0.z * m.r1.y)
    ensures NormalDirection(n, m).y == n.x * (m.r1.z * m.r2.x - m.r1.x * m.r2.z)
              + n.y * (m.r0.x * m.r2.z - m.r0.z * m.r2.x) + n.z * (m.r0.z * m.r1.x - m.r0.x * m.r1.z)
    ensures NormalDirection(n, m).z == n.x * (m.r1.x * m.r2.y - m.r1.y * m.r2.x)
              + n.y * (m.r0.y * m.r2.x - m.r0.x * m.r2.y) + n.z * (m.r0.x * m.r1.y - m.r0.y * m.r1.x)
  {
  }

  lemma DetIs(m: Matrix)
    ensures Det(m) == m.r0.x * (m.r1.y * m.r2.z - m.r1.z * m.r2.y) - m.r0.y * (m.r1.x * m.r2.z - m.r1.z * m.r2.x)
                      + m.r0.z * (m.r1.x * m.r2.y - m.r1.y * m.r2.x)
  {
  }

  lemma DotIs(p: Vec3, q: Vec3)
    ensures Dot(p, q) == p.x * q.x + p.y * q.y + p.z * q.z
  {
  }

  lemma NormalSums(u: real, v: real, w: real, x: real, y: real, z: real,
                   A: real, B: real, C: real, D: real, E: real, F: real, G: real, H: real, I: real,
                   p: real, q: real, r: real, s: real, t: real, m: real, d: real, k: real)
    requires p == u * A + v * D + w * G && q == u * B + v * E + w * H && r == u * C + v * F + w * I
    requires s == x * (E * I - F * H) + y * (C * H - B * I) + z * (B * F - C * E)
    requires t == x * (F * G - D * I) + y * (A * I - C * G) + z * (C * D - A * F)
    requires m == x * (D * H - E * G) + y * (B * G - A * H) + z * (A * E - B * D)
    requires d == A * (E * I - F * H) - B * (D * I - F * G) + C * (D * H - E * G)
    requires k == u * x + v * y + w * z
    ensures p * s + q * t + r * m == k * d
  {
  }

  /** The determinant is the first row against the cross product of the others. */
  lemma DetCross(m: Matrix)
    ensures Det(m) == Dot(m.r0, Cross(m.r1, m.r2))
  {
  }

  lemma DetMultiply(a: Matrix, b: Matrix)
    ensures Det(Multiply(a, b)) == Det(a) * Det(b)
  {
    hide Det, Dot, Cross, NormalDirection, Direction;
    var ab := Multiply(a, b);
    DetCross(ab);
    DetCross(a);
    CrossDirection(a.r1, a.r2, b);
    DotNormal(a.r0, Cross(a.r1, a.r2), b);
  }

  lemma DetInverse(m: Matrix)
    requires Det(m) != 0.0
    ensures Det(Inverse(m)) * Det(m) == 1.0
  {
    hide Det, Inverse, Direction;
    InverseRows(m);
    DetMultiply(Inverse(m), m);
    var p := Multiply(Inverse(m), m);
    DetUnit(p);
  }

  /** A regular matrix undoes its inverse, and its inverse undoes it. */
  lemma InverseBothWays(p: Vec3, m: Matrix)
    requires Det(m) != 0.0
    ensures Transform(Transform(p, Inverse(m)), m) == p
    ensures Transform(Transform(p, m), Inverse(m)) == p
  {
    hide Det, Inverse, Transform;
    var inv := Inverse(m);
    DetInverse(m);
    InverseUndoes(p, m);
    // p comes from some q through the inverse, and m takes it back to q.
    var q := Transform(p, Inverse(inv));
    InverseUndoes(p, inv);
    InverseUndoes(q, m);
  }

  lemma DetUnit(p: Matrix)
    requires p.r0 == Vec3(1.0, 0.0, 0.0) && p.r1 == Vec3(0.0, 1.0, 0.0) && p.r2 == Vec3(0.0, 0.0, 1.0)
    ensures Det(p) == 1.0
  {
    UnitDet(p.r0.x, p.r0.y, p.r0.z, p.r1.x, p.r1.y, p.r1.z, p.r2.x, p.r2.y, p.r2.z);
  }

  // ---------- the aligned range is at least as big ----------

  function Width(r: Range): Vec3 {
    Vec3(r.max.x - r.min.x, r.max.y - r.min.y, r.max.z - r.min.z)
  }

  function Product3(v: Vec3): real {
    Product(Product(v.x, v.y), v.z)
  }

  predicate NonNegative(v: Vec3) {
    v.x >= 0.0 && v.y >= 0.0 && v.z >= 0.0
  }

  function AbsVec(v: Vec3): Vec3 {
    Vec3(Abs(v.x), Abs(v.y), Abs(v.z))
  }

  /** The linear part of m with its rows stretched by s. */
  function Stretched(m: Matrix, s: Vec3): Matrix {
    Matrix(Scaled(m.r0, s.x), Scaled(m.r1, s.y), Scaled(m.r2, s.z), m.t)
  }

  lemma ProductNonNegative(x: real, y: real)
    requires x >= 0.0 && y >= 0.0
    ensures x * y >= 0.0
  {
  }

  lemma AbsProduct(x: real, y: real)
    ensures Abs(x * y) == Abs(x) * Abs(y)
  {
    if x >= 0.0 && y >= 0.0 {
      ProductNonNegative(x, y);
    } else if x >= 0.0 {
      ProductNonNegative(x, -y);
    } else if y >= 0.0 {
      ProductNonNegative(-x, y);
    } else {
      ProductNonNegative(-x, -y);
    }
  }

  function Minor(c: real, d: real, e: real, f: real): real {
    c * d - e * f
  }

  /** A product of two sums is at least the sum of two crosswise products. */
  lemma PairBound(x0: real, x1: real, x2: real, y0: real, y1: real, y2: real, sx: real, sy: real)
    requires x0 >= 0.0 && x1 >= 0.0 && x2 >= 0.0 && y0 >= 0.0 && y1 >= 0.0 && y2 >= 0.0
    requires sx == x0 + x1 + x2 && sy == y0 + y1 + y2
    ensures Product(sx, sy) >= Product(x1, y2) + Product(x2, y1)
  {
    ProductNonNegative(x0, y0 + y1 + y2);
    ProductNonNegative(x1, y0 + y1);
    ProductNonNegative(x2, y0 + y2);
    assert (x0 + x1 + x2) * (y0 + y1 + y2)
        == x0 * (y0 + y1 + y2) + x1 * (y0 + y1) + x1 * y2 + x2 * (y0 + y2) + x2 * y1;
  }

  lemma MinorBound(c: real, d: real, e: real, f: real)
    ensures Abs(Minor(c, d, e, f)) <= Product(Abs(c), Abs(d)) + Product(Abs(e), Abs(f))
  {
    AbsProduct(c, d);
    AbsProduct(e, f);
  }

  lemma TermBound(b: real, c: real, d: real, e: real, f: real, bound: real)
    requires bound >= Product(Abs(c), Abs(d)) + Product(Abs(e), Abs(f))
    ensures Abs(Product(b, Minor(c, d, e, f))) <= Product(Abs(b), bound)
  {
    var n := Minor(c, d, e, f);
    MinorBound(c, d, e, f);
    AbsProduct(b, n);
    hide Minor;
    Monotone(Abs(n), bound, Abs(b));
  }

  /** The sums of the magnitudes in each column. */
  function ColumnSums(m: Matrix): Vec3 {
    Vec3(Abs(m.r0.x) + Abs(m.r1.x) + Abs(m.r2.x),
         Abs(m.r0.y) + Abs(m.r1.y) + Abs(m.r2.y),
         Abs(m.r0.z) + Abs(m.r1.z) + Abs(m.r2.z))
  }

  /** The determinant, expanded along the first column. */
  lemma DetColumn(m: Matrix)
    ensures Det(m) == Product(m.r0.x, Minor(m.r1.y, m.r2.z, m.r2.y, m.r1.z))
                      + Product(m.r1.x, Minor(m.r2.y, m.r0.z, m.r0.y, m.r2.z))
                      + Product(m.r2.x, Minor(m.r0.y, m.r1.z, m.r1.y, m.r0.z))
  {
  }

  /** No determinant exceeds the product of its column sums. */
  lemma DetBound(m: Matrix)
    ensures Abs(Det(m)) <= Product3(ColumnSums(m))
  {
    hide Det, Product, Minor;
    var s := ColumnSums(m);
    var x0, x1, x2 := Abs(m.r0.y), Abs(m.r1.y), Abs(m.r2.y);
    var y0, y1, y2 := Abs(m.r0.z), Abs(m.r1.z), Abs(m.r2.z);
    var bound := Product(s.y, s.z);
    PairBound(x0, x1, x2, y0, y1, y2, s.y, s.z);
    PairBound(x1, x2, x0, y1, y2, y0, s.y, s.z);
    PairBound(x2, x0, x1, y2, y0, y1, s.y, s.z);
    TermBound(m.r0.x, m.r1.y, m.r2.z, m.r2.y, m.r1.z, bound);
    TermBound(m.r1.x, m.r2.y, m.r0.z, m.r0.y, m.r2.z, bound);
    TermBound(m.r2.x, m.r0.y, m.r1.z, m.r1.y, m.r0.z, bound);
    DetColumn(m);
    SumProducts(Abs(m.r0.x), Abs(m.r1.x), Abs(m.r2.x), s);
  }

  lemma SumProducts(p0: real, p1: real, p2: real, s: Vec3)
    requires s.x == p0 + p1 + p2
    ensures var b := Product(s.y, s.z); Product(p0, b) + Product(p1, b) + Product(p2, b) == Product3(s)
  {
  }

  // ---------- from a range to its aligned range ----------

  /** The determinant of the stretched matrix is the signed volume of the transformed range. */
  lemma DetStretched(m: Matrix, s: Vec3)
    ensures Det(Stretched(m, s)) == Product(Det(m), Product3(s))
  {
    var a, b, c := Stretched(m, s).r0, Stretched(m, s).r1, Stretched(m, s).r2;
    StretchSums(m.r0.x, m.r0.y, m.r0.z, m.r1.x, m.r1.y, m.r1.z, m.r2.x, m.r2.y, m.r2.z, s.x, s.y, s.z,
                a.x, a.y, a.z, b.x, b.y, b.z, c.x, c.y, c.z, Det(m));
  }

  lemma StretchSums(A: real, B: real, C: real, D: real, E: real, F: real, G: real, H: real, I: real,
                    x: real, y: real, z: real,
                    a: real, b: real, c: real, d: real, e: real, f: real, g: real, h: real, i: real, det: real)
    requires a == A * x && b == B * x && c == C * x && d == D * y && e == E * y && f == F * y
    requires g == G * z && h == H * z && i == I * z
    requires det == A * (E * I - F * H) - B * (D * I - F * G) + C * (D * H - E * G)
    ensures a * (e * i - f * h) - b * (d * i - f * g) + c * (d * h - e * g) == det * (x * y * z)
  {
  }

  lemma LowHighWidth(lo: real, hi: real, m: real)
    ensures High(lo, hi, m) - Low(lo, hi, m) == Abs(Product(m, hi - lo))
  {
    assert m * (hi - lo) == hi * m - lo * m;
  }

  /** The widths of the aligned range are the column sums of the stretched matrix. */
  lemma AlignedWidth(r: Range, m: Matrix)
    requires !r.IsEmpty()
    ensures Width(AlignedRange(r, m)) == ColumnSums(Stretched(m, Width(r)))
  {
    hide Low, High;
    SumUnfolds(r, m, 0);
    SumUnfolds(r, m, 1);
    SumUnfolds(r, m, 2);
    RowWidths(r.min.x, r.max.x, m.r0);
    RowWidths(r.min.y, r.max.y, m.r1);
    RowWidths(r.min.z, r.max.z, m.r2);
    hide LowSum, HighSum, Scaled;
  }

  lemma RowWidths(lo: real, hi: real, row: Vec3)
    ensures var a := AbsVec(Scaled(row, hi - lo));
            && High(lo, hi, row.x) - Low(lo, hi, row.x) == a.x
            && High(lo, hi, row.y) - Low(lo, hi, row.y) == a.y
            && High(lo, hi, row.z) - Low(lo, hi, row.z) == a.z
  {
    hide Low, High, Abs, AbsVec, Scaled, Product;
    LowHighWidth(lo, hi, row.x);
    LowHighWidth(lo, hi, row.y);
    LowHighWidth(lo, hi, row.z);
    AbsScaled(row, hi - lo);
  }

  lemma AbsScaled(v: Vec3, s: real)
    ensures (var a := AbsVec(Scaled(v, s));
             a.x == Abs(Product(v.x, s)) && a.y == Abs(Product(v.y, s)) && a.z == Abs(Product(v.z, s)))
  {
  }

  /** The volume of a non-empty box, unsigned. */
  lemma HullVolume(r: Range, m: Matrix)
    requires !r.IsEmpty()
    ensures var w := Width(AlignedRange(r, m));
            && NonNegative(w)
            && Abs(Product(Det(m), Product3(Width(r)))) <= Product3(w)
  {
    hide Det, AlignedRange, Stretched, Product3, Product;
    AlignedWidth(r, m);
    DetStretched(m, Width(r));
    DetBound(Stretched(m, Width(r)));
  }

  // ---------- the main results ----------

  lemma ProductMono(x: real, x': real, y: real, y': real)
    requires 0.0 <= x <= x' && 0.0 <= y <= y'
    ensures 0.0 <= Product(x, y) <= Product(x', y')
  {
    ProductNonNegative(x, y);
    Monotone(x, x', y);
    Monotone(y, y', x');
  }

  lemma Product3Mono(v: Vec3, w: Vec3)
    requires NonNegative(v) && v.x <= w.x && v.y <= w.y && v.z <= w.z
    ensures 0.0 <= Product3(v) <= Product3(w)
  {
    hide Product;
    ProductMono(v.x, w.x, v.y, w.y);
    ProductMono(Product(v.x, v.y), Product(w.x, w.y), v.z, w.z);
  }

  /** The volume is the determinant's magnitude times the product of the widths. */
  lemma VolumeOf(b: Box)
    requires !b.range.IsEmpty()
    ensures Volume(b) == Product(Abs(Det(b.matrix)), Product3(Width(b.range)))
    ensures NonNegative(Width(b.range)) && Product3(Width(b.range)) >= 0.0
  {
    hide Det;
    var d, w := Det(b.matrix), Width(b.range);
    Product3Mono(w, w);
    VolumeProduct(d, w);
  }

  lemma VolumeProduct(d: real, w: Vec3)
    requires Product3(w) >= 0.0
    ensures Abs(d * w.x * w.y * w.z) == Product(Abs(d), Product3(w))
  {
    AbsProduct(d, Product3(w));
    assert d * w.x * w.y * w.z == d * (w.x * w.y * w.z);
  }

  lemma WiderUnion(a: Range, b: Range)
    ensures var w, u := Width(a), Width(a.UnionWith(b)); w.x <= u.x && w.y <= u.y && w.z <= u.z
    ensures var w, u := Width(b), Width(a.UnionWith(b)); w.x <= u.x && w.y <= u.y && w.z <= u.z
    ensures !a.IsEmpty() ==> !a.UnionWith(b).IsEmpty()
  {
  }

  /** A box in the space of b1 whose range includes that of b1 and the projection of b2 is at least as big as both. */
  lemma CombineInOrderGrows(b1: Box, b2: Box)
    requires Valid(b1) && !b1.isDegenerate && !b1.range.IsEmpty() && !b2.range.IsEmpty()
    ensures Volume(CombineInOrder(b1, b2)) >= Volume(b1)
    ensures Volume(CombineInOrder(b1, b2)) >= Volume(b2)
  {
    hide Det, Volume, AlignedRange, Multiply, Inverse, Product3;
    var r := CombineInOrder(b1, b2);
    var n := Multiply(b2.matrix, b1.inverse);
    var proj := AlignedRange(b2.range, n);
    WiderUnion(b1.range, proj);
    VolumeOf(b1);
    VolumeOf(b2);
    VolumeOf(r);
    Product3Mono(Width(b1.range), Width(r.range));
    HullVolume(b2.range, n);
    Product3Mono(Width(proj), Width(r.range));
    DetMultiply(b2.matrix, b1.inverse);
    DetInverse(b1.matrix);
    Rescale(Det(b1.matrix), Det(b2.matrix), Det(b1.inverse), Det(n),
            Product3(Width(b2.range)), Product3(Width(r.range)));
    Monotone(Product3(Width(b1.range)), Product3(Width(r.range)), Abs(Det(b1.matrix)));
  }

  /** What is lost by projecting into the space of b1 is won back by its determinant. */
  lemma Rescale(d1: real, d2: real, i: real, dn: real, v: real, p: real)
    requires i * d1 == 1.0 && dn == d2 * i && v >= 0.0
    requires Abs(Product(dn, v)) <= p
    ensures Product(Abs(d2), v) <= Product(Abs(d1), p)
  {
    hide Abs;
    AbsProduct(dn, v);
    AbsProduct(dn, d1);
    AbsOf(v);
    AbsOf(d1);
    FactorUndone(d1, d2, i, dn);
    Monotone(Abs(dn) * v, p, Abs(d1));
    Swap(Abs(dn), v, Abs(d1));
  }

  lemma AbsOf(x: real)
    ensures Abs(x) >= 0.0 && (x >= 0.0 ==> Abs(x) == x)
  {
  }

  lemma FactorUndone(d1: real, d2: real, i: real, dn: real)
    requires i * d1 == 1.0 && dn == d2 * i
    ensures dn * d1 == d2
  {
    assert dn * d1 == d2 * (i * d1);
  }

  lemma Swap(x: real, y: real, z: real)
    ensures (x * y) * z == (x * z) * y
  {
  }

  lemma VolumeFlagged(b: Box, flag: bool)
    ensures Volume(b.(hasZeroAreaPrimitives := flag)) == Volume(b) >= 0.0
  {
    hide Det;
  }

  /** Combine never loses volume, in any of its branches. */
  lemma CombineGrows(b1: Box, b2: Box)
    requires Valid(b1) && Valid(b2)
    ensures Volume(Combine(b1, b2)) >= Volume(b1)
    ensures Volume(Combine(b1, b2)) >= Volume(b2)
  {
    hide Volume, AlignedRange, CombineInOrder, Inverse, Tolerance, Valid;
    var flag := b1.hasZeroAreaPrimitives || b2.hasZeroAreaPrimitives;
    VolumeFlagged(b1, flag);
    VolumeFlagged(b2, flag);
    if b1.range.IsEmpty() {
      EmptyVolume(b1);
    } else if b2.range.IsEmpty() {
      EmptyVolume(b2);
    } else if b1.isDegenerate && b2.isDegenerate {
      var u := OfRange(AlignedRange(b1.range, b1.matrix).UnionWith(AlignedRange(b2.range, b2.matrix)));
      VolumeFlagged(u, flag);
      AlignedGrows(b1, AlignedRange(b2.range, b2.matrix), u);
      AlignedGrows(b2, AlignedRange(b1.range, b1.matrix), u);
    } else {
      if !b1.isDegenerate {
        CombineInOrderGrows(b1, b2);
        VolumeFlagged(CombineInOrder(b1, b2), flag);
      }
      if !b2.isDegenerate {
        CombineInOrderGrows(b2, b1);
        VolumeFlagged(CombineInOrder(b2, b1), flag);
      }
    }
  }

  lemma EmptyVolume(b: Box)
    requires b.range.IsEmpty()
    ensures Volume(b) == 0.0
  {
  }

  /** A box in world space whose range includes the aligned range of b is at least as big as b. */
  lemma AlignedGrows(b: Box, other: Range, u: Box)
    requires !b.range.IsEmpty() && u.matrix == IDENTITY
    requires u.range == AlignedRange(b.range, b.matrix).UnionWith(other)
             || u.range == other.UnionWith(AlignedRange(b.range, b.matrix))
    ensures Volume(u) >= Volume(b)
  {
    hide Det, AlignedRange, Volume, Product3, Product;
    var a := AlignedRange(b.range, b.matrix);
    HullVolume(b.range, b.matrix);
    WiderUnion(a, other);
    WiderUnion(other, a);
    Product3Mono(Width(a), Width(u.range));
    VolumeOf(b);
    VolumeOf(u);
    IdentityDet();
    var d := Det(b.matrix);
    Rescale(1.0, d, 1.0, d, Product3(Width(b.range)), Product3(Width(u.range)));
  }

  /**
   * When neither box is empty or degenerate, the first candidate is taken unless the second is smaller by more than a
   * millionth of the bigger one, or 10^-10: so the result is near the smaller candidate.
   */
  lemma CombineNearSmaller(b1: Box, b2: Box)
    requires !b1.range.IsEmpty() && !b2.range.IsEmpty() && !b1.isDegenerate && !b2.isDegenerate
    ensures (var r1, r2, r := CombineInOrder(b1, b2), CombineInOrder(b2, b1), Combine(b1, b2);
             var v1, v2 := Volume(r1), Volume(r2);
             var tolerance := Max(0.0000000001, Max(v1, v2) / 1000000.0);
             && Volume(r) <= Min(v1, v2) + tolerance
             && r.(hasZeroAreaPrimitives := true)
                == (if v2 < v1 - tolerance then r2 else r1).(hasZeroAreaPrimitives := true))
  {
    hide Volume, CombineInOrder;
    var flag := b1.hasZeroAreaPrimitives || b2.hasZeroAreaPrimitives;
    VolumeFlagged(CombineInOrder(b1, b2), flag);
    VolumeFlagged(CombineInOrder(b2, b1), flag);
  }

  /** A box that is aligned has the volume of its range. */
  lemma VolumeOfRange(r: Range)
    requires !r.IsEmpty()
    ensures Volume(OfRange(r)) == (r.max.x - r.min.x) * (r.max.y - r.min.y) * (r.max.z - r.min.z)
  {
    hide Det, Valid;
    VolumeOf(OfRange(r));
    IdentityDet();
  }

  /** Transforming a box by m multiplies its volume by the magnitude of the determinant of m. */
  lemma VolumeMoved(b: Box, b': Box, m: Matrix)
    requires b'.range == b.range && b'.matrix == Multiply(b.matrix, m)
    ensures Volume(b') == Abs(Det(m)) * Volume(b)
  {
    hide Det, Volume, Multiply, Product3;
    if b.range.IsEmpty() {
      EmptyVolume(b);
      EmptyVolume(b');
    } else {
      VolumeOf(b);
      VolumeOf(b');
      DetMultiply(b.matrix, m);
      AbsProduct(Det(b.matrix), Det(m));
      Regrouped(Abs(Det(b.matrix)), Abs(Det(m)), Product3(Width(b.range)));
    }
  }

  lemma Regrouped(x: real, y: real, z: real)
    ensures Product(x * y, z) == y * Product(x, z)
  {
  }
}
