/**
 Vectors, axis-aligned ranges and affine matrices over the reals. As in GfMatrix4d, points are row
 vectors and the last row holds the translation, so p * (A * B) == (p * A) * B.
*/
module AffineSpace {
  import opened Basics

  function Abs(x: real): real {
    if x < 0.0 then -x else x
  }

  function Min(x: real, y: real): real {
    if y < x then y else x
  }

  function Max(x: real, y: real): real {
    if y > x then y else x
  }

  // ---------- ranges ----------

  const FLT_MAX: real := 340282346638528859811704183484516925440.0

  datatype Range = Range(min: Vec3, max: Vec3) {
    predicate IsEmpty() {
      min.x > max.x || min.y > max.y || min.z > max.z
    }

    predicate Contains(p: Vec3) {
      min.x <= p.x <= max.x && min.y <= p.y <= max.y && min.z <= p.z <= max.z
    }

    function UnionWith(b: Range): Range {
      Range(Vec3(Min(min.x, b.min.x), Min(min.y, b.min.y), Min(min.z, b.min.z)),
            Vec3(Max(max.x, b.max.x), Max(max.y, b.max.y), Max(max.z, b.max.z)))
    }

    predicate ContainsRange(b: Range) {
      Contains(b.min) && Contains(b.max)
    }
  }

  const EMPTY_RANGE := Range(Vec3(FLT_MAX, FLT_MAX, FLT_MAX), Vec3(-FLT_MAX, -FLT_MAX, -FLT_MAX))

  // ---------- matrices ----------

  /** The three rows of the linear part, and the translation. */
  datatype Matrix = Matrix(r0: Vec3, r1: Vec3, r2: Vec3, t: Vec3) {
    function Row(i: nat): Vec3
      requires i < 3
    {
      if i == 0 then r0 else if i == 1 then r1 else r2
    }
  }

  const IDENTITY := Matrix(Vec3(1.0, 0.0, 0.0), Vec3(0.0, 1.0, 0.0), Vec3(0.0, 0.0, 1.0), Vec3(0.0, 0.0, 0.0))

  function Dot(p: Vec3, q: Vec3): real {
    p.x * q.x + p.y * q.y + p.z * q.z
  }

  function Column(m: Matrix, j: nat): Vec3
    requires j < 3
  {
    Vec3(m.r0.At(j), m.r1.At(j), m.r2.At(j))
  }

  /** p times the linear part of m. */
  function Direction(p: Vec3, m: Matrix): Vec3 {
    Vec3(Dot(p, Column(m, 0)), Dot(p, Column(m, 1)), Dot(p, Column(m, 2)))
  }

  function Plus(p: Vec3, q: Vec3): Vec3 {
    Vec3(p.x + q.x, p.y + q.y, p.z + q.z)
  }

  function Scaled(p: Vec3, k: real): Vec3 {
    Vec3(p.x * k, p.y * k, p.z * k)
  }

  function Transform(p: Vec3, m: Matrix): Vec3 {
    Plus(Direction(p, m), m.t)
  }

  function Multiply(a: Matrix, b: Matrix): Matrix {
    Matrix(Direction(a.r0, b), Direction(a.r1, b), Direction(a.r2, b), Transform(a.t, b))
  }

  function Det(m: Matrix): real {
    m.r0.x * (m.r1.y * m.r2.z - m.r1.z * m.r2.y)
    - m.r0.y * (m.r1.x * m.r2.z - m.r1.z * m.r2.x)
    + m.r0.z * (m.r1.x * m.r2.y - m.r1.y * m.r2.x)
  }

  /** The cofactors of the linear part, transposed. */
  function Adjugate(m: Matrix): Matrix {
    Matrix(
      Vec3(m.r1.y * m.r2.z - m.r1.z * m.r2.y, m.r0.z * m.r2.y - m.r0.y * m.r2.z, m.r0.y * m.r1.z - m.r0.z * m.r1.y),
      Vec3(m.r1.z * m.r2.x - m.r1.x * m.r2.z, m.r0.x * m.r2.z - m.r0.z * m.r2.x, m.r0.z * m.r1.x - m.r0.x * m.r1.z),
      Vec3(m.r1.x * m.r2.y - m.r1.y * m.r2.x, m.r0.y * m.r2.x - m.r0.x * m.r2.y, m.r0.x * m.r1.y - m.r0.y * m.r1.x),
      Vec3(0.0, 0.0, 0.0))
  }

  /** The inverse of an affine matrix that is not singular. */
  function Inverse(m: Matrix): Matrix
    requires Det(m) != 0.0
  {
    var k := 1.0 / Det(m);
    var a := Adjugate(m);
    var inv := Matrix(Scaled(a.r0, k), Scaled(a.r1, k), Scaled(a.r2, k), Vec3(0.0, 0.0, 0.0));
    inv.(t := Scaled(Direction(m.t, inv), -1.0))
  }

  // ---------- the polynomial identities behind the matrix laws ----------

  lemma DotPlus(p: Vec3, q: Vec3, c: Vec3)
    ensures Dot(Plus(p, q), c) == Dot(p, c) + Dot(q, c)
  {
  }

  lemma DotScaled(p: Vec3, k: real, c: Vec3)
    ensures Dot(Scaled(p, k), c) == Dot(p, c) * k
  {
    var q := Scaled(p, k);
    ScaleSum(p.x, p.y, p.z, k, c.x, c.y, c.z, q.x, q.y, q.z);
  }

  lemma ScaleSum(x: real, y: real, z: real, k: real, a: real, b: real, c: real, x': real, y': real, z': real)
    requires x' == x * k && y' == y * k && z' == z * k
    ensures x' * a + y' * b + z' * c == (x * a + y * b + z * c) * k
  {
  }

  /** A point dotted with the products of the rows, or the point's product dotted with c: the same sum. */
  lemma DotDirection(p: Vec3, a: Matrix, c: Vec3)
    ensures Dot(p, Vec3(Dot(a.r0, c), Dot(a.r1, c), Dot(a.r2, c))) == Dot(Direction(p, a), c)
  {
    var q := Direction(p, a);
    SwapSums(p.x, p.y, p.z, a.r0.x, a.r0.y, a.r0.z, a.r1.x, a.r1.y, a.r1.z, a.r2.x, a.r2.y, a.r2.z, c.x, c.y, c.z,
             Dot(a.r0, c), Dot(a.r1, c), Dot(a.r2, c), q.x, q.y, q.z);
  }

  lemma SwapSums(x: real, y: real, z: real, a0: real, a1: real, a2: real, b0: real, b1: real, b2: real,
                 c0: real, c1: real, c2: real, u: real, v: real, w: real,
                 p: real, q: real, r: real, s: real, t: real, m: real)
    requires p == a0 * u + a1 * v + a2 * w && q == b0 * u + b1 * v + b2 * w && r == c0 * u + c1 * v + c2 * w
    requires s == x * a0 + y * b0 + z * c0 && t == x * a1 + y * b1 + z * c1 && m == x * a2 + y * b2 + z * c2
    ensures x * p + y * q + z * r == s * u + t * v + m * w
  {
  }

  /** Expanding along a row: with its own cofactors the determinant, with another row's zero. */
  lemma CofactorSums(a: real, b: real, c: real, d: real, e: real, f: real, g: real, h: real, i: real,
                     x: real, y: real, z: real, det: real)
    requires x == e * i - f * h && y == c * h - b * i && z == b * f - c * e
    requires det == a * (e * i - f * h) - b * (d * i - f * g) + c * (d * h - e * g)
    ensures x * a + y * d + z * g == det
    ensures x * b + y * e + z * h == 0.0
    ensures x * c + y * f + z * i == 0.0
  {
  }

  lemma DirectionPlus(p: Vec3, q: Vec3, m: Matrix)
    ensures Direction(Plus(p, q), m) == Plus(Direction(p, m), Direction(q, m))
  {
    hide Dot;
    DotPlus(p, q, Column(m, 0));
    DotPlus(p, q, Column(m, 1));
    DotPlus(p, q, Column(m, 2));
  }

  lemma DirectionScaled(p: Vec3, k: real, m: Matrix)
    ensures Direction(Scaled(p, k), m) == Scaled(Direction(p, m), k)
  {
    hide Dot;
    DotScaled(p, k, Column(m, 0));
    DotScaled(p, k, Column(m, 1));
    DotScaled(p, k, Column(m, 2));
  }

  lemma DirectionMultiply(p: Vec3, a: Matrix, b: Matrix)
    ensures Direction(p, Multiply(a, b)) == Direction(Direction(p, a), b)
  {
    hide Dot;
    DotDirection(p, a, Column(b, 0));
    DotDirection(p, a, Column(b, 1));
    DotDirection(p, a, Column(b, 2));
  }

  /** Transforming by a product is transforming by its left factor, then by its right one. */
  lemma TransformMultiply(p: Vec3, a: Matrix, b: Matrix)
    ensures Transform(p, Multiply(a, b)) == Transform(Transform(p, a), b)
  {
    DirectionMultiply(p, a, b);
    DirectionPlus(Direction(p, a), a.t, b);
  }

  /** The first row of cofactors, for a matrix whose rows and columns may have been turned round. */
  lemma AdjugateRow(m: Matrix)
    ensures Direction(Adjugate(m).r0, m) == Vec3(Det(m), 0.0, 0.0)
  {
    hide Direction;
    var p := Adjugate(m).r0;
    CofactorSums(m.r0.x, m.r0.y, m.r0.z, m.r1.x, m.r1.y, m.r1.z, m.r2.x, m.r2.y, m.r2.z, p.x, p.y, p.z, Det(m));
    SumsAsDirection(p, m, Det(m));
  }

  lemma SumsAsDirection(p: Vec3, m: Matrix, d: real)
    requires p.x * m.r0.x + p.y * m.r1.x + p.z * m.r2.x == d
    requires p.x * m.r0.y + p.y * m.r1.y + p.z * m.r2.y == 0.0
    requires p.x * m.r0.z + p.y * m.r1.z + p.z * m.r2.z == 0.0
    ensures Direction(p, m) == Vec3(d, 0.0, 0.0)
  {
  }

  /** The columns of m turned by one, which leaves the determinant alone. */
  function Turned(m: Matrix): Matrix {
    Matrix(Vec3(m.r0.y, m.r0.z, m.r0.x), Vec3(m.r1.y, m.r1.z, m.r1.x), Vec3(m.r2.y, m.r2.z, m.r2.x), m.t)
  }

  lemma TurnedDet(m: Matrix)
    ensures Det(Turned(m)) == Det(m)
  {
  }

  lemma TurnedAdjugate(m: Matrix)
    ensures Adjugate(Turned(m)).r0 == Adjugate(m).r1
    ensures Adjugate(Turned(m)).r1 == Adjugate(m).r2
  {
  }

  lemma AdjugateRows(m: Matrix)
    ensures var a, d := Adjugate(m), Det(m);
            && Direction(a.r0, m) == Vec3(d, 0.0, 0.0)
            && Direction(a.r1, m) == Vec3(0.0, d, 0.0)
            && Direction(a.r2, m) == Vec3(0.0, 0.0, d)
  {
    hide Dot, Det, Adjugate;
    var m1, m2 := Turned(m), Turned(Turned(m));
    TurnedAdjugate(m);
    TurnedAdjugate(m1);
    TurnedDet(m);
    TurnedDet(m1);
    AdjugateRow(m);
    AdjugateRow(m1);
    AdjugateRow(m2);
    assert Column(m, 1) == Column(m1, 0) && Column(m, 2) == Column(m1, 1) && Column(m, 0) == Column(m1, 2);
    assert Column(m, 2) == Column(m2, 0) && Column(m, 0) == Column(m2, 1) && Column(m, 1) == Column(m2, 2);
  }

  /** The rows of the inverse, seen through the matrix, are the axes. */
  lemma InverseRows(m: Matrix)
    requires Det(m) != 0.0
    ensures var inv := Inverse(m);
            && Direction(inv.r0, m) == Vec3(1.0, 0.0, 0.0)
            && Direction(inv.r1, m) == Vec3(0.0, 1.0, 0.0)
            && Direction(inv.r2, m) == Vec3(0.0, 0.0, 1.0)
  {
    hide Adjugate, Det, Direction;
    var a, k := Adjugate(m), 1.0 / Det(m);
    AdjugateRows(m);
    DirectionScaled(a.r0, k, m);
    DirectionScaled(a.r1, k, m);
    DirectionScaled(a.r2, k, m);
  }

  lemma InverseUndoesDirection(p: Vec3, m: Matrix)
    requires Det(m) != 0.0
    ensures Direction(Direction(p, Inverse(m)), m) == p
  {
    hide Inverse, Det;
    InverseRows(m);
    DirectionMultiply(p, Inverse(m), m);
  }

  /** Going through the inverse and back leads home. */
  lemma InverseUndoes(p: Vec3, m: Matrix)
    requires Det(m) != 0.0
    ensures Transform(Transform(p, Inverse(m)), m) == p
  {
    var inv := Inverse(m);
    InverseTranslation(m);
    hide Inverse, Det, Direction;
    DirectionPlus(Direction(p, inv), inv.t, m);
    InverseUndoesDirection(p, m);
  }

  lemma InverseTranslation(m: Matrix)
    requires Det(m) != 0.0
    ensures Direction(Inverse(m).t, m) == Scaled(m.t, -1.0)
  {
    var inv := Inverse(m);
    var lin := inv.(t := Vec3(0.0, 0.0, 0.0));
    assert Direction(m.t, lin) == Direction(m.t, inv);
    hide Adjugate, Direction, Det;
    DirectionScaled(Direction(m.t, inv), -1.0, m);
    InverseUndoesDirection(m.t, m);
  }
}
