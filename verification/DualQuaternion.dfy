/**
 Dual quaternions as rigid motions (pxr/base/gf/dualQuat.template.cpp), over the reals. A square root is
 given as the non-negative number whose square is the argument.
*/
module DualQuaternion {
  import opened Basics
  import opened Quaternion

  datatype Dual = Dual(re: Quat, dual: Quat)

  const IDENTITY := Dual(ONE, ZERO)

  function Norm2(p: Quat): real {
    Dot(p, p)
  }

  predicate Unit(a: Dual) {
    Norm2(a.re) == 1.0
  }

  function VPlus(v: Vec3, w: Vec3): Vec3 {
    Vec3(v.x + w.x, v.y + w.y, v.z + w.z)
  }

  function VMinus(v: Vec3, w: Vec3): Vec3 {
    Vec3(v.x - w.x, v.y - w.y, v.z - w.z)
  }

  // ---------- the operations ----------

  function Product(a: Dual, b: Dual): Dual {
    Dual(Times(a.re, b.re), Plus(Times(a.re, b.dual), Times(a.dual, b.re)))
  }

  /** GfQuat::Transform. */
  function Rotate(p: Quat, v: Vec3): Vec3
    requires Norm2(p) != 0.0
  {
    var dot := M(p.x, p.x) + M(p.y, p.y) + M(p.z, p.z);
    var sqr := M(p.r, p.r);
    var iv := M(p.x, v.x) + M(p.y, v.y) + M(p.z, v.z);
    Vec3((2.0 * M(iv, p.x) + M(sqr - dot, v.x) + 2.0 * M(p.r, M(p.y, v.z) - M(p.z, v.y))) / (sqr + dot),
         (2.0 * M(iv, p.y) + M(sqr - dot, v.y) + 2.0 * M(p.r, M(p.z, v.x) - M(p.x, v.z))) / (sqr + dot),
         (2.0 * M(iv, p.z) + M(sqr - dot, v.z) + 2.0 * M(p.r, M(p.x, v.y) - M(p.y, v.x))) / (sqr + dot))
  }

  function Translation(a: Dual): Vec3 {
    Vec3(-2.0 * (M(a.dual.r, a.re.x) - M(a.re.r, a.dual.x) + (M(a.dual.y, a.re.z) - M(a.dual.z, a.re.y))),
         -2.0 * (M(a.dual.r, a.re.y) - M(a.re.r, a.dual.y) + (M(a.dual.z, a.re.x) - M(a.dual.x, a.re.z))),
         -2.0 * (M(a.dual.r, a.re.z) - M(a.re.r, a.dual.z) + (M(a.dual.x, a.re.y) - M(a.dual.y, a.re.x))))
  }

  function Transform(a: Dual, v: Vec3): Vec3
    requires Norm2(a.re) != 0.0
  {
    VPlus(Rotate(a.re, v), Translation(a))
  }

  function WithTranslation(a: Dual, t: Vec3): Dual {
    a.(dual := Times(Quat(0.0, 0.5 * t.x, 0.5 * t.y, 0.5 * t.z), a.re))
  }

  function Inverse(a: Dual): Dual {
    var lengthSqr := Norm2(a.re);
    if lengthSqr <= 0.0 then IDENTITY
    else
      var k := 1.0 / lengthSqr;
      var realPart, dualConj := Scaled(Conjugate(a.re), k), Scaled(Conjugate(a.dual), k);
      Dual(realPart, Minus(dualConj, Scaled(realPart, M(2.0 * k, Dot(a.re, a.dual)))))
  }

  // ---------- rotation and translation by products ----------

  /** p * q * p^-1, for a unit p. */
  function Sandwich(p: Quat, q: Quat): Quat {
    Times(Times(p, q), Conjugate(p))
  }

  lemma SandwichReal(r: real, x: real, y: real, z: real, a: real, b: real, c: real, t: real, u: real, v: real, w: real)
    requires t == -(x * a + y * b + z * c) && u == r * a + (y * c - z * b)
    requires v == r * b + (z * a - x * c) && w == r * c + (x * b - y * a)
    ensures t * r - (u * -x + v * -y + w * -z) == 0.0
  {
  }

  lemma SandwichAxis(r: real, x: real, y: real, z: real, a: real, b: real, c: real, t: real, u: real, v: real, w: real)
    requires t == -(x * a + y * b + z * c) && u == r * a + (y * c - z * b)
    requires v == r * b + (z * a - x * c) && w == r * c + (x * b - y * a)
    ensures t * -x + r * u + (v * -z - w * -y)
         == 2.0 * ((x * a + y * b + z * c) * x) + (r * r - (x * x + y * y + z * z)) * a + 2.0 * (r * (y * c - z * b))
  {
  }

  lemma SandwichSums(r: real, x: real, y: real, z: real, a: real, b: real, c: real, t: real, u: real, v: real, w: real)
    requires t == -(M(x, a) + M(y, b) + M(z, c)) && u == M(r, a) + (M(y, c) - M(z, b))
    requires v == M(r, b) + (M(z, a) - M(x, c)) && w == M(r, c) + (M(x, b) - M(y, a))
    ensures M(t, r) - (M(u, -x) + M(v, -y) + M(w, -z)) == 0.0
    ensures M(t, -x) + M(r, u) + (M(v, -z) - M(w, -y))
         == 2.0 * M(M(x, a) + M(y, b) + M(z, c), x) + M(M(r, r) - (M(x, x) + M(y, y) + M(z, z)), a)
            + 2.0 * M(r, M(y, c) - M(z, b))
  {
    SandwichReal(r, x, y, z, a, b, c, t, u, v, w);
    SandwichAxis(r, x, y, z, a, b, c, t, u, v, w);
  }

  lemma Zeros(x: real)
    ensures M(x, 0.0) == 0.0 && M(0.0, x) == 0.0
  {
  }

  lemma PureTimes(p: Quat, v: Vec3)
    ensures Times(p, Pure(v)) == Quat(-(M(p.x, v.x) + M(p.y, v.y) + M(p.z, v.z)),
                                      M(p.r, v.x) + (M(p.y, v.z) - M(p.z, v.y)),
                                      M(p.r, v.y) + (M(p.z, v.x) - M(p.x, v.z)),
                                      M(p.r, v.z) + (M(p.x, v.y) - M(p.y, v.x)))
  {
    hide M;
    Zeros(p.r);
    Zeros(p.x);
    Zeros(p.y);
    Zeros(p.z);
  }

  lemma Norm2Sum(p: Quat)
    ensures Norm2(p) == M(p.r, p.r) + (M(p.x, p.x) + M(p.y, p.y) + M(p.z, p.z))
  {
  }

  function TurnedVec(v: Vec3): Vec3 {
    Vec3(v.y, v.z, v.x)
  }

  lemma Undivided(x: real, y: real)
    requires y != 0.0
    ensures M(x / y, y) == x
  {
  }

  lemma RotateFirst(p: Quat, v: Vec3)
    requires Norm2(p) != 0.0
    ensures M(Rotate(p, v).x, Norm2(p)) == Sandwich(p, Pure(v)).x && Sandwich(p, Pure(v)).r == 0.0
  {
    hide M;
    var t := Times(p, Pure(v));
    PureTimes(p, v);
    Norm2Sum(p);
    SandwichSums(p.r, p.x, p.y, p.z, v.x, v.y, v.z, t.r, t.x, t.y, t.z);
    Undivided(Sandwich(p, Pure(v)).x, Norm2(p));
  }

  lemma RotateTurned(p: Quat, v: Vec3)
    requires Norm2(p) != 0.0
    ensures Norm2(Turned(p)) == Norm2(p)
    ensures Rotate(Turned(p), TurnedVec(v)) == TurnedVec(Rotate(p, v))
  {
    hide M;
    Norm2Sum(p);
    Norm2Sum(Turned(p));
  }

  lemma SandwichTurned(p: Quat, v: Vec3)
    ensures Sandwich(Turned(p), Pure(TurnedVec(v))) == Turned(Sandwich(p, Pure(v)))
  {
    hide Times;
    TimesTurned(p, Pure(v));
    TimesTurned(Times(p, Pure(v)), Conjugate(p));
  }

  /** Transform's closed formula is the rotation p * v * p^-1, which is p * v * conj(p) over the squared length. */
  lemma RotateIsSandwich(p: Quat, v: Vec3)
    requires Norm2(p) != 0.0
    ensures Scaled(Pure(Rotate(p, v)), Norm2(p)) == Sandwich(p, Pure(v))
  {
    hide M, Sandwich, Rotate, Norm2;
    var p1, v1 := Turned(p), TurnedVec(v);
    RotateFirst(p, v);
    RotateTurned(p, v);
    SandwichTurned(p, v);
    RotateFirst(p1, v1);
    RotateTurned(p1, v1);
    SandwichTurned(p1, v1);
    RotateFirst(Turned(p1), TurnedVec(v1));
    Zeros(Norm2(p));
  }

  lemma UnitRotates(p: Quat, v: Vec3)
    requires Norm2(p) == 1.0
    ensures Pure(Rotate(p, v)) == Sandwich(p, Pure(v))
  {
    hide M, Sandwich, Rotate, Norm2, Scaled;
    RotateIsSandwich(p, v);
    ScaledByOne(Pure(Rotate(p, v)));
  }

  lemma Twice(x: real)
    ensures M(x, 2.0) == 2.0 * x
  {
  }

  lemma DotSum(p: Quat, q: Quat)
    ensures Dot(p, q) == M(p.r, q.r) + (M(p.x, q.x) + M(p.y, q.y) + M(p.z, q.z))
  {
  }

  lemma NegatedFactors(x: real, q: Quat)
    ensures M(x, -q.x) == -M(x, q.x) && M(x, -q.y) == -M(x, q.y) && M(x, -q.z) == -M(x, q.z)
  {
  }

  /** Twice the dual part times the conjugate: the translation, and a real part. */
  lemma TranslationIs(a: Dual)
    ensures Scaled(Times(a.dual, Conjugate(a.re)), 2.0)
         == Plus(Pure(Translation(a)), Scaled(ONE, 2.0 * Dot(a.dual, a.re)))
  {
    hide M, Dot;
    var d, q := a.dual, Times(a.dual, Conjugate(a.re));
    NegatedFactors(d.r, a.re);
    NegatedFactors(d.x, a.re);
    NegatedFactors(d.y, a.re);
    NegatedFactors(d.z, a.re);
    DotSum(d, a.re);
    Twice(q.r);
    Twice(q.x);
    Twice(q.y);
    Twice(q.z);
    ScaledOne(2.0 * Dot(d, a.re));
  }

  lemma ScaledOne(k: real)
    ensures Scaled(ONE, k) == Quat(k, 0.0, 0.0, 0.0)
  {
  }

  // ---------- unit dual quaternions are rigid motions ----------

  lemma SandwichPlus(p: Quat, q: Quat, s: Quat)
    ensures Sandwich(p, Plus(q, s)) == Plus(Sandwich(p, q), Sandwich(p, s))
  {
    hide Times, Plus;
    TimesPlus(q, s, p);
    PlusTimes(Times(p, q), Times(p, s), Conjugate(p));
  }

  lemma SandwichScaled(p: Quat, q: Quat, k: real)
    ensures Sandwich(p, Scaled(q, k)) == Scaled(Sandwich(p, q), k)
  {
    hide Times, Scaled;
    TimesScaled(p, q, k);
    ScaledTimes(Times(p, q), Conjugate(p), k);
  }

  /** A real number passes through a unit sandwich unchanged. */
  lemma SandwichReals(p: Quat, k: real)
    requires Norm2(p) == 1.0
    ensures Sandwich(p, Scaled(ONE, k)) == Scaled(ONE, k)
  {
    hide Times, Scaled, Dot;
    SandwichScaled(p, ONE, k);
    TimesOne(p);
    TimesConjugate(p);
    ScaledByOne(ONE);
  }

  lemma ScaledByOne(p: Quat)
    ensures Scaled(p, 1.0) == p
  {
  }

  lemma SandwichTimes(p: Quat, q: Quat, s: Quat)
    ensures Sandwich(Times(p, q), s) == Sandwich(p, Sandwich(q, s))
  {
    hide Times;
    var p', q' := Conjugate(p), Conjugate(q);
    ConjugateTimes(p, q);
    calc {
      Times(Times(Times(p, q), s), Times(q', p'));
      { TimesAssoc(p, q, s); }
      Times(Times(p, Times(q, s)), Times(q', p'));
      { TimesAssoc(Times(p, Times(q, s)), q', p'); }
      Times(Times(Times(p, Times(q, s)), q'), p');
      { TimesAssoc(p, Times(q, s), q'); }
      Times(Times(p, Times(Times(q, s), q')), p');
    }
  }

  lemma UnitTimes(a: Quat, b: Quat)
    ensures Scaled(ONE, Norm2(Times(a, b))) == Scaled(ONE, M(Norm2(a), Norm2(b)))
  {
    hide Times, Scaled, Norm2, Conjugate, M;
    var ab, ca, cb := Times(a, b), Conjugate(a), Conjugate(b);
    calc {
      Scaled(ONE, Norm2(ab));
      { NormConjugate(ab); ConjugateTimes(a, b); }
      Times(ab, Times(cb, ca));
      { TimesAssoc(ab, cb, ca); TimesAssoc(a, b, cb); }
      Times(Times(a, Times(b, cb)), ca);
      { NormConjugate(b); TimesScaled(a, ONE, Norm2(b)); TimesOne(a); }
      Times(Scaled(a, Norm2(b)), ca);
      { ScaledTimes(a, ca, Norm2(b)); NormConjugate(a); }
      Scaled(Scaled(ONE, Norm2(a)), Norm2(b));
      { ScaledTwice(Norm2(a), Norm2(b)); }
      Scaled(ONE, M(Norm2(a), Norm2(b)));
    }
  }

  lemma NormConjugate(p: Quat)
    ensures Times(p, Conjugate(p)) == Scaled(ONE, Norm2(p)) && Times(Conjugate(p), p) == Scaled(ONE, Norm2(p))
  {
    hide Times, Scaled, Dot;
    TimesConjugate(p);
  }

  lemma ScaledTwice(x: real, y: real)
    ensures Scaled(Scaled(ONE, x), y) == Scaled(ONE, M(x, y))
  {
  }

  /** The norm is multiplicative. */
  lemma NormTimes(a: Quat, b: Quat)
    ensures Norm2(Times(a, b)) == M(Norm2(a), Norm2(b))
  {
    hide Times, Norm2, M, Scaled;
    UnitTimes(a, b);
    ScaledOne(Norm2(Times(a, b)));
    ScaledOne(M(Norm2(a), Norm2(b)));
  }

  lemma ProductUnit(a: Dual, b: Dual)
    requires Unit(a) && Unit(b)
    ensures Unit(Product(a, b))
  {
    hide Norm2, Times;
    NormTimes(a.re, b.re);
  }

  /** What Transform does, as products: r * v * r^-1 + 2 * d * r^-1, up to a real part. */
  lemma TransformIs(a: Dual, v: Vec3)
    requires Unit(a)
    ensures Plus(Pure(Transform(a, v)), Scaled(ONE, 2.0 * Dot(a.dual, a.re)))
         == Plus(Sandwich(a.re, Pure(v)), Scaled(Times(a.dual, Conjugate(a.re)), 2.0))
  {
    hide Sandwich, Times, Scaled, Rotate, Translation, Dot;
    UnitRotates(a.re, v);
    TranslationIs(a);
    var t := Translation(a);
    assert Pure(Transform(a, v)) == Plus(Pure(Rotate(a.re, v)), Pure(t));
    PlusAssoc(Pure(Rotate(a.re, v)), Pure(t), Scaled(ONE, 2.0 * Dot(a.dual, a.re)));
  }

  /**
   * A point v is the dual quaternion 1 + v e. Transform is the product a (1 + v e) a', where a' has the conjugate of
   * the real part and the negated conjugate of the dual part.
   */
  lemma TransformIsProduct(a: Dual, v: Vec3)
    requires Unit(a)
    ensures Product(Product(a, Dual(ONE, Pure(v))), Dual(Conjugate(a.re), Scaled(Conjugate(a.dual), -1.0)))
         == Dual(ONE, Pure(Transform(a, v)))
  {
    hide Times, Scaled, Rotate, Translation, Norm2, Dot, Plus, Transform;
    var r, d, p := a.re, a.dual, Pure(v);
    TimesOne(r);
    TimesOne(d);
    UnitConjugate(r);
    PlusTimes(Times(r, p), d, Conjugate(r));
    TimesScaled(r, Conjugate(d), -1.0);
    ConjugateTimes(d, Conjugate(r));
    ConjugateTwice(r);
    TranslationIs(a);
    ScaledOne(2.0 * Dot(d, r));
    TwiceImaginary(Times(d, Conjugate(r)), Translation(a), 2.0 * Dot(d, r));
    UnitRotates(r, v);
    MovedSums(Scaled(Times(r, Conjugate(d)), -1.0), Sandwich(r, p), Times(d, Conjugate(r)), a, v);
  }

  lemma ConjugateTwice(p: Quat)
    ensures Conjugate(Conjugate(p)) == p
  {
  }

  lemma TwiceImaginary(q: Quat, t: Vec3, s: real)
    requires Scaled(q, 2.0) == Plus(Pure(t), Quat(s, 0.0, 0.0, 0.0))
    ensures Plus(Scaled(Conjugate(q), -1.0), q) == Pure(t)
  {
    Twice(q.x);
    Twice(q.y);
    Twice(q.z);
  }

  lemma MovedSums(x: Quat, y: Quat, z: Quat, a: Dual, v: Vec3)
    requires Norm2(a.re) != 0.0 && y == Pure(Rotate(a.re, v)) && Plus(x, z) == Pure(Translation(a))
    ensures Plus(x, Plus(y, z)) == Pure(Transform(a, v))
  {
    hide Rotate, Translation;
  }

  lemma PlusAssoc(p: Quat, q: Quat, s: Quat)
    ensures Plus(Plus(p, q), s) == Plus(p, Plus(q, s))
  {
  }

  /** Twice the dual part of a product, times its conjugate: the translation of b rotated by a, and that of a. */
  lemma ProductTranslation(a: Dual, b: Dual)
    requires Unit(a) && Unit(b)
    ensures var p := Product(a, b);
            (Times(p.dual, Conjugate(p.re))
             == Plus(Sandwich(a.re, Times(b.dual, Conjugate(b.re))), Times(a.dual, Conjugate(a.re))))
  {
    hide Times, Plus, Norm2, Scaled;
    var ra, rb, ca, cb := a.re, b.re, Conjugate(a.re), Conjugate(b.re);
    ConjugateTimes(ra, rb);
    PlusTimes(Times(ra, b.dual), Times(a.dual, rb), Times(cb, ca));
    TimesAssoc(Times(ra, b.dual), cb, ca);
    TimesAssoc(ra, b.dual, cb);
    TimesAssoc(a.dual, rb, Times(cb, ca));
    TimesAssoc(rb, cb, ca);
    UnitConjugate(rb);
    TimesOne(ca);
  }

  lemma UnitConjugate(p: Quat)
    requires Norm2(p) == 1.0
    ensures Times(p, Conjugate(p)) == ONE && Times(Conjugate(p), p) == ONE
  {
    hide Times, Dot, Scaled;
    TimesConjugate(p);
    ScaledByOne(ONE);
  }

  /** The product of two unit dual quaternions acts as their composition. */
  lemma ProductComposes(a: Dual, b: Dual, v: Vec3)
    requires Unit(a) && Unit(b)
    ensures Unit(Product(a, b)) && Transform(Product(a, b), v) == Transform(a, Transform(b, v))
  {
    hide Times, Scaled, Norm2, Dot, Plus, Transform, Sandwich, Product, Pure;
    var p, w := Product(a, b), Transform(b, v);
    ProductUnit(a, b);
    TransformIs(p, v);
    TransformIs(b, v);
    TransformIs(a, w);
    ComposeSums(a, b, v, w);
  }

  lemma ComposeSums(a: Dual, b: Dual, v: Vec3, w: Vec3)
    requires Unit(a) && Unit(b) && Unit(Product(a, b)) && w == Transform(b, v)
    ensures Transform(Product(a, b), v) == Transform(a, w)
  {
    hide Times, Scaled, Norm2, Dot, Plus, Transform, Sandwich, Pure;
    var p := Product(a, b);
    var db, da := Times(b.dual, Conjugate(b.re)), Times(a.dual, Conjugate(a.re));
    var sb, sa, sp := 2.0 * Dot(b.dual, b.re), 2.0 * Dot(a.dual, a.re), 2.0 * Dot(p.dual, p.re);
    // r_a (w + s_b) r_a^-1 computed in two ways
    TransformIs(b, v);
    SandwichPlus(a.re, Pure(w), Scaled(ONE, sb));
    SandwichReals(a.re, sb);
    SandwichPlus(a.re, Sandwich(b.re, Pure(v)), Scaled(db, 2.0));
    SandwichScaled(a.re, db, 2.0);
    SandwichTimes(a.re, b.re, Pure(v));
    TransformIs(a, w);
    TransformIs(p, v);
    ProductTranslation(a, b);
    ScaledPlus(Sandwich(a.re, db), da, 2.0);
    Rearrange(Sandwich(a.re, Pure(w)), Scaled(ONE, sb), Sandwich(p.re, Pure(v)), Scaled(Sandwich(a.re, db), 2.0),
              Scaled(da, 2.0), Pure(Transform(a, w)), Scaled(ONE, sa), Pure(Transform(p, v)), Scaled(ONE, sp));
    ScaledOne(sa);
    ScaledOne(sb);
    ScaledOne(sp);
    PureEqual(Transform(a, w), Transform(p, v), sa, sb, sp);
  }

  lemma ScaledPlus(p: Quat, q: Quat, k: real)
    ensures Scaled(Plus(p, q), k) == Plus(Scaled(p, k), Scaled(q, k))
  {
  }

  lemma Rearrange(aw: Quat, b: Quat, pv: Quat, ab: Quat, da: Quat, ta: Quat, sa: Quat, tp: Quat, sp: Quat)
    requires Plus(aw, b) == Plus(pv, ab)
    requires Plus(ta, sa) == Plus(aw, da)
    requires Plus(tp, sp) == Plus(pv, Plus(ab, da))
    ensures Plus(tp, sp) == Plus(ta, Plus(sa, b))
  {
  }

  lemma PureEqual(v: Vec3, w: Vec3, x: real, y: real, z: real)
    requires Plus(Pure(w), Quat(z, 0.0, 0.0, 0.0))
          == Plus(Pure(v), Plus(Quat(x, 0.0, 0.0, 0.0), Quat(y, 0.0, 0.0, 0.0)))
    ensures v == w
  {
  }

  // ---------- lists ----------

  function ProductAll(ds: seq<Dual>): Dual {
    if ds == [] then IDENTITY else Product(ds[0], ProductAll(ds[1..]))
  }

  /** The members applied to v, the last one first. */
  function TransformAll(ds: seq<Dual>, v: Vec3): Vec3
    requires forall d :: d in ds ==> Unit(d)
  {
    if ds == [] then v
    else
      assert ds[0] in ds;
      UnitRegular(ds[0]);
      Transform(ds[0], TransformAll(ds[1..], v))
  }

  lemma UnitRegular(a: Dual)
    ensures Unit(a) ==> Norm2(a.re) != 0.0
  {
    hide Norm2;
  }

  lemma IdentityTransforms(v: Vec3)
    ensures Unit(IDENTITY) && Transform(IDENTITY, v) == v
  {
    hide Times, Rotate, Translation, Norm2, Dot, Scaled, M;
    NormOne();
    UnitRotates(ONE, v);
    ConjugateOne();
    TimesOne(Pure(v));
    TranslationIs(IDENTITY);
    ZeroTimes();
    ScaledOne(2.0 * Dot(ZERO, ONE));
    assert Pure(Vec3(0.0, 0.0, 0.0)) == ZERO;
    PureAndReal(Vec3(0.0, 0.0, 0.0), Translation(IDENTITY), 2.0 * Dot(ZERO, ONE));
  }

  lemma NormOne()
    ensures Norm2(ONE) == 1.0
  {
    Zeros(0.0);
    assert ONE.r * ONE.r == 1.0;
  }

  lemma ConjugateOne()
    ensures Conjugate(ONE) == ONE
  {
  }

  lemma ZeroTimes()
    ensures Scaled(Times(ZERO, Conjugate(ONE)), 2.0) == ZERO
  {
    hide Times, M;
    ConjugateOne();
    TimesOne(ZERO);
    Zeros(2.0);
  }

  lemma PureAndReal(t: Vec3, w: Vec3, s: real)
    requires Pure(t) == Plus(Pure(w), Quat(s, 0.0, 0.0, 0.0))
    ensures t == w
  {
  }

  lemma {:induction false} ListComposes(ds: seq<Dual>, v: Vec3)
    requires forall d :: d in ds ==> Unit(d)
    ensures Unit(ProductAll(ds)) && Transform(ProductAll(ds), v) == TransformAll(ds, v)
  {
    hide Product, Transform, Norm2;
    if ds == [] {
      IdentityTransforms(v);
    } else {
      assert ds[0] in ds;
      ListComposes(ds[1..], v);
      ProductComposes(ds[0], ProductAll(ds[1..]), v);
    }
  }

  // ---------- distances ----------

  function Length2(v: Vec3): real {
    M(v.x, v.x) + M(v.y, v.y) + M(v.z, v.z)
  }

  /** Points keep their distances, whatever the length of the real part. */
  lemma PreservesDistances(a: Dual, v: Vec3, w: Vec3)
    requires Norm2(a.re) != 0.0
    ensures Length2(VMinus(Transform(a, v), Transform(a, w))) == Length2(VMinus(v, w))
  {
    hide Rotate, Translation, Norm2, Length2;
    RotateMinus(a.re, v, w);
    assert VMinus(Transform(a, v), Transform(a, w)) == VMinus(Rotate(a.re, v), Rotate(a.re, w));
    RotateKeepsLength(a.re, VMinus(v, w));
  }

  lemma RotateKeepsLength(p: Quat, v: Vec3)
    requires Norm2(p) != 0.0
    ensures Length2(Rotate(p, v)) == Length2(v)
  {
    hide Times, Rotate, Norm2, Length2, M, Scaled;
    var n, l, l' := Norm2(p), Length2(v), Length2(Rotate(p, v));
    RotateIsSandwich(p, v);
    NormTimes(Times(p, Pure(v)), Conjugate(p));
    NormTimes(p, Pure(v));
    NormOfConjugate(p);
    PureNorm(v);
    NormScaled(Pure(Rotate(p, v)), n);
    PureNorm(Rotate(p, v));
    SquareCancels(n, l', l);
  }

  lemma SquareCancels(n: real, x: real, y: real)
    requires n != 0.0 && M(M(x, n), n) == M(M(n, y), n)
    ensures x == y
  {
    hide M;
    MCancels(M(x, n), M(n, y), n);
    FactorsSwap(n, y);
    MCancels(x, y, n);
  }

  lemma FactorsSwap(x: real, y: real)
    ensures M(x, y) == M(y, x)
  {
  }

  lemma MCancels(x: real, y: real, k: real)
    requires k != 0.0 && M(x, k) == M(y, k)
    ensures x == y
  {
    assert (x - y) * k == 0.0;
  }

  lemma Ones(x: real)
    ensures M(1.0, x) == x && M(x, 1.0) == x
  {
  }

  lemma NormScaled(q: Quat, k: real)
    ensures Norm2(Scaled(q, k)) == M(M(Norm2(q), k), k)
  {
    hide M, Dot, Scaled;
    DotScaled(q, q, k);
    DotScaled(q, Scaled(q, k), k);
  }

  lemma PureNorm(v: Vec3)
    ensures Norm2(Pure(v)) == Length2(v)
  {
  }

  lemma NormOfConjugate(p: Quat)
    ensures Norm2(Conjugate(p)) == Norm2(p)
  {
  }

  lemma RotateMinus(p: Quat, v: Vec3, w: Vec3)
    requires Norm2(p) != 0.0
    ensures Rotate(p, VMinus(v, w)) == VMinus(Rotate(p, v), Rotate(p, w))
  {
    hide Sandwich, Rotate, Norm2, Scaled;
    var d := VMinus(v, w);
    RotateIsSandwich(p, d);
    RotateIsSandwich(p, w);
    RotateIsSandwich(p, v);
    assert Plus(Pure(d), Pure(w)) == Pure(v);
    SandwichPlus(p, Pure(d), Pure(w));
    ScaledPlus(Pure(Rotate(p, d)), Pure(Rotate(p, w)), Norm2(p));
    ScaledCancels(Pure(Rotate(p, v)), Plus(Pure(Rotate(p, d)), Pure(Rotate(p, w))), Norm2(p));
  }

  lemma ScaledCancels(p: Quat, q: Quat, k: real)
    requires k != 0.0 && Scaled(p, k) == Scaled(q, k)
    ensures p == q
  {
    hide M;
    MCancels(p.r, q.r, k);
    MCancels(p.x, q.x, k);
    MCancels(p.y, q.y, k);
    MCancels(p.z, q.z, k);
  }

  // ---------- translation ----------

  /** GetTranslation undoes SetTranslation. */
  lemma TranslationUndo(a: Dual, t: Vec3)
    requires Unit(a)
    ensures Translation(WithTranslation(a, t)) == t && WithTranslation(a, t).re == a.re
  {
    hide Times, Scaled, Norm2, Translation, Dot, Plus, M;
    var b, h := WithTranslation(a, t), Quat(0.0, 0.5 * t.x, 0.5 * t.y, 0.5 * t.z);
    TranslationIs(b);
    TimesAssoc(h, a.re, Conjugate(a.re));
    UnitConjugate(a.re);
    TimesOne(h);
    Doubled(t);
    ScaledOne(2.0 * Dot(b.dual, b.re));
    PureAndReal(t, Translation(b), 2.0 * Dot(b.dual, b.re));
  }

  lemma Doubled(t: Vec3)
    ensures Scaled(Quat(0.0, 0.5 * t.x, 0.5 * t.y, 0.5 * t.z), 2.0) == Pure(t)
  {
    Twice(0.5 * t.x);
    Twice(0.5 * t.y);
    Twice(0.5 * t.z);
  }

  // ---------- the inverse ----------

  lemma MinusTimes(p: Quat, q: Quat, s: Quat)
    ensures Times(Minus(p, q), s) == Minus(Times(p, s), Times(q, s))
    ensures Times(s, Minus(p, q)) == Minus(Times(s, p), Times(s, q))
  {
    hide Times;
    PlusTimes(Minus(p, q), q, s);
    TimesPlus(Minus(p, q), q, s);
    assert Plus(Minus(p, q), q) == p;
  }

  /** A quaternion times the conjugate of another, both ways round, add up to twice their dot product. */
  lemma ConjugatePairs(p: Quat, q: Quat)
    ensures Plus(Times(p, Conjugate(q)), Times(q, Conjugate(p))) == Scaled(ONE, 2.0 * Dot(p, q))
    ensures Plus(Times(Conjugate(p), q), Times(Conjugate(q), p)) == Scaled(ONE, 2.0 * Dot(p, q))
  {
    hide M, Dot;
    NegatedFactors(p.r, q);
    NegatedFactors(p.x, q);
    NegatedFactors(p.y, q);
    NegatedFactors(p.z, q);
    NegatedFactors(q.r, p);
    NegatedFactors(q.x, p);
    NegatedFactors(q.y, p);
    NegatedFactors(q.z, p);
    NegatedProducts(p.x, q);
    NegatedProducts(p.y, q);
    NegatedProducts(p.z, q);
    NegatedProducts(q.x, p);
    NegatedProducts(q.y, p);
    NegatedProducts(q.z, p);
    Swapped(p, q);
    DotSum(p, q);
    ScaledOne(2.0 * Dot(p, q));
  }

  /** The real part of the inverse, on both sides. */
  lemma InverseReal(p: Quat, k: real)
    requires Norm2(p) > 0.0 && k == 1.0 / Norm2(p)
    ensures var c := Scaled(Conjugate(p), k); Times(p, c) == ONE && Times(c, p) == ONE
  {
    hide Times, Norm2, M, Scaled;
    NormConjugate(p);
    TimesScaled(p, Conjugate(p), k);
    ScaledTimes(Conjugate(p), p, k);
    ScaledTwice(Norm2(p), k);
    Reciprocal(Norm2(p), k);
    ScaledByOne(ONE);
  }

  lemma Reciprocal(x: real, k: real)
    requires x > 0.0 && k == 1.0 / x
    ensures M(x, k) == 1.0
  {
  }

  /** The dual part: what the pairs of conjugates add up to is what the correction takes away. */
  lemma InverseDual(p: Quat, q: Quat, k: real, g: real)
    requires Norm2(p) > 0.0 && k == 1.0 / Norm2(p) && g == M(2.0 * k, Dot(p, q))
    ensures var c := Scaled(Conjugate(p), k);
            var d := Minus(Scaled(Conjugate(q), k), Scaled(c, g));
            && Plus(Times(p, d), Times(q, c)) == ZERO
            && Plus(Times(c, q), Times(d, p)) == ZERO
  {
    hide Times, Norm2, M, Scaled, Dot, Plus, Minus, Conjugate;
    var cp, cq := Conjugate(p), Conjugate(q);
    var c, e := Scaled(cp, k), Scaled(cq, k);
    InverseReal(p, k);
    MinusTimes(e, Scaled(c, g), p);
    TimesScaled(p, c, g);
    ScaledTimes(c, p, g);
    TimesScaled(p, cq, k);
    TimesScaled(q, cp, k);
    ScaledTimes(cq, p, k);
    ScaledTimes(cp, q, k);
    ConjugatePairs(p, q);
    Commute(Dot(p, q), k);
    Cancels(Times(p, cq), Times(q, cp), 2.0 * Dot(p, q), k, g);
    PlusSymmetric(Times(cp, q), Times(cq, p));
    Cancels(Times(cq, p), Times(cp, q), 2.0 * Dot(p, q), k, g);
    PlusSymmetric(Times(c, q), Times(Minus(e, Scaled(c, g)), p));
  }

  lemma PlusSymmetric(x: Quat, y: Quat)
    ensures Plus(x, y) == Plus(y, x)
  {
  }

  lemma Cancels(x: Quat, y: Quat, s: real, k: real, g: real)
    requires Plus(x, y) == Scaled(ONE, s) && g == M(s, k)
    ensures Plus(Minus(Scaled(x, k), Scaled(ONE, g)), Scaled(y, k)) == ZERO
  {
    hide M;
    ScaledOne(s);
    ScaledOne(g);
    MSum(x.r, y.r, k);
    MSum(x.x, y.x, k);
    MSum(x.y, y.y, k);
    MSum(x.z, y.z, k);
    Zeros(k);
  }

  lemma Commute(s: real, k: real)
    ensures M(2.0 * k, s) == M(2.0 * s, k)
  {
  }

  lemma MSum(x: real, y: real, k: real)
    ensures M(x + y, k) == M(x, k) + M(y, k)
  {
  }

  /** GetInverse is a two-sided inverse whenever the real part is not zero. */
  lemma InverseBothSides(a: Dual)
    requires Norm2(a.re) > 0.0
    ensures Product(a, Inverse(a)) == IDENTITY && Product(Inverse(a), a) == IDENTITY
  {
    hide Times, Scaled, Dot, Norm2, Plus, Minus, Conjugate, M;
    var k := 1.0 / Norm2(a.re);
    InverseReal(a.re, k);
    InverseDual(a.re, a.dual, k, M(2.0 * k, Dot(a.re, a.dual)));
  }

  /** Exactly then: without a real part, what GetInverse gives is the identity. */
  lemma InverseIff(a: Dual)
    ensures (Product(a, Inverse(a)) == IDENTITY && Product(Inverse(a), a) == IDENTITY) <==> Norm2(a.re) > 0.0
    ensures Norm2(a.re) <= 0.0 ==> Inverse(a) == IDENTITY
  {
    hide Inverse, Times, Norm2, Product, M;
    if Norm2(a.re) > 0.0 {
      InverseBothSides(a);
    } else {
      ZeroInverse(a);
      ProductIdentity(a);
      NormOne();
    }
  }

  lemma ZeroInverse(a: Dual)
    requires Norm2(a.re) <= 0.0
    ensures Inverse(a) == IDENTITY
  {
    hide Norm2, Scaled, Dot, Conjugate, Minus, M;
  }

  lemma ProductIdentity(a: Dual)
    ensures Product(a, IDENTITY).re == a.re
  {
    hide Times, Plus;
    TimesOne(a.re);
  }

  // ---------- length and normalisation ----------

  ghost predicate IsRoot(root: real, x: real) {
    root >= 0.0 && M(root, root) == x
  }

  /** GetLength: the length of the real part, and the dual part's share along it; root is the square root. */
  function Length(a: Dual, root: real): (real, real) {
    if root == 0.0 then (0.0, 0.0) else (root, Dot(a.re, a.dual) / root)
  }

  /** Normalize; a length of zero has to be below eps. */
  function Normalized(a: Dual, eps: real, root: real): Dual
    requires eps > 0.0 || root > 0.0
  {
    if root < eps then IDENTITY
    else
      var k := 1.0 / root;
      var re, dual := Scaled(a.re, k), Scaled(a.dual, k);
      Dual(re, Minus(dual, Scaled(re, Dot(re, dual))))
  }

  lemma DotScaled(p: Quat, q: Quat, k: real)
    ensures Dot(p, Scaled(q, k)) == M(Dot(p, q), k) && Dot(Scaled(p, k), q) == M(Dot(p, q), k)
  {
    hide M, Dot;
    var s := Scaled(q, k);
    DotSum(p, q);
    DotSum(p, s);
    DotSum(Scaled(p, k), q);
    FactorOut(p.r, q.r, k);
    FactorOut(p.x, q.x, k);
    FactorOut(p.y, q.y, k);
    FactorOut(p.z, q.z, k);
    MSum(M(p.r, q.r), M(p.x, q.x) + M(p.y, q.y) + M(p.z, q.z), k);
    MSum(M(p.x, q.x) + M(p.y, q.y), M(p.z, q.z), k);
    MSum(M(p.x, q.x), M(p.y, q.y), k);
  }

  lemma FactorOut(x: real, y: real, k: real)
    ensures M(x, M(y, k)) == M(M(x, y), k) && M(M(x, k), y) == M(M(x, y), k)
  {
  }

  lemma DotMinus(p: Quat, q: Quat, s: Quat)
    ensures Dot(p, Minus(q, s)) == Dot(p, q) - Dot(p, s)
  {
    hide M, Dot;
    DotSum(p, q);
    DotSum(p, s);
    DotSum(p, Minus(q, s));
    MDifference(p.r, q.r, s.r);
    MDifference(p.x, q.x, s.x);
    MDifference(p.y, q.y, s.y);
    MDifference(p.z, q.z, s.z);
  }

  lemma MDifference(p: real, q: real, s: real)
    ensures M(p, q - s) == M(p, q) - M(p, s)
  {
  }

  /** A long enough dual quaternion is normalised to length (1, 0). */
  lemma NormalizedLength(a: Dual, eps: real, root: real)
    requires IsRoot(root, Norm2(a.re)) && root > 0.0 && root >= eps
    ensures var n := Normalized(a, eps, root); Unit(n) && Dot(n.re, n.dual) == 0.0 && Length(n, 1.0) == (1.0, 0.0)
  {
    hide Dot, Scaled, Minus, M;
    var k := 1.0 / root;
    var re, dual := Scaled(a.re, k), Scaled(a.dual, k);
    DotScaled(re, a.re, k);
    DotScaled(a.re, a.re, k);
    RootCancels(root, k);
    var s := Dot(re, dual);
    DotMinus(re, dual, Scaled(re, s));
    DotScaled(re, re, s);
    Ones(s);
  }

  /** A value is its length times its normalised value: (root + l e) (n.re + n.dual e), where e * e is zero. */
  lemma NormalizedTimesLength(a: Dual, eps: real, root: real)
    requires root > 0.0 && root >= eps
    ensures (var n, l := Normalized(a, eps, root), Length(a, root);
             && l.0 == root && Scaled(n.re, root) == a.re
             && Plus(Scaled(n.dual, root), Scaled(n.re, l.1)) == a.dual)
  {
    hide Dot, M, Scaled, Minus, Plus;
    var k := 1.0 / root;
    var re, dual, l := Scaled(a.re, k), Scaled(a.dual, k), Dot(a.re, a.dual) / root;
    ScaledBack(a.re, root, k);
    ScaledBack(a.dual, root, k);
    DotScaled(a.re, a.dual, k);
    DotScaled(a.re, dual, k);
    LengthShare(Dot(a.re, a.dual), root, k, l);
    TakenAndGiven(dual, re, Dot(re, dual), root, l);
  }

  lemma ScaledBack(p: Quat, root: real, k: real)
    requires root > 0.0 && k == 1.0 / root
    ensures Scaled(Scaled(p, k), root) == p
  {
    BackAgain(p.r, root, k);
    BackAgain(p.x, root, k);
    BackAgain(p.y, root, k);
    BackAgain(p.z, root, k);
  }

  lemma BackAgain(x: real, root: real, k: real)
    requires root > 0.0 && k == 1.0 / root
    ensures M(M(x, k), root) == x
  {
    assert k * root == 1.0;
    assert x * k * root == x * (k * root);
  }

  lemma LengthShare(d: real, root: real, k: real, l: real)
    requires root > 0.0 && k == 1.0 / root && l == d / root
    ensures M(M(M(d, k), k), root) == l
  {
    BackAgain(M(d, k), root, k);
  }

  /** What is taken from q, a multiple of p, is given back. */
  lemma TakenAndGiven(q: Quat, p: Quat, s: real, root: real, l: real)
    requires M(s, root) == l
    ensures Plus(Scaled(Minus(q, Scaled(p, s)), root), Scaled(p, l)) == Scaled(q, root)
  {
    GivenBack(q.r, p.r, s, root, l);
    GivenBack(q.x, p.x, s, root, l);
    GivenBack(q.y, p.y, s, root, l);
    GivenBack(q.z, p.z, s, root, l);
  }

  lemma GivenBack(q: real, p: real, s: real, root: real, l: real)
    requires M(s, root) == l
    ensures M(q - M(p, s), root) + M(p, l) == M(q, root)
  {
    assert (q - p * s) * root == q * root - p * (s * root);
  }

  lemma RootCancels(root: real, k: real)
    requires root > 0.0 && k == 1.0 / root
    ensures M(M(M(root, root), k), k) == 1.0
  {
    assert root * k == 1.0;
    assert M(M(M(root, root), k), k) == (root * k) * (root * k);
  }

  lemma RootOfOne(root: real)
    requires IsRoot(root, 1.0)
    ensures root == 1.0
  {
    if root != 1.0 {
      SquareNotOne(root);
    }
  }

  lemma SquareNotOne(x: real)
    requires x >= 0.0 && x != 1.0
    ensures M(x, x) != 1.0
  {
    if x > 1.0 {
      assert x * (x - 1.0) > 0.0;
    } else {
      assert x * (1.0 - x) >= 0.0;
    }
  }

  /**
   * Normalising again changes nothing exactly if eps is at most 1, or the value was too short anyway, or its real
   * part is a positive number and its dual part a number.
   */
  lemma NormalizeTwiceIff(a: Dual, eps: real, root: real, root': real)
    requires (eps > 0.0 || root > 0.0) && IsRoot(root, Norm2(a.re))
    requires IsRoot(root', Norm2(Normalized(a, eps, root).re))
    ensures root' == 1.0
    ensures Normalized(Normalized(a, eps, root), eps, root') == Normalized(a, eps, root)
       <==> eps <= 1.0 || root < eps || (a.re == Quat(root, 0.0, 0.0, 0.0) && a.dual == Quat(a.dual.r, 0.0, 0.0, 0.0))
  {
    hide Dot, Norm2, Scaled, Minus, M, IsRoot;
    var n := Normalized(a, eps, root);
    if root < eps {
      NormOne();
      ZeroDot();
    } else {
      NormalizedLength(a, eps, root);
      NormalizedToIdentityIff(a, eps, root);
    }
    assert Norm2(n.re) == 1.0 && Dot(n.re, n.dual) == 0.0;
    RootOfOne(root');
    NormalizedUnit(n, eps);
  }

  /** Which values are normalised to the identity. */
  lemma NormalizedToIdentityIff(a: Dual, eps: real, root: real)
    requires root > 0.0 && root >= eps
    ensures Normalized(a, eps, root) == IDENTITY
       <==> a.re == Quat(root, 0.0, 0.0, 0.0) && a.dual == Quat(a.dual.r, 0.0, 0.0, 0.0)
  {
    hide Dot, M, Scaled, Minus;
    var k := 1.0 / root;
    var re, dual := Scaled(a.re, k), Scaled(a.dual, k);
    ScaledOneIff(a.re, root, k);
    if re == ONE {
      OneRemoves(dual);
      ScaledRealIff(a.dual, root, k);
    }
  }

  /** Dividing by the root gives one only for the root itself. */
  lemma ScaledOneIff(p: Quat, root: real, k: real)
    requires root > 0.0 && k == 1.0 / root
    ensures Scaled(p, k) == ONE <==> p == Quat(root, 0.0, 0.0, 0.0)
  {
    hide M;
    Divided(p.r, root, k);
    Divided(p.x, root, k);
    Divided(p.y, root, k);
    Divided(p.z, root, k);
  }

  lemma ScaledRealIff(p: Quat, root: real, k: real)
    requires root > 0.0 && k == 1.0 / root
    ensures Scaled(p, k) == Quat(Scaled(p, k).r, 0.0, 0.0, 0.0) <==> p == Quat(p.r, 0.0, 0.0, 0.0)
  {
    hide M;
    Divided(p.x, root, k);
    Divided(p.y, root, k);
    Divided(p.z, root, k);
  }

  lemma Divided(x: real, root: real, k: real)
    requires root > 0.0 && k == 1.0 / root
    ensures (M(x, k) == 1.0 <==> x == root) && (M(x, k) == 0.0 <==> x == 0.0)
  {
    assert k * root == 1.0 && (x * k) * root == x;
  }

  /** What is orthogonal to one is the imaginary part. */
  lemma OneRemoves(p: Quat)
    ensures Minus(p, Scaled(ONE, Dot(ONE, p))) == Quat(0.0, p.x, p.y, p.z)
  {
    hide M, Dot, Scaled;
    DotSum(ONE, p);
    Ones(p.r);
    Zeros(p.x);
    Zeros(p.y);
    Zeros(p.z);
    ScaledOne(p.r);
  }

  /** With eps == 2, the rotation by half a turn that has length 2 is not left alone. */
  lemma NormalizeTwiceFails()
    ensures (var a := Dual(Quat(0.0, 2.0, 0.0, 0.0), ZERO);
             && IsRoot(2.0, Norm2(a.re)) && IsRoot(1.0, Norm2(Normalized(a, 2.0, 2.0).re))
             && Normalized(Normalized(a, 2.0, 2.0), 2.0, 1.0) != Normalized(a, 2.0, 2.0))
  {
    hide Norm2, M, Dot, Scaled, Minus, IsRoot, Normalized;
    var a := Dual(Quat(0.0, 2.0, 0.0, 0.0), ZERO);
    Roots(a.re);
    NormalizedLength(a, 2.0, 2.0);
    NormalizeTwiceIff(a, 2.0, 2.0, 1.0);
  }

  lemma Roots(p: Quat)
    requires p == Quat(0.0, 2.0, 0.0, 0.0)
    ensures IsRoot(2.0, Norm2(p)) && IsRoot(1.0, 1.0)
  {
    hide M;
    Norm2Sum(p);
    Zeros(0.0);
    Ones(1.0);
    Twice(2.0);
  }

  lemma ZeroDot()
    ensures Dot(ONE, ZERO) == 0.0
  {
    hide M, Dot;
    DotSum(ONE, ZERO);
    Zeros(1.0);
    Zeros(0.0);
  }

  lemma NormalizedUnit(n: Dual, eps: real)
    requires Dot(n.re, n.dual) == 0.0
    ensures Normalized(n, eps, 1.0) == if 1.0 < eps then IDENTITY else n
  {
    hide Dot, Scaled, Minus, M;
    ScaledByOne(n.re);
    ScaledByOne(n.dual);
    ScaledByZero(n.re, n.dual);
  }

  lemma ScaledByZero(p: Quat, q: Quat)
    ensures Minus(q, Scaled(p, 0.0)) == q
  {
    hide M;
    Zeros(p.r);
    Zeros(p.x);
    Zeros(p.y);
    Zeros(p.z);
  }

  // ---------- the object ----------

  class GfDualQuat {
    var re: Quat
    var dual: Quat

    function Value(): Dual
      reads this
    {
      Dual(re, dual)
    }

    constructor (re: Quat, dual: Quat)
      ensures Value() == Dual(re, dual)
    {
      this.re, this.dual := re, dual;
    }

    /** root is the square root of the real part's squared length. */
    method GetLength(root: real) returns (length: (real, real))
      requires IsRoot(root, Norm2(re))
      ensures length == Length(Value(), root)
    {
      if root == 0.0 {
        return (0.0, 0.0);
      }
      return (root, Dot(re, dual) / root);
    }

    /**
     * Leaves a unit whose dual part is orthogonal to its real part and that, times the length, is the old value; or
     * the identity if that was too short.
     */
    method Normalize(eps: real, root: real) returns (length: (real, real))
      requires (eps > 0.0 || root > 0.0) && IsRoot(root, Norm2(re))
      modifies this
      ensures length == Length(old(Value()), root)
      ensures Value() == Normalized(old(Value()), eps, root)
      ensures Unit(Value()) && Dot(re, dual) == 0.0
      ensures root < eps ==> Value() == Dual(ONE, ZERO)
      ensures root >= eps ==> length.0 == root && Scaled(re, root) == old(re)
                              && Plus(Scaled(dual, root), Scaled(re, length.1)) == old(dual)
    {
      hide M, Dot, Scaled, Minus, Plus;
      if root < eps {
        NormOne();
        ZeroDot();
      } else {
        NormalizedLength(Value(), eps, root);
        NormalizedTimesLength(Value(), eps, root);
      }
      length := GetLength(root);
      if root < eps {
        re, dual := ONE, ZERO;
      } else {
        var invRealLength := 1.0 / root;
        re := Scaled(re, invRealLength);
        dual := Scaled(dual, invRealLength);
        dual := Minus(dual, Scaled(re, Dot(re, dual)));
      }
    }

    /** Sets the dual part so that GetTranslation gives the translation back. */
    method SetTranslation(translation: Vec3)
      modifies this
      ensures Value() == WithTranslation(old(Value()), translation)
      ensures Unit(Value()) ==> Translation(Value()) == translation
    {
      hide M, Dot, Times, Translation;
      ghost var before := Value();
      dual := Times(Quat(0.0, 0.5 * translation.x, 0.5 * translation.y, 0.5 * translation.z), re);
      if Unit(before) {
        TranslationUndo(before, translation);
      }
    }

    /** operator *=: afterwards this acts as dq followed by what it was. */
    method MultiplyBy(dq: Dual)
      modifies this
      ensures Value() == Product(old(Value()), dq)
      ensures Unit(old(Value())) && Unit(dq) ==>
                Unit(Value()) && forall v :: Transform(Value(), v) == Transform(old(Value()), Transform(dq, v))
    {
      hide M, Dot, Times, Plus, Transform;
      ghost var before := Value();
      var tempReal := Times(re, dq.re);
      var tempDual := Plus(Times(re, dq.dual), Times(dual, dq.re));
      re := tempReal;
      dual := tempDual;
      if Unit(before) && Unit(dq) {
        ProductUnit(before, dq);
        forall v
          ensures Transform(Value(), v) == Transform(before, Transform(dq, v))
        {
          ProductComposes(before, dq, v);
        }
      }
    }
  }
}
