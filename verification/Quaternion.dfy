/**
 Quaternions over the reals, with the Hamilton product, conjugation and rotation as GfQuatd has them
 (pxr/base/gf/quatd.h, pxr/base/gf/quatd.cpp).
*/
module Quaternion {
  import opened Basics

  datatype Quat = Quat(r: real, x: real, y: real, z: real)

  const ONE := Quat(1.0, 0.0, 0.0, 0.0)
  const ZERO := Quat(0.0, 0.0, 0.0, 0.0)

  function M(x: real, y: real): real {
    x * y
  }

  function Plus(p: Quat, q: Quat): Quat {
    Quat(p.r + q.r, p.x + q.x, p.y + q.y, p.z + q.z)
  }

  function Minus(p: Quat, q: Quat): Quat {
    Quat(p.r - q.r, p.x - q.x, p.y - q.y, p.z - q.z)
  }

  function Scaled(p: Quat, k: real): Quat {
    Quat(M(p.r, k), M(p.x, k), M(p.y, k), M(p.z, k))
  }

  function Conjugate(p: Quat): Quat {
    Quat(p.r, -p.x, -p.y, -p.z)
  }

  function Dot(p: Quat, q: Quat): real {
    p.x * q.x + p.y * q.y + p.z * q.z + p.r * q.r
  }

  /** The Hamilton product. */
  function Times(p: Quat, q: Quat): Quat {
    Quat(M(p.r, q.r) - (M(p.x, q.x) + M(p.y, q.y) + M(p.z, q.z)),
         M(p.r, q.x) + M(q.r, p.x) + (M(p.y, q.z) - M(p.z, q.y)),
         M(p.r, q.y) + M(q.r, p.y) + (M(p.z, q.x) - M(p.x, q.z)),
         M(p.r, q.z) + M(q.r, p.z) + (M(p.x, q.y) - M(p.y, q.x)))
  }

  function Pure(v: Vec3): Quat {
    Quat(0.0, v.x, v.y, v.z)
  }

  // ---------- laws ----------

  /** The imaginary axes turned by one; products turn along, so one axis stands for all three. */
  function Turned(p: Quat): Quat {
    Quat(p.r, p.y, p.z, p.x)
  }

  lemma TimesTurned(p: Quat, q: Quat)
    ensures Times(Turned(p), Turned(q)) == Turned(Times(p, q))
  {
    hide M;
  }

  lemma AssocReal(a: real, b: real, c: real, d: real, e: real, f: real, g: real, h: real,
                  i: real, j: real, k: real, l: real,
                  p: real, q: real, r: real, s: real, t: real, u: real, v: real, w: real)
    requires p == M(a, e) - (M(b, f) + M(c, g) + M(d, h)) && q == M(a, f) + M(e, b) + (M(c, h) - M(d, g))
    requires r == M(a, g) + M(e, c) + (M(d, f) - M(b, h)) && s == M(a, h) + M(e, d) + (M(b, g) - M(c, f))
    requires t == M(e, i) - (M(f, j) + M(g, k) + M(h, l)) && u == M(e, j) + M(i, f) + (M(g, l) - M(h, k))
    requires v == M(e, k) + M(i, g) + (M(h, j) - M(f, l)) && w == M(e, l) + M(i, h) + (M(f, k) - M(g, j))
    ensures M(p, i) - (M(q, j) + M(r, k) + M(s, l)) == M(a, t) - (M(b, u) + M(c, v) + M(d, w))
  {
  }

  lemma AssocAxis(a: real, b: real, c: real, d: real, e: real, f: real, g: real, h: real,
                  i: real, j: real, k: real, l: real,
                  p: real, q: real, r: real, s: real, t: real, u: real, v: real, w: real)
    requires p == M(a, e) - (M(b, f) + M(c, g) + M(d, h)) && q == M(a, f) + M(e, b) + (M(c, h) - M(d, g))
    requires r == M(a, g) + M(e, c) + (M(d, f) - M(b, h)) && s == M(a, h) + M(e, d) + (M(b, g) - M(c, f))
    requires t == M(e, i) - (M(f, j) + M(g, k) + M(h, l)) && u == M(e, j) + M(i, f) + (M(g, l) - M(h, k))
    requires v == M(e, k) + M(i, g) + (M(h, j) - M(f, l)) && w == M(e, l) + M(i, h) + (M(f, k) - M(g, j))
    ensures M(p, j) + M(i, q) + (M(r, l) - M(s, k)) == M(a, u) + M(t, b) + (M(c, w) - M(d, v))
  {
  }

  lemma AssocFirst(p: Quat, q: Quat, s: Quat)
    ensures Times(Times(p, q), s).r == Times(p, Times(q, s)).r
    ensures Times(Times(p, q), s).x == Times(p, Times(q, s)).x
  {
    hide M;
    var t, u := Times(p, q), Times(q, s);
    AssocReal(p.r, p.x, p.y, p.z, q.r, q.x, q.y, q.z, s.r, s.x, s.y, s.z, t.r, t.x, t.y, t.z, u.r, u.x, u.y, u.z);
    AssocAxis(p.r, p.x, p.y, p.z, q.r, q.x, q.y, q.z, s.r, s.x, s.y, s.z, t.r, t.x, t.y, t.z, u.r, u.x, u.y, u.z);
  }

  lemma TimesAssoc(p: Quat, q: Quat, s: Quat)
    ensures Times(Times(p, q), s) == Times(p, Times(q, s))
  {
    hide Times;
    AssocFirst(p, q, s);
    AssocTurned(p, q, s);
    AssocTurned(Turned(p), Turned(q), Turned(s));
    AssocFirst(Turned(p), Turned(q), Turned(s));
    AssocFirst(Turned(Turned(p)), Turned(Turned(q)), Turned(Turned(s)));
  }

  lemma AssocTurned(p: Quat, q: Quat, s: Quat)
    ensures Times(Times(Turned(p), Turned(q)), Turned(s)) == Turned(Times(Times(p, q), s))
    ensures Times(Turned(p), Times(Turned(q), Turned(s))) == Turned(Times(p, Times(q, s)))
  {
    hide Times, Turned;
    TimesTurned(p, q);
    TimesTurned(Times(p, q), s);
    TimesTurned(q, s);
    TimesTurned(p, Times(q, s));
  }

  lemma PlusProducts(x: real, y: real, q: Quat)
    ensures M(x + y, q.r) == M(x, q.r) + M(y, q.r) && M(x + y, q.x) == M(x, q.x) + M(y, q.x)
    ensures M(x + y, q.y) == M(x, q.y) + M(y, q.y) && M(x + y, q.z) == M(x, q.z) + M(y, q.z)
  {
  }

  lemma Swapped(p: Quat, q: Quat)
    ensures M(p.r, q.r) == M(q.r, p.r) && M(p.r, q.x) == M(q.x, p.r)
    ensures M(p.r, q.y) == M(q.y, p.r) && M(p.r, q.z) == M(q.z, p.r)
    ensures M(p.x, q.r) == M(q.r, p.x) && M(p.x, q.x) == M(q.x, p.x)
    ensures M(p.x, q.y) == M(q.y, p.x) && M(p.x, q.z) == M(q.z, p.x)
    ensures M(p.y, q.r) == M(q.r, p.y) && M(p.y, q.x) == M(q.x, p.y)
    ensures M(p.y, q.y) == M(q.y, p.y) && M(p.y, q.z) == M(q.z, p.y)
    ensures M(p.z, q.r) == M(q.r, p.z) && M(p.z, q.x) == M(q.x, p.z)
    ensures M(p.z, q.y) == M(q.y, p.z) && M(p.z, q.z) == M(q.z, p.z)
  {
  }

  lemma PlusTimes(p: Quat, q: Quat, s: Quat)
    ensures Times(Plus(p, q), s) == Plus(Times(p, s), Times(q, s))
  {
    hide M;
    PlusProducts(p.r, q.r, s);
    PlusProducts(p.x, q.x, s);
    PlusProducts(p.y, q.y, s);
    PlusProducts(p.z, q.z, s);
    Swapped(p, s);
    Swapped(q, s);
    Swapped(Plus(p, q), s);
  }

  lemma ScaledProducts(x: real, k: real, q: Quat)
    ensures M(M(x, k), q.r) == M(M(x, q.r), k) && M(M(x, k), q.x) == M(M(x, q.x), k)
    ensures M(M(x, k), q.y) == M(M(x, q.y), k) && M(M(x, k), q.z) == M(M(x, q.z), k)
  {
  }

  lemma ScaledSum(a: real, b: real, c: real, d: real, k: real)
    ensures M(a - (b + c + d), k) == M(a, k) - (M(b, k) + M(c, k) + M(d, k))
    ensures M(a + b + (c - d), k) == M(a, k) + M(b, k) + (M(c, k) - M(d, k))
  {
  }

  lemma ScaledTimes(p: Quat, q: Quat, k: real)
    ensures Times(Scaled(p, k), q) == Scaled(Times(p, q), k)
  {
    hide M;
    ScaledProducts(p.r, k, q);
    ScaledProducts(p.x, k, q);
    ScaledProducts(p.y, k, q);
    ScaledProducts(p.z, k, q);
    Swapped(p, q);
    Swapped(Scaled(p, k), q);
    ScaledSum(M(p.r, q.r), M(p.x, q.x), M(p.y, q.y), M(p.z, q.z), k);
    ScaledSum(M(p.r, q.x), M(q.r, p.x), M(p.y, q.z), M(p.z, q.y), k);
    ScaledSum(M(p.r, q.y), M(q.r, p.y), M(p.z, q.x), M(p.x, q.z), k);
    ScaledSum(M(p.r, q.z), M(q.r, p.z), M(p.x, q.y), M(p.y, q.x), k);
  }

  lemma NegatedProducts(x: real, q: Quat)
    ensures M(-x, q.r) == -M(x, q.r) && M(-x, q.x) == -M(x, q.x) && M(-x, q.y) == -M(x, q.y) && M(-x, q.z) == -M(x, q.z)
  {
  }

  lemma ConjugateTimes(p: Quat, q: Quat)
    ensures Conjugate(Times(p, q)) == Times(Conjugate(q), Conjugate(p))
  {
    hide M;
    var c := Conjugate(p);
    NegatedProducts(q.x, c);
    NegatedProducts(q.y, c);
    NegatedProducts(q.z, c);
    Swapped(q, c);
    NegatedProducts(p.x, q);
    NegatedProducts(p.y, q);
    NegatedProducts(p.z, q);
    Swapped(p, q);
    Swapped(Conjugate(q), c);
  }

  /** The laws on the right follow from those on the left by conjugation. */
  lemma TimesPlus(p: Quat, q: Quat, s: Quat)
    ensures Times(s, Plus(p, q)) == Plus(Times(s, p), Times(s, q))
  {
    hide Times;
    var p', q', s' := Conjugate(p), Conjugate(q), Conjugate(s);
    PlusTimes(p', q', s');
    ConjugateTimes(s, Plus(p, q));
    ConjugateTimes(s, p);
    ConjugateTimes(s, q);
    assert Conjugate(Plus(p, q)) == Plus(p', q');
    assert Conjugate(Plus(Times(s, p), Times(s, q))) == Plus(Times(p', s'), Times(q', s'));
    ConjugateInjective(Times(s, Plus(p, q)), Plus(Times(s, p), Times(s, q)));
  }

  lemma ConjugateInjective(p: Quat, q: Quat)
    requires Conjugate(p) == Conjugate(q)
    ensures p == q
  {
  }

  lemma ConjugateScaled(p: Quat, k: real)
    ensures Conjugate(Scaled(p, k)) == Scaled(Conjugate(p), k)
  {
  }

  lemma TimesScaled(p: Quat, q: Quat, k: real)
    ensures Times(p, Scaled(q, k)) == Scaled(Times(p, q), k)
  {
    hide Times, Scaled;
    ConjugateTimes(p, Scaled(q, k));
    ConjugateScaled(q, k);
    ScaledTimes(Conjugate(q), Conjugate(p), k);
    ConjugateTimes(p, q);
    ConjugateScaled(Times(p, q), k);
    ConjugateInjective(Times(p, Scaled(q, k)), Scaled(Times(p, q), k));
  }

  lemma TimesConjugate(p: Quat)
    ensures Times(p, Conjugate(p)) == Scaled(ONE, Dot(p, p))
    ensures Times(Conjugate(p), p) == Scaled(ONE, Dot(p, p))
  {
  }

  lemma TimesOne(p: Quat)
    ensures Times(p, ONE) == p && Times(ONE, p) == p
  {
  }
}
