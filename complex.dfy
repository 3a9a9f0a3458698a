/**
 * The complex-number-like pair `C<T>(T, E12<T>)` of the signed-pair
 * module: a scalar part and a coefficient on the element `E12`, whose
 * square sign is declared `-`. The operators of `C` are written with the
 * element operators (`E12 + E12`, `E12 * E12`, `E12 * T`, `-E12`), which
 * are modelled here by what they need: an `E12` is a scalar coefficient,
 * and the product of two of them is that product with the declared sign.
 */
module Complex {

  import opened Signs
  import GradedElements

  /** Square signs of the declared elements: `E1` and `E2` square to `+`, `E12` to `-`. */
  const E1Square: Sign := Plus
  const E2Square: Sign := Plus
  const E12Square: Sign := Minus

  /**
   * The declared square signs agree with the hand-written product table of
   * the graded elements: `e1 e1`, `e2 e2` and `e12 e12` are scalars with
   * exactly these signs.
   */
  lemma SquareSignsAgree()
    ensures GradedElements.Table(GradedElements.E1, GradedElements.E1)
         == GradedElements.Entry(E1Square, GradedElements.E0)
    ensures GradedElements.Table(GradedElements.E2, GradedElements.E2)
         == GradedElements.Entry(E2Square, GradedElements.E0)
    ensures GradedElements.Table(GradedElements.E12, GradedElements.E12)
         == GradedElements.Entry(E12Square, GradedElements.E0)
  {
  }

  /** An `E12<T>` element: one coefficient on the unit `E12`. */
  datatype E12 = E12(v: real)

  /** `E12 * E12`: a scalar, the product of the coefficients with the square sign. */
  function E12Mul(x: E12, y: E12): real
  {
    Apply(E12Square, x.v * y.v)
  }

  /** `C(re, E12(im))`, standing for `re + im * e12`. */
  datatype C = C(re: real, im: E12)

  /** The number `re + im * e12` built from two plain coefficients. */
  function Of(re: real, im: real): C
  {
    C(re, E12(im))
  }

  /** `self + rhs`, component by component. */
  function Add(z: C, w: C): C
  {
    C(z.re + w.re, E12(z.im.v + w.im.v))
  }

  /** `self - rhs`, component by component. */
  function Sub(z: C, w: C): C
  {
    C(z.re - w.re, E12(z.im.v - w.im.v))
  }

  /** `self * rhs` as written: `self.0*rhs.0 + self.1*rhs.1` and `rhs.1*self.0 + self.1*rhs.0`. */
  function Mul(z: C, w: C): C
  {
    C(z.re * w.re + E12Mul(z.im, w.im), E12(w.im.v * z.re + z.im.v * w.re))
  }

  /** `!self`: the conjugate, keeping the scalar and negating the `E12` part. */
  function Not(z: C): C
  {
    C(z.re, E12(-z.im.v))
  }

  /**
   * The square of `norm()`. The source takes the square root, which is
   * left out; every comparison `norm() < r` with `r >= 0` is `NormSq() < r * r`.
   */
  function NormSq(z: C): (n: real)
    ensures n >= 0.0
  {
    SquareNonNegative(z.re);
    SquareNonNegative(z.im.v);
    z.re * z.re + z.im.v * z.im.v
  }

  /**
   * Real multiplication as a function of its own. A fact about the square
   * `x * x` is stated as a fact about `Prod(x, x)` and proved once for a
   * product of two separate factors, which keeps the solver's reasoning
   * about squares in one form.
   */
  function Prod(x: real, y: real): real
  {
    x * y
  }

  /** A product of two factors of the same strict sign is positive. */
  lemma ProdPositive(p: real, q: real)
    requires (p > 0.0 && q > 0.0) || (p < 0.0 && q < 0.0)
    ensures Prod(p, q) > 0.0
  {
    if p < 0.0 {
      assert p * q == (-p) * (-q);
    }
  }

  /** A product with a zero factor is zero. */
  lemma ProdZero(p: real, q: real)
    requires p == 0.0
    ensures Prod(p, q) == 0.0 && Prod(q, p) == 0.0
  {
  }

  /** A square is non-negative, and positive away from zero. */
  lemma SquareNonNegative(x: real)
    ensures Prod(x, x) >= 0.0
    ensures x != 0.0 ==> Prod(x, x) > 0.0
  {
    if x != 0.0 {
      ProdPositive(x, x);
    } else {
      assert Prod(x, x) == 0.0 * 0.0;
    }
  }

  /** The norm vanishes exactly at the origin. */
  lemma NormSqZero(z: C)
    ensures NormSq(z) > 0.0 <==> z != Of(0.0, 0.0)
  {
    SquareNonNegative(z.re);
    SquareNonNegative(z.im.v);
    assert z == Of(z.re, z.im.v);
  }

  // ----- Addition and subtraction -----

  /** Subtraction undoes addition, in both orders. */
  lemma SubUndoesAdd(z: C, w: C)
    ensures Sub(Add(z, w), w) == z
    ensures Add(Sub(z, w), w) == z
  {
  }

  /** Addition is commutative and associative, with `0` as identity. */
  lemma AddLaws(z: C, w: C, u: C)
    ensures Add(z, w) == Add(w, z)
    ensures Add(Add(z, w), u) == Add(z, Add(w, u))
    ensures Add(z, Of(0.0, 0.0)) == z
  {
  }

  // ----- Multiplication -----

  /** With `E12` squaring to `-`, the product is ordinary complex multiplication. */
  lemma MulIsComplex(z: C, w: C)
    ensures Mul(z, w) == Of(z.re * w.re - z.im.v * w.im.v, z.re * w.im.v + z.im.v * w.re)
  {
    assert w.im.v * z.re == z.re * w.im.v;
  }

  /** Multiplication is commutative. */
  lemma MulCommutative(z: C, w: C)
    ensures Mul(z, w) == Mul(w, z)
  {
    MulIsComplex(z, w);
    MulIsComplex(w, z);
    assert z.re * w.re == w.re * z.re;
    assert z.im.v * w.im.v == w.im.v * z.im.v;
    assert z.re * w.im.v + z.im.v * w.re == w.re * z.im.v + w.im.v * z.re;
  }

  /** Multiplication is associative. */
  lemma MulAssociative(z: C, w: C, u: C)
    ensures Mul(Mul(z, w), u) == Mul(z, Mul(w, u))
  {
    var a, b := z.re, z.im.v;
    var c, d := w.re, w.im.v;
    var e, f := u.re, u.im.v;
    MulIsComplex(z, w);
    MulIsComplex(w, u);
    MulIsComplex(Mul(z, w), u);
    MulIsComplex(z, Mul(w, u));
    assert (a * c - b * d) * e - (a * d + b * c) * f == a * (c * e - d * f) - b * (c * f + d * e);
    assert (a * c - b * d) * f + (a * d + b * c) * e == a * (c * f + d * e) + b * (c * e - d * f);
  }

  /** `1` is the identity of multiplication and `E12` squares to `-1`. */
  lemma MulUnits(z: C)
    ensures Mul(Of(1.0, 0.0), z) == z && Mul(z, Of(1.0, 0.0)) == z
    ensures Mul(Of(0.0, 1.0), Of(0.0, 1.0)) == Of(-1.0, 0.0)
  {
    MulIsComplex(Of(1.0, 0.0), z);
    MulIsComplex(z, Of(1.0, 0.0));
  }

  /** Multiplication distributes over addition. */
  lemma MulDistributes(z: C, w: C, u: C)
    ensures Mul(z, Add(w, u)) == Add(Mul(z, w), Mul(z, u))
  {
    MulIsComplex(z, Add(w, u));
    MulIsComplex(z, w);
    MulIsComplex(z, u);
    var a, b := z.re, z.im.v;
    assert a * (w.re + u.re) - b * (w.im.v + u.im.v)
        == (a * w.re - b * w.im.v) + (a * u.re - b * u.im.v);
    assert a * (w.im.v + u.im.v) + b * (w.re + u.re)
        == (a * w.im.v + b * w.re) + (a * u.im.v + b * u.re);
  }

  // ----- Conjugation and the norm -----

  /** Conjugating twice gives back the number. */
  lemma NotInvolution(z: C)
    ensures Not(Not(z)) == z
    ensures Not(z).re == z.re && Not(z).im.v == -z.im.v
  {
  }

  /** Conjugation is compatible with addition and multiplication. */
  lemma NotHomomorphism(z: C, w: C)
    ensures Not(Add(z, w)) == Add(Not(z), Not(w))
    ensures Not(Mul(z, w)) == Mul(Not(z), Not(w))
  {
    MulIsComplex(z, w);
    MulIsComplex(Not(z), Not(w));
    assert (-z.im.v) * (-w.im.v) == z.im.v * w.im.v;
    assert z.re * (-w.im.v) + (-z.im.v) * w.re == -(z.re * w.im.v + z.im.v * w.re);
  }

  /** Conjugation preserves the norm. */
  lemma NotPreservesNorm(z: C)
    ensures NormSq(Not(z)) == NormSq(z)
  {
    assert (-z.im.v) * (-z.im.v) == z.im.v * z.im.v;
  }

  /** `z * !z` is the real number `|z|^2`. */
  lemma MulNot(z: C)
    ensures Mul(z, Not(z)) == Of(NormSq(z), 0.0)
  {
    MulIsComplex(z, Not(z));
    assert z.re * (-z.im.v) + z.im.v * z.re == 0.0;
    assert z.re * z.re - z.im.v * (-z.im.v) == z.re * z.re + z.im.v * z.im.v;
  }

  /** The norm is multiplicative: `|z w|^2 = |z|^2 |w|^2`. */
  lemma NormMultiplicative(z: C, w: C)
    ensures NormSq(Mul(z, w)) == NormSq(z) * NormSq(w)
  {
    var a, b := z.re, z.im.v;
    var c, d := w.re, w.im.v;
    MulIsComplex(z, w);
    assert (a * c - b * d) * (a * c - b * d) + (a * d + b * c) * (a * d + b * c)
        == (a * a + b * b) * (c * c + d * d);
  }
}
