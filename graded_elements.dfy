/**
 * The graded elements of the 2-D geometric algebra (the inline `mod ga2`
 * of the library root): four basis markers `e0`, `e1`, `e2`, `e12`, one
 * single-coefficient element type per basis (`Ge0` .. `Ge12`), built by
 * `scalar * eK`, scaled by `scalar * element`, compared within one grade,
 * and multiplied by the geometric product `gp` that a hand-written
 * 16-entry table of (sign, result grade) defines.
 *
 * The Rust types carry the grade in the type (`Ge1<f32>`); here it is the
 * `basis` field of `Elem`, and operations the Rust type system only
 * allows between equal grades require equal bases.
 */
module GradedElements {

  import opened Signs

  /** The four basis markers: scalar `e0`, vectors `e1`, `e2`, bivector `e12`. */
  datatype Basis = E0 | E1 | E2 | E12

  /** A graded element `GeK { val }`: one coefficient on one basis. */
  datatype Elem = Elem(basis: Basis, val: real)

  /** One entry of the product table: the sign and the grade of the result. */
  datatype Entry = Entry(sign: Sign, grade: Basis)

  /** `c * eK`: the element of grade `K` whose coefficient is `c`. */
  function Construct(c: real, b: Basis): Elem
  {
    Elem(b, c)
  }

  /** Construction and the two projections are inverse to each other. */
  lemma ConstructRoundTrip(c: real, b: Basis, x: Elem)
    ensures Construct(c, b).basis == b && Construct(c, b).val == c
    ensures Construct(x.val, x.basis) == x
  {
  }

  /** `k * x`: same grade, coefficient multiplied by `k`. */
  function Scale(k: real, x: Elem): (r: Elem)
    ensures r.basis == x.basis
  {
    Elem(x.basis, k * x.val)
  }

  /** Scaling twice is scaling by the product; `3 * (2 * eK)` has coefficient 6. */
  lemma ScaleCompose(k: real, m: real, c: real, b: Basis)
    ensures Scale(k, Scale(m, Construct(c, b))) == Construct((k * m) * c, b)
    ensures Scale(3.0, Construct(2.0, b)) == Construct(6.0, b)
  {
  }

  /** `PartialEq::eq`: only between elements of one grade; compares the coefficients. */
  function Eq(a: Elem, b: Elem): bool
    requires a.basis == b.basis
  {
    a.val == b.val
  }

  /** `PartialEq::ne`, written out separately in the source. */
  function Ne(a: Elem, b: Elem): bool
    requires a.basis == b.basis
  {
    a.val != b.val
  }

  /**
   * Within one grade, `eq` decides equality of the whole element (exactly,
   * with no tolerance) and `ne` is its negation.
   */
  lemma EqIsEquality(a: Elem, b: Elem)
    requires a.basis == b.basis
    ensures Eq(a, b) <==> a == b
    ensures Ne(a, b) <==> !Eq(a, b)
  {
  }

  /** The product table for `f32` elements, row by row. */
  function Table(a: Basis, b: Basis): Entry
  {
    match (a, b)
    case (E0, E0) => Entry(Plus, E0)
    case (E0, E1) => Entry(Plus, E1)
    case (E0, E2) => Entry(Plus, E2)
    case (E0, E12) => Entry(Plus, E12)

    case (E1, E0) => Entry(Plus, E1)
    case (E1, E1) => Entry(Plus, E0)
    case (E1, E2) => Entry(Plus, E12)
    case (E1, E12) => Entry(Plus, E2)

    case (E2, E0) => Entry(Plus, E2)
    case (E2, E1) => Entry(Minus, E12)
    case (E2, E2) => Entry(Plus, E0)
    case (E2, E12) => Entry(Minus, E1)

    case (E12, E0) => Entry(Plus, E12)
    case (E12, E1) => Entry(Minus, E2)
    case (E12, E2) => Entry(Plus, E1)
    case (E12, E12) => Entry(Minus, E0)
  }

  /** The product table for `f64` elements, written out a second time in the source. */
  function Table64(a: Basis, b: Basis): Entry
  {
    match (a, b)
    case (E0, E0) => Entry(Plus, E0)
    case (E0, E1) => Entry(Plus, E1)
    case (E0, E2) => Entry(Plus, E2)
    case (E0, E12) => Entry(Plus, E12)

    case (E1, E0) => Entry(Plus, E1)
    case (E1, E1) => Entry(Plus, E0)
    case (E1, E2) => Entry(Plus, E12)
    case (E1, E12) => Entry(Plus, E2)

    case (E2, E0) => Entry(Plus, E2)
    case (E2, E1) => Entry(Minus, E12)
    case (E2, E2) => Entry(Plus, E0)
    case (E2, E12) => Entry(Minus, E1)

    case (E12, E0) => Entry(Plus, E12)
    case (E12, E1) => Entry(Minus, E2)
    case (E12, E2) => Entry(Plus, E1)
    case (E12, E12) => Entry(Minus, E0)
  }

  /** The `f64` table is the `f32` table. */
  lemma TablesAgree(a: Basis, b: Basis)
    ensures Table64(a, b) == Table(a, b)
  {
  }

  /** `GP::gp`: result grade and sign from the table, coefficient `sign * (a.val * b.val)`. */
  function Gp(a: Elem, b: Elem): Elem
  {
    var e := Table(a.basis, b.basis);
    Elem(e.grade, Apply(e.sign, a.val * b.val))
  }

  // ----- An independent reference for the table -----

  /** Whether a basis blade contains the vector factor `e1`. */
  predicate HasE1(b: Basis)
  {
    b == E1 || b == E12
  }

  /** Whether a basis blade contains the vector factor `e2`. */
  predicate HasE2(b: Basis)
  {
    b == E2 || b == E12
  }

  /** The blade made of the given vector factors, in canonical order. */
  function BladeOf(has1: bool, has2: bool): (r: Basis)
    ensures HasE1(r) == has1 && HasE2(r) == has2
  {
    if has1 && has2 then E12 else if has1 then E1 else if has2 then E2 else E0
  }

  /**
   * The Clifford product of two basis blades with the Euclidean metric
   * `e1 e1 = e2 e2 = 1`: the factors they share cancel, the others remain,
   * and bringing the factors into canonical order costs one sign change
   * exactly when an `e2` of the left blade has to pass an `e1` of the right.
   */
  function BladeProduct(a: Basis, b: Basis): (r: Entry)
    ensures HasE1(r.grade) == (HasE1(a) != HasE1(b))
    ensures HasE2(r.grade) == (HasE2(a) != HasE2(b))
  {
    Entry(if HasE2(a) && HasE1(b) then Minus else Plus,
          BladeOf(HasE1(a) != HasE1(b), HasE2(a) != HasE2(b)))
  }

  /** The hand-written table is exactly the Clifford product of the blades. */
  lemma TableIsBladeProduct(a: Basis, b: Basis)
    ensures Table(a, b) == BladeProduct(a, b)
  {
  }

  // ----- Algebraic laws of the table -----

  /** `e0` is a two-sided identity of the table. */
  lemma TableIdentity(t: Basis)
    ensures Table(E0, t) == Entry(Plus, t)
    ensures Table(t, E0) == Entry(Plus, t)
  {
  }

  /** Every element commutes with itself and with the scalar. */
  predicate Commutes(a: Basis, b: Basis)
  {
    a == E0 || b == E0 || a == b
  }

  /**
   * Swapping the operands never changes the grade; it flips the sign
   * exactly when neither is the scalar and the two grades differ.
   */
  lemma TableSwap(a: Basis, b: Basis)
    ensures Table(b, a).grade == Table(a, b).grade
    ensures Table(b, a).sign == Table(a, b).sign <==> Commutes(a, b)
  {
    TableIsBladeProduct(a, b);
    TableIsBladeProduct(b, a);
  }

  /** The two ways of bracketing a triple of grades agree on grade and sign. */
  lemma TableAssociative(a: Basis, b: Basis, c: Basis)
    ensures Table(Table(a, b).grade, c).grade == Table(a, Table(b, c).grade).grade
    ensures Times(Table(a, b).sign, Table(Table(a, b).grade, c).sign)
         == Times(Table(b, c).sign, Table(a, Table(b, c).grade).sign)
  {
    match a
    case E0 =>
    case E1 =>
    case E2 =>
    case E12 =>
  }

  // ----- Laws of the geometric product of elements -----

  /** `1 e0` is a two-sided identity; more generally `c e0` acts as scaling by `c`. */
  lemma ScalarGpIsScale(c: real, x: Elem)
    ensures Gp(Construct(c, E0), x) == Scale(c, x)
    ensures Gp(x, Construct(c, E0)) == Scale(c, x)
    ensures Gp(Construct(1.0, E0), x) == x && Gp(x, Construct(1.0, E0)) == x
  {
    TableIdentity(x.basis);
  }

  /** The squares: `e1 e1 = e2 e2 = +e0` and `e12 e12 = -e0`; `(2 e1)(3 e1) = 6 e0`. */
  lemma Squares(a: real, b: real)
    ensures Gp(Construct(a, E1), Construct(b, E1)) == Construct(a * b, E0)
    ensures Gp(Construct(a, E2), Construct(b, E2)) == Construct(a * b, E0)
    ensures Gp(Construct(a, E12), Construct(b, E12)) == Construct(-(a * b), E0)
    ensures Gp(Construct(2.0, E1), Construct(3.0, E1)).val == 6.0
  {
  }

  /** The vectors anticommute: `e1 e2 = +e12` and `e2 e1 = -e12`. */
  lemma Anticommute(a: real, b: real)
    ensures Gp(Construct(a, E1), Construct(b, E2)) == Construct(a * b, E12)
    ensures Gp(Construct(b, E2), Construct(a, E1)) == Construct(-(a * b), E12)
  {
  }

  /**
   * Swapping the operands of a product keeps its grade and keeps or negates
   * its coefficient, according to whether the grades commute.
   */
  lemma GpSwap(x: Elem, y: Elem)
    ensures Gp(y, x).basis == Gp(x, y).basis
    ensures Commutes(x.basis, y.basis) ==> Gp(y, x).val == Gp(x, y).val
    ensures !Commutes(x.basis, y.basis) ==> Gp(y, x).val == -Gp(x, y).val
  {
    TableSwap(x.basis, y.basis);
    assert y.val * x.val == x.val * y.val;
  }

  /** The geometric product of graded elements is associative. */
  lemma GpAssociative(x: Elem, y: Elem, z: Elem)
    ensures Gp(Gp(x, y), z) == Gp(x, Gp(y, z))
  {
    var e1 := Table(x.basis, y.basis);
    var e2 := Table(e1.grade, z.basis);
    var e3 := Table(y.basis, z.basis);
    var e4 := Table(x.basis, e3.grade);
    TableAssociative(x.basis, y.basis, z.basis);
    calc {
      Gp(Gp(x, y), z).val;
      Apply(e2.sign, Apply(e1.sign, x.val * y.val) * z.val);
      { ApplyMul(e1.sign, x.val * y.val, z.val); }
      Apply(e2.sign, Apply(e1.sign, (x.val * y.val) * z.val));
      { ApplyTimes(e2.sign, e1.sign, (x.val * y.val) * z.val); }
      Apply(Times(e2.sign, e1.sign), (x.val * y.val) * z.val);
      { assert Times(e2.sign, e1.sign) == Times(e4.sign, e3.sign);
        assert (x.val * y.val) * z.val == x.val * (y.val * z.val); }
      Apply(Times(e4.sign, e3.sign), x.val * (y.val * z.val));
      { ApplyTimes(e4.sign, e3.sign, x.val * (y.val * z.val)); }
      Apply(e4.sign, Apply(e3.sign, x.val * (y.val * z.val)));
      { ApplyMul(e3.sign, x.val, y.val * z.val); }
      Apply(e4.sign, x.val * Apply(e3.sign, y.val * z.val));
      Gp(x, Gp(y, z)).val;
    }
  }

  /** Scaling either factor scales the product. */
  lemma GpScale(k: real, x: Elem, y: Elem)
    ensures Gp(Scale(k, x), y) == Scale(k, Gp(x, y))
    ensures Gp(x, Scale(k, y)) == Scale(k, Gp(x, y))
  {
    var e := Table(x.basis, y.basis);
    ApplyMul(e.sign, k, x.val * y.val);
    assert (k * x.val) * y.val == k * (x.val * y.val);
    assert x.val * (k * y.val) == k * (x.val * y.val);
  }
}
