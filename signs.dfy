/**
 * The sign that the library attaches to a product: each entry of the
 * geometric-product table carries one (`+` or `-` in the `gp` macro), and
 * each element declared in the signed-pair module carries the sign of its
 * square. `Apply` is the meaning of the `drop_plus` macro: `+ e` is `e`
 * and `- e` is `-(e)`.
 */
module Signs {

  datatype Sign = Plus | Minus

  /** `drop_plus!(s e)`: the value `e` with sign `s` applied. */
  function Apply(s: Sign, x: real): real
  {
    match s
    case Plus => x
    case Minus => -x
  }

  /** The sign of a product of two signed quantities. */
  function Times(s: Sign, t: Sign): Sign
  {
    if s == t then Plus else Minus
  }

  /** Applying two signs in turn is applying their product. */
  lemma ApplyTimes(s: Sign, t: Sign, x: real)
    ensures Apply(s, Apply(t, x)) == Apply(Times(s, t), x)
  {
  }

  /** A sign commutes with multiplication by a coefficient on either side. */
  lemma ApplyMul(s: Sign, x: real, y: real)
    ensures Apply(s, x) * y == Apply(s, x * y)
    ensures x * Apply(s, y) == Apply(s, x * y)
  {
  }
}
