/**
 * The text-mode Mandelbrot example: for every pixel of a fixed grid it
 * iterates `z <- z*z + z0` on the complex-like pair `C` until the
 * iteration cap `nk` is reached or `norm(z)` is no longer below 10, and
 * prints `'*'` for a pixel that reached the cap and `' '` for one that
 * escaped; each row starts with five spaces and ends with a newline.
 *
 * The printed text is returned instead, as the sequence of its rows.
 */
module Mandelbrot {

  import opened Complex

  /** The escape radius of the loop guard `z.norm() < 10.` */
  const EscapeRadius: real := 10.0

  /** The loop guard's norm test, `norm(z) < 10`, stated on the squared norm. */
  predicate Bounded(z: C)
  {
    NormSq(z) < EscapeRadius * EscapeRadius
  }

  /** One iteration step, `z * z + z0`. */
  function Step(z: C, z0: C): C
  {
    Add(Mul(z, z), z0)
  }

  /** The value of `z` after `n` steps from `z0`. */
  function Orbit(z0: C, n: nat): C
  {
    if n == 0 then z0 else Step(Orbit(z0, n - 1), z0)
  }

  /** The counter the loop ends with when it is in state `(z, k)`. */
  function CountFrom(z0: C, z: C, k: int, nk: int): int
    decreases nk - k
  {
    if k < nk && Bounded(z) then CountFrom(z0, Step(z, z0), k + 1, nk) else k
  }

  /** The value of `k` after the escape loop for the point `z0`. */
  function EscapeCount(z0: C, nk: int): int
  {
    CountFrom(z0, z0, 0, nk)
  }

  /**
   * Run from step `k` of the orbit, after `k` steps that all stayed within
   * the radius, the loop stops at the first step that reaches the cap or
   * leaves the radius.
   */
  lemma {:induction false} CountFromStops(z0: C, k: nat, nk: int)
    requires k <= nk || k == 0
    requires forall j :: 0 <= j < k ==> Bounded(Orbit(z0, j))
    ensures var r := CountFrom(z0, Orbit(z0, k), k, nk);
      k <= r && (r <= nk || r == 0)
      && (r >= nk || !Bounded(Orbit(z0, r)))
      && forall j :: 0 <= j < r ==> Bounded(Orbit(z0, j))
    decreases nk - k
  {
    if k < nk && Bounded(Orbit(z0, k)) {
      assert Orbit(z0, k + 1) == Step(Orbit(z0, k), z0);
      CountFromStops(z0, k + 1, nk);
    }
  }

  /**
   * The count is the first step at which the orbit reaches the cap or
   * leaves the radius: it lies in `[0, nk]` (it is 0 when `nk <= 0`),
   * every earlier step stayed within the radius, and at the count itself
   * either the cap is reached or the orbit is outside.
   */
  lemma EscapeCountSpec(z0: C, nk: int)
    ensures var k := EscapeCount(z0, nk);
      0 <= k && (k <= nk || k == 0)
      && (k >= nk || !Bounded(Orbit(z0, k)))
      && forall j :: 0 <= j < k ==> Bounded(Orbit(z0, j))
  {
    CountFromStops(z0, 0, nk);
  }

  /**
   * The escape loop of one pixel: `z` starts at `z0` and `k` at 0, and
   * while `k < nk` and `norm(z) < 10` it steps `z = z*z + z0` and counts.
   */
  method EscapeIterations(z0: C, nk: int) returns (k: int)
    ensures k == EscapeCount(z0, nk)
    ensures 0 <= k && (k <= nk || k == 0)
    ensures k >= nk || !Bounded(Orbit(z0, k))
    ensures forall j :: 0 <= j < k ==> Bounded(Orbit(z0, j))
  {
    var z := z0;
    k := 0;
    while k < nk && Bounded(z)
      invariant 0 <= k && (k <= nk || k == 0)
      invariant z == Orbit(z0, k)
      invariant forall j :: 0 <= j < k ==> Bounded(Orbit(z0, j))
      invariant CountFrom(z0, z, k, nk) == EscapeCount(z0, nk)
      decreases nk - k
    {
      z := Add(Mul(z, z), z0);
      k := k + 1;
    }
  }

  /** The character printed for the point `z0`: `'*'` when the loop reached the cap. */
  function PixelChar(z0: C, nk: int): char
  {
    if EscapeCount(z0, nk) >= nk then '*' else ' '
  }

  /**
   * A pixel is `'*'` exactly when the first `nk` points of its orbit
   * (`z0` and the next `nk - 1` iterates) all stay within the radius.
   */
  lemma PixelInsideIff(z0: C, nk: int)
    ensures PixelChar(z0, nk) == '*' <==> forall j :: 0 <= j < nk ==> Bounded(Orbit(z0, j))
    ensures PixelChar(z0, nk) == '*' || PixelChar(z0, nk) == ' '
  {
    EscapeCountSpec(z0, nk);
    var k := EscapeCount(z0, nk);
    if k < nk {
      assert !Bounded(Orbit(z0, k));
    }
  }

  /** A point already outside the radius stops at once and, when `nk > 0`, prints `' '`. */
  lemma FarPointEscapes(z0: C, nk: int)
    requires !Bounded(z0)
    ensures EscapeCount(z0, nk) == 0
    ensures nk > 0 ==> PixelChar(z0, nk) == ' '
  {
  }

  /** `(10, 10)` has norm above 10, so it escapes at step 0. */
  lemma FarPointExample(nk: int)
    requires nk > 0
    ensures EscapeCount(Of(10.0, 10.0), nk) == 0
    ensures PixelChar(Of(10.0, 10.0), nk) == ' '
  {
    SquareBelow(10.0, 10.0, 10.0);
    FarPointEscapes(Of(10.0, 10.0), nk);
  }

  /** A helper for the far point: `Prod(a, b) >= c * c` for `a, b >= c >= 0`. */
  lemma SquareBelow(a: real, b: real, c: real)
    requires 0.0 <= c <= a && c <= b
    ensures Prod(a, b) >= c * c
  {
    assert a * b >= c * b >= c * c;
  }

  /** A start point that one step maps to itself stays there forever. */
  lemma {:induction false} FixedOrbit(z0: C, n: nat)
    requires Step(z0, z0) == z0
    ensures Orbit(z0, n) == z0
  {
    if n > 0 {
      FixedOrbit(z0, n - 1);
    }
  }

  /** A point with both parts zero is mapped to itself by one step from itself. */
  lemma ZeroStep(z: C)
    requires z.re == 0.0 && z.im.v == 0.0
    ensures Step(z, z) == z
  {
    assert z == C(0.0, E12(0.0));
  }

  /** One step from the origin, with the origin as start point, stays at the origin. */
  lemma OriginStep()
    ensures Step(Of(0.0, 0.0), Of(0.0, 0.0)) == Of(0.0, 0.0)
  {
    ZeroStep(Of(0.0, 0.0));
  }

  /** The origin is a fixed point of the iteration. */
  lemma OriginFixed(n: nat)
    ensures Orbit(Of(0.0, 0.0), n) == Of(0.0, 0.0)
  {
    OriginStep();
    FixedOrbit(Of(0.0, 0.0), n);
  }

  /**
   * A fixed start point within the radius never escapes: the loop runs to
   * the cap and the pixel is `'*'`.
   */
  lemma FixedInside(z0: C, nk: int)
    requires Step(z0, z0) == z0 && Bounded(z0)
    ensures EscapeCount(z0, nk) == if nk > 0 then nk else 0
    ensures PixelChar(z0, nk) == '*'
  {
    forall j | 0 <= j < nk
      ensures Bounded(Orbit(z0, j))
    {
      FixedOrbit(z0, j);
    }
    EscapeCountSpec(z0, nk);
    PixelInsideIff(z0, nk);
  }

  /** A point with both parts zero is within the radius. */
  lemma ZeroBounded(z: C)
    requires z.re == 0.0 && z.im.v == 0.0
    ensures Bounded(z)
  {
    ProdZero(z.re, z.re);
    ProdZero(z.im.v, z.im.v);
    assert NormSq(z) == Prod(z.re, z.re) + Prod(z.im.v, z.im.v);
  }

  /** The origin never escapes, so it reaches the cap and prints `'*'`. */
  lemma OriginInside(nk: int)
    ensures EscapeCount(Of(0.0, 0.0), nk) == if nk > 0 then nk else 0
    ensures PixelChar(Of(0.0, 0.0), nk) == '*'
  {
    OriginStep();
    ZeroBounded(Of(0.0, 0.0));
    FixedInside(Of(0.0, 0.0), nk);
  }

  /** Bounds on a product of two numbers of `[-1/2, 0]`. */
  lemma ProdOfHalves(p: real, q: real)
    requires -0.5 <= p <= 0.0 && -0.5 <= q <= 0.0
    ensures 0.0 <= Prod(p, q) <= 0.25
  {
    assert p * q == (-p) * (-q);
    assert (-p) * (-q) <= 0.5 * (-q) <= 0.25;
    assert (-p) * (-q) >= 0.0;
  }

  /** The orbit of `-1/2` stays real and inside `[-1/2, 0]`. */
  lemma {:induction false} HalfOrbit(n: nat)
    ensures -0.5 <= Orbit(Of(-0.5, 0.0), n).re <= 0.0
    ensures Orbit(Of(-0.5, 0.0), n).im.v == 0.0
  {
    if n > 0 {
      HalfOrbit(n - 1);
      var z := Orbit(Of(-0.5, 0.0), n - 1);
      var r := z.re;
      assert z == Of(r, 0.0);
      MulIsComplex(z, z);
      ProdOfHalves(r, r);
      assert Mul(z, z) == Of(Prod(r, r), 0.0);
    }
  }

  /** A real point of `[-1/2, 0]` is within the radius. */
  lemma HalfBounded(z: C)
    requires -0.5 <= z.re <= 0.0 && z.im.v == 0.0
    ensures Bounded(z)
  {
    ProdOfHalves(z.re, z.re);
    ProdZero(z.im.v, z.im.v);
    assert NormSq(z) == Prod(z.re, z.re) + Prod(z.im.v, z.im.v);
  }

  /** `-1/2` lies in the main cardioid: it never escapes and prints `'*'`. */
  lemma HalfInside(nk: int)
    ensures PixelChar(Of(-0.5, 0.0), nk) == '*'
  {
    forall j | 0 <= j < nk
      ensures Bounded(Orbit(Of(-0.5, 0.0), j))
    {
      HalfOrbit(j);
      HalfBounded(Orbit(Of(-0.5, 0.0), j));
    }
    PixelInsideIff(Of(-0.5, 0.0), nk);
  }

  // ----- The grid -----

  /** The constants of `main`: origin offset, steps, grid size and iteration cap. */
  datatype Config = Config(x0: real, dx: real, dy: real, ni: int, nj: int, nk: int)

  /** `x0 = -0.5`, `dx = 0.03`, `dy = 0.05`, `ni = 60`, `nj = 40`, `nk = 255`. */
  const Reference: Config := Config(-0.5, 0.03, 0.05, 60, 40, 255)

  /** The text printed before the pixels of every row. */
  const Margin: string := "     "

  /** Integer division by 2 rounding toward zero, as Rust's `/` on `i32`. */
  function Half(n: int): (h: int)
    ensures n >= 0 ==> 0 <= 2 * h <= n < 2 * h + 2
    ensures n < 0 ==> 0 <= -2 * h <= -n < -2 * h + 2
  {
    if n >= 0 then n / 2 else -((-n) / 2)
  }

  /** First index of `-n/2..n/2`; Rust reads `-n/2` as `(-n)/2`. */
  function RangeLo(n: int): int
  {
    Half(-n)
  }

  /** The number of indices in the half-open range `-n/2..n/2`. */
  function RangeLen(n: int): (len: nat)
    ensures n >= 0 ==> len == n - n % 2
    ensures n <= 0 ==> len == 0
  {
    if Half(n) > RangeLo(n) then Half(n) - RangeLo(n) else 0
  }

  /** The point sampled by pixel `(i, j)`: `x = x0 + i*dx`, `y = j*dy`. */
  function Sample(cfg: Config, i: int, j: int): C
  {
    Of(cfg.x0 + (i as real) * cfg.dx, (j as real) * cfg.dy)
  }

  /** The first `n` pixels of row `j`, from the left. */
  function Pixels(cfg: Config, j: int, n: nat): string
  {
    if n == 0 then []
    else Pixels(cfg, j, n - 1) + [PixelChar(Sample(cfg, RangeLo(cfg.ni) + n - 1, j), cfg.nk)]
  }

  /** The printed text of row `j`: the margin, the pixels, the newline. */
  function Row(cfg: Config, j: int): string
  {
    Margin + Pixels(cfg, j, RangeLen(cfg.ni)) + "\n"
  }

  /** The first `n` rows of the picture, from the top. */
  function Rows(cfg: Config, n: nat): seq<string>
  {
    if n == 0 then [] else Rows(cfg, n - 1) + [Row(cfg, RangeLo(cfg.nj) + n - 1)]
  }

  /** The whole printed picture, one string per row. */
  function Image(cfg: Config): seq<string>
  {
    Rows(cfg, RangeLen(cfg.nj))
  }

  /** Pixel `t` from the left of row `j` is the character of grid column `RangeLo(ni) + t`. */
  lemma {:induction false} PixelsAt(cfg: Config, j: int, n: nat, t: nat)
    requires t < n
    ensures |Pixels(cfg, j, n)| == n
    ensures Pixels(cfg, j, n)[t] == PixelChar(Sample(cfg, RangeLo(cfg.ni) + t, j), cfg.nk)
    decreases n
  {
    PixelsLength(cfg, j, n - 1);
    if t < n - 1 {
      PixelsAt(cfg, j, n - 1, t);
    }
  }

  /** `Pixels` has the length it is asked for. */
  lemma {:induction false} PixelsLength(cfg: Config, j: int, n: nat)
    ensures |Pixels(cfg, j, n)| == n
  {
    if n > 0 {
      PixelsLength(cfg, j, n - 1);
    }
  }

  /** Row `r` from the top is the row of grid line `RangeLo(nj) + r`. */
  lemma {:induction false} RowsAt(cfg: Config, n: nat, r: nat)
    requires r < n
    ensures |Rows(cfg, n)| == n
    ensures Rows(cfg, n)[r] == Row(cfg, RangeLo(cfg.nj) + r)
  {
    RowsLength(cfg, n - 1);
    if r < n - 1 {
      RowsAt(cfg, n - 1, r);
    }
  }

  /** `Rows` has the length it is asked for. */
  lemma {:induction false} RowsLength(cfg: Config, n: nat)
    ensures |Rows(cfg, n)| == n
  {
    if n > 0 {
      RowsLength(cfg, n - 1);
    }
  }

  /**
   * The shape of the picture: `RangeLen(nj)` rows, each the five-space
   * margin, `RangeLen(ni)` characters each `'*'` or `' '`, and a newline;
   * the character at column `c` of row `r` classifies the point sampled by
   * pixel `(RangeLo(ni) + c, RangeLo(nj) + r)`.
   */
  lemma ImageShape(cfg: Config, r: nat, c: nat)
    requires r < RangeLen(cfg.nj) && c < RangeLen(cfg.ni)
    ensures |Image(cfg)| == RangeLen(cfg.nj)
    ensures |Image(cfg)[r]| == |Margin| + RangeLen(cfg.ni) + 1
    ensures Image(cfg)[r][..|Margin|] == Margin
    ensures Image(cfg)[r][|Margin| + RangeLen(cfg.ni)] == '\n'
    ensures Image(cfg)[r][|Margin| + c]
         == PixelChar(Sample(cfg, RangeLo(cfg.ni) + c, RangeLo(cfg.nj) + r), cfg.nk)
    ensures Image(cfg)[r][|Margin| + c] in {'*', ' '}
  {
    RowsAt(cfg, RangeLen(cfg.nj), r);
    var j := RangeLo(cfg.nj) + r;
    PixelsAt(cfg, j, RangeLen(cfg.ni), c);
    PixelInsideIff(Sample(cfg, RangeLo(cfg.ni) + c, j), cfg.nk);
  }

  /**
   * With the grid size of `main` (60 by 40) the picture has 40 rows of 66
   * characters (margin, 60 pixels, newline); rows sample `y = j*dy` for
   * `j` in `[-20, 20)` and columns `x = x0 + i*dx` for `i` in `[-30, 30)`.
   */
  lemma ReferenceShape(cfg: Config)
    requires cfg.ni == Reference.ni && cfg.nj == Reference.nj
    ensures RangeLo(cfg.nj) == -20 && RangeLen(cfg.nj) == 40
    ensures RangeLo(cfg.ni) == -30 && RangeLen(cfg.ni) == 60
    ensures |Image(cfg)| == 40
    ensures forall r :: 0 <= r < 40 ==> |Image(cfg)[r]| == 66
  {
    RowsLength(cfg, RangeLen(cfg.nj));
    forall r | 0 <= r < 40
      ensures |Image(cfg)[r]| == 66
    {
      ImageShape(cfg, r, 0);
    }
  }

  /**
   * The middle pixel `(0, 0)` of a 60 by 40 picture with `x0 = -0.5`
   * samples `-1/2`, which never escapes, and prints `'*'`.
   */
  lemma ReferenceCentre(cfg: Config)
    requires cfg.ni == Reference.ni && cfg.nj == Reference.nj && cfg.x0 == Reference.x0
    ensures |Image(cfg)| == 40 && |Image(cfg)[20]| == 66
    ensures Image(cfg)[20][|Margin| + 30] == '*'
  {
    ReferenceShape(cfg);
    ImageShape(cfg, 20, 30);
    assert Sample(cfg, 0, 0) == Of(-0.5, 0.0);
    HalfInside(cfg.nk);
  }

  /**
   * The body of `main`'s outer loop for row `j`: the margin, then for each
   * column `i` the escape loop at `C(x, E12(y))` and its character, then
   * the newline.
   */
  method RenderRow(cfg: Config, j: int) returns (line: string)
    ensures line == Row(cfg, j)
  {
    var iLo, iHi := RangeLo(cfg.ni), Half(cfg.ni);
    var y := (j as real) * cfg.dy;
    line := Margin;
    var i := iLo;
    while i < iHi
      invariant iLo <= i && i - iLo <= RangeLen(cfg.ni)
      invariant i < iHi ==> RangeLen(cfg.ni) == iHi - iLo
      invariant line == Margin + Pixels(cfg, j, i - iLo)
    {
      var x := cfg.x0 + (i as real) * cfg.dx;
      var z0 := Of(x, y);
      var k := EscapeIterations(z0, cfg.nk);
      assert z0 == Sample(cfg, i, j);
      line := line + [if k >= cfg.nk then '*' else ' '];
      assert Pixels(cfg, j, i + 1 - iLo) == Pixels(cfg, j, i - iLo) + [PixelChar(z0, cfg.nk)];
      i := i + 1;
    }
    assert i - iLo == RangeLen(cfg.ni);
    line := line + "\n";
  }

  /** `main`'s outer loop over the rows; the text is returned instead of printed. */
  method Render(cfg: Config) returns (rows: seq<string>)
    ensures rows == Image(cfg)
  {
    var jLo, jHi := RangeLo(cfg.nj), Half(cfg.nj);
    rows := [];
    var j := jLo;
    while j < jHi
      invariant jLo <= j && j - jLo <= RangeLen(cfg.nj)
      invariant j < jHi ==> RangeLen(cfg.nj) == jHi - jLo
      invariant rows == Rows(cfg, j - jLo)
    {
      var line := RenderRow(cfg, j);
      assert Rows(cfg, j + 1 - jLo) == Rows(cfg, j - jLo) + [Row(cfg, j)];
      rows := rows + [line];
      j := j + 1;
    }
    assert j - jLo == RangeLen(cfg.nj);
  }
}
