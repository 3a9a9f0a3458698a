# aha-rs: graded elements, the signed pair `C` and the text Mandelbrot

This project models three parts of the `aha` Rust crate in Dafny and proves
properties about them. Floating-point coefficients become exact `real`s.

- **`GradedElements`** models the inline `mod ga2` of `src/lib.rs`:
  - the four basis markers `e0`, `e1`, `e2`, `e12`;
  - the single-coefficient elements `Ge0` .. `Ge12` as `Elem(basis, val)`;
  - construction `c * eK`, scaling `k * x`, and same-grade `eq`/`ne`;
  - the geometric product `gp`. Its sign and result grade come from the
    hand-written 16-entry table, which the source writes once for `f32` and
    again for `f64`.

  The table is proved equal to an independent definition, the Clifford
  product of basis blades (`BladeProduct`); the swap rule is derived from
  that reference. Identity, squares, anticommutation and associativity are
  proved by cases over the 16 entries.
- **`Signs`** models the `+`/`-` signs shared by the table and the element
  declarations, and the `drop_plus` macro (`Apply`).
- **`Complex`** models `C<T>(T, E12<T>)` of `src/ga2.rs`: `Add`, `Sub`,
  `Mul` (as written, with the declared square sign `-` of `E12`), `Not`
  (conjugation) and the squared `norm`. It proves:
  - multiplication is ordinary complex multiplication;
  - the ring laws;
  - the conjugation laws;
  - `z * !z = |z|^2`;
  - the norm is multiplicative.
- **`Mandelbrot`** models `examples/mandelbrottxt.rs`:
  - the escape loop is a method whose loop is proved against the
    specification function `EscapeCount`;
  - the count is characterised as the first step that reaches the cap or
    leaves the radius;
  - pixel classification is proved for the origin, for `-1/2` and for a far
    point;
  - the two nested grid loops are methods (`RenderRow`, `Render`). They
    return the printed text as a sequence of rows, proved equal to the
    specification `Image`;
  - the picture's shape is proved: row count, margin, pixel count,
    newline, and which point each character samples.

Notes on the code:
- The example's grid is 60 columns by 40 rows, and every row starts with a
  five-space margin.
- `C` in `src/ga2.rs` defines exactly `norm`, `+`, `-`, `*` and `!`.
- `src/lib.rs` implements `eq`/`ne` only for `f32` elements of one grade
  (lines 158-163). Scaling, construction and `gp` exist for both `f32` and
  `f64`.
- The inline `mod ga2` of `src/lib.rs` and the file `src/ga2.rs` are
  independent of each other and are modelled as independent modules.
  Lemma `Complex.SquareSignsAgree` states that the square signs declared in
  `src/ga2.rs` match the product table.

## Model

| member | source | states |
|---|---|---|
| `Signs.Apply` | src/lib.rs:88-91 | `drop_plus`: definition; its properties are `ApplyMul` and `ApplyTimes` |
| `Signs.ApplyMul` | src/lib.rs:88-99 | a sign applied to one factor is the sign applied to the product, on either side; this is what lets `gp` put the sign on `self.val * rhs.val` |
| `Signs.ApplyTimes` | src/lib.rs:88-91 | applying two signs in turn is applying their product sign |
| `GradedElements.Construct` | src/lib.rs:40-49 | `c * eK`: definition; its property is `ConstructRoundTrip` |
| `GradedElements.ConstructRoundTrip` | src/lib.rs:40-49 | `c * eK` has grade K and coefficient exactly `c`; every element is rebuilt from its grade and coefficient |
| `GradedElements.Scale` | src/lib.rs:76-85 | `k * x`: keeps the grade; its other properties are `ScaleCompose`, `GpScale` and `ScalarGpIsScale` |
| `GradedElements.ScaleCompose` | src/lib.rs:76-85 | scaling keeps the grade and multiplies the coefficient: `k * (m * (c eK)) = (k m c) eK`, and `3 * (2 eK)` has coefficient 6 |
| `GradedElements.Eq` | src/lib.rs:62-68 | `eq` of one grade: definition; its property is `EqIsEquality` |
| `GradedElements.Ne` | src/lib.rs:69-71 | `ne` of one grade: definition; its property is `EqIsEquality` |
| `GradedElements.EqIsEquality` | src/lib.rs:62-74 | within one grade, `eq` holds exactly when the elements are equal, and `ne` is the negation of `eq` |
| `GradedElements.Table` | src/lib.rs:177-196 | the `f32` table: definition; its properties are `TableIsBladeProduct`, `TableIdentity`, `TableSwap` and `TableAssociative` |
| `GradedElements.Table64` | src/lib.rs:197-217 | the `f64` table: definition; its property is `TablesAgree` |
| `GradedElements.Gp` | src/lib.rs:93-103 | `gp`: definition through `Table` and `Apply`; its properties are `ScalarGpIsScale`, `Squares`, `Anticommute`, `GpSwap`, `GpAssociative` and `GpScale` |
| `GradedElements.TablesAgree` | src/lib.rs:177-217 | the `f64` table is entry for entry the `f32` table |
| `GradedElements.TableIsBladeProduct` | src/lib.rs:178-196 | each of the 16 entries is the Clifford product of the two basis blades: shared vector factors cancel, and the sign is `-` exactly when an `e2` of the left blade passes an `e1` of the right |
| `GradedElements.TableIdentity` | src/lib.rs:178-193 | `e0` is a two-sided identity: `e0 X = +X` and `X e0 = +X` for every grade X |
| `GradedElements.TableSwap` | src/lib.rs:178-196 | swapping the factors keeps the grade, and keeps the sign exactly when one factor is `e0` or both are the same grade |
| `GradedElements.TableAssociative` | src/lib.rs:178-196 | for all grades a, b, c, `(a b) c` and `a (b c)` have the same grade and the same total sign |
| `GradedElements.ScalarGpIsScale` | src/lib.rs:178-193 | the product with `c e0` on either side is scaling by `c`; `1 e0` is the identity element |
| `GradedElements.Squares` | src/lib.rs:184-196 | `e1 e1 = +e0`, `e2 e2 = +e0`, `e12 e12 = -e0`, and `(2 e1).gp(3 e1).val == 6` |
| `GradedElements.Anticommute` | src/lib.rs:185-189 | `(a e1)(b e2) = +(ab) e12` and `(b e2)(a e1) = -(ab) e12` |
| `GradedElements.GpSwap` | src/lib.rs:93-196 | swapping the operands of `gp` keeps the grade, and keeps or negates the coefficient according to whether the grades commute |
| `GradedElements.GpAssociative` | src/lib.rs:93-196 | `gp` of graded elements is associative |
| `GradedElements.GpScale` | src/lib.rs:76-103 | scaling either factor of `gp` scales the product |
| `Complex.Add` | src/ga2.rs:19-24 | `+`: definition; its properties are `SubUndoesAdd`, `AddLaws`, `MulDistributes` and `NotHomomorphism` |
| `Complex.Sub` | src/ga2.rs:26-31 | `-`: definition; its property is `SubUndoesAdd` |
| `Complex.E12Mul` | src/ga2.rs:4-8 | `E12 * E12` with the declared square sign: definition; its properties are `SquareSignsAgree` and `MulIsComplex` |
| `Complex.Mul` | src/ga2.rs:33-39 | `*` as written: definition; its properties are `MulIsComplex`, `MulCommutative`, `MulAssociative`, `MulUnits`, `MulDistributes`, `MulNot` and `NormMultiplicative` |
| `Complex.Not` | src/ga2.rs:42-48 | `!`: definition; its properties are `NotInvolution`, `NotHomomorphism`, `NotPreservesNorm` and `MulNot` |
| `Complex.SquareSignsAgree` | src/ga2.rs:4-8 | the declared square signs `E1 +`, `E2 +`, `E12 -` are the signs of `e1 e1`, `e2 e2` and `e12 e12` in the product table |
| `Complex.NormSq` | src/ga2.rs:14-16 | the squared norm `re^2 + im^2` is never negative |
| `Complex.NormSqZero` | src/ga2.rs:14-16 | the squared norm is positive exactly for numbers other than `(0, 0)` |
| `Complex.SubUndoesAdd` | src/ga2.rs:19-31 | `(z + w) - w == z` and `(z - w) + w == z` |
| `Complex.AddLaws` | src/ga2.rs:19-24 | `+` is commutative and associative, with `(0, 0)` as identity |
| `Complex.MulIsComplex` | src/ga2.rs:33-39 | with `E12` squaring to `-`, `*` is complex multiplication `(ac - bd, ad + bc)` |
| `Complex.MulCommutative` | src/ga2.rs:33-39 | `z * w == w * z` |
| `Complex.MulAssociative` | src/ga2.rs:33-39 | `(z * w) * u == z * (w * u)` |
| `Complex.MulUnits` | src/ga2.rs:33-39 | `(1, 0)` is a two-sided identity and `(0, 1) * (0, 1) == (-1, 0)` |
| `Complex.MulDistributes` | src/ga2.rs:19-39 | `z * (w + u) == z * w + z * u` |
| `Complex.NotInvolution` | src/ga2.rs:42-48 | `!z` keeps the scalar part, negates the `E12` part, and `!!z == z` |
| `Complex.NotHomomorphism` | src/ga2.rs:19-48 | `!(z + w) == !z + !w` and `!(z * w) == !z * !w` |
| `Complex.NotPreservesNorm` | src/ga2.rs:14-48 | conjugation preserves the squared norm |
| `Complex.MulNot` | src/ga2.rs:14-48 | `z * !z` has a zero `E12` part and the squared norm as its scalar part |
| `Complex.NormMultiplicative` | src/ga2.rs:14-39 | the squared norm of a product is the product of the squared norms |
| `Mandelbrot.Step` | examples/mandelbrottxt.rs:23 | `z*z + z0`: definition; its properties are `FixedOrbit`, `ZeroStep` and `HalfOrbit` |
| `Mandelbrot.CountFromStops` | examples/mandelbrottxt.rs:20-25 | from step `k` of the orbit, after `k` bounded steps, the loop stops at the first step that reaches the cap `nk` or leaves the radius 10 |
| `Mandelbrot.EscapeCountSpec` | examples/mandelbrottxt.rs:20-25 | the final `k` is in `[0, nk]` (0 when `nk <= 0`); every earlier orbit point has norm below 10; at `k` either `k >= nk` or the norm is at least 10 |
| `Mandelbrot.EscapeIterations` | examples/mandelbrottxt.rs:20-25 | the `while` loop with `z = z*z + z0; k += 1` ends with the count `EscapeCount(z0, nk)` and its characterisation |
| `Mandelbrot.PixelChar` | examples/mandelbrottxt.rs:26 | `'*'` when `k >= nk`, else `' '`: definition; its property is `PixelInsideIff` |
| `Mandelbrot.PixelInsideIff` | examples/mandelbrottxt.rs:26 | a pixel is `'*'` exactly when the first `nk` orbit points all have norm below 10, and otherwise `' '` |
| `Mandelbrot.FarPointEscapes` | examples/mandelbrottxt.rs:22-26 | a start point with norm at least 10 gives `k = 0`, and a `' '` pixel when `nk > 0` |
| `Mandelbrot.FarPointExample` | examples/mandelbrottxt.rs:22-26 | `(10, 10)` stops at `k = 0` and prints `' '` |
| `Mandelbrot.FixedOrbit` | examples/mandelbrottxt.rs:23 | a start point that one step maps to itself stays there on every step |
| `Mandelbrot.ZeroStep` | examples/mandelbrottxt.rs:19-23 | a start point with both parts zero is mapped to itself by one step |
| `Mandelbrot.OriginStep` | examples/mandelbrottxt.rs:23 | one step from the origin with `z0 = (0, 0)` gives the origin |
| `Mandelbrot.OriginFixed` | examples/mandelbrottxt.rs:19-25 | the orbit of the origin is the origin at every step |
| `Mandelbrot.FixedInside` | examples/mandelbrottxt.rs:20-26 | a start point within the radius that one step maps to itself runs to the cap and prints `'*'` |
| `Mandelbrot.OriginInside` | examples/mandelbrottxt.rs:19-26 | the origin runs to the cap (`k == nk` for `nk > 0`) and prints `'*'` |
| `Mandelbrot.HalfOrbit` | examples/mandelbrottxt.rs:19-25 | the orbit of `-1/2` stays real and within `[-1/2, 0]` |
| `Mandelbrot.HalfBounded` | examples/mandelbrottxt.rs:22 | a real point of `[-1/2, 0]` passes the norm test |
| `Mandelbrot.HalfInside` | examples/mandelbrottxt.rs:19-26 | the point `-1/2` (the grid's `x0`) prints `'*'` for every cap |
| `Mandelbrot.Half` | examples/mandelbrottxt.rs:14 | `n/2` on integers rounds toward zero, for negative `n` too |
| `Mandelbrot.RangeLen` | examples/mandelbrottxt.rs:14-17 | the range `-n/2..n/2` has `n` indices for even `n >= 0`, `n - 1` for odd `n > 0`, and none for `n <= 0` |
| `Mandelbrot.Sample` | examples/mandelbrottxt.rs:15-19 | the point `C(x0 + i*dx, E12(j*dy))` of pixel `(i, j)`: definition; its properties are `ImageShape` and `ReferenceCentre` |
| `Mandelbrot.PixelsAt` | examples/mandelbrottxt.rs:17-26 | the `t`-th pixel of a row is the character of the point sampled by column `-ni/2 + t` |
| `Mandelbrot.PixelsLength` | examples/mandelbrottxt.rs:17-27 | a row prints one character per column |
| `Mandelbrot.RowsAt` | examples/mandelbrottxt.rs:14-29 | the `r`-th printed row is the row of grid line `-nj/2 + r` |
| `Mandelbrot.RowsLength` | examples/mandelbrottxt.rs:14-29 | the picture has one row per grid line |
| `Mandelbrot.ImageShape` | examples/mandelbrottxt.rs:14-29 | each row is the five-space margin, one character per column, each `'*'` or `' '`, and a newline; column `c` of row `r` classifies `C(x0 + i*dx, E12(j*dy))` with `i = -ni/2 + c` and `j = -nj/2 + r` |
| `Mandelbrot.ReferenceShape` | examples/mandelbrottxt.rs:10-17 | with `ni = 60` and `nj = 40` the picture is 40 rows of 66 characters, for `j` in `[-20, 20)` and `i` in `[-30, 30)` |
| `Mandelbrot.ReferenceCentre` | examples/mandelbrottxt.rs:7-26 | with the example's `x0 = -0.5` and grid size, the middle pixel (row 20, column 30) is `'*'` |
| `Mandelbrot.RenderRow` | examples/mandelbrottxt.rs:15-28 | the body of the outer loop produces exactly the specified row: margin, classified pixels, newline |
| `Mandelbrot.Render` | examples/mandelbrottxt.rs:14-29 | the outer loop produces exactly the specified picture `Image` |

## Left out

- Floating point: `f32`/`f64` rounding, NaN and infinity are not modelled. Coefficients are exact reals, so the two copies of each `f32`/`f64` macro instance collapse into one definition. The `f64` product table is kept as its own function because the source writes it out separately. The casts `j as f32` and `i as f32` are exact.
- `sqrt` in `norm` is not modelled. The loop guard `norm(z) < 10` is stated as `re^2 + im^2 < 100`, which is equivalent over the reals.
- `Display` formatting (`"{}*e1"` and so on) is float-to-text output and is not modelled.
- The blade declarations `Gb0`, `Gb1`, `Gb2` and module `ga3` are not modelled: they are data declarations with no operations.
- The `IP` and `OP` traits are not modelled: they are declared but never implemented.
- `define_elements!` is not shown in the source. Only the square sign of each element is taken from it. The `E12` operators that `C` uses (`+`, `-`, `*` by a scalar, `*` by `E12`, negation) are modelled as arithmetic on the coefficient, with `E12 * E12` carrying the declared sign.
- `print!`/`println!`: the example's output is returned as a sequence of row strings, not written to standard output.
- The Rust macros themselves (`macro_rules!`) are not modelled; each is modelled by what its expansions do.
- Grid sizes and counters are unbounded integers. The example's `i32` values (at most 255) never overflow, so wrap-around is not modelled.
- The Rust type system's grade restriction on `eq`/`ne` becomes a `requires` that both operands have the same basis.
