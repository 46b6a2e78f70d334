/** The two error-diffusion modes written out (crates/mb-printer-core/src/raster.rs, `dither`): which neighbours a pixel
    hears from, with which weights, and what is made of the sum. */
module DitherStencils {
  import opened Arithmetic
  import opened Bytes
  import opened Raster
  import opened Dither

  /** Division by `n` that drops the fraction. */
  function Part(a: int, n: nat): (r: int)
    requires n > 0
  {
    if a >= 0 then a / n else 0 - ((0 - a) / n)
  }

  /** The error of the pixel in row `v` and column `u`, none outside the image. */
  function Error(errors: seq<int>, width: nat, v: int, u: int): (e: int) {
    if v < 0 || u < 0 || u >= width || Cell(width, v, u) >= |errors| then 0 else errors[Cell(width, v, u)]
  }

  /** A pixel in sixteenths, with seven parts of the error of its left neighbour, and three, five and one of those above
      to its right, above it and above to its left. */
  function FloydSteinbergValue(pixels: seq<byte>, width: nat, errors: seq<int>, v: nat, u: nat): (r: int)
    requires Cell(width, v, u) < |pixels|
  {
    pixels[Cell(width, v, u)] * 16
    + Part(7 * Error(errors, width, v, u - 1), 16) + Part(3 * Error(errors, width, v - 1, u + 1), 16)
    + Part(5 * Error(errors, width, v - 1, u), 16) + Part(Error(errors, width, v - 1, u - 1), 16)
  }

  /** A pixel in eighths, with one part of the errors of the two pixels to its left, of the three next to each other
      above it, and of the one two rows above. */
  function AtkinsonValue(pixels: seq<byte>, width: nat, errors: seq<int>, v: nat, u: nat): (r: int)
    requires Cell(width, v, u) < |pixels|
  {
    pixels[Cell(width, v, u)] * 8
    + Part(Error(errors, width, v, u - 1), 8) + Part(Error(errors, width, v, u - 2), 8)
    + Part(Error(errors, width, v - 1, u + 1), 8) + Part(Error(errors, width, v - 1, u), 8)
    + Part(Error(errors, width, v - 1, u - 1), 8) + Part(Error(errors, width, v - 2, u), 8)
  }

  function Between(lo: int, n: int, hi: int): (r: int)
    requires lo <= hi
  {
    if n < lo then lo else if n > hi then hi else n
  }

  // ----- one tap -----

  lemma TapHears(d: Diffusion, k: nat, width: nat, v: nat, u: nat, errors: seq<int>)
    requires d.Valid() && k < |d.taps| && u < width
    ensures Received(d, k + 1, 0, width, v, u, v, u, errors)
         == Received(d, k, 0, width, v, u, v, u, errors)
            + Part(d.taps[k].weight * Error(errors, width, v - d.taps[k].dy, u - d.taps[k].dx), d.divisor)
  {
    var sv, su := v - d.taps[k].dy, u - d.taps[k].dx;
    if Came(d, k, 0, width, v, u, v, u) {
      assert Error(errors, width, sv, su) == ErrorAt(errors, width, sv, su);
      assert ErrorAt(errors, width, sv, su) * d.taps[k].weight == d.taps[k].weight * ErrorAt(errors, width, sv, su);
    } else {
      assert Error(errors, width, sv, su) == 0;
      assert d.taps[k].weight * 0 == 0;
      NoPart(d.divisor);
    }
  }

  lemma NoPart(n: nat)
    requires n > 0
    ensures Part(0, n) == 0
  {
    ZeroQuotient(n);
  }

  lemma ZeroQuotient(n: nat)
    requires n > 0
    ensures 0 / n == 0
  {
  }

  lemma NothingReceived(d: Diffusion, width: nat, v: nat, u: nat, errors: seq<int>)
    requires d.Valid()
    ensures Received(d, 0, 0, width, v, u, v, u, errors) == 0
  {
  }

  // ----- the modes -----

  /** A pixel is decided by Floyd-Steinberg when it is black exactly if the clamped value is below the middle, and keeps
      the difference as its error. */
  lemma FloydSteinbergDecides(pixels: seq<byte>, width: nat, v: nat, u: nat, errors: seq<int>, out: seq<byte>)
    requires u < width && Cell(width, v, u) < |pixels| == |errors| == |out|
    ensures FLOYD_STEINBERG.Valid()
    ensures Decided(FLOYD_STEINBERG, Base(FLOYD_STEINBERG, pixels), width, v, u, errors, out) <==>
      var seen := Between(0, FloydSteinbergValue(pixels, width, errors, v, u), 16 * 255);
      if seen < 2048 then out[Cell(width, v, u)] == 1 && errors[Cell(width, v, u)] == seen
      else out[Cell(width, v, u)] == 0 && errors[Cell(width, v, u)] == seen - 16 * 255
  {
    hide Received, Cell, Part, Error;
    var d := FLOYD_STEINBERG;
    NothingReceived(d, width, v, u, errors);
    TapHears(d, 0, width, v, u, errors);
    TapHears(d, 1, width, v, u, errors);
    TapHears(d, 2, width, v, u, errors);
    TapHears(d, 3, width, v, u, errors);
    assert ValueAt(d, Base(d, pixels), width, v, u, errors) == FloydSteinbergValue(pixels, width, errors, v, u);
  }

  /** The same for Atkinson, which passes on only six of the eight parts. */
  lemma AtkinsonDecides(pixels: seq<byte>, width: nat, v: nat, u: nat, errors: seq<int>, out: seq<byte>)
    requires u < width && Cell(width, v, u) < |pixels| == |errors| == |out|
    ensures ATKINSON.Valid()
    ensures Decided(ATKINSON, Base(ATKINSON, pixels), width, v, u, errors, out) <==>
      var seen := Between(0, AtkinsonValue(pixels, width, errors, v, u), 8 * 255);
      if seen < 1024 then out[Cell(width, v, u)] == 1 && errors[Cell(width, v, u)] == seen
      else out[Cell(width, v, u)] == 0 && errors[Cell(width, v, u)] == seen - 8 * 255
  {
    hide Received, Cell, Part, Error;
    var d := ATKINSON;
    NothingReceived(d, width, v, u, errors);
    TapHears(d, 0, width, v, u, errors);
    TapHears(d, 1, width, v, u, errors);
    TapHears(d, 2, width, v, u, errors);
    TapHears(d, 3, width, v, u, errors);
    TapHears(d, 4, width, v, u, errors);
    TapHears(d, 5, width, v, u, errors);
    assert ValueAt(d, Base(d, pixels), width, v, u, errors) == AtkinsonValue(pixels, width, errors, v, u);
  }
}
