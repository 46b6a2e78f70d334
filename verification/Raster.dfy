/** One-bit rasters (crates/mb-printer-core/src/raster.rs): mirroring and packing to most-significant-bit-first rows. */
module Raster {
  import opened Bytes
  import opened Bits

  datatype MonoRaster = MonoRaster(width: nat, height: nat, pixels: seq<byte>) {
    /** `MonoRaster::validate`. */
    predicate Valid() {
      width > 0 && height > 0 && |pixels| == width * height && forall i :: 0 <= i < |pixels| ==> pixels[i] <= 1
    }
  }

  datatype RasterError = Length | Dimensions

  /** Row-major position of column `x` of row `y`. */
  function Cell(width: nat, y: nat, x: nat): (r: nat) {
    y * width + x
  }

  lemma CellBound(width: nat, height: nat, y: nat, x: nat)
    requires y < height && x < width
    ensures Cell(width, y, x) < width * height
  {
    assert (y + 1) * width <= height * width;
  }

  lemma CellOrder(width: nat, y: nat, x: nat, v: nat, u: nat)
    requires x < width && y < v
    ensures Cell(width, y, x) < Cell(width, v, u)
  {
    assert (y + 1) * width <= v * width;
  }

  lemma CellInjective(width: nat, y: nat, x: nat, v: nat, u: nat)
    requires x < width && u < width && Cell(width, y, x) == Cell(width, v, u)
    ensures y == v && x == u
  {
    if y < v {
      CellOrder(width, y, x, v, u);
    } else if v < y {
      CellOrder(width, v, u, y, x);
    }
  }

  lemma QuotientUnique(n: nat, d: nat, q: nat, r: nat)
    requires d > 0 && r < d && n == d * q + r
    ensures n / d == q && n % d == r
  {
    assert n == d * (n / d) + n % d;
    CellInjective(d, n / d, n % d, q, r);
  }

  lemma DivMonotone(a: nat, b: nat, d: nat)
    requires a <= b && d > 0
    ensures a / d <= b / d
  {
    assert a == d * (a / d) + a % d && b == d * (b / d) + b % d;
    if a / d > b / d {
      CellOrder(d, b / d, b % d, a / d, a % d);
    }
  }

  function Pixel(r: MonoRaster, y: nat, x: nat): (p: byte)
    requires |r.pixels| == r.width * r.height && y < r.height && x < r.width
  {
    CellBound(r.width, r.height, y, x);
    r.pixels[Cell(r.width, y, x)]
  }

  predicate SameShape(a: MonoRaster, b: MonoRaster) {
    a.width == b.width && a.height == b.height && |a.pixels| == |b.pixels| == a.width * a.height
  }

  predicate MirrorOf(o: MonoRaster, r: MonoRaster) {
    SameShape(o, r) &&
    forall y, x :: 0 <= y < r.height && 0 <= x < r.width ==> Pixel(o, y, x) == Pixel(r, y, r.width - 1 - x)
  }

  method MirrorHorizontal(r: MonoRaster) returns (o: MonoRaster)
    requires |r.pixels| == r.width * r.height
    ensures MirrorOf(o, r)
  {
    hide Cell;
    var pixels := new byte[|r.pixels|](i requires 0 <= i < |r.pixels| => r.pixels[i]);
    for y := 0 to r.height
      invariant forall v, u :: 0 <= v < y && 0 <= u < r.width ==>
        Cell(r.width, v, u) < pixels.Length && pixels[Cell(r.width, v, u)] == Pixel(r, v, r.width - 1 - u)
    {
      for x := 0 to r.width
        invariant forall v, u :: 0 <= v <= y && 0 <= u < (if v == y then x else r.width) ==>
          Cell(r.width, v, u) < pixels.Length && pixels[Cell(r.width, v, u)] == Pixel(r, v, r.width - 1 - u)
      {
        forall v, u | 0 <= v <= y && 0 <= u < r.width && Cell(r.width, v, u) == Cell(r.width, y, x)
          ensures v == y && u == x
        {
          CellInjective(r.width, v, u, y, x);
        }
        CellBound(r.width, r.height, y, x);
        pixels[Cell(r.width, y, x)] := Pixel(r, y, r.width - 1 - x);
      }
    }
    o := r.(pixels := pixels[..]);
  }

  function Stride(width: nat): (r: nat) {
    (width + 7) / 8
  }

  /** Whether column `x` of row `y` prints; columns that only pad the last octet do not. */
  predicate Inked(r: MonoRaster, y: nat, x: nat)
    requires |r.pixels| == r.width * r.height
  {
    y < r.height && x < r.width && Pixel(r, y, x) != 0
  }

  /** Whether column `x` of row `y` is set in rows of `stride` octets. */
  predicate BitAt(out: seq<byte>, stride: nat, y: nat, x: nat) {
    Cell(stride, y, x / 8) < |out| && HasBit(out[Cell(stride, y, x / 8)], x % 8)
  }

  /** `out` holds one bit a pixel, each row padded with clear bits to a whole octet. */
  predicate PackedAs(out: seq<byte>, r: MonoRaster) {
    && |r.pixels| == r.width * r.height
    && |out| == Stride(r.width) * r.height
    && forall y, x :: 0 <= y < r.height && 0 <= x < 8 * Stride(r.width) ==>
       (BitAt(out, Stride(r.width), y, x) <==> Inked(r, y, x))
  }

  lemma ClearBits(k: nat)
    requires k < 8
    ensures !HasBit(0, k)
  {
    ZeroDigits(7 - k);
  }

  /** Positions before `(y, x)` in row-major order. */
  predicate Before(v: nat, u: nat, y: nat, x: nat) {
    v < y || (v == y && u < x)
  }

  ghost predicate PackedUpTo(out: seq<byte>, r: MonoRaster, y: nat, x: nat)
    requires |r.pixels| == r.width * r.height
  {
    forall v, u :: 0 <= v < r.height && 0 <= u < 8 * Stride(r.width) ==>
      (BitAt(out, Stride(r.width), v, u) <==> Before(v, u, y, x) && Inked(r, v, u))
  }

  lemma SetOneBit(out: seq<byte>, stride: nat, y: nat, x: nat, v: nat, u: nat)
    requires x < 8 * stride && u < 8 * stride && Cell(stride, y, x / 8) < |out|
    ensures var i := Cell(stride, y, x / 8);
            BitAt(out[i := SetBit(out[i], x % 8)], stride, v, u) <==> (v == y && u == x) || BitAt(out, stride, v, u)
  {
    hide Cell, HasBit;
    if Cell(stride, v, u / 8) == Cell(stride, y, x / 8) {
      CellInjective(stride, v, u / 8, y, x / 8);
    }
  }

  lemma PackStep(out: seq<byte>, next: seq<byte>, r: MonoRaster, y: nat, x: nat)
    requires |r.pixels| == r.width * r.height && y < r.height && x < r.width
    requires PackedUpTo(out, r, y, x) && Cell(Stride(r.width), y, x / 8) < |out|
    requires next == if Pixel(r, y, x) == 0 then out else
                       var i := Cell(Stride(r.width), y, x / 8); out[i := SetBit(out[i], x % 8)]
    ensures PackedUpTo(next, r, y, x + 1)
  {
    hide Cell, BitAt, SetBit, Pixel;
    var stride := Stride(r.width);
    forall v, u | 0 <= v < r.height && 0 <= u < 8 * stride
      ensures BitAt(next, stride, v, u) <==> Before(v, u, y, x + 1) && Inked(r, v, u)
    {
      SetOneBit(out, stride, y, x, v, u);
    }
  }

  lemma RowPacked(out: seq<byte>, r: MonoRaster, y: nat)
    requires |r.pixels| == r.width * r.height && PackedUpTo(out, r, y, r.width)
    ensures PackedUpTo(out, r, y + 1, 0)
  {
    hide Cell, BitAt, Pixel;
  }

  method PackMsb(r: MonoRaster) returns (result: Result<seq<byte>, RasterError>)
    ensures result.Ok? <==> r.Valid()
    ensures result.Ok? ==> PackedAs(result.value, r)
    ensures result.Err? ==> result.error == if r.width == 0 || r.height == 0 then Dimensions else Length
  {
    if r.width == 0 || r.height == 0 {
      return Err(Dimensions);
    }
    if |r.pixels| != r.width * r.height || exists i :: 0 <= i < |r.pixels| && r.pixels[i] > 1 {
      return Err(Length);
    }
    hide Cell, BitAt, HasBit, SetBit, Pixel;
    var stride := (r.width + 7) / 8;
    var out := new byte[stride * r.height](_ => 0);
    forall v, u | 0 <= v < r.height && 0 <= u < 8 * stride
      ensures !BitAt(out[..], stride, v, u)
    {
      NothingSet(out[..], stride, v, u);
    }
    for y := 0 to r.height
      invariant PackedUpTo(out[..], r, y, 0)
    {
      for x := 0 to r.width
        invariant PackedUpTo(out[..], r, y, x)
      {
        ghost var was := out[..];
        CellBound(stride, r.height, y, x / 8);
        if Pixel(r, y, x) != 0 {
          var i := Cell(stride, y, x / 8);
          out[i] := SetBit(out[i], x % 8);
        }
        PackStep(was, out[..], r, y, x);
      }
      RowPacked(out[..], r, y);
    }
    result := Ok(out[..]);
  }

  lemma NothingSet(out: seq<byte>, stride: nat, v: nat, u: nat)
    requires forall i :: 0 <= i < |out| ==> out[i] == 0
    ensures !BitAt(out, stride, v, u)
  {
    ClearBits(u % 8);
  }

  /** Packing loses nothing: two rasters of the same shape with the same packed form are equal. */
  lemma PackingIsInjective(out: seq<byte>, a: MonoRaster, b: MonoRaster)
    requires a.Valid() && b.Valid() && SameShape(a, b) && PackedAs(out, a) && PackedAs(out, b)
    ensures a == b
  {
    hide Cell, BitAt, PackedAs;
    forall i | 0 <= i < |a.pixels| ensures a.pixels[i] == b.pixels[i] {
      CellOf(a.width, a.height, i);
      SamePixel(out, a, b, i / a.width, i % a.width);
    }
  }

  lemma SamePixel(out: seq<byte>, a: MonoRaster, b: MonoRaster, y: nat, x: nat)
    requires a.Valid() && b.Valid() && SameShape(a, b) && PackedAs(out, a) && PackedAs(out, b)
    requires y < a.height && x < a.width
    ensures Pixel(a, y, x) == Pixel(b, y, x)
  {
    hide Cell, BitAt;
    CellBound(a.width, a.height, y, x);
    assert BitAt(out, Stride(a.width), y, x) <==> Inked(a, y, x);
    assert BitAt(out, Stride(b.width), y, x) <==> Inked(b, y, x);
  }

  lemma CellOf(width: nat, height: nat, i: nat)
    requires width > 0 && i < width * height
    ensures i / width < height && Cell(width, i / width, i % width) == i
  {
    assert i == width * (i / width) + i % width;
    if i / width >= height {
      CellOrder(width, height - 1, width - 1, i / width, 0);
    }
  }
}
