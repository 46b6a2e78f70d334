/** Line drawing (crates/mb-printer-core/src/render.rs, `line` and `set`): the error-accumulating loop draws
    exactly the half-up rounding of the ideal line. Coordinates are unbounded; the last part shows for which
    lines 32 bits suffice. */
module LineDrawing {
  import opened Arithmetic
  import opened Bytes
  import opened Raster

  datatype Point = Point(x: int, y: int)

  // ----- the ideal line -----

  function Abs(n: int): (r: nat) {
    if n < 0 then -n else n
  }

  function Max(a: int, b: int): (r: int) {
    if a < b then b else a
  }

  /** Steps along both axes after `n` steps along the longer one. */
  function Along(dx: nat, dy: nat, n: nat): (p: Point) {
    if dx >= dy then Point(n, Rounded(dx, dy, n)) else Point(Rounded(dy, dx, n), n)
  }

  function Toward(from: int, to: int, steps: int): (r: int) {
    if from < to then from + steps else from - steps
  }

  /** The `n`-th centre of the line from `a` to `b`. */
  function Centre(a: Point, b: Point, n: nat): (p: Point) {
    var s := Along(Abs(b.x - a.x), Abs(b.y - a.y), n);
    Point(Toward(a.x, b.x, s.x), Toward(a.y, b.y, s.y))
  }

  function Steps(a: Point, b: Point): (n: nat) {
    Max(Abs(b.x - a.x), Abs(b.y - a.y))
  }

  // ----- one step of the error accumulator -----

  /** With the accumulator `major * (k + 1) - minor * (n + 1)`, the longer axis always advances, the shorter one exactly
      when its rounding does. */
  lemma Step(major: nat, minor: nat, n: nat, k: nat, e: int)
    requires minor <= major && n < major && HalfUp(major, minor, n, k)
    requires e == 2 * (major * (k + 1) - minor * (n + 1))
    ensures e + minor >= 0
    ensures e <= major ==> HalfUp(major, minor, n + 1, k + 1)
    ensures e > major ==> HalfUp(major, minor, n + 1, k)
  {
    var a, b := major * k, minor * n;
    assert major * (k + 1) == a + major && minor * (n + 1) == b + minor;
    assert major * (2 * k - 1) == 2 * a - major && major * (2 * k + 1) == 2 * a + major;
    assert major * (2 * (k + 1) - 1) == 2 * a + major && major * (2 * (k + 1) + 1) == 2 * a + 3 * major;
  }

  /** The rounding of the whole minor extent is the extent itself. */
  lemma Arrival(major: nat, minor: nat)
    requires minor <= major
    ensures HalfUp(major, minor, major, minor)
  {
    assert major * (2 * minor - 1) == 2 * (minor * major) - major;
    assert major * (2 * minor + 1) == 2 * (minor * major) + major;
  }

  lemma MinorRange(major: nat, minor: nat, n: nat, k: int)
    requires minor <= major && n <= major && HalfUp(major, minor, n, k)
    ensures 0 <= k <= minor
  {
    if major > 0 {
      MulMonotone(n, major, minor);
      Commutes(major, minor);
      MulMonotone(0, n, minor);
      MulCancel(2 * k - 1, 2 * minor + 1, major);
      MulCancel(0, 2 * k + 1, major);
    }
  }

  lemma Commutes(major: nat, minor: nat)
    ensures major * (2 * minor + 1) == 2 * (minor * major) + major
  {
  }

  lemma Departure(major: nat, minor: nat)
    ensures Rounded(major, minor, 0) == 0
  {
    HalfUpUnique(major, minor, 0, Rounded(major, minor, 0), 0);
  }

  // ----- properties of the drawn line -----

  /** The line starts at its first point, ends at its second, and never leaves their bounding box. */
  lemma LineEnds(a: Point, b: Point)
    ensures Centre(a, b, 0) == a && Centre(a, b, Steps(a, b)) == b
  {
    hide Rounded;
    var dx, dy := Abs(b.x - a.x), Abs(b.y - a.y);
    if dx >= dy {
      Departure(dx, dy);
      Arrival(dx, dy);
      HalfUpUnique(dx, dy, dx, Rounded(dx, dy, dx), dy);
    } else {
      Departure(dy, dx);
      Arrival(dy, dx);
      HalfUpUnique(dy, dx, dy, Rounded(dy, dx, dy), dx);
    }
  }

  predicate Between(lo: int, v: int, hi: int) {
    lo <= v <= hi || hi <= v <= lo
  }

  lemma LineStaysInBox(a: Point, b: Point, n: nat)
    requires n <= Steps(a, b)
    ensures Between(a.x, Centre(a, b, n).x, b.x) && Between(a.y, Centre(a, b, n).y, b.y)
  {
    hide Rounded;
    var dx, dy := Abs(b.x - a.x), Abs(b.y - a.y);
    if dx >= dy {
      MinorRange(dx, dy, n, Rounded(dx, dy, n));
    } else {
      MinorRange(dy, dx, n, Rounded(dy, dx, n));
    }
  }

  lemma MinorAdvance(major: nat, minor: nat, n: nat)
    requires minor <= major && n < major
    ensures Rounded(major, minor, n) <= Rounded(major, minor, n + 1) <= Rounded(major, minor, n) + 1
  {
    hide Rounded;
    var k := Rounded(major, minor, n);
    var e := 2 * (major * (k + 1) - minor * (n + 1));
    Step(major, minor, n, k, e);
    HalfUpUnique(major, minor, n + 1, Rounded(major, minor, n + 1), if e <= major then k + 1 else k);
  }

  /** Consecutive centres are neighbours, and the longer axis moves by one each time. */
  lemma LineIsConnected(a: Point, b: Point, n: nat)
    requires n < Steps(a, b)
    ensures var p, q := Centre(a, b, n), Centre(a, b, n + 1);
            Abs(q.x - p.x) <= 1 && Abs(q.y - p.y) <= 1 &&
            (if Abs(b.x - a.x) >= Abs(b.y - a.y) then q.x == Toward(a.x, b.x, n + 1) != p.x
             else q.y == Toward(a.y, b.y, n + 1) != p.y)
  {
    hide Rounded;
    var dx, dy := Abs(b.x - a.x), Abs(b.y - a.y);
    if dx >= dy {
      MinorAdvance(dx, dy, n);
    } else {
      MinorAdvance(dy, dx, n);
    }
  }

  // ----- pixels -----

  predicate Visible(width: nat, height: nat, p: Point) {
    0 <= p.x < width && 0 <= p.y < height
  }

  /** The value shown at a point; nothing outside the canvas. */
  function Look(pixels: seq<byte>, width: nat, height: nat, p: Point): (r: Option<byte>)
    requires |pixels| == width * height
  {
    if Visible(width, height, p) then
      CellBound(width, height, p.y, p.x);
      Some(pixels[Cell(width, p.y, p.x)])
    else None
  }

  /** `after` is `before` with the visible points of `points` set to `v`, and nothing else changed. */
  ghost predicate Painted(before: seq<byte>, after: seq<byte>, width: nat, height: nat, points: iset<Point>, v: byte) {
    && |before| == |after| == width * height
    && forall p :: Look(after, width, height, p)
                == if p in points && Visible(width, height, p) then Some(v) else Look(before, width, height, p)
  }

  lemma PaintedBoth(s: seq<byte>, t: seq<byte>, u: seq<byte>, width: nat, height: nat, p: iset<Point>, q: iset<Point>,
                    v: byte)
    requires Painted(s, t, width, height, p, v) && Painted(t, u, width, height, q, v)
    ensures Painted(s, u, width, height, p + q, v)
  {
    hide Look;
  }

  class GrayRaster {
    const width: nat
    const height: nat
    const pixels: array<byte>

    ghost predicate Valid() {
      pixels.Length == width * height
    }

    constructor (width: nat, height: nat, white: byte)
      ensures Valid() && this.width == width && this.height == height && fresh(pixels)
      ensures forall i :: 0 <= i < pixels.Length ==> pixels[i] == white
    {
      this.width := width;
      this.height := height;
      pixels := new byte[width * height](_ => white);
    }

    /** Stores a pixel; a point outside the canvas changes nothing. */
    method Set(x: int, y: int, v: byte)
      requires Valid()
      modifies pixels
      ensures Painted(old(pixels[..]), pixels[..], width, height, iset{Point(x, y)}, v)
    {
      hide Cell;
      if x >= 0 && y >= 0 && x < width && y < height {
        CellBound(width, height, y, x);
        pixels[Cell(width, y, x)] := v;
        forall p | Visible(width, height, p) && p != Point(x, y)
          ensures Look(pixels[..], width, height, p) == Look(old(pixels[..]), width, height, p)
        {
          CellBound(width, height, p.y, p.x);
          if Cell(width, p.y, p.x) == Cell(width, y, x) {
            CellInjective(width, p.y, p.x, y, x);
          }
        }
      }
    }

    /** Blackens the square of half-width `h` around a point. */
    method Stamp(x: int, y: int, h: int)
      requires Valid()
      modifies pixels
      ensures Painted(old(pixels[..]), pixels[..], width, height, Square(Point(x, y), h), 0)
    {
      hide Painted;
      ghost var before := pixels[..];
      var yy := -h;
      PaintedNothing(before, width, height, Above(Point(x, y), h, -h, -h));
      while yy <= h
        invariant Painted(before, pixels[..], width, height, Above(Point(x, y), h, yy, -h), 0)
        invariant yy <= Max(h + 1, -h)
        decreases h - yy
      {
        var xx := -h;
        while xx <= h
          invariant xx <= h + 1
          invariant Painted(before, pixels[..], width, height, Above(Point(x, y), h, yy, xx), 0)
          decreases h - xx
        {
          ghost var last := pixels[..];
          Set(x + xx, y + yy, 0);
          PaintedBoth(before, last, pixels[..], width, height, Above(Point(x, y), h, yy, xx),
                      iset{Point(x + xx, y + yy)}, 0);
          assert Above(Point(x, y), h, yy, xx) + iset{Point(x + xx, y + yy)} == Above(Point(x, y), h, yy, xx + 1);
          xx := xx + 1;
        }
        assert Above(Point(x, y), h, yy, h + 1) == Above(Point(x, y), h, yy + 1, -h);
        yy := yy + 1;
      }
      assert Above(Point(x, y), h, yy, -h) == Square(Point(x, y), h);
    }

    /** The line from `(x0, y0)` to `(x1, y1)` with stroke `t`. */
    method Line(x0: int, y0: int, x1: int, y1: int, t: int)
      requires Valid()
      modifies pixels
      ensures Painted(old(pixels[..]), pixels[..], width, height,
                      Stroke(Point(x0, y0), Point(x1, y1), TruncatedHalf(t), Steps(Point(x0, y0), Point(x1, y1)) + 1),
                        0)
    {
      hide Painted, Rounded, HalfUp, Stroke, Square, Accumulated, Centre, Moderate, Roomy, InI32;
      ghost var before := pixels[..];
      ghost var a, b, h := Point(x0, y0), Point(x1, y1), TruncatedHalf(t);
      ghost var n: nat := 0;
      var x, y := x0, y0;
      var dx, dy := Abs(x1 - x0), 0 - Abs(y1 - y0);
      var sx, sy := if x0 < x1 then 1 else -1, if y0 < y1 then 1 else -1;
      var err := dx + dy;
      LineEnds(a, b);
      NothingStroked(a, b, h);
      PaintedNothing(before, width, height, Stroke(a, b, h, 0));
      StartErr(dx, -dy);
      while true
        invariant n <= Steps(a, b) && Point(x, y) == Centre(a, b, n) && err == Accumulated(dx, -dy, n)
        invariant Painted(before, pixels[..], width, height, Stroke(a, b, h, n), 0)
        decreases Steps(a, b) - n
      {
        ghost var last := pixels[..];
        Stamp(x, y, TruncatedHalf(t));
        PaintedBoth(before, last, pixels[..], width, height, Stroke(a, b, h, n), Square(Centre(a, b, n), h), 0);
        StrokeGrows(a, b, h, n);
        Unfinished(a, b, n);
        if x == x1 && y == y1 {
          break;
        }
        LoopStep(a, b, n, err);
        if Moderate(a, b, h) {
          ArithmeticFits(a, b, h, n);
          assert InI32(2 * err) && InI32(err + dy) && InI32(err + dx) && InI32(err + dy + dx);
        }
        var e := 2 * err;
        if e >= dy {
          err := err + dy;
          x := x + sx;
        }
        if e <= dx {
          err := err + dx;
          y := y + sy;
        }
        n := n + 1;
      }
    }
  }

  /** Rust's `t / 2`, which rounds toward zero. */
  function TruncatedHalf(t: int): (r: int) {
    if t < 0 then -(-t / 2) else t / 2
  }

  /** A stroke is as wide as asked if that is odd, and one dot wider if it is even; a stroke of minus one still shows
      one dot, anything less none. */
  lemma StrokeWidth(t: int, c: Point, p: Point)
    ensures p in Square(c, TruncatedHalf(t)) <==>
      var before := if t >= 0 then t / 2 else if t == -1 then 0 else -1;
      c.x - before <= p.x <= c.x + before && c.y - before <= p.y <= c.y + before
    ensures t >= 0 ==> 2 * TruncatedHalf(t) + 1 == if t % 2 == 1 then t else t + 1
  {
  }

  ghost function Square(c: Point, h: int): (s: iset<Point>) {
    iset p: Point | c.x - h <= p.x <= c.x + h && c.y - h <= p.y <= c.y + h
  }

  /** The rows of a square before `yy`, and row `yy` before column `xx`, both relative to its centre. */
  ghost function Above(c: Point, h: int, yy: int, xx: int): (s: iset<Point>) {
    iset p: Point | p in Square(c, h) && (p.y < c.y + yy || (p.y == c.y + yy && p.x < c.x + xx))
  }

  /** All squares around the first `n` centres. */
  ghost function Stroke(a: Point, b: Point, h: int, n: nat): (s: iset<Point>) {
    iset p: Point | Stroked(a, b, h, n, p)
  }

  ghost predicate Stroked(a: Point, b: Point, h: int, n: nat, p: Point) {
    exists m: nat :: m < n && p in Square(Centre(a, b, m), h)
  }

  lemma NothingStroked(a: Point, b: Point, h: int)
    ensures Stroke(a, b, h, 0) == iset{}
  {
  }

  lemma StrokeGrows(a: Point, b: Point, h: int, n: nat)
    ensures Stroke(a, b, h, n + 1) == Stroke(a, b, h, n) + Square(Centre(a, b, n), h)
  {
    hide Centre, Square;
  }

  lemma PaintedNothing(s: seq<byte>, width: nat, height: nat, points: iset<Point>)
    requires |s| == width * height && points == iset{}
    ensures Painted(s, s, width, height, points, 0)
  {
  }

  /** The error accumulator in closed form: what each axis still lacks, weighted by the other's extent. */
  ghost function Accumulated(dx: nat, dy: nat, n: nat): (r: int) {
    var s := Along(dx, dy, n);
    dx * (s.y + 1) - dy * (s.x + 1)
  }

  lemma StartErr(dx: nat, dy: nat)
    ensures Accumulated(dx, dy, 0) == dx - dy
  {
    hide Rounded;
    Departure(dx, dy);
    Departure(dy, dx);
  }

  /** The loop stops at the last centre and not before. */
  lemma Unfinished(a: Point, b: Point, n: nat)
    requires n <= Steps(a, b)
    ensures Centre(a, b, n) == b <==> n == Steps(a, b)
  {
    hide Rounded;
    LineEnds(a, b);
  }

  lemma LoopStep(a: Point, b: Point, n: nat, err: int)
    requires n < Steps(a, b) && err == Accumulated(Abs(b.x - a.x), Abs(b.y - a.y), n)
    ensures var dx, dy := Abs(b.x - a.x), Abs(b.y - a.y);
            var goX, goY := 2 * err >= 0 - dy, 2 * err <= dx;
            && Centre(a, b, n + 1)
               == Point(Centre(a, b, n).x + (if goX then (if a.x < b.x then 1 else -1) else 0),
                        Centre(a, b, n).y + (if goY then (if a.y < b.y then 1 else -1) else 0))
            && Accumulated(dx, dy, n + 1) == err - (if goX then dy else 0) + (if goY then dx else 0)
  {
    hide Rounded, HalfUp, Abs;
    var dx, dy := Abs(b.x - a.x), Abs(b.y - a.y);
    if dx >= dy {
      var k := Rounded(dx, dy, n);
      Step(dx, dy, n, k, 2 * err);
      HalfUpUnique(dx, dy, n + 1, Rounded(dx, dy, n + 1), if 2 * err <= dx then k + 1 else k);
      Distribute(dx, k);
      Distribute(dy, n);
    } else {
      var k := Rounded(dy, dx, n);
      Step(dy, dx, n, k, -2 * err);
      HalfUpUnique(dy, dx, n + 1, Rounded(dy, dx, n + 1), if -2 * err <= dy then k + 1 else k);
      Distribute(dy, k);
      Distribute(dx, n);
    }
  }

  lemma Distribute(c: int, k: int)
    ensures c * (k + 2) == c * (k + 1) + c
  {
  }

  // ----- 32-bit arithmetic -----

  predicate InI32(n: int) {
    -0x8000_0000 <= n < 0x8000_0000
  }

  /** The largest extent for which twice the accumulator always fits 32 bits. */
  const LONGEST_EXTENT := 715_827_883

  predicate Representable(p: Point) {
    InI32(p.x) && InI32(p.y)
  }

  /** Twice the accumulator, for the steps along both axes, is less than three times the longer extent. */
  lemma Residue(major: nat, minor: nat, n: nat, k: int, e: int)
    requires 0 < major && minor <= major && HalfUp(major, minor, n, k)
    requires e == 2 * (major * (k + 1) - minor * (n + 1))
    ensures e + major > 0 && e <= Max(2 * major, 3 * major - 2)
  {
    var a, b := major * k, minor * n;
    assert major * (k + 1) == a + major && minor * (n + 1) == b + minor;
    assert major * (2 * k - 1) == 2 * a - major && major * (2 * k + 1) == 2 * a + major;
    if minor == 0 {
      assert HalfUp(major, 0, n, 0);
      HalfUpUnique(major, 0, n, k, 0);
    }
  }

  function DoubleBound(longest: nat): (r: int) {
    Max(2 * longest, 3 * longest - 2)
  }

  lemma AccumulatorRange(dx: nat, dy: nat, n: nat)
    requires n < Max(dx, dy)
    ensures 0 - DoubleBound(Max(dx, dy)) <= 2 * Accumulated(dx, dy, n) <= DoubleBound(Max(dx, dy))
  {
    hide Rounded, HalfUp;
    var e := 2 * Accumulated(dx, dy, n);
    if dx >= dy {
      Residue(dx, dy, n, Rounded(dx, dy, n), e);
    } else {
      Residue(dy, dx, n, Rounded(dy, dx, n), -e);
    }
  }

  /** Endpoints and stroke keep every point touched representable, and no extent is over the limit. */
  predicate Moderate(a: Point, b: Point, h: int) {
    Roomy(a, h) && Roomy(b, h) && Steps(a, b) <= LONGEST_EXTENT
  }

  /** The corners of the square around a point are representable. */
  predicate Roomy(p: Point, h: int) {
    Representable(Point(p.x - Abs(h), p.y - Abs(h))) && Representable(Point(p.x + Abs(h), p.y + Abs(h)))
  }

  /** For moderate lines every intermediate value of the loop fits 32 bits: the extents, the accumulator before and
      after each update, its double, the centres and the points of their squares. */
  lemma ArithmeticFits(a: Point, b: Point, h: int, n: nat)
    requires Moderate(a, b, h) && n <= Steps(a, b)
    ensures var dx, dy := Abs(b.x - a.x), Abs(b.y - a.y);
            var err, c := Accumulated(dx, dy, n), Centre(a, b, n);
            && InI32(b.x - a.x) && InI32(b.y - a.y) && InI32(dx) && InI32(0 - dy) && InI32(dx - dy)
            && (n < Steps(a, b) ==>
                  InI32(2 * err) && InI32(err) && InI32(err - dy) && InI32(err + dx) && InI32(err - dy + dx))
            && Roomy(c, h) && forall p :: p in Square(c, h) ==> Representable(p)
  {
    hide Accumulated, Centre;
    if n < Steps(a, b) {
      AccumulatorRange(Abs(b.x - a.x), Abs(b.y - a.y), n);
    }
    LineStaysInBox(a, b, n);
  }

  ghost predicate DoublingFits(a: Point, b: Point, n: nat) {
    n < Steps(a, b) ==> InI32(2 * Accumulated(Abs(b.x - a.x), Abs(b.y - a.y), n))
  }

  predicate Within(a: Point, b: Point, extent: nat) {
    Representable(a) && Representable(b) && Steps(a, b) <= extent
  }

  /** A long line with one step along its shorter axis overflows halfway. */
  lemma LongLineOverflows()
    ensures var a, b := Point(0, 0), Point(LONGEST_EXTENT + 1, 1);
            Within(a, b, LONGEST_EXTENT + 1) && !DoublingFits(a, b, (LONGEST_EXTENT + 1) / 2)
  {
    var dx, n := LONGEST_EXTENT + 1, (LONGEST_EXTENT + 1) / 2;
    HalfUpUnique(dx, 1, n, Rounded(dx, 1, n), 1);
    assert Accumulated(dx, 1, n) == dx * 2 - (n + 1);
  }

  /** The double of the accumulator fits 32 bits on all lines of an extent if and only if the extent is at most this. */
  lemma ExtentLimitExact(extent: nat)
    ensures (forall a, b, n: nat :: Within(a, b, extent) ==> DoublingFits(a, b, n)) <==> extent <= LONGEST_EXTENT
  {
    hide Accumulated;
    if extent <= LONGEST_EXTENT {
      forall a, b, n: nat | Within(a, b, extent) ensures DoublingFits(a, b, n) {
        if n < Steps(a, b) {
          AccumulatorRange(Abs(b.x - a.x), Abs(b.y - a.y), n);
        }
      }
    } else {
      LongLineOverflows();
      var a, b := Point(0, 0), Point(LONGEST_EXTENT + 1, 1);
      assert Within(a, b, extent) && !DoublingFits(a, b, (LONGEST_EXTENT + 1) / 2);
    }
  }

  // ----- single lines -----

  /** How far the rounded line can be ahead of the ideal one, in parts of the longer extent: the largest multiple of the
      greatest common divisor that is at most half of that extent. */
  function Deviation(major: nat, minor: nat): (r: nat)
    requires major > 0
  {
    Gcd(major, minor) * (major / Gcd(major, minor) / 2)
  }

  /** Twice the largest value of the accumulator on a line with these extents. */
  function Peak(major: nat, minor: nat): (r: int) {
    if major == 0 then 0 else 2 * (major - minor) + 2 * Deviation(major, minor)
  }

  lemma DeviationIs(major: nat, minor: nat, p: nat)
    requires major > 0 && major == Gcd(major, minor) * p
    ensures Deviation(major, minor) == Gcd(major, minor) * (p / 2)
  {
    ExactQuotient(major, Gcd(major, minor), p);
  }

  lemma DeviationBounds(major: nat, minor: nat, n: nat, k: int)
    requires 0 < major && HalfUp(major, minor, n, k)
    ensures 0 - Deviation(major, minor) <= major * k - minor * n <= Deviation(major, minor)
  {
    hide Gcd, Deviation;
    var g := Gcd(major, minor);
    var p, q, _, _ := Bezout(major, minor);
    DeviationIs(major, minor, p);
    Nearness(major, minor, n, k);
    Scaled(g, p, q, n, k);
    HalfOf(g, p, p * k - q * n);
    HalfOf(g, p, q * n - p * k);
  }

  /** A rounding is off by at most half of the longer extent. */
  lemma Nearness(major: nat, minor: nat, n: nat, k: int)
    requires 0 < major
    ensures HalfUp(major, minor, n, k) <==> 0 - major < 2 * (major * k - minor * n) <= major
  {
    assert major * (2 * k - 1) == 2 * (major * k) - major && major * (2 * k + 1) == 2 * (major * k) + major;
  }

  lemma Scaled(g: nat, p: nat, q: nat, n: nat, k: int)
    ensures (g * p) * k - (g * q) * n == g * (p * k - q * n)
    ensures (g * q) * n - (g * p) * k == g * (q * n - p * k)
  {
    assert (g * p) * k == g * (p * k) && (g * q) * n == g * (q * n);
  }

  lemma HalfOf(g: nat, p: nat, t: int)
    requires g > 0 && 2 * (g * t) <= g * p
    ensures g * t <= g * (p / 2)
  {
    assert g * (2 * t) == 2 * (g * t);
    NotBeyond(g, p, 2 * t);
    MulMonotone(t, p / 2, g);
  }

  lemma NotBeyond(g: nat, p: int, t: int)
    requires g > 0 && g * t <= g * p
    ensures t <= p
  {
    if p < t {
      MulStrict(p, t, g);
    }
  }

  /** At some step the rounded line is ahead by all of it. */
  lemma DeviationReached(major: nat, minor: nat) returns (n: nat, k: int)
    requires 0 < major
    ensures n < major && HalfUp(major, minor, n, k) && major * k - minor * n == Deviation(major, minor)
  {
    hide Gcd, Deviation, HalfUp;
    var g := Gcd(major, minor);
    var p, q, x, y := Bezout(major, minor);
    DeviationIs(major, minor, p);
    var h := p / 2;
    var c: int;
    n, c := Reduced(0 - y * h, major);
    k := x * h - minor * c;
    Reaches(major, minor, g, h, x, y, c, n, k);
    AtMostHalf(g, p);
    MulMonotone(0, h, g);
    Nearness(major, minor, n, k);
  }

  lemma Reduced(z: int, m: nat) returns (n: nat, c: int)
    requires m > 0
    ensures z == m * c + n && n < m
  {
    n, c := z % m, z / m;
  }

  lemma AtMostHalf(g: nat, p: nat)
    ensures 2 * (g * (p / 2)) <= g * p
  {
    MulMonotone(2 * (p / 2), p, g);
    assert g * (2 * (p / 2)) == 2 * (g * (p / 2));
  }

  lemma Reaches(major: nat, minor: nat, g: nat, h: nat, x: int, y: int, c: int, n: nat, k: int)
    requires major * x + minor * y == g && 0 - y * h == major * c + n && k == x * h - minor * c
    ensures major * k - minor * n == g * h
  {
    Spread(major, x, h, minor, c);
    Spread(minor, 0 - y, h, major, c);
    assert n == (0 - y) * h - major * c;
    assert (major * x + minor * y) * h == major * (x * h) - minor * ((0 - y) * h);
    assert major * (minor * c) == minor * (major * c);
  }

  lemma Spread(a: int, x: int, h: int, b: int, c: int)
    ensures a * (x * h - b * c) == a * (x * h) - a * (b * c)
  {
  }

  lemma Twice(major: nat, minor: nat, n: nat, k: int)
    ensures 2 * (major * (k + 1) - minor * (n + 1)) == 2 * (major - minor) + 2 * (major * k - minor * n)
  {
  }

  /** Twice the accumulator of a line whose longer axis is `major` never exceeds its peak in size. */
  lemma PeakBounds(major: nat, minor: nat, n: nat)
    requires 0 < major && minor <= major
    ensures var e := 2 * (major * (Rounded(major, minor, n) + 1) - minor * (n + 1));
      4 * (major - minor) - Peak(major, minor) <= e <= Peak(major, minor)
  {
    hide Rounded, Deviation;
    DeviationBounds(major, minor, n, Rounded(major, minor, n));
    Twice(major, minor, n, Rounded(major, minor, n));
  }

  lemma PeakReached(major: nat, minor: nat) returns (n: nat)
    requires 0 < major && minor <= major
    ensures n < major && 2 * (major * (Rounded(major, minor, n) + 1) - minor * (n + 1)) == Peak(major, minor)
  {
    hide Rounded, Deviation, HalfUp;
    var k;
    n, k := DeviationReached(major, minor);
    HalfUpUnique(major, minor, n, k, Rounded(major, minor, n));
    Twice(major, minor, n, k);
  }

  /** The doubles of the accumulator of one line all fit 32 bits if and only if its peak does: the peak is the largest
      of them when the horizontal axis is the longer one, and the smallest with its sign reversed otherwise. */
  lemma LineFitsExactly(a: Point, b: Point)
    ensures var dx, dy := Abs(b.x - a.x), Abs(b.y - a.y);
      (forall n: nat :: DoublingFits(a, b, n)) <==>
      if dx >= dy then Peak(dx, dy) <= 0x7fff_ffff else Peak(dy, dx) <= 0x8000_0000
  {
    hide Rounded, Peak;
    var dx, dy := Abs(b.x - a.x), Abs(b.y - a.y);
    if dx == dy == 0 {
      NoPeak();
    } else if dx >= dy {
      var reached := PeakReached(dx, dy);
      assert 2 * Accumulated(dx, dy, reached) == Peak(dx, dy);
      forall n: nat | n < dx && Peak(dx, dy) <= 0x7fff_ffff ensures DoublingFits(a, b, n) {
        PeakBounds(dx, dy, n);
      }
      assert DoublingFits(a, b, reached) ==> Peak(dx, dy) <= 0x7fff_ffff;
    } else {
      var reached := PeakReached(dy, dx);
      assert 2 * Accumulated(dx, dy, reached) == 0 - Peak(dy, dx);
      forall n: nat | n < dy && Peak(dy, dx) <= 0x8000_0000 ensures DoublingFits(a, b, n) {
        PeakBounds(dy, dx, n);
      }
      assert DoublingFits(a, b, reached) ==> Peak(dy, dx) <= 0x8000_0000;
    }
  }

  lemma NoPeak()
    ensures Peak(0, 0) == 0
  {
  }

  /** A long axis-parallel or diagonal line may fit. */
  lemma LongLineFits()
    ensures var a, b := Point(0, 0), Point(1_000_000_000, 0);
      Steps(a, b) > LONGEST_EXTENT && forall n: nat :: DoublingFits(a, b, n)
  {
    var a, b := Point(0, 0), Point(1_000_000_000, 0);
    assert Gcd(1_000_000_000, 0) == 1_000_000_000;
    assert Peak(1_000_000_000, 0) == 2_000_000_000;
    LineFitsExactly(a, b);
  }
}
