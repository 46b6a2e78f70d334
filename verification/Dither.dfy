/** Error diffusion (crates/mb-printer-core/src/raster.rs, `dither`): Floyd-Steinberg and Atkinson satisfy the
    recurrence that defines them, and their work buffers stay within fixed bounds. */
module Dither {
  import opened Arithmetic
  import opened Bytes
  import opened Raster

  /** Where a share of the error goes, relative to the pixel decided. */
  datatype Tap = Tap(dy: nat, dx: int, weight: nat)

  /** Shares are `error * weight / divisor`; a cell clamped to `0..full` becomes black below `threshold`. */
  datatype Diffusion = Diffusion(taps: seq<Tap>, divisor: nat, scale: nat, full: nat, threshold: nat) {
    predicate Valid() {
      && divisor > 0 && 0 < threshold <= full && full == 255 * scale
      && forall k :: 0 <= k < |taps| ==> taps[k].dy > 0 || taps[k].dx > 0
    }
  }

  const FLOYD_STEINBERG := Diffusion([Tap(0, 1, 7), Tap(1, -1, 3), Tap(1, 0, 5), Tap(1, 1, 1)], 16, 16, 4080, 2048)
  const ATKINSON :=
    Diffusion([Tap(0, 1, 1), Tap(0, 2, 1), Tap(1, -1, 1), Tap(1, 0, 1), Tap(1, 1, 1), Tap(2, 0, 1)], 8, 8, 2040, 1024)

  /** Rust's integer division, which rounds toward zero. */
  function Truncated(a: int, b: nat): (r: int)
    requires b > 0
  {
    if a < 0 then -(-a / b) else a / b
  }

  function Share(d: Diffusion, k: nat, error: int): (r: int)
    requires d.Valid() && k < |d.taps|
  {
    Truncated(error * d.taps[k].weight, d.divisor)
  }

  function Clamped(d: Diffusion, cell: int): (r: int) {
    if cell < 0 then 0 else if cell > d.full then d.full else cell
  }

  predicate Black(d: Diffusion, cell: int) {
    Clamped(d, cell) < d.threshold
  }

  function ErrorOf(d: Diffusion, cell: int): (r: int) {
    Clamped(d, cell) - (if Black(d, cell) then 0 else d.full)
  }

  /** The pixel that sends cell `(v, u)` its share through tap `k` exists and comes before `(y, x)`, or is `(y, x)` and
      has served that tap. */
  predicate Came(d: Diffusion, k: nat, t: nat, width: nat, v: int, u: int, y: nat, x: nat)
    requires k < |d.taps|
  {
    var sv, su := v - d.taps[k].dy, u - d.taps[k].dx;
    0 <= sv && 0 <= su < width && (Before(sv, su, y, x) || (k < t && sv == y && su == x))
  }

  /** What a cell has received through the first `n` taps: one share for each pixel that sends it one. */
  function Received(d: Diffusion, n: nat, t: nat, width: nat, v: int, u: int, y: nat, x: nat,
                    errors: seq<int>): (r: int)
    requires d.Valid() && n <= |d.taps|
  {
    if n == 0 then 0
    else Received(d, n - 1, t, width, v, u, y, x, errors) +
         (if Came(d, n - 1, t, width, v, u, y, x) then Share(d, n - 1,
                                                             ErrorAt(errors, width, v - d.taps[n - 1].dy,
                                                                     u - d.taps[n - 1].dx))
          else 0)
  }

  function ErrorAt(errors: seq<int>, width: nat, v: int, u: int): (r: int)
    requires v >= 0 && u >= 0
  {
    if Cell(width, v, u) < |errors| then errors[Cell(width, v, u)] else 0
  }

  /** The value on which pixel `(v, u)` is decided: its own, and one share from each pixel before it that sends one. */
  function ValueAt(d: Diffusion, base: seq<int>, width: nat, v: nat, u: nat, errors: seq<int>): (r: int)
    requires d.Valid() && Cell(width, v, u) < |base|
  {
    base[Cell(width, v, u)] + Received(d, |d.taps|, 0, width, v, u, v, u, errors)
  }

  /** The recurrence of error diffusion at one pixel. */
  predicate Decided(d: Diffusion, base: seq<int>, width: nat, v: nat, u: nat, errors: seq<int>, out: seq<byte>)
    requires d.Valid()
  {
    var i := Cell(width, v, u);
    && i < |base| == |errors| == |out|
    && errors[i] == ErrorOf(d, ValueAt(d, base, width, v, u, errors))
    && out[i] == (if Black(d, ValueAt(d, base, width, v, u, errors)) then 1 else 0)
  }

  // ----- accounting -----

  /** Serving tap `t` of pixel `(y, x)` changes the account of the one cell it points at. */
  lemma {:induction false} ServeTap(d: Diffusion, n: nat, t: nat, width: nat, v: int, u: int, y: nat, x: nat,
                                    errors: seq<int>)
    requires d.Valid() && n <= |d.taps| && t < |d.taps| && x < width
    ensures Received(d, n, t + 1, width, v, u, y, x, errors)
         == Received(d, n, t, width, v, u, y, x, errors) +
            (if t < n && v == y + d.taps[t].dy && u == x +
             d.taps[t].dx then Share(d, t, ErrorAt(errors, width, y, x)) else 0)
  {
    hide Share, ErrorAt;
    if n > 0 {
      ServeTap(d, n - 1, t, width, v, u, y, x, errors);
    }
  }

  /** Once all its taps are served, the pixel counts as decided. */
  lemma {:induction false} AllServed(d: Diffusion, n: nat, width: nat, v: int, u: int, y: nat, x: nat, errors: seq<int>)
    requires d.Valid() && n <= |d.taps|
    ensures Received(d, n, |d.taps|, width, v, u, y, x, errors) == Received(d, n, 0, width, v, u, y, x + 1, errors)
  {
    hide Share, ErrorAt;
    if n > 0 {
      AllServed(d, n - 1, width, v, u, y, x, errors);
    }
  }

  lemma {:induction false} RowServed(d: Diffusion, n: nat, width: nat, v: int, u: int, y: nat, errors: seq<int>)
    requires d.Valid() && n <= |d.taps|
    ensures Received(d, n, 0, width, v, u, y, width, errors) == Received(d, n, 0, width, v, u, y + 1, 0, errors)
  {
    hide Share, ErrorAt;
    if n > 0 {
      RowServed(d, n - 1, width, v, u, y, errors);
    }
  }

  lemma {:induction false} NothingYet(d: Diffusion, n: nat, width: nat, v: int, u: int, errors: seq<int>)
    requires d.Valid() && n <= |d.taps|
    ensures Received(d, n, 0, width, v, u, 0, 0, errors) == 0
  {
    hide Share, ErrorAt;
    if n > 0 {
      NothingYet(d, n - 1, width, v, u, errors);
    }
  }

  /** Recording the error of pixel `(y, x)` changes nothing received from the pixels before `(a, b)`, nor from `(a, b)`
      if that is an earlier pixel. */
  lemma {:induction false} RecordError(d: Diffusion, n: nat, t: nat, width: nat, v: int, u: int, a: nat, b: nat,
                                       y: nat, x: nat, errors: seq<int>, e: int)
    requires d.Valid() && n <= |d.taps| && x < width && Cell(width, y, x) < |errors|
    requires !Before(y, x, a, b) && (t == 0 || Before(a, b, y, x))
    ensures Received(d, n, t, width, v, u, a, b, errors[Cell(width, y, x) := e])
         == Received(d, n, t, width, v, u, a, b, errors)
  {
    hide Share, Cell;
    if n > 0 {
      RecordError(d, n - 1, t, width, v, u, a, b, y, x, errors, e);
      var sv, su := v - d.taps[n - 1].dy, u - d.taps[n - 1].dx;
      if Came(d, n - 1, t, width, v, u, a, b) && Cell(width, sv, su) == Cell(width, y, x) {
        CellInjective(width, sv, su, y, x);
      }
    }
  }

  // ----- the work buffer -----

  /** The work buffer while pixel `(y, x)` is decided and `t` of its taps are served. */
  datatype Stage = Stage(d: Diffusion, base: seq<int>, width: nat, height: nat, y: nat, x: nat, t: nat,
                         errors: seq<int>)

  predicate CellHolds(s: Stage, work: seq<int>, v: nat, u: nat)
    requires s.d.Valid()
  {
    var i := Cell(s.width, v, u);
    i < |work| == |s.base| && work[i] == s.base[i] + Received(s.d, |s.d.taps|, s.t, s.width, v, u, s.y, s.x, s.errors)
  }

  /** Every cell holds its own value and exactly the shares received so far. */
  ghost predicate Holds(s: Stage, work: seq<int>)
    requires s.d.Valid()
  {
    && |s.base| == |work| == |s.errors| == s.width * s.height
    && forall v, u :: 0 <= v < s.height && 0 <= u < s.width ==> CellHolds(s, work, v, u)
  }

  /** `next` is `work` with `share` added to one cell, if that cell exists. */
  ghost predicate Added(work: seq<int>, next: seq<int>, width: nat, height: nat, v: int, u: int, share: int) {
    && |next| == |work| == width * height
    && forall a, b :: 0 <= a < height && 0 <= b < width ==> CellAdded(work, next, width, a, b, v, u, share)
  }

  predicate CellAdded(work: seq<int>, next: seq<int>, width: nat, a: nat, b: nat, v: int, u: int, share: int) {
    var i := Cell(width, a, b);
    i < |work| == |next| && next[i] == work[i] + (if a == v && b == u then share else 0)
  }

  lemma TapServed(s: Stage, work: seq<int>, next: seq<int>, share: int)
    requires s.d.Valid() && s.t < |s.d.taps| && s.x < s.width && Holds(s, work)
    requires share == Share(s.d, s.t, ErrorAt(s.errors, s.width, s.y, s.x))
    requires Added(work, next, s.width, s.height, s.y + s.d.taps[s.t].dy, s.x + s.d.taps[s.t].dx, share)
    ensures Holds(s.(t := s.t + 1), next)
  {
    hide Cell, Received, Share, ErrorAt;
    var after := s.(t := s.t + 1);
    forall v, u | 0 <= v < s.height && 0 <= u < s.width ensures CellHolds(after, next, v, u) {
      assert CellHolds(s, work, v, u);
      assert CellAdded(work, next, s.width, v, u, s.y + s.d.taps[s.t].dy, s.x + s.d.taps[s.t].dx, share);
      ServeTap(s.d, |s.d.taps|, s.t, s.width, v, u, s.y, s.x, s.errors);
    }
  }

  lemma PixelServed(s: Stage, work: seq<int>)
    requires s.d.Valid() && s.t == |s.d.taps| && Holds(s, work)
    ensures Holds(s.(t := 0, x := s.x + 1), work)
  {
    hide Cell, Received;
    var after := s.(t := 0, x := s.x + 1);
    forall v, u | 0 <= v < s.height && 0 <= u < s.width ensures CellHolds(after, work, v, u) {
      assert CellHolds(s, work, v, u);
      AllServed(s.d, |s.d.taps|, s.width, v, u, s.y, s.x, s.errors);
    }
  }

  lemma LineServed(s: Stage, work: seq<int>)
    requires s.d.Valid() && s.t == 0 && s.x == s.width && Holds(s, work)
    ensures Holds(s.(y := s.y + 1, x := 0), work)
  {
    hide Cell, Received;
    var after := s.(y := s.y + 1, x := 0);
    forall v, u | 0 <= v < s.height && 0 <= u < s.width ensures CellHolds(after, work, v, u) {
      assert CellHolds(s, work, v, u);
      RowServed(s.d, |s.d.taps|, s.width, v, u, s.y, s.errors);
    }
  }

  lemma Fresh(s: Stage)
    requires s.d.Valid() && s.t == 0 && s.y == 0 && s.x == 0 && |s.base| == |s.errors| == s.width * s.height
    ensures Holds(s, s.base)
  {
    hide Cell, Received;
    forall v, u | 0 <= v < s.height && 0 <= u < s.width ensures CellHolds(s, s.base, v, u) {
      CellBound(s.width, s.height, v, u);
      NothingYet(s.d, |s.d.taps|, s.width, v, u, s.errors);
    }
  }

  lemma ErrorRecorded(s: Stage, work: seq<int>, e: int)
    requires s.d.Valid() && s.t == 0 && s.x < s.width && Cell(s.width, s.y, s.x) < |s.errors| && Holds(s, work)
    ensures Holds(s.(errors := s.errors[Cell(s.width, s.y, s.x) := e]), work)
  {
    hide Cell, Received;
    var after := s.(errors := s.errors[Cell(s.width, s.y, s.x) := e]);
    forall v, u | 0 <= v < s.height && 0 <= u < s.width ensures CellHolds(after, work, v, u) {
      assert CellHolds(s, work, v, u);
      RecordError(s.d, |s.d.taps|, 0, s.width, v, u, s.y, s.x, s.y, s.x, s.errors, e);
    }
  }

  /** Adds a share to a cell if it exists. */
  method AddShare(work: array<int>, width: nat, height: nat, v: int, u: int, share: int)
    requires work.Length == width * height
    modifies work
    ensures Added(old(work[..]), work[..], width, height, v, u, share)
  {
    hide Cell;
    ghost var before := work[..];
    if 0 <= v < height && 0 <= u < width {
      CellBound(width, height, v, u);
      work[Cell(width, v, u)] := work[Cell(width, v, u)] + share;
    }
    forall a, b | 0 <= a < height && 0 <= b < width ensures CellAdded(before, work[..], width, a, b, v, u, share) {
      CellBound(width, height, a, b);
      if 0 <= v < height && 0 <= u < width && Cell(width, a, b) == Cell(width, v, u) {
        CellInjective(width, a, b, v, u);
      }
    }
  }

  // ----- bounds -----

  predicate ErrorsInRange(d: Diffusion, errors: seq<int>) {
    forall i :: 0 <= i < |errors| ==> d.threshold - d.full <= errors[i] < d.threshold
  }

  /** The extreme shares of a tap. */
  function Least(d: Diffusion, k: nat): (r: int)
    requires d.Valid() && k < |d.taps|
  {
    Share(d, k, d.threshold - d.full)
  }

  function Greatest(d: Diffusion, k: nat): (r: int)
    requires d.Valid() && k < |d.taps|
  {
    Share(d, k, d.threshold - 1)
  }

  function TotalLeast(d: Diffusion, n: nat): (r: int)
    requires d.Valid() && n <= |d.taps|
  {
    if n == 0 then 0 else TotalLeast(d, n - 1) + Least(d, n - 1)
  }

  function TotalGreatest(d: Diffusion, n: nat): (r: int)
    requires d.Valid() && n <= |d.taps|
  {
    if n == 0 then 0 else TotalGreatest(d, n - 1) + Greatest(d, n - 1)
  }

  lemma TruncatedMonotone(a: int, b: int, c: nat)
    requires a <= b && c > 0
    ensures Truncated(a, c) <= Truncated(b, c)
  {
    if a >= 0 {
      DivMonotone(a, b, c);
    } else if b < 0 {
      DivMonotone(-b, -a, c);
    } else {
      DivMonotone(0, -a, c);
      DivMonotone(0, b, c);
    }
  }

  lemma ShareInRange(d: Diffusion, k: nat, e: int)
    requires d.Valid() && k < |d.taps| && d.threshold - d.full <= e < d.threshold
    ensures Least(d, k) <= Share(d, k, e) <= Greatest(d, k) && Least(d, k) <= 0 <= Greatest(d, k)
  {
    hide Truncated;
    var w := d.taps[k].weight;
    MulMonotone(d.threshold - d.full, e, w);
    MulMonotone(e, d.threshold - 1, w);
    MulMonotone(d.threshold - d.full, 0, w);
    MulMonotone(0, d.threshold - 1, w);
    TruncatedMonotone((d.threshold - d.full) * w, e * w, d.divisor);
    TruncatedMonotone(e * w, (d.threshold - 1) * w, d.divisor);
    TruncatedMonotone((d.threshold - d.full) * w, 0, d.divisor);
    TruncatedMonotone(0, (d.threshold - 1) * w, d.divisor);
    TruncatedZero(d.divisor);
  }

  lemma TruncatedZero(b: nat)
    requires b > 0
    ensures Truncated(0, b) == 0
  {
  }

  lemma {:induction false} ReceivedInRange(d: Diffusion, n: nat, t: nat, width: nat, v: int, u: int, y: nat, x: nat,
                                           errors: seq<int>)
    requires d.Valid() && n <= |d.taps| && ErrorsInRange(d, errors)
    ensures TotalLeast(d, n) <= Received(d, n, t, width, v, u, y, x, errors) <= TotalGreatest(d, n)
  {
    hide Share, Least, Greatest, Cell;
    if n > 0 {
      ReceivedInRange(d, n - 1, t, width, v, u, y, x, errors);
      if Came(d, n - 1, t, width, v, u, y, x) {
        ShareInRange(d, n - 1, ErrorAt(errors, width, v - d.taps[n - 1].dy, u - d.taps[n - 1].dx));
      } else {
        ShareInRange(d, n - 1, 0);
      }
    }
  }

  ghost predicate InRange(d: Diffusion, work: seq<int>)
    requires d.Valid()
  {
    forall i :: 0 <= i < |work| ==> TotalLeast(d, |d.taps|) <= work[i] <= d.full + TotalGreatest(d, |d.taps|)
  }

  lemma CellsInRange(s: Stage, work: seq<int>)
    requires s.d.Valid() && Holds(s, work) && ErrorsInRange(s.d, s.errors)
    requires forall i :: 0 <= i < |s.base| ==> 0 <= s.base[i] <= s.d.full
    ensures InRange(s.d, work)
  {
    hide Cell, Received, TotalLeast, TotalGreatest, ErrorsInRange;
    forall i | 0 <= i < |work| ensures TotalLeast(s.d, |s.d.taps|) <= work[i] <= s.d.full +
      TotalGreatest(s.d, |s.d.taps|) {
      CellOf(s.width, s.height, i);
      assert CellHolds(s, work, i / s.width, i % s.width);
      ReceivedInRange(s.d, |s.d.taps|, s.t, s.width, i / s.width, i % s.width, s.y, s.x, s.errors);
    }
  }

  /** For Floyd-Steinberg the cells stay within [-2032, 6124], for Atkinson within [-762, 2802]. */
  lemma BoundsAre(work: seq<int>)
    ensures FLOYD_STEINBERG.Valid() && ATKINSON.Valid()
    ensures InRange(FLOYD_STEINBERG, work) <==> forall i :: 0 <= i < |work| ==> -2032 <= work[i] <= 6124
    ensures InRange(ATKINSON, work) <==> forall i :: 0 <= i < |work| ==> -762 <= work[i] <= 2802
  {
    FloydSteinbergTotals();
    AtkinsonTotals();
  }

  lemma FloydSteinbergTotals()
    ensures TotalLeast(FLOYD_STEINBERG, 4) == -2032 && TotalGreatest(FLOYD_STEINBERG, 4) == 2044
  {
    var d := FLOYD_STEINBERG;
    assert Least(d, 0) == -889 && Least(d, 1) == -381 && Least(d, 2) == -635 && Least(d, 3) == -127;
    assert Greatest(d, 0) == 895 && Greatest(d, 1) == 383 && Greatest(d, 2) == 639 && Greatest(d, 3) == 127;
    assert TotalLeast(d, 2) == -1270 && TotalGreatest(d, 2) == 1278;
  }

  lemma AtkinsonTotals()
    ensures TotalLeast(ATKINSON, 6) == -762 && TotalGreatest(ATKINSON, 6) == 762
  {
    var d := ATKINSON;
    assert forall k :: 0 <= k < 6 ==> Least(d, k) == -127 && Greatest(d, k) == 127;
    assert TotalLeast(d, 3) == -381 && TotalGreatest(d, 3) == 381;
  }

  // ----- the loops -----

  /** The buffers after each of the taps of pixel `(v, u)` was served: every cell is its own value and exactly the
      shares received until then. */
  ghost predicate PixelRecorded(s: Stage, trail: seq<seq<seq<int>>>, v: nat, u: nat)
    requires s.d.Valid()
  {
    var c := Cell(s.width, v, u);
    && c < |trail| && |trail[c]| == |s.d.taps|
    && forall k :: 0 <= k < |s.d.taps| ==> Holds(AtTap(s, v, u, k + 1), trail[c][k])
  }

  /** The stage at which `t` taps of pixel `(v, u)` have been served. */
  function AtTap(s: Stage, v: nat, u: nat, t: nat): (r: Stage) {
    Stage(s.d, s.base, s.width, s.height, v, u, t, s.errors)
  }

  /** `trail` holds the work buffer after every single store made before the stage. */
  ghost predicate Recorded(s: Stage, trail: seq<seq<seq<int>>>)
    requires s.d.Valid()
  {
    && |trail| == Cell(s.width, s.y, s.x)
    && forall v, u :: 0 <= v < s.height && 0 <= u < s.width && Before(v, u, s.y, s.x) ==> PixelRecorded(s, trail, v, u)
  }

  lemma StillHolds(s: Stage, later: Stage, work: seq<int>, e: int)
    requires s.d.Valid() && Holds(s, work) && later.x < later.width == s.width && Before(s.y, s.x, later.y, later.x)
    requires Cell(s.width, later.y, later.x) < |s.errors|
    ensures Holds(s.(errors := s.errors[Cell(s.width, later.y, later.x) := e]), work)
  {
    hide Cell, Received;
    var after := s.(errors := s.errors[Cell(s.width, later.y, later.x) := e]);
    forall v, u | 0 <= v < s.height && 0 <= u < s.width ensures CellHolds(after, work, v, u) {
      assert CellHolds(s, work, v, u);
      RecordError(s.d, |s.d.taps|, s.t, s.width, v, u, s.y, s.x, later.y, later.x, s.errors, e);
    }
  }

  /** After a pixel is decided and its taps are served, the record covers it too. */
  lemma RecordedNext(s: Stage, trail: seq<seq<seq<int>>>, e: int, buffers: seq<seq<int>>)
    requires s.d.Valid() && s.y < s.height && s.x < s.width && s.t == 0 && Recorded(s, trail)
    requires Cell(s.width, s.y, s.x) < |s.errors| && |buffers| == |s.d.taps|
    requires var after := s.(errors := s.errors[Cell(s.width, s.y, s.x) := e]);
             forall k :: 0 <= k < |s.d.taps| ==> Holds(AtTap(after, s.y, s.x, k + 1), buffers[k])
    ensures Recorded(s.(errors := s.errors[Cell(s.width, s.y, s.x) := e], x := s.x + 1), trail + [buffers])
  {
    hide Holds, Cell;
    var errors := s.errors[Cell(s.width, s.y, s.x) := e];
    var next, all := s.(errors := errors, x := s.x + 1), trail + [buffers];
    NextCell(1, s.width, s.y, s.x);
    forall v, u | 0 <= v < s.height && 0 <= u < s.width && Before(v, u, s.y, s.x + 1)
      ensures PixelRecorded(next, all, v, u)
    {
      var c := Cell(s.width, v, u);
      if Before(v, u, s.y, s.x) {
        assert PixelRecorded(s, trail, v, u);
        forall k | 0 <= k < |s.d.taps| ensures Holds(AtTap(next, v, u, k + 1), all[c][k]) {
          StillHolds(AtTap(s, v, u, k + 1), s, trail[c][k], e);
          assert AtTap(s, v, u, k + 1).(errors := errors) == AtTap(next, v, u, k + 1);
        }
      } else {
        forall k | 0 <= k < |s.d.taps| ensures Holds(AtTap(next, v, u, k + 1), all[c][k]) {
          var after := s.(errors := errors);
          assert Holds(AtTap(after, s.y, s.x, k + 1), buffers[k]);
          assert AtTap(after, s.y, s.x, k + 1) == AtTap(next, v, u, k + 1);
        }
      }
    }
  }

  lemma RecordedRow(s: Stage, trail: seq<seq<seq<int>>>)
    requires s.d.Valid() && s.x == s.width && Recorded(s, trail)
    ensures Recorded(s.(y := s.y + 1, x := 0), trail)
  {
    hide Holds, Cell;
    var after := s.(y := s.y + 1, x := 0);
    NextRow(s.width, s.y);
    forall v, u | 0 <= v < s.height && 0 <= u < s.width && Before(v, u, after.y, after.x)
      ensures PixelRecorded(after, trail, v, u)
    {
      assert PixelRecorded(s, trail, v, u);
      forall k | 0 <= k < |s.d.taps| ensures Holds(AtTap(after, v, u, k + 1), trail[Cell(s.width, v, u)][k]) {
        assert AtTap(s, v, u, k + 1) == AtTap(after, v, u, k + 1);
      }
    }
  }

  /** No buffer of the record has a cell outside the range. */
  lemma RecordInRange(s: Stage, trail: seq<seq<seq<int>>>, c: nat, k: nat)
    requires s.d.Valid() && s.y == s.height && s.x == 0 && Recorded(s, trail) && c < |trail| && k < |trail[c]|
    requires ErrorsInRange(s.d, s.errors) && forall i :: 0 <= i < |s.base| ==> 0 <= s.base[i] <= s.d.full
    ensures InRange(s.d, trail[c][k])
  {
    hide Holds, Cell, ErrorsInRange, InRange;
    NextRow(s.width, s.height);
    CellOf(s.width, s.height, c);
    var v, u := c / s.width, c % s.width;
    assert PixelRecorded(s, trail, v, u);
    CellsInRange(AtTap(s, v, u, k + 1), trail[c][k]);
  }

  /** Gives the error of one pixel to its neighbours; `buffers` are the contents of the work buffer after
      every store. */
  method Spread(work: array<int>, d: Diffusion, width: nat, height: nat, y: nat, x: nat, e: int, ghost s: Stage)
    returns (ghost buffers: seq<seq<int>>)
    requires d.Valid() && work.Length == width * height && y < height && x < width
    requires s == Stage(d, s.base, width, height, y, x, 0, s.errors) && Holds(s, work[..])
    requires e == ErrorAt(s.errors, width, y, x)
    modifies work
    ensures Holds(s.(x := x + 1), work[..]) && |buffers| == |d.taps|
    ensures forall k :: 0 <= k < |d.taps| ==> Holds(AtTap(s, y, x, k + 1), buffers[k])
  {
    hide Holds, Received, Share, ErrorAt;
    buffers := [];
    ghost var now := s;
    for k := 0 to |d.taps|
      invariant now == s.(t := k) && Holds(now, work[..]) && |buffers| == k
      invariant forall j :: 0 <= j < k ==> Holds(AtTap(s, y, x, j + 1), buffers[j])
    {
      ghost var last := work[..];
      AddShare(work, width, height, y + d.taps[k].dy, x + d.taps[k].dx, Share(d, k, e));
      TapServed(now, last, work[..], Share(d, k, e));
      now := now.(t := k + 1);
      assert now == AtTap(s, y, x, k + 1);
      buffers := buffers + [work[..]];
    }
    PixelServed(now, work[..]);
    assert now.(t := 0, x := x + 1) == s.(x := x + 1);
  }

  function Base(d: Diffusion, pixels: seq<byte>): (r: seq<int>) {
    seq(|pixels|, i requires 0 <= i < |pixels| => pixels[i] * d.scale)
  }

  lemma BaseInRange(d: Diffusion, pixels: seq<byte>)
    requires d.Valid()
    ensures forall i :: 0 <= i < |pixels| ==> 0 <= Base(d, pixels)[i] <= d.full
  {
    forall i | 0 <= i < |pixels| ensures 0 <= Base(d, pixels)[i] <= d.full {
      MulMonotone(pixels[i], 255, d.scale);
      MulMonotone(0, pixels[i], d.scale);
    }
  }

  ghost predicate DecidedBefore(s: Stage, out: seq<byte>)
    requires s.d.Valid()
  {
    forall v, u :: 0 <= v < s.height && 0 <= u < s.width && Before(v, u, s.y, s.x) ==>
      Decided(s.d, s.base, s.width, v, u, s.errors, out)
  }

  lemma DecideOne(s: Stage, work: seq<int>, out: seq<byte>, e: int, b: byte)
    requires s.d.Valid() && s.t == 0 && s.y < s.height && s.x < s.width && Holds(s, work) && |out| == |work|
    requires DecidedBefore(s, out) && Cell(s.width, s.y, s.x) < |work|
    requires var cell := work[Cell(s.width, s.y, s.x)];
             e == ErrorOf(s.d, cell) && b == (if Black(s.d, cell) then 1 else 0)
    ensures var i := Cell(s.width, s.y, s.x);
            DecidedBefore(s.(errors := s.errors[i := e], x := s.x + 1), out[i := b])
  {
    hide Cell, Received, ErrorOf, Black;
    var i := Cell(s.width, s.y, s.x);
    var after, next := s.(errors := s.errors[i := e], x := s.x + 1), out[i := b];
    forall v, u | 0 <= v < s.height && 0 <= u < s.width && Before(v, u, s.y, s.x + 1)
      ensures Decided(s.d, s.base, s.width, v, u, after.errors, next)
    {
      assert CellHolds(s, work, v, u);
      RecordError(s.d, |s.d.taps|, 0, s.width, v, u, v, u, s.y, s.x, s.errors, e);
      if v == s.y && u == s.x {
        assert work[i] == ValueAt(s.d, s.base, s.width, v, u, after.errors);
      } else {
        assert Decided(s.d, s.base, s.width, v, u, s.errors, out);
        if Cell(s.width, v, u) == i {
          CellInjective(s.width, v, u, s.y, s.x);
        }
      }
    }
  }

  lemma RowDecided(s: Stage, out: seq<byte>)
    requires s.d.Valid() && s.x == s.width && DecidedBefore(s, out)
    ensures DecidedBefore(s.(y := s.y + 1, x := 0), out)
  {
    hide Decided;
    var after := s.(y := s.y + 1, x := 0);
    forall v, u | 0 <= v < s.height && 0 <= u < s.width && Before(v, u, after.y, after.x)
      ensures Decided(s.d, s.base, s.width, v, u, s.errors, out)
    {
      assert Before(v, u, s.y, s.x);
    }
  }

  lemma ErrorInRange(d: Diffusion, cell: int)
    requires d.Valid()
    ensures d.threshold - d.full <= ErrorOf(d, cell) < d.threshold
  {
  }

  /** What a whole run decided, and every content its work buffer had. */
  ghost predicate RunRecord(d: Diffusion, pixels: seq<byte>, width: nat, height: nat, errors: seq<int>, out: seq<byte>,
                            trail: seq<seq<seq<int>>>)
    requires d.Valid()
  {
    && |out| == |errors| == |pixels|
    && (forall v, u :: 0 <= v < height && 0 <= u < width ==> Decided(d, Base(d, pixels), width, v, u, errors, out))
    && Recorded(Stage(d, Base(d, pixels), width, height, height, 0, 0, errors), trail)
  }

  /** Decides every pixel once, in raster order. The result satisfies the recurrence at every pixel, for the errors the
      run made; after every store the work buffer is what the recurrence says, and no cell of it leaves the range. */
  method Diffuse(d: Diffusion, pixels: seq<byte>, width: nat, height: nat)
    returns (out: seq<byte>, ghost errors: seq<int>, ghost trail: seq<seq<seq<int>>>)
    requires d.Valid() && |pixels| == width * height
    ensures |out| == |pixels| && forall i :: 0 <= i < |out| ==> out[i] <= 1
    ensures RunRecord(d, pixels, width, height, errors, out, trail)
    ensures forall c, k :: 0 <= c < |trail| && 0 <= k < |trail[c]| ==> InRange(d, trail[c][k])
  {
    hide Holds, Received, Share, ErrorsInRange, InRange, Decided, ErrorOf, Black, Clamped, Cell, Recorded,
      PixelRecorded;
    ghost var base := Base(d, pixels);
    BaseInRange(d, pixels);
    var work := new int[|pixels|](i requires 0 <= i < |pixels| => pixels[i] * d.scale);
    assert work[..] == base;
    var result := new byte[|pixels|](_ => 0);
    errors, trail := seq(|pixels|, _ => 0), [];
    assert ErrorsInRange(d, errors) by { NoErrors(d, |pixels|); }
    ghost var s := Stage(d, base, width, height, 0, 0, 0, errors);
    Fresh(s);
    NothingRecorded(s);
    for y := 0 to height
      invariant s == Stage(d, base, width, height, y, 0, 0, errors)
      invariant Holds(s, work[..]) && DecidedBefore(s, result[..]) && ErrorsInRange(d, errors) && Recorded(s, trail)
      invariant |errors| == |pixels| && forall i :: 0 <= i < result.Length ==> result[i] <= 1
    {
      for x := 0 to width
        invariant s == Stage(d, base, width, height, y, x, 0, errors)
        invariant Holds(s, work[..]) && DecidedBefore(s, result[..]) && ErrorsInRange(d, errors) && Recorded(s, trail)
        invariant |errors| == |pixels| && forall i :: 0 <= i < result.Length ==> result[i] <= 1
      {
        CellBound(width, height, y, x);
        var i := Cell(width, y, x);
        var black, e := Black(d, work[i]), ErrorOf(d, work[i]);
        ghost var before := s;
        DecideOne(s, work[..], result[..], e, if black then 1 else 0);
        ErrorRecorded(s, work[..], e);
        ErrorInRange(d, work[i]);
        OneMoreError(d, errors, i, e);
        result[i] := if black then 1 else 0;
        errors := errors[i := e];
        s := s.(errors := errors);
        ghost var buffers;
        buffers := Spread(work, d, width, height, y, x, e, s);
        RecordedNext(before, trail, e, buffers);
        trail := trail + [buffers];
        s := s.(x := x + 1);
      }
      LineServed(s, work[..]);
      RowDecided(s, result[..]);
      RecordedRow(s, trail);
      s := s.(y := y + 1, x := 0);
    }
    out := result[..];
    assert s.base == Base(d, pixels);
    forall c, k | 0 <= c < |trail| && 0 <= k < |trail[c]| ensures InRange(d, trail[c][k]) {
      RecordInRange(s, trail, c, k);
    }
  }

  lemma NothingRecorded(s: Stage)
    requires s.d.Valid() && s.y == 0 && s.x == 0
    ensures Recorded(s, [])
  {
  }

  lemma NextCell(n: nat, width: nat, y: nat, x: nat)
    ensures n * Cell(width, y, x + 1) == n * Cell(width, y, x) + n
  {
    var c := Cell(width, y, x);
    assert Cell(width, y, x + 1) == c + 1;
    assert n * (c + 1) == n * c + n;
  }

  lemma NextRow(width: nat, y: nat)
    ensures Cell(width, 0, 0) == 0 && Cell(width, y, width) == Cell(width, y + 1, 0) && Cell(width, y, 0) == width * y
  {
    assert (y + 1) * width == y * width + width;
  }

  lemma NoErrors(d: Diffusion, n: nat)
    requires d.Valid()
    ensures ErrorsInRange(d, seq(n, _ => 0))
  {
  }

  lemma OneMoreError(d: Diffusion, errors: seq<int>, i: nat, e: int)
    requires ErrorsInRange(d, errors) && i < |errors| && d.threshold - d.full <= e < d.threshold
    ensures ErrorsInRange(d, errors[i := e])
  {
  }

  // ----- black and white images -----

  lemma {:induction false} NothingFromEarlier(d: Diffusion, n: nat, width: nat, v: nat, u: nat, errors: seq<int>)
    requires d.Valid() && n <= |d.taps| && u < width
    requires forall i :: 0 <= i < |errors| && i < Cell(width, v, u) ==> errors[i] == 0
    ensures Received(d, n, 0, width, v, u, v, u, errors) == 0
  {
    hide Cell;
    if n > 0 {
      NothingFromEarlier(d, n - 1, width, v, u, errors);
      var sv, su := v - d.taps[n - 1].dy, u - d.taps[n - 1].dx;
      if Came(d, n - 1, 0, width, v, u, v, u) {
        EarlierCell(width, sv, su, v, u);
        assert ErrorAt(errors, width, sv, su) == 0;
        TruncatedZero(d.divisor);
      }
    }
  }

  lemma EarlierCell(width: nat, sv: nat, su: nat, v: nat, u: nat)
    requires su < width && Before(sv, su, v, u)
    ensures Cell(width, sv, su) < Cell(width, v, u)
  {
    if sv < v {
      CellOrder(width, sv, su, v, u);
    }
  }

  /** An image of only black and white pixels is reproduced exactly. */
  lemma {:induction false} BlackAndWhiteKept(d: Diffusion, pixels: seq<byte>, width: nat, height: nat,
                                             errors: seq<int>, out: seq<byte>, n: nat)
    requires d.Valid() && |pixels| == width * height && n <= |pixels|
    requires forall i :: 0 <= i < |pixels| ==> pixels[i] == 0 || pixels[i] == 255
    requires forall v, u :: 0 <= v < height && 0 <= u < width ==> Decided(d, Base(d, pixels), width, v, u, errors, out)
    ensures |out| >= n && forall i :: 0 <= i < n ==> out[i] == (if pixels[i] == 0 then 1 else 0)
    ensures |errors| >= n && forall i :: 0 <= i < n ==> errors[i] == 0
  {
    hide Cell, Received;
    if n > 0 {
      BlackAndWhiteKept(d, pixels, width, height, errors, out, n - 1);
      CellOf(width, height, n - 1);
      var v, u := (n - 1) / width, (n - 1) % width;
      assert Decided(d, Base(d, pixels), width, v, u, errors, out);
      NothingFromEarlier(d, |d.taps|, width, v, u, errors);
    }
  }

  // ----- the recurrence has one solution -----

  lemma {:induction false} SameFromEarlier(d: Diffusion, n: nat, width: nat, v: nat, u: nat, a: seq<int>, b: seq<int>)
    requires d.Valid() && n <= |d.taps| && u < width && |a| == |b|
    requires forall i :: 0 <= i < |a| && i < Cell(width, v, u) ==> a[i] == b[i]
    ensures Received(d, n, 0, width, v, u, v, u, a) == Received(d, n, 0, width, v, u, v, u, b)
  {
    hide Cell, Share;
    if n > 0 {
      SameFromEarlier(d, n - 1, width, v, u, a, b);
      if Came(d, n - 1, 0, width, v, u, v, u) {
        EarlierCell(width, v - d.taps[n - 1].dy, u - d.taps[n - 1].dx, v, u);
      }
    }
  }

  /** The image determines the output: any two solutions of the recurrence agree. */
  lemma {:induction false} OutputDetermined(d: Diffusion, pixels: seq<byte>, width: nat, height: nat, a: seq<int>,
                                            out: seq<byte>,
                                            b: seq<int>, other: seq<byte>, n: nat)
    requires d.Valid() && |pixels| == width * height == |a| == |b| == |out| == |other| && n <= |pixels|
    requires forall v, u :: 0 <= v < height && 0 <= u < width ==> Decided(d, Base(d, pixels), width, v, u, a, out)
    requires forall v, u :: 0 <= v < height && 0 <= u < width ==> Decided(d, Base(d, pixels), width, v, u, b, other)
    ensures a[..n] == b[..n] && out[..n] == other[..n]
  {
    hide Cell, Received, ErrorOf, Black;
    if n > 0 {
      OutputDetermined(d, pixels, width, height, a, out, b, other, n - 1);
      CellOf(width, height, n - 1);
      var v, u := (n - 1) / width, (n - 1) % width;
      assert Decided(d, Base(d, pixels), width, v, u, a, out) && Decided(d, Base(d, pixels), width, v, u, b, other);
      forall i | 0 <= i < n - 1 ensures a[i] == b[i] {
        assert a[..n - 1][i] == b[..n - 1][i];
      }
      SameFromEarlier(d, |d.taps|, width, v, u, a, b);
      assert a[..n] == a[..n - 1] + [a[n - 1]] && b[..n] == b[..n - 1] + [b[n - 1]];
      assert out[..n] == out[..n - 1] + [out[n - 1]] && other[..n] == other[..n - 1] + [other[n - 1]];
    }
  }

  // ----- the two modes -----

  /** Floyd-Steinberg; an invalid raster is an error. */
  method FloydSteinberg(pixels: seq<byte>, width: nat, height: nat)
    returns (r: Result<seq<byte>, RasterError>, ghost errors: seq<int>, ghost trail: seq<seq<seq<int>>>)
    ensures r.Ok? <==> width > 0 && height > 0 && |pixels| == width * height
    ensures r.Ok? ==>
      FLOYD_STEINBERG.Valid() && RunRecord(FLOYD_STEINBERG, pixels, width, height, errors, r.value, trail)
    ensures r.Ok? ==> |r.value| == |pixels| && forall i :: 0 <= i < |r.value| ==> r.value[i] <= 1
    ensures forall c, k, i :: 0 <= c < |trail| && 0 <= k < |trail[c]| && 0 <= i < |trail[c][k]| ==>
              -2032 <= trail[c][k][i] <= 6124
  {
    hide RunRecord, InRange;
    if width == 0 || height == 0 {
      return Err(Dimensions), [], [];
    }
    if |pixels| != width * height {
      return Err(Length), [], [];
    }
    BoundsAre([]);
    var out;
    out, errors, trail := Diffuse(FLOYD_STEINBERG, pixels, width, height);
    forall c, k | 0 <= c < |trail| && 0 <= k < |trail[c]|
      ensures forall i :: 0 <= i < |trail[c][k]| ==> -2032 <= trail[c][k][i] <= 6124
    {
      BoundsAre(trail[c][k]);
    }
    r := Ok(out);
  }

  /** Atkinson; an invalid raster is an error. */
  method Atkinson(pixels: seq<byte>, width: nat, height: nat)
    returns (r: Result<seq<byte>, RasterError>, ghost errors: seq<int>, ghost trail: seq<seq<seq<int>>>)
    ensures r.Ok? <==> width > 0 && height > 0 && |pixels| == width * height
    ensures r.Ok? ==> ATKINSON.Valid() && RunRecord(ATKINSON, pixels, width, height, errors, r.value, trail)
    ensures r.Ok? ==> |r.value| == |pixels| && forall i :: 0 <= i < |r.value| ==> r.value[i] <= 1
    ensures forall c, k, i :: 0 <= c < |trail| && 0 <= k < |trail[c]| && 0 <= i < |trail[c][k]| ==>
              -762 <= trail[c][k][i] <= 2802
  {
    hide RunRecord, InRange;
    if width == 0 || height == 0 {
      return Err(Dimensions), [], [];
    }
    if |pixels| != width * height {
      return Err(Length), [], [];
    }
    BoundsAre([]);
    var out;
    out, errors, trail := Diffuse(ATKINSON, pixels, width, height);
    forall c, k | 0 <= c < |trail| && 0 <= k < |trail[c]|
      ensures forall i :: 0 <= i < |trail[c][k]| ==> -762 <= trail[c][k][i] <= 2802
    {
      BoundsAre(trail[c][k]);
    }
    r := Ok(out);
  }
}
