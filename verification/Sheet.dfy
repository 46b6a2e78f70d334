/** Imposition of labels onto sheets (crates/mb-printer-core/src/sheet.rs) and the conversion of lengths to dots
    (crates/mb-printer-core/src/render.rs). */
module Sheet {
  import opened Arithmetic
  import opened Bytes
  import opened Raster
  import Utf8Text

  datatype FillOrder = RowMajor | ColumnMajor

  /** Lengths are in micrometres. */
  datatype Slot = Slot(x: i64, y: i64, width: i64, height: i64)

  datatype Grid = Grid(id: string, paperWidth: i64, paperHeight: i64, rows: u16, columns: u16, labelWidth: i64,
                       labelHeight: i64, marginLeft: i64, marginTop: i64, gapX: i64, gapY: i64, order: FillOrder)

  datatype Layout = Layout(id: string, paperWidth: i64, paperHeight: i64, slots: seq<Slot>)

  datatype Definition = GridSheet(grid: Grid) | ExplicitSheet(layout: Layout)

  datatype SheetError =
    | EmptyJob | EmptyLayout | InvalidLayoutId | InvalidPaper | InvalidGrid | SlotOutsidePaper(index: nat)
    | OverlappingSlots(left: nat, right: nat) | InvalidFirstSlot | LabelSizeMismatch(item: nat) | RasterTooLarge
    | LimitExceeded | GeometryOverflow

  datatype Limits = Limits(maxSlots: nat, maxItems: nat, maxPages: nat, maxCanvasPixels: nat, maxTotalPixels: nat)

  const MAX_LAYOUT_ID := 128
  const I64_MAX := 0x7fff_ffff_ffff_ffff

  // ----- layouts -----

  predicate OnPaper(l: Layout, s: Slot) {
    s.x >= 0 && s.y >= 0 && s.width > 0 && s.height > 0 && Sum(s.x, s.width) <= l.paperWidth &&
      Sum(s.y, s.height) <= l.paperHeight
  }

  function Sum(a: int, b: int): (r: int) {
    a + b
  }

  /** Two slots share a point of their interiors. */
  predicate Overlap(a: Slot, b: Slot) {
    && a.x < Sum(b.x, b.width) && b.x < Sum(a.x, a.width)
    && a.y < Sum(b.y, b.height) && b.y < Sum(a.y, a.height)
  }

  /** Slots share interior points exactly when the rectangles do. */
  lemma OverlapIsSharing(a: Slot, b: Slot)
    requires a.width > 0 && a.height > 0 && b.width > 0 && b.height > 0
    ensures Overlap(a, b) <==> exists x: int, y: int :: Inside(a, x, y) && Inside(b, x, y)
  {
    if Overlap(a, b) {
      var x := if a.x < b.x then b.x else a.x;
      var y := if a.y < b.y then b.y else a.y;
      assert Inside(a, x, y) && Inside(b, x, y);
    }
  }

  /** The unit square at `(x, y)` lies in the slot. */
  predicate Inside(s: Slot, x: int, y: int) {
    s.x <= x < Sum(s.x, s.width) && s.y <= y < Sum(s.y, s.height)
  }

  /** A slot on the paper has some area, and no point of it off the paper. */
  lemma OnPaperExact(l: Layout, s: Slot)
    ensures OnPaper(l, s) <==>
      && (exists x: int, y: int :: Inside(s, x, y))
      && (forall x: int, y: int :: Inside(s, x, y) ==> 0 <= x < l.paperWidth && 0 <= y < l.paperHeight)
  {
    if OnPaper(l, s) {
      assert Inside(s, s.x, s.y);
    }
    if s.width > 0 && s.height > 0 {
      assert Inside(s, s.x, s.y) && Inside(s, s.x + s.width - 1, s.y + s.height - 1);
    }
  }

  predicate Disjoint(slots: seq<Slot>) {
    forall i, j :: 0 <= i < j < |slots| ==> !Overlap(slots[i], slots[j])
  }

  predicate IdOk(id: string) {
    id != "" && Utf8Text.Length(id) <= MAX_LAYOUT_ID
  }

  predicate HeaderOk(l: Layout, maxSlots: nat) {
    IdOk(l.id) && l.paperWidth > 0 && l.paperHeight > 0 && l.slots != [] && |l.slots| <= maxSlots
  }

  predicate ValidLayout(l: Layout, maxSlots: nat) {
    HeaderOk(l, maxSlots) && (forall i :: 0 <= i < |l.slots| ==> OnPaper(l, l.slots[i])) && Disjoint(l.slots)
  }

  method ValidateLayout(l: Layout, maxSlots: nat) returns (e: Option<SheetError>)
    ensures e.None? <==> ValidLayout(l, maxSlots)
    ensures e.Some? && e.value.OverlappingSlots? ==>
      e.value.left < e.value.right < |l.slots| && Overlap(l.slots[e.value.left], l.slots[e.value.right])
    ensures e.Some? && e.value.SlotOutsidePaper? ==> e.value.index < |l.slots| && !OnPaper(l, l.slots[e.value.index])
  {
    hide OnPaper, Overlap, Utf8Text.Length;
    if l.id == "" || Utf8Text.Length(l.id) > MAX_LAYOUT_ID {
      return Some(InvalidLayoutId);
    }
    if l.paperWidth <= 0 || l.paperHeight <= 0 {
      return Some(InvalidPaper);
    }
    if l.slots == [] {
      return Some(EmptyLayout);
    }
    if |l.slots| > maxSlots {
      return Some(LimitExceeded);
    }
    var outside := CheckOnPaper(l);
    if outside.Some? {
      return outside;
    }
    e := CheckDisjoint(l.slots);
  }

  method CheckOnPaper(l: Layout) returns (e: Option<SheetError>)
    ensures e.None? <==> forall i :: 0 <= i < |l.slots| ==> OnPaper(l, l.slots[i])
    ensures e.Some? ==> e.value.GeometryOverflow? || e.value.SlotOutsidePaper?
    ensures e.Some? && e.value.SlotOutsidePaper? ==> e.value.index < |l.slots| && !OnPaper(l, l.slots[e.value.index])
  {
    for i := 0 to |l.slots|
      invariant forall j :: 0 <= j < i ==> OnPaper(l, l.slots[j])
    {
      var s := l.slots[i];
      var right, bottom := Sum(s.x, s.width), Sum(s.y, s.height);
      if right > I64_MAX || right < -I64_MAX - 1 || bottom > I64_MAX || bottom < -I64_MAX - 1 {
        assert !OnPaper(l, s);
        return Some(GeometryOverflow);
      }
      if !OnPaper(l, s) {
        return Some(SlotOutsidePaper(i));
      }
    }
    return None;
  }

  method CheckDisjoint(slots: seq<Slot>) returns (e: Option<SheetError>)
    ensures e.None? <==> Disjoint(slots)
    ensures e.Some? ==> e.value.OverlappingSlots?
    ensures e.Some? ==> e.value.left < e.value.right < |slots| && Overlap(slots[e.value.left], slots[e.value.right])
  {
    hide Overlap;
    for i := 0 to |slots|
      invariant forall j, k :: 0 <= j < k < |slots| && j < i ==> !Overlap(slots[j], slots[k])
    {
      for k := i + 1 to |slots|
        invariant forall m :: i < m < k ==> !Overlap(slots[i], slots[m])
      {
        if Overlap(slots[i], slots[k]) {
          return Some(OverlappingSlots(i, k));
        }
      }
    }
    return None;
  }

  // ----- grids -----

  predicate GridOk(g: Grid) {
    && g.rows > 0 && g.columns > 0 && g.labelWidth > 0 && g.labelHeight > 0
    && g.marginLeft >= 0 && g.marginTop >= 0 && g.gapX >= 0 && g.gapY >= 0
  }

  /** A grid has rows, columns and labels with some area, and neither margins nor gaps point backwards; an identifier
      has one to 128 octets. */
  lemma GridExactly(g: Grid)
    ensures GridOk(g) <==>
      && 1 <= g.rows && 1 <= g.columns && 1 <= g.labelWidth && 1 <= g.labelHeight
      && -1 < g.marginLeft && -1 < g.marginTop && -1 < g.gapX && -1 < g.gapY
    ensures IdOk(g.id) <==> 1 <= |Utf8Text.Encode(g.id)| <= 128
  {
  }

  /** The distance between neighbouring labels is representable. */
  predicate PitchOk(g: Grid) {
    Sum(g.labelWidth, g.gapX) <= I64_MAX && Sum(g.labelHeight, g.gapY) <= I64_MAX
  }

  function Left(g: Grid, column: nat): (r: int) {
    g.marginLeft + column * Sum(g.labelWidth, g.gapX)
  }

  function Top(g: Grid, row: nat): (r: int) {
    g.marginTop + row * Sum(g.labelHeight, g.gapY)
  }

  /** The last label ends on the paper. */
  predicate Fits(g: Grid)
    requires GridOk(g)
  {
    && Sum(Left(g, Before(g.columns)), g.labelWidth) <= g.paperWidth
    && Sum(Top(g, Before(g.rows)), g.labelHeight) <= g.paperHeight
  }

  function Before(n: u16): (r: nat)
    requires n > 0
  {
    n - 1
  }

  predicate IsGridSlot(g: Grid, s: Slot, row: nat, column: nat) {
    s.x == Left(g, column) && s.y == Top(g, row) && s.width == g.labelWidth && s.height == g.labelHeight
  }

  /** Labels of a grid never overlap. */
  lemma GridDisjoint(g: Grid, a: Slot, r: nat, c: nat, b: Slot, s: nat, d: nat)
    requires GridOk(g) && IsGridSlot(g, a, r, c) && IsGridSlot(g, b, s, d) && (r != s || c != d)
    ensures !Overlap(a, b)
  {
    var px, py := Sum(g.labelWidth, g.gapX), Sum(g.labelHeight, g.gapY);
    if c < d {
      MulMonotone(c, d, px);
    } else if d < c {
      MulMonotone(d, c, px);
    } else if r < s {
      MulMonotone(r, s, py);
    } else {
      MulMonotone(s, r, py);
    }
  }

  /** If the last label fits, every label is on the paper. */
  lemma AllFit(g: Grid, l: Layout, s: Slot, row: nat, column: nat)
    requires GridOk(g) && Fits(g) && row < g.rows && column < g.columns && IsGridSlot(g, s, row, column)
    requires l.paperWidth == g.paperWidth && l.paperHeight == g.paperHeight
    ensures OnPaper(l, s)
  {
    MulMonotone(column, g.columns - 1, Sum(g.labelWidth, g.gapX));
    MulMonotone(row, g.rows - 1, Sum(g.labelHeight, g.gapY));
    MulMonotone(0, column, Sum(g.labelWidth, g.gapX));
    MulMonotone(0, row, Sum(g.labelHeight, g.gapY));
  }

  function InnerCount(g: Grid): (r: nat) {
    if g.order == RowMajor then g.columns else g.rows
  }

  function OuterCount(g: Grid): (r: nat) {
    if g.order == RowMajor then g.rows else g.columns
  }

  /** Row and column of slot `i` in the fill order of the grid. */
  function RowOf(g: Grid, i: nat): (r: nat)
    requires GridOk(g)
  {
    if g.order == RowMajor then i / InnerCount(g) else i % InnerCount(g)
  }

  function ColumnOf(g: Grid, i: nat): (r: nat)
    requires GridOk(g)
  {
    if g.order == RowMajor then i % InnerCount(g) else i / InnerCount(g)
  }

  predicate SlotIs(g: Grid, s: Slot, i: nat)
    requires GridOk(g)
  {
    IsGridSlot(g, s, RowOf(g, i), ColumnOf(g, i))
  }

  /** Label positions in fill order; `None` when one is not representable. */
  method FillSlots(g: Grid) returns (slots: Option<seq<Slot>>)
    requires GridOk(g)
    ensures slots.Some? ==> PitchOk(g) && |slots.value| == InnerCount(g) * OuterCount(g)
    ensures slots.Some? ==> forall i :: 0 <= i < |slots.value| ==> SlotIs(g, slots.value[i], i)
    ensures PitchOk(g) && Fits(g) ==> slots.Some?
  {
    hide IsGridSlot, Cell, Fits;
    var pitchX, pitchY := Sum(g.labelWidth, g.gapX), Sum(g.labelHeight, g.gapY);
    if pitchX > I64_MAX || pitchY > I64_MAX {
      return None;
    }
    var out: seq<Slot> := [];
    var inner, outer := InnerCount(g), OuterCount(g);
    CellStart(inner, 0);
    for a := 0 to outer
      invariant |out| == Cell(inner, a, 0)
      invariant forall i :: 0 <= i < |out| ==> SlotIs(g, out[i], i)
    {
      for b := 0 to inner
        invariant |out| == Cell(inner, a, b)
        invariant forall i :: 0 <= i < |out| ==> SlotIs(g, out[i], i)
      {
        var row, column := if g.order == RowMajor then a else b, if g.order == RowMajor then b else a;
        var x, y := g.marginLeft + column * pitchX, g.marginTop + row * pitchY;
        Representable(g, row, column);
        if x > I64_MAX || y > I64_MAX {
          return None;
        }
        var slot := Slot(x, y, g.labelWidth, g.labelHeight);
        assert IsGridSlot(g, slot, row, column) by { GridSlotIs(g, slot, row, column); }
        CellStep(inner, a, b);
        assert SlotIs(g, slot, |out|);
        out := out + [slot];
      }
      CellStart(inner, a);
    }
    CellStart(inner, outer);
    return Some(out);
  }

  lemma GridSlotIs(g: Grid, s: Slot, row: nat, column: nat)
    requires s.x == g.marginLeft + column * Sum(g.labelWidth, g.gapX) && s.y == g.marginTop +
      row * Sum(g.labelHeight, g.gapY)
    requires s.width == g.labelWidth && s.height == g.labelHeight
    ensures IsGridSlot(g, s, row, column)
  {
  }

  lemma CellStart(inner: nat, a: nat)
    ensures Cell(inner, 0, 0) == 0 && Cell(inner, a, inner) == Cell(inner, a + 1, 0) && Cell(inner, a, 0) == inner * a
  {
    assert (a + 1) * inner == a * inner + inner;
  }

  lemma CellStep(inner: nat, a: nat, b: nat)
    requires b < inner
    ensures Cell(inner, a, b + 1) == Cell(inner, a, b) + 1
    ensures Cell(inner, a, b) / inner == a && Cell(inner, a, b) % inner == b
  {
    QuotientUnique(Cell(inner, a, b), inner, a, b);
  }

  lemma Representable(g: Grid, row: nat, column: nat)
    requires GridOk(g) && row < g.rows && column < g.columns
    ensures 0 <= g.marginLeft + column * Sum(g.labelWidth, g.gapX) && 0 <= g.marginTop +
      row * Sum(g.labelHeight, g.gapY)
    ensures Fits(g) ==> g.marginLeft + column * Sum(g.labelWidth, g.gapX) <= I64_MAX
    ensures Fits(g) ==> g.marginTop + row * Sum(g.labelHeight, g.gapY) <= I64_MAX
  {
    MulMonotone(column, g.columns - 1, Sum(g.labelWidth, g.gapX));
    MulMonotone(row, g.rows - 1, Sum(g.labelHeight, g.gapY));
    MulMonotone(0, column, Sum(g.labelWidth, g.gapX));
    MulMonotone(0, row, Sum(g.labelHeight, g.gapY));
  }

  lemma PositionsDiffer(inner: nat, i: nat, j: nat)
    requires inner > 0 && i != j
    ensures i / inner != j / inner || i % inner != j % inner
  {
    assert i == inner * (i / inner) + i % inner && j == inner * (j / inner) + j % inner;
  }

  lemma PlacesDiffer(g: Grid, i: nat, j: nat)
    requires GridOk(g) && i != j
    ensures RowOf(g, i) != RowOf(g, j) || ColumnOf(g, i) != ColumnOf(g, j)
  {
    PositionsDiffer(InnerCount(g), i, j);
  }

  lemma PlaceInGrid(g: Grid, i: nat)
    requires GridOk(g) && i < InnerCount(g) * OuterCount(g)
    ensures RowOf(g, i) < g.rows && ColumnOf(g, i) < g.columns
  {
    CellOf(InnerCount(g), OuterCount(g), i);
  }

  lemma LastPlace(g: Grid) returns (last: nat)
    requires GridOk(g)
    ensures last + 1 == InnerCount(g) * OuterCount(g)
    ensures RowOf(g, last) == Before(g.rows) && ColumnOf(g, last) == Before(g.columns)
  {
    var inner, outer := InnerCount(g), OuterCount(g);
    LastCell(inner, outer);
    last := Cell(inner, outer - 1, inner - 1);
    CellStep(inner, outer - 1, inner - 1);
  }

  lemma LastCell(inner: nat, outer: nat)
    requires outer > 0 && inner > 0
    ensures Cell(inner, outer - 1, inner - 1) == inner * outer - 1
  {
    assert (outer - 1) * inner == inner * outer - inner;
  }

  lemma FilledDisjoint(g: Grid, slots: seq<Slot>)
    requires GridOk(g) && forall i :: 0 <= i < |slots| ==> SlotIs(g, slots[i], i)
    ensures Disjoint(slots)
  {
    hide IsGridSlot, Overlap, RowOf, ColumnOf;
    forall i, j | 0 <= i < j < |slots| ensures !Overlap(slots[i], slots[j]) {
      PlacesDiffer(g, i, j);
      assert SlotIs(g, slots[i], i) && SlotIs(g, slots[j], j);
      GridDisjoint(g, slots[i], RowOf(g, i), ColumnOf(g, i), slots[j], RowOf(g, j), ColumnOf(g, j));
    }
  }

  lemma FilledFits(g: Grid, l: Layout)
    requires GridOk(g) && l.paperWidth == g.paperWidth && l.paperHeight == g.paperHeight
    requires |l.slots| == InnerCount(g) * OuterCount(g) && forall i :: 0 <= i < |l.slots| ==> SlotIs(g, l.slots[i], i)
    ensures |l.slots| > 0
    ensures (forall i :: 0 <= i < |l.slots| ==> OnPaper(l, l.slots[i])) <==> Fits(g)
  {
    hide IsGridSlot, OnPaper, Fits, RowOf, ColumnOf;
    var last := LastPlace(g);
    assert SlotIs(g, l.slots[last], last);
    if OnPaper(l, l.slots[last]) {
      LastFits(g, l, l.slots[last]);
    }
    if Fits(g) {
      forall i | 0 <= i < |l.slots| ensures OnPaper(l, l.slots[i]) {
        PlaceInGrid(g, i);
        assert SlotIs(g, l.slots[i], i);
        AllFit(g, l, l.slots[i], RowOf(g, i), ColumnOf(g, i));
      }
    }
  }

  lemma LastFits(g: Grid, l: Layout, s: Slot)
    requires GridOk(g) && l.paperWidth == g.paperWidth && l.paperHeight == g.paperHeight
    requires IsGridSlot(g, s, Before(g.rows), Before(g.columns)) && OnPaper(l, s)
    ensures Fits(g)
  {
  }

  /** A grid is accepted exactly when it is sensible, small enough and its last label fits the paper; it
      never overlaps. */
  method NormalizeGrid(g: Grid, maxSlots: nat) returns (r: Result<Layout, SheetError>)
    ensures r.Ok? <==> GridOk(g) && InnerCount(g) * OuterCount(g) <= maxSlots && IdOk(g.id) && PitchOk(g) && Fits(g)
    ensures r.Ok? ==> ValidLayout(r.value, maxSlots) && |r.value.slots| == InnerCount(g) * OuterCount(g)
    ensures r.Ok? ==> r.value.paperWidth == g.paperWidth && r.value.paperHeight == g.paperHeight
    ensures r.Ok? ==> forall i :: 0 <= i < |r.value.slots| ==> SlotIs(g, r.value.slots[i], i)
    ensures r.Err? ==> !r.error.OverlappingSlots?
  {
    hide Fits, SlotIs, OnPaper, Overlap;
    if !GridOk(g) {
      return Err(InvalidGrid);
    }
    if InnerCount(g) * OuterCount(g) > maxSlots {
      return Err(LimitExceeded);
    }
    var slots := FillSlots(g);
    if slots.None? {
      return Err(GeometryOverflow);
    }
    var layout := Layout(g.id, g.paperWidth, g.paperHeight, slots.value);
    FilledDisjoint(g, slots.value);
    FilledFits(g, layout);
    if Fits(g) {
      FitsNeedsPaper(g);
    }
    var e := ValidateLayout(layout, maxSlots);
    if e.Some? {
      return Err(e.value);
    }
    return Ok(layout);
  }

  lemma FitsNeedsPaper(g: Grid)
    requires GridOk(g) && Fits(g)
    ensures g.paperWidth > 0 && g.paperHeight > 0
  {
    MulMonotone(0, g.columns - 1, Sum(g.labelWidth, g.gapX));
    MulMonotone(0, g.rows - 1, Sum(g.labelHeight, g.gapY));
  }

  /** A definition gives a layout. */
  predicate Normal(d: Definition, maxSlots: nat) {
    match d
    case ExplicitSheet(layout) => ValidLayout(layout, maxSlots)
    case GridSheet(g) => GridOk(g) && InnerCount(g) * OuterCount(g) <= maxSlots && IdOk(g.id) && PitchOk(g) && Fits(g)
  }

  function SlotCount(d: Definition): (n: nat) {
    match d
    case ExplicitSheet(layout) => |layout.slots|
    case GridSheet(g) => InnerCount(g) * OuterCount(g)
  }

  function Paper(d: Definition): (size: (int, int)) {
    match d
    case ExplicitSheet(layout) => (layout.paperWidth, layout.paperHeight)
    case GridSheet(g) => (g.paperWidth, g.paperHeight)
  }

  /** The size of a label in a slot. */
  function SlotSize(d: Definition, slot: nat): (size: (int, int))
    requires slot < SlotCount(d)
  {
    match d
    case ExplicitSheet(layout) => (layout.slots[slot].width, layout.slots[slot].height)
    case GridSheet(g) => (g.labelWidth, g.labelHeight)
  }

  /** The layout is that of the definition. */
  predicate LayoutOf(l: Layout, d: Definition) {
    && |l.slots| == SlotCount(d) && (l.paperWidth, l.paperHeight) == Paper(d)
    && forall i :: 0 <= i < |l.slots| ==> (l.slots[i].width, l.slots[i].height) == SlotSize(d, i)
  }

  method NormalizeLayout(d: Definition, maxSlots: nat) returns (r: Result<Layout, SheetError>)
    ensures r.Ok? <==> Normal(d, maxSlots)
    ensures r.Ok? ==> ValidLayout(r.value, maxSlots) && LayoutOf(r.value, d)
    ensures d.ExplicitSheet? && r.Ok? ==> r.value == d.layout
    ensures d.GridSheet? && r.Err? ==> !r.error.OverlappingSlots?
  {
    hide ValidLayout, Fits;
    match d {
      case ExplicitSheet(layout) => {
        var e := ValidateLayout(layout, maxSlots);
        if e.Some? {
          return Err(e.value);
        }
        return Ok(layout);
      }
      case GridSheet(grid) => {
        r := NormalizeGrid(grid, maxSlots);
      }
    }
  }

  // ----- dots -----

  /** Dots per inch, `NonZeroU16`. */
  type Dpi = d: int | 0 < d < 0x1_0000 witness 1

  /** Half away from zero, as a ratio over 25400 micrometres to the inch. */
  function ExactDots(value: int, dpi: Dpi): (r: int) {
    var n := value * dpi;
    if n < 0 then -((-n + 12_700) / 25_400) else (n + 12_700) / 25_400
  }

  /** The number of dots is the nearest whole number to `value * dpi / 25400`, and the same for lengths to the left with
      its sign reversed. */
  lemma DotsRounded(value: nat, dpi: Dpi, dots: int)
    ensures dots == ExactDots(value, dpi) <==> HalfUp(25_400, dpi, value, dots)
    ensures ExactDots(0 - value, dpi) == 0 - ExactDots(value, dpi)
  {
    var n := dpi * value;
    assert value * dpi == n && (0 - value) * dpi == 0 - n;
    MulMonotone(0, value, dpi);
    HalfUpIs(dpi, value, (n + 12_700) / 25_400);
    if HalfUp(25_400, dpi, value, dots) {
      HalfUpUnique(25_400, dpi, value, dots, (n + 12_700) / 25_400);
    }
  }

  lemma HalfUpIs(dpi: Dpi, value: nat, dots: int)
    requires dots == (dpi * value + 12_700) / 25_400
    ensures HalfUp(25_400, dpi, value, dots)
  {
  }

  /** Rust's `as i64`, which keeps the low 64 bits. */
  function LowBits(n: int): (r: i64)
    ensures (r - n) % 0x1_0000_0000_0000_0000 == 0
  {
    var m := n % 0x1_0000_0000_0000_0000;
    if m < 0x8000_0000_0000_0000 then m else m - 0x1_0000_0000_0000_0000
  }

  /** A length in dots as the source converts it: rounded, then cut to 64 bits. */
  function Dots(value: int, dpi: Dpi): (r: i64) {
    LowBits(ExactDots(value, dpi))
  }

  lemma LowBitsKept(n: int)
    ensures LowBits(n) == n <==> -0x8000_0000_0000_0000 <= n < 0x8000_0000_0000_0000
    ensures 0x8000_0000_0000_0000 <= n < 0x1_0000_0000_0000_0000 ==> LowBits(n) == n - 0x1_0000_0000_0000_0000
    ensures 0x1_0000_0000_0000_0000 <= n < 0x1_8000_0000_0000_0000 ==> LowBits(n) == n - 0x1_0000_0000_0000_0000
  {
  }

  lemma DotsMonotone(a: nat, b: nat, dpi: Dpi)
    requires a <= b
    ensures 0 <= ExactDots(a, dpi) <= ExactDots(b, dpi)
  {
    MulMonotone(a, b, dpi);
    MulMonotone(0, a, dpi);
  }

  /** Up to 25400 dots per inch, a length has at most as many dots as micrometres; up to twice that, at most twice. */
  lemma DotsBound(value: int, dpi: Dpi, times: nat)
    requires dpi <= 25_400 * times
    ensures value >= 0 ==> 0 <= ExactDots(value, dpi) <= value * times
    ensures value < 0 ==> value * times <= ExactDots(value, dpi) <= 0
  {
    var size: nat := if value < 0 then 0 - value else value;
    MulMonotone(dpi, 25_400 * times, size);
    MulMonotone(0, size, dpi);
    MulMonotone(0, size, times);
    Regroup(size, times);
    assert value < 0 ==> value * dpi == 0 - size * dpi && value * times == 0 - size * times;
  }

  lemma Regroup(a: nat, b: nat)
    ensures (25_400 * b) * a == 25_400 * (a * b) && a * (25_400 * b) == 25_400 * (b * a)
  {
  }

  /** Above that there is a length whose dots just reach a given bound. */
  lemma DotsReach(dpi: Dpi, bound: nat) returns (value: nat)
    requires bound > 0
    ensures bound <= ExactDots(value, dpi) <= bound + 3
    ensures forall times: nat :: dpi > 25_400 * times && bound >= 0x4000_0000_0000 * times ==> value * times < bound
  {
    value := ReachingLength(dpi, 25_400 * bound);
    forall times: nat | dpi > 25_400 * times && bound >= 0x4000_0000_0000 * times ensures value * times < bound {
      ShortLength(dpi, bound, value, times);
    }
  }

  lemma ReachingLength(dpi: Dpi, target: nat) returns (value: nat)
    ensures target < value * dpi <= target + dpi
  {
    var q, r := target / dpi, target % dpi;
    assert target == dpi * q + r;
    value := q + 1;
    assert value * dpi == dpi * q + dpi;
  }

  lemma ShortLength(dpi: Dpi, bound: nat, value: nat, times: nat)
    requires value * dpi <= 25_400 * bound + dpi
    requires dpi > 25_400 * times && bound > 0 && bound >= 0x4000_0000_0000 * times
    ensures value * times < bound
  {
    MulMonotone(25_400 * times + 1, dpi, value);
    assert value * (25_400 * times + 1) == value * (25_400 * times) + value;
    Regroup(times, value);
  }

  /** No 64-bit length wraps if and only if the resolution is at most 25400 dots per inch. */
  lemma DotsNeverWrap(dpi: Dpi)
    ensures (forall value: i64 :: Dots(value, dpi) == ExactDots(value, dpi)) <==> dpi <= 25_400
  {
    hide ExactDots, LowBits;
    if dpi <= 25_400 {
      forall value: i64 ensures Dots(value, dpi) == ExactDots(value, dpi) {
        DotsBound(value, dpi, 1);
        LowBitsKept(ExactDots(value, dpi));
      }
    } else {
      var value := DotsReach(dpi, 0x8000_0000_0000_0000);
      assert value * 1 < 0x8000_0000_0000_0000;
      LowBitsKept(ExactDots(value, dpi));
      var long: i64 := value;
      assert Dots(long, dpi) != ExactDots(long, dpi);
    }
  }

  /** A paper of seven thousand kilometres counts as 1003 dots wide. */
  lemma DotsWrap()
    ensures ExactDots(7_149_573_502_284_620_989, 65_535) == 0x1_0000_0000_0000_0000 + 1003
    ensures Dots(7_149_573_502_284_620_989, 65_535) == 1003
  {
  }

  /** A 64-bit length passes for a number of dots that it does not have, of at most 32 bits, only above 50800 dots per
      inch, and there some length does. */
  lemma LengthsMisread(dpi: Dpi)
    ensures (exists value: i64 :: value > 0 && 0 <= Dots(value, dpi) <= 0xffff_ffff
                                  && Dots(value, dpi) != ExactDots(value, dpi)) <==> dpi > 50_800
  {
    hide ExactDots, LowBits;
    if dpi <= 50_800 {
      forall value: i64 | value > 0 && Dots(value, dpi) >= 0 ensures Dots(value, dpi) == ExactDots(value, dpi) {
        DotsBound(value, dpi, 2);
        LowBitsKept(ExactDots(value, dpi));
      }
    } else {
      var value := DotsReach(dpi, 0x1_0000_0000_0000_0000);
      assert value * 2 < 0x1_0000_0000_0000_0000;
      LowBitsKept(ExactDots(value, dpi));
      NoDots(dpi);
      var long: i64 := value;
      assert long > 0 && 0 <= Dots(long, dpi) <= 0xffff_ffff && Dots(long, dpi) != ExactDots(long, dpi);
    }
  }

  lemma NoDots(dpi: Dpi)
    ensures ExactDots(0, dpi) == 0 && Dots(0, dpi) == 0
  {
  }

  lemma ExactIntrusion(x: nat, width: nat, next: nat, dpi: Dpi)
    requires x + width <= next
    ensures ExactDots(x, dpi) + ExactDots(width, dpi) <= ExactDots(next, dpi) + 1
  {
    var a, b, c := x * dpi, width * dpi, next * dpi;
    assert a + b == (x + width) * dpi;
    MulMonotone(x + width, next, dpi);
    MulMonotone(0, x, dpi);
    MulMonotone(0, width, dpi);
  }

  /** Converted to dots, the next label starts at most one dot before the previous one ends, and not before that one
      starts. */
  predicate Apart(x: nat, width: nat, next: nat, dpi: Dpi) {
    Dots(x, dpi) + Dots(width, dpi) <= Dots(next, dpi) + 1 && Dots(x, dpi) <= Dots(next, dpi)
  }

  /** Labels that end where the next begins, or before, intrude by at most one dot once converted, for all 64-bit
      lengths if and only if the resolution is at most 25400 dots per inch. */
  lemma IntrusionAtMostOneDot(dpi: Dpi)
    ensures (forall x: nat, width: nat, next: nat :: x + width <= next < 0x8000_0000_0000_0000 ==>
               Apart(x, width, next, dpi)) <==> dpi <= 25_400
  {
    hide ExactDots, LowBits;
    if dpi <= 25_400 {
      forall x: nat, width: nat, next: nat | x + width <= next < 0x8000_0000_0000_0000
        ensures Apart(x, width, next, dpi)
      {
        DotsNeverWrap(dpi);
        var a: i64, b: i64, c: i64 := x, width, next;
        assert Dots(a, dpi) == ExactDots(a, dpi) && Dots(b, dpi) == ExactDots(b, dpi);
        assert Dots(c, dpi) == ExactDots(c, dpi);
        ExactIntrusion(x, width, next, dpi);
        DotsMonotone(x, next, dpi);
      }
    } else {
      var next := DotsReach(dpi, 0x8000_0000_0000_0000);
      assert next * 1 < 0x8000_0000_0000_0000;
      LowBitsKept(ExactDots(next, dpi));
      NoDots(dpi);
      assert !Apart(0, 0, next, dpi);
    }
  }

  /** At 254 dots per inch two labels of 50 micrometres side by side do share a dot. */
  lemma IntrusionHappens()
    ensures Dots(50, 254) + Dots(50, 254) == Dots(50 + 50, 254) + 1
  {
    assert ExactDots(50, 254) == 1 && ExactDots(100, 254) == 1;
  }

  // ----- plans -----

  datatype Placement = Placement(item: nat, page: nat, slot: nat)

  datatype Plan = Plan(pageCount: nat, layout: Layout, placements: seq<Placement>)

  /** Items fill the slots one after another from the first slot on: position `p` is slot `p mod k` of page `p / k`. */
  predicate Consecutive(p: Plan, firstSlot: nat, items: nat) {
    && p.layout.slots != [] && |p.placements| == items
    && forall i :: 0 <= i < items ==> p.placements[i] == PlaceOf(firstSlot, i, |p.layout.slots|)
  }

  function PlaceOf(firstSlot: nat, item: nat, slots: nat): (r: Placement)
    requires slots > 0
    ensures r.slot < slots
  {
    Placement(item, (firstSlot + item) / slots, (firstSlot + item) % slots)
  }

  function Product(a: int, b: int): (r: int) {
    a * b
  }

  function CeilDiv(a: nat, b: nat): (r: nat)
    requires b > 0
  {
    if a == 0 then 0 else (a - 1) / b + 1
  }

  lemma CeilHolds(a: nat, b: nat)
    requires b > 0
    ensures a <= CeilDiv(a, b) * b < a + b
  {
    if a > 0 {
      var q, r := (a - 1) / b, (a - 1) % b;
      assert a - 1 == b * q + r;
      assert (q + 1) * b == b * q + b;
    }
  }

  lemma CeilUnique(a: nat, b: nat, q: nat, r: nat)
    requires a <= q * b < a + b && a <= r * b < a + b
    ensures q == r
  {
    if q < r {
      MulMonotone(q + 1, r, b);
    } else if r < q {
      MulMonotone(r + 1, q, b);
    }
  }

  /** Just enough times `b` to hold `a`. */
  lemma CeilDivExact(a: nat, b: nat, q: nat)
    requires b > 0
    ensures q == CeilDiv(a, b) <==> a <= q * b < a + b
  {
    hide CeilDiv;
    CeilHolds(a, b);
    if a <= q * b < a + b {
      CeilUnique(a, b, q, CeilDiv(a, b));
    }
  }

  /** The paper has a size in dots. */
  predicate HasDots(d: Definition, dpi: Dpi) {
    0 <= Dots(Paper(d).0, dpi) <= 0xffff_ffff && 0 <= Dots(Paper(d).1, dpi) <= 0xffff_ffff
  }

  /** A page, and all pages together, stay within the pixel limits. */
  predicate PixelsFit(d: Definition, dpi: Dpi, pages: nat, limits: Limits) {
    var page := Product(Dots(Paper(d).0, dpi), Dots(Paper(d).1, dpi));
    page <= limits.maxCanvasPixels && Product(page, pages) <= limits.maxTotalPixels
  }

  /** Every label has the size of the slot it comes to lie in. */
  predicate SizesMatch(d: Definition, items: nat, labelWidth: int, labelHeight: int, firstSlot: nat)
    requires SlotCount(d) > 0
  {
    forall i :: 0 <= i < items ==> SlotSize(d, PlaceOf(firstSlot, i, SlotCount(d)).slot) == (labelWidth, labelHeight)
  }

  /** When a plan exists. */
  predicate Plannable(items: nat, labelWidth: int, labelHeight: int, d: Definition, firstSlot: nat, dpi: Dpi,
                      limits: Limits)
  {
    && 0 < items <= limits.maxItems && Normal(d, limits.maxSlots) && firstSlot < SlotCount(d) && HasDots(d, dpi)
    && CeilDiv(firstSlot + items, SlotCount(d)) <= limits.maxPages
    && PixelsFit(d, dpi, CeilDiv(firstSlot + items, SlotCount(d)), limits)
    && SizesMatch(d, items, labelWidth, labelHeight, firstSlot)
  }

  method PlanSheet(items: nat, labelWidth: int, labelHeight: int, d: Definition, firstSlot: nat, dpi: Dpi,
                   limits: Limits)
    returns (r: Result<Plan, SheetError>)
    ensures r.Ok? <==> Plannable(items, labelWidth, labelHeight, d, firstSlot, dpi, limits)
    ensures r.Ok? ==> ValidLayout(r.value.layout, limits.maxSlots) && LayoutOf(r.value.layout, d)
    ensures r.Ok? ==> Consecutive(r.value, firstSlot, items)
    ensures r.Ok? ==> r.value.pageCount == CeilDiv(firstSlot + items, |r.value.layout.slots|)
    ensures r.Err? && r.error.OverlappingSlots? ==> d.ExplicitSheet?
  {
    hide ValidLayout, Dots, PlaceOf, CeilDiv, Product, Normal, SlotCount, SlotSize, Paper;
    if items == 0 {
      return Err(EmptyJob);
    }
    if items > limits.maxItems {
      return Err(LimitExceeded);
    }
    var normalized := NormalizeLayout(d, limits.maxSlots);
    if normalized.Err? {
      return Err(normalized.error);
    }
    var layout := normalized.value;
    SomeSlots(layout, limits.maxSlots);
    var k := |layout.slots|;
    if firstSlot >= k {
      return Err(InvalidFirstSlot);
    }
    var width, height := Dots(layout.paperWidth, dpi), Dots(layout.paperHeight, dpi);
    if width < 0 || height < 0 || width > 0xffff_ffff || height > 0xffff_ffff {
      return Err(GeometryOverflow);
    }
    if Product(width, height) > limits.maxCanvasPixels {
      return Err(RasterTooLarge);
    }
    assert width == Dots(Paper(d).0, dpi) && height == Dots(Paper(d).1, dpi);
    var firstCapacity := k - firstSlot;
    var remaining := if items < firstCapacity then 0 else items - firstCapacity;
    var additional := CeilDiv(remaining, k);
    var pageCount := 1 + additional;
    PagesNeeded(items, firstSlot, k);
    if pageCount > limits.maxPages {
      return Err(LimitExceeded);
    }
    if Product(Product(width, height), pageCount) > limits.maxTotalPixels {
      return Err(RasterTooLarge);
    }
    var placements := [];
    for item := 0 to items
      invariant |placements| == item
      invariant forall i :: 0 <= i < item ==> placements[i] == PlaceOf(firstSlot, i, k)
      invariant forall i :: 0 <= i < item ==> SlotSize(d, PlaceOf(firstSlot, i, k).slot) == (labelWidth, labelHeight)
    {
      var place := PlaceItem(item, firstSlot, k);
      var slot := place.slot;
      if labelWidth != layout.slots[slot].width || labelHeight != layout.slots[slot].height {
        return Err(LabelSizeMismatch(item));
      }
      placements := placements + [place];
    }
    return Ok(Plan(pageCount, layout, placements));
  }

  /** The first page starts at the first slot, the others at slot zero. */
  method PlaceItem(item: nat, firstSlot: nat, k: nat) returns (r: Placement)
    requires firstSlot < k
    ensures r == PlaceOf(firstSlot, item, k)
  {
    PositionOf(firstSlot, item, k);
    var firstCapacity := k - firstSlot;
    if item < firstCapacity {
      return Placement(item, 0, firstSlot + item);
    }
    var offset := item - firstCapacity;
    return Placement(item, 1 + offset / k, offset % k);
  }

  lemma SomeSlots(l: Layout, maxSlots: nat)
    requires ValidLayout(l, maxSlots)
    ensures l.slots != []
  {
  }

  lemma PositionOf(firstSlot: nat, item: nat, k: nat)
    requires firstSlot < k
    ensures item < k - firstSlot ==> (firstSlot + item) / k == 0 && (firstSlot + item) % k == firstSlot + item
    ensures item >= k - firstSlot ==>
      (firstSlot + item) / k == 1 + (item - (k - firstSlot)) / k &&
        (firstSlot + item) % k == (item - (k - firstSlot)) % k
  {
    if item < k - firstSlot {
      QuotientUnique(firstSlot + item, k, 0, firstSlot + item);
    } else {
      var o := item - (k - firstSlot);
      assert o == k * (o / k) + o % k;
      assert k * (1 + o / k) == k + k * (o / k);
      QuotientUnique(firstSlot + item, k, 1 + o / k, o % k);
    }
  }

  lemma PagesNeeded(items: nat, firstSlot: nat, k: nat)
    requires items > 0 && firstSlot < k
    ensures var remaining := if items < k - firstSlot then 0 else items - (k - firstSlot);
            1 + CeilDiv(remaining, k) == CeilDiv(firstSlot + items, k)
  {
    PositionOf(firstSlot, items - 1, k);
  }

  /** Page and slot determine the item, every place from the first slot to the last item is used, and no
      page is empty. */
  lemma PlacementsAreExact(p: Plan, firstSlot: nat, items: nat, page: nat, slot: nat)
    requires Consecutive(p, firstSlot, items) && slot < |p.layout.slots|
    ensures firstSlot <= Cell(|p.layout.slots|, page, slot) < firstSlot + items <==>
            exists i :: 0 <= i < items && p.placements[i].page == page && p.placements[i].slot == slot
    ensures forall i :: 0 <= i < items && p.placements[i].page == page && p.placements[i].slot == slot ==>
              i == Cell(|p.layout.slots|, page, slot) - firstSlot
  {
    var k := |p.layout.slots|;
    var at := Cell(k, page, slot);
    QuotientUnique(at, k, page, slot);
    forall i | 0 <= i < items && p.placements[i].page == page &&
      p.placements[i].slot == slot ensures i == at - firstSlot {
      var n := firstSlot + i;
      assert n == k * (n / k) + n % k;
    }
    if firstSlot <= at < firstSlot + items {
      assert p.placements[at - firstSlot] == Placement(at - firstSlot, page, slot);
    }
  }

  /** Different labels on the same page lie in disjoint slots. */
  lemma LabelsDisjoint(p: Plan, firstSlot: nat, items: nat, maxSlots: nat, i: nat, j: nat)
    requires Consecutive(p, firstSlot, items) && ValidLayout(p.layout, maxSlots)
    requires i < j < items && p.placements[i].page == p.placements[j].page
    ensures !Overlap(p.layout.slots[p.placements[i].slot], p.layout.slots[p.placements[j].slot])
    ensures !Overlap(p.layout.slots[p.placements[j].slot], p.layout.slots[p.placements[i].slot])
    ensures OnPaper(p.layout, p.layout.slots[p.placements[i].slot])
  {
    PositionsDiffer(|p.layout.slots|, firstSlot + i, firstSlot + j);
    var a, b := p.placements[i].slot, p.placements[j].slot;
    assert a < b || b < a;
    assert forall x, y :: 0 <= x < y < |p.layout.slots| ==> !Overlap(p.layout.slots[x], p.layout.slots[y]);
  }
}
