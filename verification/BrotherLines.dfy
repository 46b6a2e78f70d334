/** Brother raster lines (crates/mb-printer-core/src/protocol.rs, `brother_raster_lines`) and a reader of them. */
module BrotherLines {
  import opened Bytes
  import opened Bits
  import opened Raster
  import PackBits
  import Plan

  // ----- mirrored rows -----

  /** The low `n` positions of `b`, reflected. */
  function ReflectedUpTo(b: byte, n: nat): (r: byte)
    requires n <= 8
    ensures forall j :: 0 <= j < 8 ==> (HasBit(r, j) <==> 7 - j < n && HasBit(b, 7 - j))
  {
    if n == 0 then
      NoBits();
      0
    else
      var r := ReflectedUpTo(b, n - 1);
      if HasBit(b, n - 1) then SetBit(r, 8 - n) else r
  }

  lemma NoBits()
    ensures forall j :: 0 <= j < 8 ==> !HasBit(0, j)
  {
    forall j | 0 <= j < 8 ensures !HasBit(0, j) {
      ClearBits(j);
    }
  }

  function Mirrored(row: seq<byte>): (r: seq<byte>) {
    seq(|row|, i requires 0 <= i < |row| => ReflectedUpTo(row[|row| - 1 - i], 8))
  }

  lemma MirroredBit(row: seq<byte>, i: nat)
    requires i < 8 * |row|
    ensures RowBit(Mirrored(row), i) <==> RowBit(row, 8 * |row| - 1 - i)
  {
    hide HasBit, ReflectedUpTo;
    var j := 8 * |row| - 1 - i;
    assert j / 8 == |row| - 1 - i / 8 && j % 8 == 7 - i % 8;
    var b := ReflectedUpTo(row[j / 8], 8);
    assert Mirrored(row)[i / 8] == b;
    assert HasBit(b, i % 8) <==> HasBit(row[j / 8], 7 - i % 8);
  }

  /** The mirroring loop, one bit at a time. */
  method MirrorRow(row: seq<byte>) returns (mirrored: seq<byte>)
    ensures mirrored == Mirrored(row)
  {
    hide HasBit, SetBit, Mirrored;
    var m := new byte[|row|](_ => 0);
    NoBits();
    var total := |row| * 8;
    for bit := 0 to total
      invariant forall j :: 0 <= j < total ==> (RowBit(m[..], j) <==> total - 1 - j < bit && RowBit(row, total - 1 - j))
    {
      ghost var was := m[..];
      if HasBit(row[bit / 8], bit % 8) {
        var dst := total - 1 - bit;
        m[dst / 8] := SetBit(m[dst / 8], dst % 8);
        forall j | 0 <= j < total ensures RowBit(m[..], j) <==> j == dst || RowBit(was, j) {
          if j / 8 == dst / 8 {
            assert (j % 8 == dst % 8) <==> j == dst;
          }
        }
      }
    }
    mirrored := m[..];
    MirroredSize(row);
    forall j | 0 <= j < total ensures RowBit(mirrored, j) <==> RowBit(Mirrored(row), j) {
      MirroredBit(row, j);
    }
    RowBitsDetermine(mirrored, Mirrored(row));
  }

  lemma MirroredSize(row: seq<byte>)
    ensures |Mirrored(row)| == |row|
  {
  }

  /** A row mirrored twice is the row. */
  lemma MirroredTwice(row: seq<byte>)
    ensures Mirrored(Mirrored(row)) == row
  {
    hide HasBit, Mirrored;
    MirroredSize(row);
    MirroredSize(Mirrored(row));
    forall j | 0 <= j < 8 * |row| ensures RowBit(Mirrored(Mirrored(row)), j) <==> RowBit(row, j) {
      MirroredBit(Mirrored(row), j);
      MirroredBit(row, 8 * |row| - 1 - j);
    }
    RowBitsDetermine(Mirrored(Mirrored(row)), row);
  }

  // ----- framing -----

  function Payload(row: seq<byte>, compress: bool): (r: seq<byte>) {
    if compress then PackBits.Pack(row) else row
  }

  /** One line: marker, zero, the payload length in one octet (truncated like `as u8`), payload. */
  function Line(row: seq<byte>, compress: bool): (r: seq<byte>) {
    [0x67, 0, |Payload(row, compress)| % 256] + Payload(row, compress)
  }

  function Framed(rows: seq<seq<byte>>, compress: bool): (r: seq<byte>) {
    if rows == [] then [] else Line(rows[0], compress) + Framed(rows[1..], compress)
  }

  function MirroredRows(rows: seq<seq<byte>>): (r: seq<seq<byte>>) {
    seq(|rows|, i requires 0 <= i < |rows| => Mirrored(rows[i]))
  }

  /** A row width of zero makes the source panic. */
  method BrotherRasterLines(data: seq<byte>, widthBytes: nat, compress: bool) returns (out: seq<byte>)
    requires widthBytes > 0
    ensures out == Framed(MirroredRows(Plan.Chunks(data, widthBytes)), compress)
  {
    hide Mirrored, Line, PackBits.Pack;
    out := [];
    var rows := Plan.Chunks(data, widthBytes);
    ghost var all := MirroredRows(rows);
    assert all[0..] == all;
    for i := 0 to |rows|
      invariant out + Framed(all[i..], compress) == Framed(all, compress)
    {
      var mirrored := MirrorRow(rows[i]);
      var bytes := mirrored;
      if compress {
        bytes := PackBits.PackBits(mirrored);
      }
      LineOf(mirrored, compress);
      assert all[i..][0] == mirrored && all[i..][1..] == all[i + 1..];
      ConcatAssoc(out, Line(mirrored, compress), Framed(all[i + 1..], compress));
      ConcatAssoc(out, [0x67, 0, |bytes| % 256], bytes);
      out := out + [0x67, 0, |bytes| % 256];
      out := out + bytes;
    }
  }

  lemma LineOf(row: seq<byte>, compress: bool)
    ensures Line(row, compress) == [0x67, 0, |Payload(row, compress)| % 256] + Payload(row, compress)
  {
  }

  // ----- the printer's side -----

  /** A reader of raster lines; `None` when the stream is not a sequence of well-formed lines. */
  function ReadLines(s: seq<byte>, compressed: bool): (r: Option<seq<seq<byte>>>)
    decreases |s|
  {
    if s == [] then Some([])
    else if |s| < 3 || s[0] != 0x67 || s[1] != 0 then None
    else
      var len: nat := s[2];
      var end := 3 + len;
      if |s| < end then None
      else
        match ReadPayload(s[3..end], compressed)
        case None => None
        case Some(line) =>
          match ReadLines(s[end..], compressed)
          case None => None
          case Some(rest) => Some([line] + rest)
  }

  function ReadPayload(body: seq<byte>, compressed: bool): (r: Option<seq<byte>>) {
    if compressed then PackBits.Expand(body) else Some(body)
  }

  lemma ReadOneLine(row: seq<byte>, compress: bool, rest: seq<byte>)
    requires |Payload(row, compress)| < 256 && ReadLines(rest, compress).Some?
    ensures ReadLines(Line(row, compress) + rest, compress) == Some([row] + ReadLines(rest, compress).value)
  {
    hide ReadPayload, Payload, PackBits.Expand, PackBits.Pack;
    var p := Payload(row, compress);
    var s := Line(row, compress) + rest;
    PayloadRoundTrip(row, compress);
    assert s[0] == 0x67 && s[1] == 0 && s[2] == |p|;
    assert s[3..3 + |p|] == p && s[3 + |p|..] == rest;
  }

  lemma PayloadRoundTrip(row: seq<byte>, compress: bool)
    ensures ReadPayload(Payload(row, compress), compress) == Some(row)
  {
    hide PackBits.Expand, PackBits.Pack, PackBits.NoNoOps;
    PackBits.PackPacks(row);
  }

  predicate OneByteLengths(rows: seq<seq<byte>>, compress: bool) {
    forall i :: 0 <= i < |rows| ==> |Payload(rows[i], compress)| < 256
  }

  /** When every payload length fits its octet, reading the lines gives back exactly the rows. */
  lemma {:induction false} ReadFramed(rows: seq<seq<byte>>, compress: bool)
    requires OneByteLengths(rows, compress)
    ensures ReadLines(Framed(rows, compress), compress) == Some(rows)
  {
    hide Line, Payload, ReadLines, PackBits.Pack;
    if rows == [] {
      ReadNothing(compress);
    } else {
      assert OneByteLengths(rows[1..], compress);
      ReadFramed(rows[1..], compress);
      ReadOneLine(rows[0], compress, Framed(rows[1..], compress));
      assert rows == [rows[0]] + rows[1..];
    }
  }

  lemma ReadNothing(compress: bool)
    ensures ReadLines([], compress) == Some([])
  {
  }

  /** The widest row whose line length is always exact. */
  function WidestRow(compress: bool): (r: nat) {
    if compress then 191 else 255
  }

  lemma NarrowRowsFit(rows: seq<seq<byte>>, compress: bool)
    requires forall i :: 0 <= i < |rows| ==> |rows[i]| <= WidestRow(compress)
    ensures OneByteLengths(rows, compress)
  {
    hide PackBits.Pack;
    forall i | 0 <= i < |rows| ensures |Payload(rows[i], compress)| < 256 {
      PackBits.PackSize(rows[i]);
    }
  }

  // ----- from pixels to lines and back -----

  lemma {:induction false} ChunkRows(bytes: seq<byte>, n: nat, h: nat, y: nat)
    requires n > 0 && |bytes| == Cell(n, h, 0) && y < h
    ensures |Plan.Chunks(bytes, n)| == h
    ensures Cell(n, y, n) <= |bytes| && Plan.Chunks(bytes, n)[y] == bytes[Cell(n, y, 0)..Cell(n, y, n)]
    decreases h
  {
    hide Cell;
    FirstRow(n, h, y);
    if h == 1 {
      assert bytes[0..n] == bytes;
    } else {
      FirstRow(n, h - 1, 0);
      assert |bytes[n..]| == Cell(n, h - 1, 0);
      ChunkRows(bytes[n..], n, h - 1, if y == 0 then 0 else y - 1);
      if y > 0 {
        var at, end := Cell(n, y - 1, 0), Cell(n, y - 1, n);
        assert bytes[n..][at..end] == bytes[n + at..n + end];
      }
    }
  }

  lemma FirstRow(n: nat, h: nat, y: nat)
    requires h > 0
    ensures Cell(n, 0, 0) == 0 && Cell(n, 0, n) == n
    ensures Cell(n, h, 0) == n + Cell(n, h - 1, 0) && (h == 1 ==> Cell(n, h, 0) == n)
    ensures y > 0 ==> Cell(n, y, 0) == n + Cell(n, y - 1, 0) && Cell(n, y, n) == n + Cell(n, y - 1, n)
    ensures Cell(n, y, n) == Cell(n, y, 0) + n
  {
    assert h * n == n + (h - 1) * n;
    if y > 0 {
      assert y * n == n + (y - 1) * n;
    }
  }

  lemma ChunkBit(packed: seq<byte>, n: nat, h: nat, y: nat, x: nat)
    requires n > 0 && |packed| == n * h && y < h && x < 8 * n
    ensures |Plan.Chunks(packed, n)| == h && |Plan.Chunks(packed, n)[y]| == n
    ensures RowBit(Plan.Chunks(packed, n)[y], x) <==> BitAt(packed, n, y, x)
  {
    hide HasBit, Plan.Chunks, Cell;
    SizeOfRows(n, h);
    ChunkRows(packed, n, h, y);
    FirstRow(n, h, y);
    CellBound(n, h, y, x / 8);
    OctetAt(n, y, x / 8);
    var at := Cell(n, y, 0);
    assert packed[at..Cell(n, y, n)][x / 8] == packed[at + x / 8];
  }

  lemma SizeOfRows(n: nat, h: nat)
    ensures Cell(n, h, 0) == n * h
  {
  }

  lemma OctetAt(n: nat, y: nat, c: nat)
    ensures Cell(n, y, c) == Cell(n, y, 0) + c
  {
  }

  /** For a raster of any width, what the printer reads is each row from right to left, padding first. */
  lemma LineBits(r: MonoRaster, packed: seq<byte>, y: nat, x: nat)
    requires r.width > 0 && PackedAs(packed, r) && y < r.height && x < 8 * Stride(r.width)
    ensures var rows := MirroredRows(Plan.Chunks(packed, Stride(r.width)));
            |rows| == r.height && |rows[y]| == Stride(r.width) &&
            (RowBit(rows[y], x) <==> Inked(r, y, 8 * Stride(r.width) - 1 - x))
  {
    hide Cell, BitAt, RowBit, Mirrored;
    var n := Stride(r.width);
    ChunkBit(packed, n, r.height, y, 8 * n - 1 - x);
    MirroredSize(Plan.Chunks(packed, n)[y]);
    MirroredBit(Plan.Chunks(packed, n)[y], x);
  }

  /** Reading the lines of a packed raster gives the packed rows of the mirrored raster. */
  lemma LinesRecoverMirror(r: MonoRaster, packed: seq<byte>, mirror: MonoRaster, packedMirror: seq<byte>,
                           compress: bool)
    requires r.width > 0 && r.width % 8 == 0 && r.width / 8 <= WidestRow(compress)
    requires PackedAs(packed, r) && MirrorOf(mirror, r) && PackedAs(packedMirror, mirror)
    ensures ReadLines(Framed(MirroredRows(Plan.Chunks(packed, r.width / 8)), compress), compress)
         == Some(Plan.Chunks(packedMirror, r.width / 8))
  {
    hide Framed, ReadLines, Mirrored, Plan.Chunks, PackedAs, MirrorOf, OneByteLengths, Cell;
    var n := r.width / 8;
    WholeOctets(packed, r);
    PackedSize(packedMirror, mirror, r);
    var rows, want := MirroredRows(Plan.Chunks(packed, n)), Plan.Chunks(packedMirror, n);
    RowCount(packed, n, r.height);
    RowCount(packedMirror, n, r.height);
    forall y | 0 <= y < r.height ensures rows[y] == want[y] && |rows[y]| == n {
      MirrorRowsAgree(r, packed, mirror, packedMirror, y);
    }
    assert rows == want;
    NarrowRowsFit(rows, compress);
    ReadFramed(rows, compress);
  }

  lemma RowCount(bytes: seq<byte>, n: nat, h: nat)
    requires n > 0 && |bytes| == n * h
    ensures |Plan.Chunks(bytes, n)| == h
  {
    if h > 0 {
      ChunkRows(bytes, n, h, 0);
    }
  }

  lemma MirrorRowsAgree(r: MonoRaster, packed: seq<byte>, mirror: MonoRaster, packedMirror: seq<byte>, y: nat)
    requires r.width > 0 && r.width % 8 == 0 && y < r.height
    requires PackedAs(packed, r) && MirrorOf(mirror, r) && PackedAs(packedMirror, mirror)
    ensures var rows, want := MirroredRows(Plan.Chunks(packed, r.width / 8)), Plan.Chunks(packedMirror, r.width / 8);
            |rows| == |want| == r.height && |rows[y]| == r.width / 8 && rows[y] == want[y]
  {
    hide BitAt, RowBit, Mirrored, Plan.Chunks, PackedAs, MirrorOf;
    var n := r.width / 8;
    LineBits(r, packed, y, 0);
    PackedSize(packedMirror, mirror, r);
    ChunkBit(packedMirror, n, r.height, y, 0);
    var row, want := MirroredRows(Plan.Chunks(packed, n))[y], Plan.Chunks(packedMirror, n)[y];
    forall x | 0 <= x < 8 * n ensures RowBit(row, x) <==> RowBit(want, x) {
      LineBits(r, packed, y, x);
      ChunkBit(packedMirror, n, r.height, y, x);
      MirrorInk(mirror, r, packedMirror, y, x);
    }
    RowBitsDetermine(row, want);
  }

  lemma WholeOctets(packed: seq<byte>, r: MonoRaster)
    requires r.width % 8 == 0 && PackedAs(packed, r)
    ensures Stride(r.width) == r.width / 8 && |packed| == r.width / 8 * r.height
  {
  }

  lemma PackedSize(packedMirror: seq<byte>, mirror: MonoRaster, r: MonoRaster)
    requires MirrorOf(mirror, r) && PackedAs(packedMirror, mirror)
    ensures |packedMirror| == Stride(r.width) * r.height
  {
  }

  lemma MirrorInk(mirror: MonoRaster, r: MonoRaster, packedMirror: seq<byte>, y: nat, x: nat)
    requires MirrorOf(mirror, r) && PackedAs(packedMirror, mirror) && y < r.height && x < r.width
    ensures BitAt(packedMirror, Stride(r.width), y, x) <==> Inked(r, y, r.width - 1 - x)
  {
    hide BitAt, Pixel;
    assert Pixel(mirror, y, x) == Pixel(r, y, r.width - 1 - x);
  }
}
