/** PackBits compression (crates/mb-printer-core/src/protocol.rs, `packbits`) against the expander of section 9 of TIFF
    6.0. */
module PackBits {
  import opened Bytes

  function Run(b: byte, n: nat): (r: seq<byte>) {
    seq(n, _ => b)
  }

  /** The standard expander: a header 0..127 announces that many literal bytes plus one, a header 129..255 one byte
      repeated 257 minus the header times, and 128 is skipped. */
  function Expand(s: seq<byte>): (r: Option<seq<byte>>)
    decreases |s|
  {
    if s == [] then Some([])
    else if s[0] < 128 then
      if |s| < s[0] + 2 then None
      else match Expand(s[s[0] + 2..])
           case None => None
           case Some(rest) => Some(s[1..s[0] + 2] + rest)
    else if s[0] == 128 then Expand(s[1..])
    else if |s| < 2 then None
    else match Expand(s[2..])
         case None => None
         case Some(rest) => Some(Run(s[1], 257 - s[0]) + rest)
  }

  /** No header met while expanding is the no-op 128. */
  predicate NoNoOps(s: seq<byte>)
    decreases |s|
  {
    if s == [] then true
    else if s[0] < 128 then |s| >= s[0] + 2 && NoNoOps(s[s[0] + 2..])
    else s[0] != 128 && |s| >= 2 && NoNoOps(s[2..])
  }

  /** `s` is a sequence of whole packets, none a no-op, that expands to `data`. */
  predicate Packs(s: seq<byte>, data: seq<byte>) {
    Expand(s) == Some(data) && NoNoOps(s)
  }

  lemma {:induction false} PacksConcat(a: seq<byte>, x: seq<byte>, b: seq<byte>, y: seq<byte>)
    requires Packs(a, x) && Packs(b, y)
    ensures Packs(a + b, x + y)
    decreases |a|
  {
    hide Run;
    if a == [] {
      assert a + b == b && x + y == y;
    } else {
      var n := if a[0] < 128 then a[0] + 2 else 2;
      PacketTail(a, b, n);
      PacksConcat(a[n..], Expand(a[n..]).value, b, y);
      ConcatAssoc(if a[0] < 128 then a[1..n] else Run(a[1], 257 - a[0]), Expand(a[n..]).value, y);
    }
  }

  lemma PacketTail(a: seq<byte>, b: seq<byte>, n: nat)
    requires 1 <= n <= |a|
    ensures (a + b)[0] == a[0] && (a + b)[1..n] == a[1..n] && (a + b)[n..] == a[n..] + b
    ensures n >= 2 ==> (a + b)[1] == a[1]
  {
  }

  lemma LiteralPacket(literal: seq<byte>)
    requires 0 < |literal| <= 128
    ensures Packs([|literal| - 1] + literal, literal)
  {
    var s := [|literal| - 1] + literal;
    assert s[1..s[0] + 2] == literal && s[s[0] + 2..] == [];
    assert literal + [] == literal;
  }

  lemma RunPacket(b: byte, n: nat)
    requires 2 <= n <= 128
    ensures Packs([257 - n, b], Run(b, n))
  {
    var s: seq<byte> := [257 - n, b];
    assert s[2..] == [] && Run(b, n) + [] == Run(b, n);
  }

  lemma PacksNothing()
    ensures Packs([], [])
  {
  }

  // ----- what the compressor writes -----

  function Flush(literal: seq<byte>): (r: seq<byte>)
    requires |literal| <= 128
  {
    if literal == [] then [] else [|literal| - 1] + literal
  }

  /** The pending state of the compressor at a position: a run of `run` bytes equal to the next one, or a literal. */
  predicate Pending(data: seq<byte>, pos: nat, run: nat, literal: seq<byte>) {
    pos < |data| && run <= 127 && |literal| <= 127 && (run > 0 ==> literal == [])
  }

  function PendingBytes(data: seq<byte>, pos: nat, run: nat, literal: seq<byte>): (r: seq<byte>)
    requires Pending(data, pos, run, literal)
  {
    if run > 0 then Run(data[pos], run) else literal
  }

  /** Everything the compressor still writes from a pending state on. */
  function PackFrom(data: seq<byte>, pos: nat, run: nat, literal: seq<byte>): (r: seq<byte>)
    requires Pending(data, pos, run, literal)
    decreases |data| - pos
  {
    if pos == |data| - 1 then
      if run > 0 then [257 - (run + 1), data[pos]] else Flush(literal + [data[pos]])
    else if data[pos] == data[pos + 1] then
      if run == 0 then Flush(literal) + PackFrom(data, pos + 1, 1, [])
      else if run == 127 then [257 - 127, data[pos]] + PackFrom(data, pos + 1, 1, [])
      else PackFrom(data, pos + 1, run + 1, [])
    else if run > 0 then [257 - (run + 1), data[pos]] + PackFrom(data, pos + 1, 0, [])
    else if |literal| == 127 then Flush(literal) + PackFrom(data, pos + 1, 0, [data[pos]])
    else PackFrom(data, pos + 1, 0, literal + [data[pos]])
  }

  function Pack(data: seq<byte>): (r: seq<byte>) {
    if data == [] then [] else PackFrom(data, 0, 0, [])
  }

  lemma FlushPacks(literal: seq<byte>)
    requires |literal| <= 128
    ensures Packs(Flush(literal), literal)
  {
    if literal == [] {
      PacksNothing();
    } else {
      LiteralPacket(literal);
    }
  }

  lemma RunExtends(data: seq<byte>, pos: nat, n: nat)
    requires pos + 1 < |data| && data[pos] == data[pos + 1]
    ensures Run(data[pos], n) + data[pos..] == Run(data[pos + 1], n + 1) + data[pos + 1..]
  {
  }

  lemma Split(pending: seq<byte>, data: seq<byte>, pos: nat)
    requires pos < |data|
    ensures pending + data[pos..] == (pending + [data[pos]]) + data[pos + 1..]
  {
  }

  lemma {:induction false} PackFromPacks(data: seq<byte>, pos: nat, run: nat, literal: seq<byte>)
    requires Pending(data, pos, run, literal)
    ensures Packs(PackFrom(data, pos, run, literal), PendingBytes(data, pos, run, literal) + data[pos..])
    decreases |data| - pos
  {
    hide Packs, Flush;
    var b := data[pos];
    Split(PendingBytes(data, pos, run, literal), data, pos);
    if pos == |data| - 1 {
      assert data[pos..] == [b];
      if run > 0 {
        RunPacket(b, run + 1);
        assert Run(b, run) + [b] == Run(b, run + 1);
      } else {
        FlushPacks(literal + [b]);
      }
    } else if b == data[pos + 1] {
      RunExtends(data, pos, run);
      RunExtends(data, pos, 0);
      if run == 0 {
        PackFromPacks(data, pos + 1, 1, []);
        FlushPacks(literal);
        PacksConcat(Flush(literal), literal, PackFrom(data, pos + 1, 1, []), Run(b, 1) + data[pos + 1..]);
        assert Run(b, 0) + data[pos..] == data[pos..];
      } else if run == 127 {
        PackFromPacks(data, pos + 1, 1, []);
        RunPacket(b, 127);
        PacksConcat([257 - 127, b], Run(b, 127), PackFrom(data, pos + 1, 1, []), Run(b, 1) + data[pos + 1..]);
        assert Run(b, 0) + data[pos..] == data[pos..];
      } else {
        PackFromPacks(data, pos + 1, run + 1, []);
      }
    } else if run > 0 {
      PackFromPacks(data, pos + 1, 0, []);
      assert [] + data[pos + 1..] == data[pos + 1..];
      RunPacket(b, run + 1);
      assert Run(b, run) + [b] == Run(b, run + 1);
      PacksConcat([257 - (run + 1), b], Run(b, run + 1), PackFrom(data, pos + 1, 0, []), data[pos + 1..]);
    } else if |literal| == 127 {
      PackFromPacks(data, pos + 1, 0, [b]);
      FlushPacks(literal);
      PacksConcat(Flush(literal), literal, PackFrom(data, pos + 1, 0, [b]), [b] + data[pos + 1..]);
      assert [b] + data[pos + 1..] == data[pos..];
    } else {
      PackFromPacks(data, pos + 1, 0, literal + [b]);
    }
  }

  /** A standard expander gives back exactly what was compressed, and never meets a no-op header. */
  lemma PackPacks(data: seq<byte>)
    ensures Packs(Pack(data), data)
  {
    hide Packs, PackFrom;
    if data == [] {
      PacksNothing();
    } else {
      PackFromPacks(data, 0, 0, []);
      assert [] + data[0..] == data;
    }
  }

  lemma {:induction false} PackFromSize(data: seq<byte>, pos: nat, run: nat, literal: seq<byte>)
    requires Pending(data, pos, run, literal)
    ensures run == 0 ==> 3 * |PackFrom(data, pos, run, literal)| <= 4 * (|literal| + |data| - pos) + 2
    ensures run > 0 ==> 3 * |PackFrom(data, pos, run, literal)| <= 4 * (run + |data| - pos)
    decreases |data| - pos
  {
    if pos < |data| - 1 {
      if data[pos] == data[pos + 1] {
        PackFromSize(data, pos + 1, if run == 0 || run == 127 then 1 else run + 1, []);
      } else if run > 0 {
        PackFromSize(data, pos + 1, 0, []);
      } else {
        PackFromSize(data, pos + 1, 0, if |literal| == 127 then [data[pos]] else literal + [data[pos]]);
      }
    }
  }

  /** Compression grows its input by at most one byte in three, rounded up. */
  lemma PackSize(data: seq<byte>)
    ensures |Pack(data)| <= |data| + (|data| + 2) / 3
  {
    if data != [] {
      PackFromSize(data, 0, 0, []);
    }
  }

  /** Isolated bytes between runs of two are the worst case. */
  function WorstRow(width: nat): (r: seq<byte>) {
    seq(width, i => if i >= 192 then 3 + i % 2 else if i % 3 == 0 then 1 else 2)
  }

  lemma {:induction false} WorstRowGrows(width: nat, k: nat)
    requires width >= 192 && k < 64
    ensures |PackFrom(WorstRow(width), 3 * k, 0, [])| >= 4 * (64 - k)
    decreases 64 - k
  {
    var row := WorstRow(width);
    var p := 3 * k;
    assert row[p] == 1 && row[p + 1] == 2 && row[p + 2] == 2;
    assert [] + [row[p]] == [1];
    assert PackFrom(row, p, 0, []) == PackFrom(row, p + 1, 0, [1]);
    assert PackFrom(row, p + 1, 0, [1]) == Flush([1]) + PackFrom(row, p + 2, 1, []);
    if p + 2 < width - 1 {
      assert row[p + 3] != 2;
      assert PackFrom(row, p + 2, 1, []) == [255, 2] + PackFrom(row, p + 3, 0, []);
      if k < 63 {
        WorstRowGrows(width, k + 1);
      }
    }
  }

  /** A compressed row always fits a one-byte length exactly when rows are at most 191 bytes wide. */
  lemma OneByteLengthIffNarrow(width: nat)
    ensures (forall row: seq<byte> :: |row| == width ==> |Pack(row)| < 256) <==> width <= 191
  {
    if width <= 191 {
      forall row: seq<byte> | |row| == width ensures |Pack(row)| < 256 {
        PackSize(row);
      }
    } else {
      WorstRowGrows(width, 0);
      assert |WorstRow(width)| == width && |Pack(WorstRow(width))| >= 256;
    }
  }

  // ----- the loop -----

  method PackBits(data: seq<byte>) returns (result: seq<byte>)
    ensures result == Pack(data)
  {
    if data == [] {
      return [];
    }
    if |data| == 1 {
      assert [] + [data[0]] == data && [0, data[0]] == [0] + data;
      return [0, data[0]];
    }
    hide Flush;
    result := [];
    var literal: seq<byte> := [];
    var repeat, pos, inRepeat := 0, 0, false;
    while pos < |data| - 1
      invariant 0 <= pos <= |data| - 1 && inRepeat == (repeat > 0)
      invariant Pending(data, pos, repeat, literal)
      invariant Pack(data) == result + PackFrom(data, pos, repeat, literal)
    {
      if data[pos] == data[pos + 1] {
        if !inRepeat {
          ConcatAssoc(result, Flush(literal), PackFrom(data, pos + 1, 1, []));
          result := FlushLiteral(result, literal);
          literal := [];
          inRepeat, repeat := true, 1;
        } else {
          if repeat == 127 {
            ConcatAssoc(result, [257 - 127, data[pos]], PackFrom(data, pos + 1, 1, []));
            result := result + [257 - repeat, data[pos]];
            repeat := 0;
          }
          repeat := repeat + 1;
        }
      } else if inRepeat {
        repeat := repeat + 1;
        ConcatAssoc(result, [257 - repeat, data[pos]], PackFrom(data, pos + 1, 0, []));
        result := result + [257 - repeat, data[pos]];
        inRepeat, repeat := false, 0;
      } else {
        if |literal| == 127 {
          ConcatAssoc(result, Flush(literal), PackFrom(data, pos + 1, 0, [data[pos]]));
          result := FlushLiteral(result, literal);
          literal := [];
          assert literal + [data[pos]] == [data[pos]];
        }
        literal := literal + [data[pos]];
      }
      pos := pos + 1;
    }
    if inRepeat {
      repeat := repeat + 1;
      result := result + [257 - repeat, data[pos]];
    } else {
      literal := literal + [data[pos]];
      result := FlushLiteral(result, literal);
    }
  }

  method FlushLiteral(result: seq<byte>, literal: seq<byte>) returns (r: seq<byte>)
    requires |literal| <= 128
    ensures r == result + Flush(literal)
  {
    r := result;
    if literal != [] {
      r := r + [|literal| - 1];
      r := r + literal;
    }
  }
}
