/** Integers and object identifiers in BER (crates/mb-printer-core/src/snmp.rs). */
module BerValues {
  import opened Arithmetic
  import opened Bytes
  import opened Ber

  // ----- integers -----

  /** The two's complement value of a non-empty string of octets. */
  function Signed(s: seq<byte>): (r: int)
    requires s != []
  {
    if s[0] < 0x80 then Number(s) else Number(s) - Pow256(|s|)
  }

  function TwosComplement(v: i64): (r: seq<byte>) {
    BigEndian(if v < 0 then v + 0x1_0000_0000_0000_0000 else v, 8)
  }

  /** The first octet repeats the sign the second one gives. */
  predicate Redundant(s: seq<byte>) {
    |s| > 1 && ((s[0] == 0 && s[1] < 0x80) || (s[0] == 0xff && s[1] >= 0x80))
  }

  function Shortened(s: seq<byte>): (r: seq<byte>)
    requires s != []
    ensures r != [] && |r| <= |s| && !Redundant(r)
  {
    if Redundant(s) then Shortened(s[1..]) else s
  }

  lemma DropSign(s: seq<byte>)
    requires Redundant(s)
    ensures Signed(s[1..]) == Signed(s)
  {
    var rest := s[1..];
    NumberFront(s[0], rest);
    assert s == [s[0]] + rest;
    assert Pow256(|s|) == 256 * Pow256(|rest|);
  }

  lemma {:induction false} ShortenedSigned(s: seq<byte>)
    requires s != []
    ensures Signed(Shortened(s)) == Signed(s)
  {
    hide Signed;
    if Redundant(s) {
      DropSign(s);
      ShortenedSigned(s[1..]);
    }
  }

  lemma Pow256Of8()
    ensures Pow256(8) == 0x1_0000_0000_0000_0000 && Pow256(7) == 0x100_0000_0000_0000
  {
    assert Pow256(4) == 0x1_0000_0000;
  }

  lemma TwosComplementSigned(v: i64)
    ensures Signed(TwosComplement(v)) == v
  {
    hide BigEndian, Number, Pow256;
    Pow256Of8();
    var n: nat := if v < 0 then v + 0x1_0000_0000_0000_0000 else v;
    var s := BigEndian(n, 8);
    BigEndianNumber(n, 8);
    NumberFront(s[0], s[1..]);
    assert s == [s[0]] + s[1..];
  }

  /** The octets of an integer: its eight octets, leading ones dropped while the sign stays. */
  method IntegerOctets(v: i64) returns (r: seq<byte>)
    ensures r == Shortened(TwosComplement(v))
  {
    hide BigEndian;
    var bytes := TwosComplement(v);
    var start := 0;
    assert bytes[0..] == bytes;
    while start < 7 && ((bytes[start] == 0 && bytes[start + 1] < 0x80) ||
                        (bytes[start] == 0xff && bytes[start + 1] >= 0x80))
      invariant 0 <= start <= 7 && Shortened(bytes[start..]) == Shortened(bytes)
    {
      assert bytes[start..][1..] == bytes[start + 1..];
      assert Redundant(bytes[start..]);
      start := start + 1;
    }
    r := bytes[start..];
  }

  /** Sign-extended to eight octets. */
  function Extended(s: seq<byte>): (r: seq<byte>)
    requires 0 < |s| <= 8
    ensures |r| == 8
  {
    seq(8 - |s|, _ => if s[0] < 0x80 then 0 else 0xff) + s
  }

  function DecodeInteger(s: seq<byte>): (r: Result<int, SnmpError>) {
    if s == [] || |s| > 8 then Err(Malformed) else Ok(Signed(Extended(s)))
  }

  lemma {:induction false} ExtendedSigned(s: seq<byte>, k: nat)
    requires s != []
    ensures Signed(seq(k, _ => if s[0] < 0x80 then 0 else 0xff) + s) == Signed(s)
  {
    var sign: byte := if s[0] < 0x80 then 0 else 0xff;
    var t := seq(k, _ => if s[0] < 0x80 then 0 else 0xff) + s;
    if k == 0 {
      assert t == s;
    } else {
      var shorter := seq(k - 1, _ => if s[0] < 0x80 then 0 else 0xff) + s;
      ExtendedSigned(s, k - 1);
      assert t[1..] == shorter && t[0] == sign;
      assert shorter[0] == if k == 1 then s[0] else sign;
      DropSign(t);
    }
  }

  /** Decoding undoes encoding for every integer of 64 bits. */
  lemma IntegerRoundTrip(v: i64)
    ensures DecodeInteger(Shortened(TwosComplement(v))) == Ok(v)
  {
    hide Signed, TwosComplement, BigEndian;
    var s := TwosComplement(v);
    EightOctets(v);
    TwosComplementSigned(v);
    ShortenedSigned(s);
    var t := Shortened(s);
    ExtendedSigned(t, 8 - |t|);
  }

  lemma EightOctets(v: i64)
    ensures |TwosComplement(v)| == 8
  {
  }

  lemma SignedRange(s: seq<byte>)
    requires s != []
    ensures -128 * Pow256(|s| - 1) <= Signed(s) < 128 * Pow256(|s| - 1)
  {
    var rest, b := s[1..], s[0];
    NumberFront(b, rest);
    assert s == [b] + rest;
    var p := Pow256(|rest|);
    assert Pow256(|s|) == 256 * p;
    if b < 0x80 {
      MulMonotone(b, 127, p);
      MulMonotone(0, b, p);
    } else {
      MulMonotone(128, b, p);
      MulMonotone(b, 255, p);
    }
  }

  lemma NeedsAllOctets(s: seq<byte>)
    requires |s| > 1 && !Redundant(s)
    ensures !(-128 * Pow256(|s| - 2) <= Signed(s) < 128 * Pow256(|s| - 2))
  {
    hide Number, Redundant;
    var rest, b := s[1..], s[0];
    var c, q := rest[0], Pow256(|rest| - 1);
    NumberFront(b, rest);
    NumberFront(c, rest[1..]);
    assert s == [b] + rest && rest == [c] + rest[1..];
    assert Pow256(|s|) == 256 * (256 * q) && Pow256(|rest|) == 256 * q;
    FirstOctets(s);
    MulMonotone(0, c, q);
    if b < 0x80 {
      if b == 0 {
        MulMonotone(128, c, q);
      } else {
        MulMonotone(1, b, 256 * q);
      }
    } else if b == 0xff {
      MulMonotone(c, 127, q);
    } else {
      MulMonotone(b, 254, 256 * q);
      MulMonotone(c, 255, q);
    }
  }

  lemma FirstOctets(s: seq<byte>)
    requires |s| > 1 && !Redundant(s)
    ensures (s[0] == 0 ==> s[1] >= 0x80) && (s[0] == 0xff ==> s[1] < 0x80)
  {
  }

  lemma {:induction false} PowMonotone(m: nat, n: nat)
    requires m <= n
    ensures Pow256(m) <= Pow256(n)
  {
    if m < n {
      PowMonotone(m, n - 1);
    }
  }

  /** No shorter string of octets decodes to the same integer. */
  lemma IntegerShortest(v: i64, s: seq<byte>)
    requires s != [] && DecodeInteger(s) == Ok(v)
    ensures |Shortened(TwosComplement(v))| <= |s|
  {
    hide Signed, TwosComplement, BigEndian, Pow256;
    EightOctets(v);
    TwosComplementSigned(v);
    ShortenedSigned(TwosComplement(v));
    var t := Shortened(TwosComplement(v));
    ExtendedSigned(s, 8 - |s|);
    if |t| > 1 {
      NeedsAllOctets(t);
    }
    SignedRange(s);
    if |s| < |t| {
      PowMonotone(|s| - 1, |t| - 2);
    }
  }

  // ----- object identifiers -----

  /** All but the last base-128 digit, each with its continuation bit. */
  function HighDigits(n: nat): (r: seq<byte>) {
    if n == 0 then [] else HighDigits(n / 128) + [0x80 + n % 128]
  }

  function Base128(n: nat): (r: seq<byte>) {
    HighDigits(n / 128) + [n % 128]
  }

  function Digits128(n: nat): (r: seq<byte>)
    ensures r != [] && r[|r| - 1] == n % 128 && forall i :: 0 <= i < |r| ==> r[i] < 128
  {
    if n < 128 then [n] else Digits128(n / 128) + [n % 128]
  }

  /** Every octet with its continuation bit. */
  function Continued(s: seq<byte>): (r: seq<byte>)
    requires forall i :: 0 <= i < |s| ==> s[i] < 128
    ensures |r| == |s|
  {
    seq(|s|, i requires 0 <= i < |s| => s[i] + 0x80)
  }

  lemma {:induction false} HighIsContinued(n: nat)
    requires n > 0
    ensures HighDigits(n) == Continued(Digits128(n))
  {
    if n >= 128 {
      HighIsContinued(n / 128);
      assert Continued(Digits128(n)) == Continued(Digits128(n / 128)) + [n % 128 + 0x80];
    } else {
      assert HighDigits(0) + [0x80 + n] == [0x80 + n];
    }
  }

  lemma Base128IsContinued(n: nat)
    ensures var d := Digits128(n); Base128(n) == Continued(d[..|d| - 1]) + [d[|d| - 1]]
  {
    if n >= 128 {
      HighIsContinued(n / 128);
      assert Digits128(n)[..|Digits128(n)| - 1] == Digits128(n / 128);
    } else {
      assert HighDigits(0) + [n] == [n] && Continued([]) == [];
    }
  }

  /** What fits the octets of the buffer before `index`. */
  function Bound(index: nat): (r: nat) {
    if index == 0 then 1 else if index == 1 then 0x10 else if index == 2 then 0x800 else if index == 3 then 0x4_0000
    else if index == 4 then 0x200_0000 else 0x1_0000_0000
  }

  /** The buffer is filled from its end, then the continuation bits are set. */
  method EncodeBase128(value: u32, output: seq<byte>) returns (r: seq<byte>)
    ensures r == output + Base128(value)
  {
    hide Base128, Digits128, Continued;
    var encoded := new byte[5](_ => 0);
    var index := FillDigits(encoded, value);
    ghost var d := encoded[index..];
    assert d[..|d| - 1] == encoded[index..4] && d[|d| - 1] == encoded[4];
    assert forall k :: index <= k < 5 ==> encoded[k] == d[k - index];
    MarkDigits(encoded, index);
    Base128IsContinued(value);
    assert encoded[index..] == Base128(value);
    r := output + encoded[index..];
  }

  lemma FrontAndRest(s: seq<byte>, i: nat)
    requires i < |s|
    ensures s[i..] == [s[i]] + s[i + 1..]
  {
  }

  method FillDigits(encoded: array<byte>, value: u32) returns (index: nat)
    requires encoded.Length == 5
    modifies encoded
    ensures index < 5 && encoded[index..] == Digits128(value)
  {
    index := 5;
    var v: nat := value;
    assert Digits128(value) + encoded[5..] == Digits128(value);
    while true
      invariant index <= 5 && (index < 5 ==> v > 0) && v < Bound(index)
      invariant Digits128(v) + encoded[index..] == Digits128(value)
      decreases index
    {
      ghost var done := encoded[index..];
      index := index - 1;
      encoded[index] := v % 128;
      FrontAndRest(encoded[..], index);
      assert encoded[index + 1..] == done && encoded[index..] == encoded[..][index..];
      if v >= 128 {
        ConcatAssoc(Digits128(v / 128), [v % 128], done);
      }
      v := v / 128;
      if v == 0 {
        break;
      }
    }
  }

  method MarkDigits(encoded: array<byte>, index: nat)
    requires encoded.Length == 5 && index < 5 && forall k :: index <= k < 5 ==> encoded[k] < 128
    modifies encoded
    ensures encoded[index..] == Continued(old(encoded[index..4])) + [old(encoded[4])]
  {
    for i := index to 4
      invariant forall k :: 0 <= k < 5 ==> encoded[k] == old(encoded[k]) + (if index <= k < i then 0x80 else 0)
    {
      encoded[i] := encoded[i] + 0x80;
    }
    assert encoded[index..] == encoded[index..4] + [encoded[4]];
    assert encoded[index..4] == Continued(old(encoded[index..4]));
  }

  // ----- reading sub-identifiers -----

  /** One sub-identifier, at most five octets, within 32 bits. */
  function ArcFrom(bytes: seq<byte>, cursor: nat, value: u32, count: nat): (r: Result<(u32, nat), SnmpError>)
    requires count <= 5
    ensures r.Ok? ==> cursor < r.value.1 <= |bytes|
    decreases 5 - count
  {
    if cursor >= |bytes| || count + 1 > 5 || value > 0x1ff_ffff then Err(Malformed)
    else
      var next: u32 := value * 128 + bytes[cursor] % 128;
      if bytes[cursor] < 0x80 then Ok((next, cursor + 1)) else ArcFrom(bytes, cursor + 1, next, count + 1)
  }

  lemma {:induction false} HighSize(n: nat, k: nat)
    requires k < 5 && n < Bound(k)
    ensures |HighDigits(n)| <= k
  {
    if n > 0 {
      HighSize(n / 128, k - 1);
    }
  }

  /** Reading the continued digits of `n` leaves `n` as the value so far. */
  lemma {:induction false} ReadHigh(bytes: seq<byte>, cursor: nat, n: nat)
    requires n < 0x200_0000 && At(bytes, cursor, HighDigits(n))
    ensures |HighDigits(n)| <= 4
    ensures ArcFrom(bytes, cursor, 0, 0) == ArcFrom(bytes, cursor + |HighDigits(n)|, n, |HighDigits(n)|)
  {
    hide At, ArcFrom, HighDigits;
    HighSize(n, 4);
    HighNext(n);
    if n > 0 {
      var high, b: byte := HighDigits(n / 128), 0x80 + n % 128;
      AtConcat(bytes, cursor, high, [b]);
      ReadHigh(bytes, cursor, n / 128);
      HighSize(n / 128, 3);
      AtOne(bytes, cursor + |high|, b);
      ArcStep(bytes, cursor + |high|, n / 128, |high|);
    }
  }

  lemma HighNext(n: nat)
    ensures HighDigits(n) == if n == 0 then [] else HighDigits(n / 128) + [0x80 + n % 128]
  {
  }

  lemma ArcStep(bytes: seq<byte>, cursor: nat, value: u32, count: nat)
    requires cursor < |bytes| && count < 5 && value <= 0x1ff_ffff && bytes[cursor] >= 0x80
    ensures value * 128 + bytes[cursor] % 128 < 0x1_0000_0000
    ensures ArcFrom(bytes, cursor, value, count) == ArcFrom(bytes, cursor + 1, value * 128 + bytes[cursor] % 128,
                                                            count + 1)
  {
  }

  lemma AtOne(bytes: seq<byte>, cursor: nat, b: byte)
    requires At(bytes, cursor, [b])
    ensures cursor < |bytes| && bytes[cursor] == b
  {
    assert bytes[cursor..cursor + 1][0] == b;
  }

  lemma ReadBase128(bytes: seq<byte>, cursor: nat, v: u32)
    requires At(bytes, cursor, Base128(v))
    ensures ArcFrom(bytes, cursor, 0, 0) == Ok((v, cursor + |Base128(v)|))
  {
    hide At, HighDigits;
    AtConcat(bytes, cursor, HighDigits(v / 128), [v % 128]);
    ReadHigh(bytes, cursor, v / 128);
    AtOne(bytes, cursor + |HighDigits(v / 128)|, v % 128);
  }
}
