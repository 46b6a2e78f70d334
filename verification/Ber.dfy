/** Basic Encoding Rules for SNMP (crates/mb-printer-core/src/snmp.rs): lengths, integers and object identifiers as in
    sections 8.1.3, 8.3 and 8.19 of ITU-T X.690. */
module Ber {
  import opened Bytes

  datatype SnmpError = Malformed | LimitExceeded | InvalidOid | UnregisteredObject

  // ----- big-endian numbers -----

  function Pow256(n: nat): (r: nat)
    ensures r > 0
  {
    if n == 0 then 1 else 256 * Pow256(n - 1)
  }

  /** The low `k` octets of `n`, as `to_be_bytes` lists them. */
  function BigEndian(n: nat, k: nat): (r: seq<byte>)
    ensures |r| == k
  {
    if k == 0 then [] else BigEndian(n / 256, k - 1) + [n % 256]
  }

  function Number(s: seq<byte>): (r: nat) {
    if s == [] then 0 else Number(s[..|s| - 1]) * 256 + s[|s| - 1]
  }

  lemma NumberSnoc(s: seq<byte>, b: byte)
    ensures Number(s + [b]) == Number(s) * 256 + b
  {
    var t := s + [b];
    assert t[..|t| - 1] == s;
  }

  lemma {:induction false} BigEndianNumber(n: nat, k: nat)
    requires n < Pow256(k)
    ensures Number(BigEndian(n, k)) == n
  {
    if k > 0 {
      BigEndianNumber(n / 256, k - 1);
      NumberSnoc(BigEndian(n / 256, k - 1), n % 256);
    }
  }

  lemma Shifted(b: nat, p: nat, m: nat, last: byte)
    ensures (b * p + m) * 256 + last == b * (256 * p) + (m * 256 + last)
    ensures m < p ==> m * 256 + last < 256 * p
  {
    assert (b * p) * 256 == b * (256 * p);
  }

  lemma PowNext(n: nat)
    ensures Pow256(n + 1) == 256 * Pow256(n) && Pow256(0) == 1
  {
  }

  lemma {:induction false} NumberFront(b: byte, s: seq<byte>)
    ensures Number([b] + s) == b * Pow256(|s|) + Number(s)
    ensures Number(s) < Pow256(|s|)
  {
    hide Number, Pow256;
    if s == [] {
      assert [b] + s == [] + [b];
      NumberSnoc([], b);
      NumberNone();
      PowNext(0);
      assert b * 1 == b;
    } else {
      var front, last := s[..|s| - 1], s[|s| - 1];
      NumberFront(b, front);
      assert [b] + s == ([b] + front) + [last] && s == front + [last];
      NumberSnoc([b] + front, last);
      NumberSnoc(front, last);
      PowNext(|front|);
      Shifted(b, Pow256(|front|), Number(front), last);
    }
  }

  lemma NumberNone()
    ensures Number([]) == 0
  {
  }

  /** Without leading zeros. */
  function Stripped(s: seq<byte>): (r: seq<byte>)
    ensures |r| <= |s| && (r == [] || r[0] != 0)
  {
    if s == [] || s[0] != 0 then s else Stripped(s[1..])
  }

  lemma {:induction false} StrippedNumber(s: seq<byte>)
    ensures Number(Stripped(s)) == Number(s)
  {
    if s != [] && s[0] == 0 {
      StrippedNumber(s[1..]);
      NumberFront(0, s[1..]);
      assert s == [0] + s[1..];
    }
  }

  // ----- lengths and values -----

  const USIZE_OCTETS := 8

  /** A length in its short or long form. */
  function LengthOctets(n: nat): (r: seq<byte>)
    requires n < Pow256(USIZE_OCTETS)
  {
    if n < 128 then [n]
    else
      var digits := Stripped(BigEndian(n, USIZE_OCTETS));
      [0x80 + |digits|] + digits
  }

  function Tlv(tag: byte, value: seq<byte>): (r: seq<byte>)
    requires |value| < Pow256(USIZE_OCTETS)
  {
    [tag] + LengthOctets(|value|) + value
  }

  /** The length at an offset, and the offset after it. */
  function LengthAt(bytes: seq<byte>, offset: nat): (r: Result<(nat, nat), SnmpError>)
    ensures r.Ok? ==> offset < r.value.1 <= |bytes|
  {
    if offset >= |bytes| then Err(Malformed)
    else if bytes[offset] < 0x80 then Ok((bytes[offset], offset + 1))
    else
      var count: nat := bytes[offset] - 0x80;
      if count == 0 || count > USIZE_OCTETS || offset + 1 + count > |bytes| ||
        bytes[offset + 1] == 0 then Err(Malformed)
      else Ok((Number(bytes[offset + 1..offset + 1 + count]), offset + 1 + count))
  }

  datatype Item = Item(tag: byte, value: seq<byte>, end: nat)

  /** The tagged value at an offset. */
  function AnyAt(bytes: seq<byte>, offset: nat, maximum: nat): (r: Result<Item, SnmpError>)
    ensures r.Ok? ==> offset < r.value.end <= |bytes| && |r.value.value| <= r.value.end - offset
    ensures r.Ok? ==> r.value.value == bytes[r.value.end - |r.value.value|..r.value.end]
  {
    if offset >= |bytes| then Err(Malformed)
    else
      match LengthAt(bytes, offset + 1)
      case Err(e) => Err(e)
      case Ok((length, start)) =>
        if length > maximum then Err(LimitExceeded)
        else if start + length > |bytes| then Err(Malformed)
        else Ok(Item(bytes[offset], bytes[start..start + length], start + length))
  }

  lemma LongForm(n: nat)
    requires 128 <= n < Pow256(USIZE_OCTETS)
    ensures var digits := Stripped(BigEndian(n, USIZE_OCTETS));
            0 < |digits| <= USIZE_OCTETS && Number(digits) == n && digits[0] != 0 &&
              LengthOctets(n) == [0x80 + |digits|] + digits
  {
    hide BigEndian, Stripped, Pow256;
    BigEndianNumber(n, USIZE_OCTETS);
    StrippedNumber(BigEndian(n, USIZE_OCTETS));
    assert Number([]) == 0;
  }

  lemma LengthReads(bytes: seq<byte>, offset: nat, n: nat)
    requires n < Pow256(USIZE_OCTETS) && At(bytes, offset, LengthOctets(n))
    ensures LengthAt(bytes, offset) == Ok((n, offset + |LengthOctets(n)|))
  {
    hide Pow256, Number, Stripped, BigEndian;
    var w := LengthOctets(n);
    assert bytes[offset] == w[0] by { assert bytes[offset..offset + |w|][0] == w[0]; }
    if n >= 128 {
      LongForm(n);
      var digits := Stripped(BigEndian(n, USIZE_OCTETS));
      assert bytes[offset + 1..offset + 1 + |digits|] == digits by {
        assert bytes[offset..offset + |w|][1..] == digits;
      }
    }
  }

  /** Reading gives back tag and value of what was written, wherever it stands, and stops right after it. */
  lemma TlvReads(bytes: seq<byte>, offset: nat, tag: byte, value: seq<byte>, maximum: nat)
    requires |value| < Pow256(USIZE_OCTETS) && |value| <= maximum && At(bytes, offset, Tlv(tag, value))
    ensures AnyAt(bytes, offset, maximum) == Ok(Item(tag, value, offset + |Tlv(tag, value)|))
  {
    hide Pow256, LengthOctets, LengthAt;
    var l := LengthOctets(|value|);
    AtConcat(bytes, offset, [tag] + l, value);
    AtConcat(bytes, offset, [tag], l);
    LengthReads(bytes, offset + 1, |value|);
    assert bytes[offset..offset + 1][0] == tag;
  }

  /** A reader that advances through its octets. */
  class Cursor {
    const bytes: seq<byte>
    var offset: nat

    constructor (bytes: seq<byte>)
      ensures this.bytes == bytes && offset == 0
    {
      this.bytes := bytes;
      offset := 0;
    }

    method Length() returns (r: Result<nat, SnmpError>)
      modifies this
      ensures r.Ok? <==> LengthAt(bytes, old(offset)).Ok?
      ensures r.Ok? ==> (r.value, offset) == LengthAt(bytes, old(offset)).value
      ensures r.Err? ==> r.error == LengthAt(bytes, old(offset)).error
    {
      if offset >= |bytes| {
        return Err(Malformed);
      }
      var first := bytes[offset];
      offset := offset + 1;
      if first < 0x80 {
        return Ok(first);
      }
      var count: nat := first - 0x80;
      if count == 0 || count > USIZE_OCTETS || offset + count > |bytes| {
        return Err(Malformed);
      }
      var octets := bytes[offset..offset + count];
      if octets[0] == 0 {
        return Err(Malformed);
      }
      offset := offset + count;
      var value := Folded(octets);
      r := Ok(value);
    }

    method Any(maximum: nat) returns (r: Result<(byte, seq<byte>), SnmpError>)
      modifies this
      ensures r.Ok? <==> AnyAt(bytes, old(offset), maximum).Ok?
      ensures r.Ok? ==> Item(r.value.0, r.value.1, offset) == AnyAt(bytes, old(offset), maximum).value
      ensures r.Err? ==> r.error == AnyAt(bytes, old(offset), maximum).error
    {
      hide LengthAt;
      if offset >= |bytes| {
        return Err(Malformed);
      }
      var tag := bytes[offset];
      offset := offset + 1;
      var length := Length();
      if length.Err? {
        return Err(length.error);
      }
      if length.value > maximum {
        return Err(LimitExceeded);
      }
      var end := offset + length.value;
      if end > |bytes| {
        return Err(Malformed);
      }
      var value := bytes[offset..end];
      offset := end;
      r := Ok((tag, value));
    }
  }

  /** The big-endian value, octet by octet. */
  method Folded(octets: seq<byte>) returns (value: nat)
    ensures value == Number(octets)
  {
    value := 0;
    for i := 0 to |octets|
      invariant value == Number(octets[..i])
    {
      assert octets[..i + 1] == octets[..i] + [octets[i]];
      NumberSnoc(octets[..i], octets[i]);
      var b: nat := octets[i];
      value := value * 256 + b;
    }
    assert octets[..|octets|] == octets;
  }
}
