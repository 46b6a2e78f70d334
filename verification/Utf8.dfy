/** UTF-8: the validity check of `std::str::from_utf8`, and the length `str::len` counts. */
module Utf8Text {
  import opened Bytes

  type Octets = seq<byte>

  /** The octets of one character. */
  function EncodeChar(c: char): (r: Octets)
    ensures 1 <= |r| <= 4
  {
    var n := c as int;
    if n < 0x80 then [n]
    else if n < 0x800 then [0xc0 + n / 0x40, 0x80 + n % 0x40]
    else if n < 0x1_0000 then [0xe0 + n / 0x1000, 0x80 + n / 0x40 % 0x40, 0x80 + n % 0x40]
    else [0xf0 + n / 0x4_0000, 0x80 + n / 0x1000 % 0x40, 0x80 + n / 0x40 % 0x40, 0x80 + n % 0x40]
  }

  function Encode(s: string): (r: Octets) {
    if s == [] then [] else EncodeChar(s[0]) + Encode(s[1..])
  }

  predicate Continues(b: byte) {
    0x80 <= b <= 0xbf
  }

  /** The octets of the first well-formed sequence, zero if there is none. */
  function CharLength(s: Octets): (n: nat)
    requires s != []
    ensures n <= 4 && n <= |s|
  {
    var b := s[0];
    if b < 0x80 then 1
    else if 0xc2 <= b <= 0xdf && |s| >= 2 && Continues(s[1]) then 2
    else if 0xe0 <= b <= 0xef && |s| >= 3 && Continues(s[1]) && Continues(s[2])
            && (b == 0xe0 ==> s[1] >= 0xa0) && (b == 0xed ==> s[1] <= 0x9f) then 3
    else if 0xf0 <= b <= 0xf4 && |s| >= 4 && Continues(s[1]) && Continues(s[2]) && Continues(s[3])
            && (b == 0xf0 ==> s[1] >= 0x90) && (b == 0xf4 ==> s[1] <= 0x8f) then 4
    else 0
  }

  predicate Valid(s: Octets)
    decreases |s|
  {
    s == [] || (CharLength(s) > 0 && Valid(s[CharLength(s)..]))
  }

  predicate Follows(b: byte) {
    128 <= b < 192
  }

  /** The number that one to four octets spell, six bits in each octet that follows the first. */
  function Spelled(b: Octets): (n: int)
    requires 1 <= |b| <= 4
  {
    if |b| == 1 then b[0]
    else if |b| == 2 then (b[0] as int - 192) * 64 + (b[1] as int - 128)
    else if |b| == 3 then (b[0] as int - 224) * 4096 + (b[1] as int - 128) * 64 + (b[2] as int - 128)
    else
      (b[0] as int - 240) * 262144 + (b[1] as int - 128) * 4096 + (b[2] as int - 128) * 64 + (b[3] as int - 128)
  }

  /** The octets of a character spell its number, and are as few as hold it. */
  lemma CharOctets(c: char)
    ensures var b, n := EncodeChar(c), c as int;
      && |b| == (if n < 128 then 1 else if n < 2048 then 2 else if n < 65536 then 3 else 4)
      && (forall i :: 1 <= i < |b| ==> Follows(b[i])) && Spelled(b) == n
  {
    SixBits(c as int);
  }

  lemma SixBits(n: nat)
    ensures n == n / 64 * 64 + n % 64 && n / 64 == n / 4096 * 64 + n / 64 % 64
    ensures n / 4096 == n / 262144 * 64 + n / 4096 % 64
  {
    var a := n / 64;
    assert a / 64 == n / 4096;
    assert n / 4096 / 64 == n / 262144;
  }

  lemma CharReads(c: char, rest: Octets)
    ensures CharLength(EncodeChar(c) + rest) == |EncodeChar(c)|
  {
  }

  lemma {:induction false} EncodedIsValid(s: string)
    ensures Valid(Encode(s))
  {
    if s != [] {
      var head, rest := EncodeChar(s[0]), Encode(s[1..]);
      CharReads(s[0], rest);
      EncodedIsValid(s[1..]);
      assert (head + rest)[|head|..] == rest;
    }
  }

  predicate IsScalar(n: int) {
    0 <= n < 0xd800 || 0xe000 <= n < 0x11_0000
  }

  lemma TwoOctets(a: int, b: int)
    requires 2 <= a < 0x20 && 0 <= b < 0x40
    ensures var n := a * 0x40 + b; IsScalar(n) && EncodeChar(n as char) == [0xc0 + a, 0x80 + b]
  {
  }

  lemma ThreeOctets(a: int, b: int, c: int)
    requires 0 <= a < 0x10 && 0 <= b < 0x40 && 0 <= c < 0x40 && (a == 0 ==> b >= 0x20) && (a == 0x0d ==> b < 0x20)
    ensures var n := a * 0x1000 + b * 0x40 + c; IsScalar(n) && EncodeChar(n as char) == [0xe0 + a, 0x80 + b, 0x80 + c]
  {
    var n := a * 0x1000 + b * 0x40 + c;
    assert n / 0x40 == a * 0x40 + b && n / 0x1000 == a;
  }

  lemma FourOctets(a: int, b: int, c: int, d: int)
    requires 0 <= a <= 4 && 0 <= b < 0x40 && 0 <= c < 0x40 && 0 <= d < 0x40 && (a == 0 ==> b >= 0x10) &&
      (a == 4 ==> b < 0x10)
    ensures var n := a * 0x4_0000 + b * 0x1000 + c * 0x40 + d;
            IsScalar(n) && EncodeChar(n as char) == [0xf0 + a, 0x80 + b, 0x80 + c, 0x80 + d]
  {
    var n := a * 0x4_0000 + b * 0x1000 + c * 0x40 + d;
    assert n / 0x40 == a * 0x1000 + b * 0x40 + c && n / 0x1000 == a * 0x40 + b && n / 0x4_0000 == a;
  }

  /** The character of a well-formed sequence. */
  lemma DecodeChar(s: Octets) returns (c: char)
    requires s != [] && CharLength(s) > 0
    ensures EncodeChar(c) == s[..CharLength(s)]
  {
    hide EncodeChar;
    var n := CharLength(s);
    var first: int := s[0];
    if n == 1 {
      c := first as char;
      OneOctet(first);
      assert s[..1] == [s[0]];
    } else if n == 2 {
      TwoOctets(first - 0xc0, Low(s[1]));
      c := ((first - 0xc0) * 0x40 + Low(s[1])) as char;
      assert s[..2] == [s[0], s[1]];
    } else if n == 3 {
      ThreeOctets(first - 0xe0, Low(s[1]), Low(s[2]));
      c := ((first - 0xe0) * 0x1000 + Low(s[1]) * 0x40 + Low(s[2])) as char;
      assert s[..3] == [s[0], s[1], s[2]];
    } else {
      FourOctets(first - 0xf0, Low(s[1]), Low(s[2]), Low(s[3]));
      c := ((first - 0xf0) * 0x4_0000 + Low(s[1]) * 0x1000 + Low(s[2]) * 0x40 + Low(s[3])) as char;
      assert s[..4] == [s[0], s[1], s[2], s[3]];
    }
  }

  lemma OneOctet(a: int)
    requires 0 <= a < 0x80
    ensures EncodeChar(a as char) == [a]
  {
  }

  function Low(b: byte): (r: int) {
    b - 0x80
  }

  lemma {:induction false} ValidIsEncoded(t: Octets) returns (s: string)
    requires Valid(t)
    ensures Encode(s) == t
    decreases |t|
  {
    hide CharLength, EncodeChar;
    if t == [] {
      s := [];
    } else {
      var n := CharLength(t);
      var c := DecodeChar(t);
      var rest := ValidIsEncoded(t[n..]);
      s := [c] + rest;
      assert s[1..] == rest && t == t[..n] + t[n..];
    }
  }

  /** The check accepts exactly the encodings of strings. */
  lemma ValidIffEncoded(t: Octets)
    ensures Valid(t) <==> exists s :: Encode(s) == t
  {
    if Valid(t) {
      var s := ValidIsEncoded(t);
    }
    if s :| Encode(s) == t {
      EncodedIsValid(s);
    }
  }

  /** The length of a string in UTF-8. */
  function Length(s: string): (r: nat)
    ensures r == |Encode(s)|
  {
    if s == [] then 0 else |EncodeChar(s[0])| + Length(s[1..])
  }
}
