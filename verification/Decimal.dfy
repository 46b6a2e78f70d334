/** Decimal formatting in templates (crates/mb-printer-core/src/template.rs, `format_decimal` and the `number:` and
    `decimals:` transforms). */
module Decimal {
  import opened Bytes
  import opened Arithmetic
  import Raster

  type Digit = x: int | 0 <= x < 10
  type Digits = seq<Digit>

  const U128_LIMIT := 0x1_0000_0000_0000_0000_0000_0000_0000_0000

  function Pow10(n: nat): (r: nat)
    ensures r > 0
  {
    if n == 0 then 1 else 10 * Pow10(n - 1)
  }

  function Number(s: Digits): (r: nat) {
    if s == [] then 0 else Number(s[..|s| - 1]) * 10 + s[|s| - 1]
  }

  lemma NumberSnoc(s: Digits, d: Digit)
    ensures Number(s + [d]) == Number(s) * 10 + d
  {
    var t := s + [d];
    assert t[..|t| - 1] == s;
  }

  lemma NumberNone()
    ensures Number([]) == 0
  {
  }

  lemma PowNext(n: nat)
    ensures Pow10(n + 1) == 10 * Pow10(n) && Pow10(0) == 1
  {
  }

  lemma {:induction false} PowAdd(a: nat, b: nat)
    ensures Pow10(a + b) == Pow10(a) * Pow10(b)
  {
    if b > 0 {
      PowAdd(a, b - 1);
      PowNext(a + b - 1);
      PowNext(b - 1);
      Regroup(Pow10(a), Pow10(b - 1));
    }
  }

  lemma Regroup(p: nat, q: nat)
    ensures p * (10 * q) == 10 * (p * q)
  {
  }

  lemma Spread(a: nat, p: nat, m: nat, last: Digit)
    ensures (a * p + m) * 10 + last == a * (10 * p) + (m * 10 + last)
    ensures m < p ==> m * 10 + last < 10 * p
  {
    assert (a * p) * 10 == a * (10 * p);
  }

  lemma {:induction false} NumberConcat(a: Digits, b: Digits)
    ensures Number(a + b) == Number(a) * Pow10(|b|) + Number(b)
    ensures Number(b) < Pow10(|b|)
  {
    hide Number, Pow10;
    PowNext(0);
    if b == [] {
      assert a + b == a;
      NumberNone();
      assert Number(a) * 1 == Number(a);
    } else {
      var front, last := b[..|b| - 1], b[|b| - 1];
      NumberConcat(a, front);
      assert a + b == (a + front) + [last] && b == front + [last];
      NumberSnoc(a + front, last);
      NumberSnoc(front, last);
      PowNext(|front|);
      Spread(Number(a), Pow10(|front|), Number(front), last);
    }
  }

  /** The last `k` decimal digits of `n`. */
  function Padded(n: nat, k: nat): (r: Digits)
    ensures |r| == k
  {
    if k == 0 then [] else Padded(n / 10, k - 1) + [n % 10]
  }

  /** A number without leading zeros. */
  function DigitsOf(n: nat): (r: Digits)
    ensures r != []
  {
    if n < 10 then [n] else DigitsOf(n / 10) + [n % 10]
  }

  lemma {:induction false} PaddedNumber(s: Digits)
    ensures Padded(Number(s), |s|) == s
  {
    if s != [] {
      var front, last := s[..|s| - 1], s[|s| - 1];
      assert s == front + [last];
      NumberSnoc(front, last);
      PaddedNumber(front);
    }
  }

  lemma {:induction false} NumberPadded(n: nat, k: nat)
    requires n < Pow10(k)
    ensures Number(Padded(n, k)) == n
  {
    if k > 0 {
      PowNext(k - 1);
      NumberPadded(n / 10, k - 1);
      NumberSnoc(Padded(n / 10, k - 1), n % 10);
    } else {
      NumberNone();
    }
  }

  lemma {:induction false} NumberDigitsOf(n: nat)
    ensures Number(DigitsOf(n)) == n
  {
    NumberNone();
    if n < 10 {
      assert [] + [n] == [n];
      NumberSnoc([], n);
    } else {
      NumberDigitsOf(n / 10);
      NumberSnoc(DigitsOf(n / 10), n % 10);
    }
  }

  // ----- numerals -----

  datatype Numeral = Numeral(negative: bool, whole: Digits, fraction: Digits)

  /** The value of a numeral is this over ten to the number of its fraction digits, with its sign. */
  function Magnitude(n: Numeral): (r: nat) {
    Number(n.whole + n.fraction)
  }

  predicate IsDigit(c: char) {
    '0' <= c <= '9'
  }

  function ToDigits(s: string): (r: Option<Digits>)
    ensures r.Some? <==> forall i :: 0 <= i < |s| ==> IsDigit(s[i])
    ensures r.Some? ==> |r.value| == |s|
  {
    if forall i :: 0 <= i < |s| ==> IsDigit(s[i]) then
      Some(seq(|s|, i requires 0 <= i < |s| => s[i] as int - '0' as int))
    else None
  }

  function ToText(d: Digits): (r: string)
    ensures |r| == |d|
  {
    seq(|d|, i requires 0 <= i < |d| => ('0' as int + d[i]) as char)
  }

  lemma TextRoundTrip(d: Digits)
    ensures ToDigits(ToText(d)) == Some(d) && '.' !in ToText(d) && ',' !in ToText(d) && '-' !in ToText(d)
  {
    assert ToDigits(ToText(d)).Some?;
    assert ToDigits(ToText(d)).value == d;
  }

  function WithPoints(s: string): (r: string) {
    seq(|s|, i requires 0 <= i < |s| => if s[i] == ',' then '.' else s[i])
  }

  /** The first point, or the length if there is none. */
  function PointAt(s: string): (r: nat)
    ensures r <= |s| && '.' !in s[..r] && (r < |s| ==> s[r] == '.')
  {
    if s == [] || s[0] == '.' then 0
    else
      var r := PointAt(s[1..]);
      assert s[..r + 1] == [s[0]] + s[1..][..r];
      r + 1
  }

  function ParseUnsigned(negative: bool, s: string): (r: Option<Numeral>) {
    var p := PointAt(s);
    var whole, fraction := ToDigits(s[..p]), ToDigits(if p < |s| then s[p + 1..] else "");
    if p == 0 || whole.None? || fraction.None? then None else Some(Numeral(negative, whole.value, fraction.value))
  }

  /** Digits with an optional sign and an optional point or comma followed by digits. */
  function Parse(s: string): (r: Option<Numeral>) {
    var t := WithPoints(s);
    if t != [] && t[0] == '-' then ParseUnsigned(true, t[1..]) else ParseUnsigned(false, t)
  }

  /** The Unicode property `White_Space`, which `str::trim` removes on both sides. */
  predicate IsWhite(c: char) {
    var n := c as int;
    || 0x9 <= n <= 0xd || n == 0x20 || n == 0x85 || n == 0xa0 || n == 0x1680 || 0x2000 <= n <= 0x200a
    || n == 0x2028 || n == 0x2029 || n == 0x202f || n == 0x205f || n == 0x3000
  }

  function TrimFront(s: string): (r: string) {
    if s != [] && IsWhite(s[0]) then TrimFront(s[1..]) else s
  }

  function TrimBack(s: string): (r: string) {
    if s != [] && IsWhite(s[|s| - 1]) then TrimBack(s[..|s| - 1]) else s
  }

  function Trim(s: string): (r: string) {
    TrimBack(TrimFront(s))
  }

  // ----- rounding -----

  /** The magnitude in units of the last of `decimals` places, halves away from zero. */
  function RoundedTo(n: Numeral, decimals: nat): (r: nat)
    ensures HalfUp(Pow10(|n.fraction|), Magnitude(n), Pow10(decimals), r)
  {
    Rounded(Pow10(|n.fraction|), Magnitude(n), Pow10(decimals))
  }

  /** A number of `units` of the last place, with `decimals` places. */
  function Printed(negative: bool, units: nat, decimals: nat): (r: string) {
    var sign := if negative && units != 0 then "-" else "";
    var whole := ToText(DigitsOf(Quotient(units, Pow10(decimals))));
    if decimals == 0 then sign + whole else sign + whole + "." + ToText(Padded(units % Pow10(decimals), decimals))
  }

  predicate Formats(n: Numeral, decimals: nat) {
    Number(n.whole) < U128_LIMIT && Quotient(RoundedTo(n, decimals), Pow10(decimals)) < U128_LIMIT
  }

  /** The digits kept, filled up with zeros. */
  function Kept(fraction: Digits, decimals: nat): (r: Digits)
    ensures |r| == decimals
  {
    if |fraction| >= decimals then fraction[..decimals] else fraction + seq(decimals - |fraction|, _ => 0)
  }

  predicate RoundsUp(fraction: Digits, decimals: nat) {
    |fraction| > decimals && fraction[decimals] >= 5
  }

  lemma {:induction false} ZerosNumber(k: nat)
    ensures Number(seq(k, _ => 0)) == 0
  {
    if k > 0 {
      assert seq(k, _ => 0) == seq(k - 1, _ => 0) + [0 as Digit];
      ZerosNumber(k - 1);
      NumberSnoc(seq(k - 1, _ => 0), 0);
    } else {
      NumberNone();
    }
  }

  lemma HalfOfTail(tail: Digits)
    requires tail != []
    ensures tail[0] >= 5 <==> 2 * Number(tail) >= Pow10(|tail|)
    ensures Number(tail) < Pow10(|tail|)
  {
    hide Number, Pow10;
    var rest := tail[1..];
    assert tail == [tail[0]] + rest;
    NumberConcat([tail[0]], rest);
    NumberConcat([], tail);
    assert [] + [tail[0]] == [tail[0]];
    NumberSnoc([], tail[0]);
    NumberNone();
    PowNext(|rest|);
    HalfDigit(tail[0], Pow10(|rest|), Number(rest));
  }

  lemma HalfDigit(d: Digit, p: nat, r: nat)
    requires r < p
    ensures d >= 5 <==> 2 * (d * p + r) >= 10 * p
  {
    if d >= 5 {
      MulMonotone(5, d, p);
    } else {
      MulMonotone(d, 4, p);
    }
  }

  /** Keeping digits and looking at the next one is rounding half away from zero. */
  lemma KeptIsRounded(n: Numeral, decimals: nat)
    ensures Number(n.whole) * Pow10(decimals) + Number(Kept(n.fraction, decimals)) +
      (if RoundsUp(n.fraction, decimals) then 1 else 0)
         == RoundedTo(n, decimals)
  {
    hide Number, Pow10, Rounded;
    var f, w := |n.fraction|, Number(n.whole);
    var units := w * Pow10(decimals) + Number(Kept(n.fraction, decimals));
    NumberConcat(n.whole, n.fraction);
    if f <= decimals {
      ExactlyKept(n, decimals, units);
      HalfUpUnique(Pow10(f), Magnitude(n), Pow10(decimals), units, RoundedTo(n, decimals));
    } else {
      var up := if RoundsUp(n.fraction, decimals) then 1 else 0;
      TailRounded(n, decimals, units);
      HalfUpUnique(Pow10(f), Magnitude(n), Pow10(decimals), units + up, RoundedTo(n, decimals));
    }
  }

  lemma ExactlyKept(n: Numeral, decimals: nat, units: nat)
    requires |n.fraction| <= decimals && units == Number(n.whole) * Pow10(decimals) + Number(Kept(n.fraction, decimals))
    ensures HalfUp(Pow10(|n.fraction|), Magnitude(n), Pow10(decimals), units)
  {
    hide Number, Pow10;
    var f, w, z := |n.fraction|, Number(n.whole), decimals - |n.fraction|;
    var zeros: Digits := seq(z, _ => 0);
    assert Kept(n.fraction, decimals) == n.fraction + zeros;
    NumberConcat(n.whole, n.fraction);
    NumberConcat(n.fraction, zeros);
    ZerosNumber(z);
    PowAdd(f, z);
    ExactScale(w, Number(n.fraction), Pow10(f), Pow10(z));
    ExactHalf(Pow10(f), Magnitude(n), Pow10(decimals), units);
  }

  lemma ExactScale(w: nat, x: nat, p: nat, q: nat)
    ensures (w * p + x) * (p * q) == (w * (p * q) + x * q) * p
  {
    var n := w * p + x;
    assert n * (p * q) == (n * q) * p;
    assert n * q == w * (p * q) + x * q;
  }

  lemma ExactHalf(p: nat, m: nat, q: nat, u: nat)
    requires p > 0 && m * q == u * p
    ensures HalfUp(p, m, q, u)
  {
    assert p * (2 * u - 1) == 2 * (u * p) - p && p * (2 * u + 1) == 2 * (u * p) + p;
  }

  lemma TailRounded(n: Numeral, decimals: nat, units: nat)
    requires |n.fraction| > decimals && units == Number(n.whole) * Pow10(decimals) + Number(Kept(n.fraction, decimals))
    ensures HalfUp(Pow10(|n.fraction|), Magnitude(n), Pow10(decimals), units +
                   (if RoundsUp(n.fraction, decimals) then 1 else 0))
  {
    hide Number, Pow10;
    var kept, tail := n.fraction[..decimals], n.fraction[decimals..];
    var w, t := Number(n.whole), |tail|;
    assert n.fraction == kept + tail && n.whole + n.fraction == (n.whole + kept) + tail;
    NumberConcat(n.whole + kept, tail);
    NumberConcat(n.whole, kept);
    HalfOfTail(tail);
    PowAdd(decimals, t);
    assert Magnitude(n) == units * Pow10(t) + Number(tail);
    TailHalf(units, Number(tail), Pow10(t), Pow10(decimals), if tail[0] >= 5 then 1 else 0);
  }

  lemma TailHalf(u: nat, x: nat, p: nat, q: nat, up: nat)
    requires p > 0 && q > 0 && x < p && up == (if 2 * x >= p then 1 else 0)
    ensures HalfUp(q * p, u * p + x, q, u + up)
  {
    var m := u + up;
    var lo, mid, hi := p * (2 * m - 1), 2 * (u * p + x), p * (2 * m + 1);
    TailBetween(u, x, p, up);
    MulMonotone(lo, mid, q);
    MulStrict(mid, hi, q);
    Assoc3(q, p, 2 * m - 1);
    Assoc3(q, p, 2 * m + 1);
    Twice(u * p + x, q);
  }

  lemma TailBetween(u: nat, x: nat, p: nat, up: nat)
    requires x < p && up == (if 2 * x >= p then 1 else 0)
    ensures p * (2 * (u + up) - 1) <= 2 * (u * p + x) < p * (2 * (u + up) + 1)
  {
    assert p * (2 * (u + up) - 1) == 2 * (u * p) + (2 * up - 1) * p;
    assert p * (2 * (u + up) + 1) == 2 * (u * p) + (2 * up + 1) * p;
  }

  lemma Assoc3(q: int, p: int, c: int)
    ensures q * p * c == q * (p * c)
  {
  }

  lemma Twice(a: int, q: int)
    ensures 2 * (a * q) == q * (2 * a)
  {
  }

  // ----- formatting -----

  /** Adds one to the last digit, carrying in place through any run of nines; `carry` when all digits overflowed. */
  method Increment(kept: array<Digit>) returns (carry: bool)
    modifies kept
    ensures Number(kept[..]) + (if carry then Pow10(kept.Length) else 0) == Number(old(kept[..])) + 1
  {
    hide Number, Pow10;
    var i := kept.Length;
    ghost var before := kept[..];
    NothingAfter(before);
    while i > 0
      invariant 0 <= i <= kept.Length && kept[..i] == before[..i]
      invariant forall k :: i <= k < kept.Length ==> kept[k] == 0
      invariant Number(before[..i]) * Pow10(kept.Length - i) + Pow10(kept.Length - i) == Number(before) + 1
    {
      i := i - 1;
      CarryStep(before, i);
      if kept[i] < 9 {
        kept[i] := kept[i] + 1;
        CarryEnds(before, kept[..], i);
        return false;
      }
      kept[i] := 0;
    }
    assert kept[..] == seq(kept.Length, _ => 0);
    ZerosNumber(kept.Length);
    NumberNone();
    assert before[..0] == [];
    assert 0 * Pow10(kept.Length) == 0;
    return true;
  }

  lemma NothingAfter(s: Digits)
    ensures Number(s[..|s|]) * Pow10(0) + Pow10(0) == Number(s) + 1
  {
    assert s[..|s|] == s;
  }

  lemma CarryStep(s: Digits, i: nat)
    requires i < |s|
    requires Number(s[..i + 1]) * Pow10(|s| - (i + 1)) + Pow10(|s| - (i + 1)) == Number(s) + 1
    ensures s[i] == 9 ==> Number(s[..i]) * Pow10(|s| - i) + Pow10(|s| - i) == Number(s) + 1
    ensures s[i] < 9 ==> Number(s[..i] + [s[i] + 1]) * Pow10(|s| - (i + 1)) == Number(s) + 1
  {
    hide Number, Pow10;
    var p := Pow10(|s| - (i + 1));
    assert s[..i + 1] == s[..i] + [s[i]];
    NumberSnoc(s[..i], s[i]);
    PowNext(|s| - (i + 1));
    var n := Number(s[..i]);
    assert (n * 10 + s[i] + 1) * p == (n * 10 + s[i]) * p + p;
    if s[i] < 9 {
      NumberSnoc(s[..i], s[i] + 1);
      SameProduct(Number(s[..i] + [s[i] + 1]), n * 10 + s[i] + 1, p);
    } else {
      assert n * (10 * p) + 10 * p == (n * 10 + 10) * p;
    }
  }

  lemma CarryEnds(before: Digits, after: Digits, i: nat)
    requires i < |before| == |after| && before[i] < 9 && after[..i] == before[..i] && after[i] == before[i] + 1
    requires forall k :: i < k < |after| ==> after[k] == 0
    requires Number(before[..i] + [before[i] + 1]) * Pow10(|before| - (i + 1)) == Number(before) + 1
    ensures Number(after) == Number(before) + 1
  {
    hide Number, Pow10;
    CarrySplit(before, after, i);
    WithZeros(before[..i] + [before[i] + 1], |after| - (i + 1));
  }

  lemma WithZeros(s: Digits, z: nat)
    ensures Number(s + seq(z, _ => 0)) == Number(s) * Pow10(z)
  {
    hide Number, Pow10;
    NumberConcat(s, seq(z, _ => 0));
    ZerosNumber(z);
  }

  lemma CarrySplit(before: Digits, after: Digits, i: nat)
    requires i < |before| == |after| && before[i] < 9 && after[..i] == before[..i] && after[i] == before[i] + 1
    requires forall k :: i < k < |after| ==> after[k] == 0
    ensures after == (before[..i] + [before[i] + 1]) + seq(|after| - (i + 1), _ => 0)
  {
    assert after[i + 1..] == seq(|after| - (i + 1), _ => 0);
    assert after == after[..i] + [after[i]] + after[i + 1..];
  }

  lemma SameProduct(a: nat, b: nat, p: nat)
    requires a == b
    ensures a * p == b * p
  {
  }

  /** Rounds a numeral to a number of decimals and prints it; numerals beyond 128 bits are errors. */
  method FormatDecimal(value: string, decimals: nat) returns (r: Option<string>)
    ensures var n := Parse(Trim(value));
            && (r.Some? <==> n.Some? && Formats(n.value, decimals))
            && (r.Some? ==> r.value == Printed(n.value.negative, RoundedTo(n.value, decimals), decimals))
  {
    hide Parse, Trim, Number, Pow10, Rounded, Magnitude, ToText, DigitsOf, Padded;
    var parsed := Parse(Trim(value));
    if parsed.None? {
      return None;
    }
    var n := parsed.value;
    var whole := Number(n.whole);
    if whole >= U128_LIMIT {
      return None;
    }
    var digits := Kept(n.fraction, decimals);
    var kept := new Digit[decimals](i requires 0 <= i < decimals => digits[i]);
    assert kept[..] == digits;
    KeptIsRounded(n, decimals);
    ghost var units := RoundedTo(n, decimals);
    if |n.fraction| > decimals && n.fraction[decimals] >= 5 {
      var carry := Increment(kept);
      if carry {
        Carried(Number(n.whole), Pow10(decimals), Number(kept[..]), units);
        NumberConcat([], kept[..]);
        Whole(Number(n.whole) + 1, kept[..], units, decimals);
        if whole + 1 >= U128_LIMIT {
          return None;
        }
        whole := whole + 1;
      }
    }
    Whole(whole, kept[..], units, decimals);
    var nonzero := false;
    for i := 0 to decimals
      invariant nonzero <==> exists k :: 0 <= k < i && kept[k] != 0
    {
      if kept[i] != 0 {
        nonzero := true;
      }
    }
    NonzeroNumber(kept[..]);
    ZeroUnits(whole, Number(kept[..]), Pow10(decimals));
    var sign := if n.negative && (whole != 0 || nonzero) then "-" else "";
    if decimals == 0 {
      return Some(sign + ToText(DigitsOf(whole)));
    }
    return Some(sign + ToText(DigitsOf(whole)) + "." + ToText(kept[..]));
  }

  lemma Carried(w: nat, p: nat, k: nat, units: nat)
    requires w * p + k + p == units
    ensures (w + 1) * p + k == units
  {
  }

  lemma ZeroUnits(w: nat, k: nat, p: nat)
    requires p > 0
    ensures w * p + k == 0 <==> w == 0 && k == 0
  {
    if w > 0 {
      MulMonotone(1, w, p);
    }
  }

  lemma Commutes(a: nat, b: nat)
    ensures a * b == b * a
  {
  }

  lemma Whole(w: nat, kept: Digits, units: nat, decimals: nat)
    requires |kept| == decimals && w * Pow10(decimals) + Number(kept) == units
    ensures Quotient(units, Pow10(decimals)) == w && units % Pow10(decimals) == Number(kept)
    ensures Padded(units % Pow10(decimals), decimals) == kept
  {
    hide Number, Pow10, Padded;
    NumberConcat([], kept);
    Commutes(w, Pow10(decimals));
    Raster.QuotientUnique(units, Pow10(decimals), w, Number(kept));
    PaddedNumber(kept);
  }

  lemma {:induction false} NonzeroNumber(s: Digits)
    ensures Number(s) != 0 <==> exists k :: 0 <= k < |s| && s[k] != 0
  {
    if s != [] {
      var front, last := s[..|s| - 1], s[|s| - 1];
      assert s == front + [last];
      NumberSnoc(front, last);
      NonzeroNumber(front);
    }
  }
}
