/** What formatted decimals say when they are read again, and the trimming of the `decimals:` transform
    (crates/mb-printer-core/src/template.rs). */
module DecimalText {
  import opened Bytes
  import opened Arithmetic
  import opened Decimal

  /** A numeral as text; no point without fraction digits. */
  function Text(n: Numeral): (r: string) {
    (if n.negative then "-" else "") + ToText(n.whole) + (if n.fraction == [] then "" else "." + ToText(n.fraction))
  }

  lemma {:induction false} PointAfter(a: string, b: string)
    requires '.' !in a
    ensures PointAt(a + "." + b) == |a| && PointAt(a) == |a|
  {
    if a == [] {
      assert a + "." + b == "." + b;
    } else {
      assert (a + "." + b)[1..] == a[1..] + "." + b;
      PointAfter(a[1..], b);
    }
  }

  lemma UnsignedReads(negative: bool, whole: Digits, fraction: Digits)
    requires whole != []
    ensures ParseUnsigned(negative, Text(Numeral(false, whole, fraction))) == Some(Numeral(negative, whole, fraction))
  {
    hide ToDigits, ToText, PointAt;
    TextRoundTrip(whole);
    TextRoundTrip(fraction);
    var w, f := ToText(whole), ToText(fraction);
    var s := Text(Numeral(false, whole, fraction));
    PointAfter(w, f);
    if fraction == [] {
      assert s == w && s[..|w|] == w;
      TextRoundTrip([]);
      assert ToText([]) == "";
    } else {
      assert s == w + "." + f;
      assert s[..|w|] == w && s[|w| + 1..] == f;
    }
  }

  lemma NoCommas(s: string)
    requires ',' !in s
    ensures WithPoints(s) == s
  {
  }

  /** Reading the text of a numeral gives the numeral. */
  lemma TextReads(n: Numeral)
    requires n.whole != []
    ensures Parse(Text(n)) == Some(n)
  {
    hide ToText, ParseUnsigned, WithPoints;
    NoCommaText(n);
    NoCommas(Text(n));
    UnsignedReads(n.negative, n.whole, n.fraction);
    SignFirst(n);
  }

  lemma NoCommaText(n: Numeral)
    ensures ',' !in Text(n)
  {
    hide ToText;
    TextRoundTrip(n.whole);
    TextRoundTrip(n.fraction);
  }

  lemma SignFirst(n: Numeral)
    requires n.whole != []
    ensures var s, unsigned := Text(n), Text(Numeral(false, n.whole, n.fraction));
            s != [] && (s[0] == '-' <==> n.negative) && (if n.negative then s[1..] == unsigned else s == unsigned)
  {
    hide ToText;
    TextRoundTrip(n.whole);
    var w := ToText(n.whole);
    var f := if n.fraction == [] then "" else "." + ToText(n.fraction);
    var s, unsigned := Text(n), Text(Numeral(false, n.whole, n.fraction));
    assert "" + w + f == w + f;
    if n.negative {
      assert s == "-" + w + f && s[1..] == w + f;
    } else {
      assert s[0] == w[0];
    }
  }

  /** What formatting prints, as a numeral. */
  function Result(negative: bool, units: nat, decimals: nat): (r: Numeral)
    ensures r.whole != [] && |r.fraction| == decimals
  {
    Numeral(negative && units != 0, DigitsOf(Quotient(units, Pow10(decimals))),
            Padded(units % Pow10(decimals), decimals))
  }

  lemma PrintedIsText(negative: bool, units: nat, decimals: nat)
    ensures Printed(negative, units, decimals) == Text(Result(negative, units, decimals))
  {
    hide ToText, DigitsOf, Padded, Pow10;
    var n := Result(negative, units, decimals);
    if decimals == 0 {
      assert Text(n) == (if n.negative then "-" else "") + ToText(n.whole) + "";
    } else {
      ConcatAssoc((if n.negative then "-" else "") + ToText(n.whole), ".", ToText(n.fraction));
    }
  }

  lemma ResultMagnitude(negative: bool, units: nat, decimals: nat)
    ensures Magnitude(Result(negative, units, decimals)) == units
  {
    hide Number, Pow10, Padded, DigitsOf;
    var p := Pow10(decimals);
    var n := Result(negative, units, decimals);
    NumberConcat(n.whole, n.fraction);
    NumberDigitsOf(units / p);
    NumberPadded(units % p, decimals);
    assert units == p * (units / p) + units % p;
    Decimal.Commutes(units / p, p);
  }

  /** The printed text reads as exactly the rounded number of units of the last place, with the sign of the input and
      never as negative zero. */
  lemma PrintedReads(negative: bool, units: nat, decimals: nat)
    ensures var n := Parse(Printed(negative, units, decimals));
            n.Some? && n.value.negative == (negative && units != 0) && |n.value.fraction| == decimals &&
              Magnitude(n.value) == units
  {
    hide Parse, Text, Printed, Magnitude;
    PrintedIsText(negative, units, decimals);
    TextReads(Result(negative, units, decimals));
    ResultMagnitude(negative, units, decimals);
  }

  lemma TextNotTrimmed(n: Numeral)
    requires n.whole != []
    ensures Trim(Text(n)) == Text(n)
  {
    hide ToText;
    DigitsNotWhite(n.whole);
    DigitsNotWhite(n.fraction);
    var w, f := ToText(n.whole), ToText(n.fraction);
    var s := Text(n);
    assert s[0] == (if n.negative then '-' else w[0]);
    assert s[|s| - 1] == (if n.fraction == [] then w[|w| - 1] else f[|f| - 1]);
  }

  lemma DigitsNotWhite(d: Digits)
    ensures forall i :: 0 <= i < |d| ==> !IsWhite(ToText(d)[i])
  {
  }

  /** Formatting what was formatted changes nothing. */
  lemma FormattingIsIdempotent(n: Numeral, decimals: nat)
    requires Formats(n, decimals)
    ensures var out := Printed(n.negative, RoundedTo(n, decimals), decimals);
            var again := Parse(Trim(out));
            && again.Some? && Formats(again.value, decimals)
            && Printed(again.value.negative, RoundedTo(again.value, decimals), decimals) == out
  {
    hide Parse, Trim, Text, Magnitude, Number, Pow10, Rounded, DigitsOf, Padded;
    var units := RoundedTo(n, decimals);
    PrintedIsText(n.negative, units, decimals);
    var again := Result(n.negative, units, decimals);
    TextReads(again);
    TextNotTrimmed(again);
    ResultMagnitude(n.negative, units, decimals);
    ExactHalf(Pow10(decimals), units, Pow10(decimals), units);
    HalfUpUnique(Pow10(decimals), units, Pow10(decimals), units, RoundedTo(again, decimals));
    NumberDigitsOf(Quotient(units, Pow10(decimals)));
  }

  // ----- trimming -----

  function DropLast(s: string, c: char): (r: string) {
    if s != [] && s[|s| - 1] == c then DropLast(s[..|s| - 1], c) else s
  }

  method TrimEnd(s: string, c: char) returns (r: string)
    ensures r == DropLast(s, c)
  {
    r := s;
    while r != [] && r[|r| - 1] == c
      invariant DropLast(r, c) == DropLast(s, c)
      decreases |r|
    {
      r := r[..|r| - 1];
    }
  }

  /** Without trailing zeros. */
  function Significant(f: Digits): (r: Digits)
    ensures r == [] || r[|r| - 1] != 0
    ensures |r| <= |f|
  {
    if f != [] && f[|f| - 1] == 0 then Significant(f[..|f| - 1]) else f
  }

  lemma {:induction false} SignificantValue(whole: Digits, f: Digits)
    ensures Number(whole + Significant(f)) * Pow10(|f|) == Number(whole + f) * Pow10(|Significant(f)|)
  {
    hide Number, Pow10;
    if f != [] && f[|f| - 1] == 0 {
      var front := f[..|f| - 1];
      SignificantValue(whole, front);
      assert whole + f == (whole + front) + [0];
      NumberSnoc(whole + front, 0);
      PowNext(|front|);
      TenTimes(Number(whole + Significant(front)), Pow10(|front|), Number(whole + front), Pow10(|Significant(front)|));
    }
  }

  lemma TenTimes(a: nat, p: nat, b: nat, q: nat)
    requires a * p == b * q
    ensures a * (10 * p) == (b * 10 + 0) * q
  {
  }

  lemma {:induction false} DropZeroText(a: string, f: Digits)
    ensures DropLast(a + "." + ToText(f), '0') == a + "." + ToText(Significant(f))
  {
    var s := a + "." + ToText(f);
    if f == [] {
      assert s[|s| - 1] == '.';
    } else {
      var front, last := f[..|f| - 1], f[|f| - 1];
      assert ToText(f) == ToText(front) + ToText([last]);
      assert s[|s| - 1] == ToText([last])[0] && s[..|s| - 1] == a + "." + ToText(front);
      if last == 0 {
        DropZeroText(a, front);
      }
    }
  }

  lemma DropPointText(a: string, f: Digits)
    requires a != [] && a[|a| - 1] != '.' && (f == [] || f[|f| - 1] != 0)
    ensures DropLast(a + "." + ToText(f), '.') == if f == [] then a else a + "." + ToText(f)
  {
    var s := a + "." + ToText(f);
    if f == [] {
      assert ToText([]) == "" && s == a + ".";
      assert s[..|s| - 1] == a;
    } else {
      assert s[|s| - 1] == ToText(f)[|f| - 1];
    }
  }

  /** French locales write a comma. */
  function Localized(s: string, french: bool): (r: string) {
    if french then seq(|s|, i requires 0 <= i < |s| => if s[i] == '.' then ',' else s[i]) else s
  }

  /** A localized number reads as the same number; it has no point where commas are written, and is otherwise
      unchanged. */
  lemma LocalizedReads(s: string, french: bool)
    ensures Parse(Localized(s, french)) == Parse(s)
    ensures if french then '.' !in Localized(s, french) else Localized(s, french) == s
    ensures '.' !in s ==> Localized(s, french) == s
  {
    hide ParseUnsigned;
    assert WithPoints(Localized(s, french)) == WithPoints(s);
  }

  /** The text of the `number:` transform. */
  method FormatNumber(value: string, decimals: nat, french: bool) returns (r: Option<string>)
    ensures var n := Parse(Trim(value));
            && (r.Some? <==> n.Some? && Formats(n.value, decimals))
            && (r.Some? ==> r.value == Localized(Printed(n.value.negative, RoundedTo(n.value, decimals), decimals),
                                                 french))
  {
    hide Parse, Trim, RoundedTo, Printed, Formats;
    r := FormatDecimal(value, decimals);
    if r.Some? {
      r := Some(Localized(r.value, french));
    }
  }

  /** The text of the `decimals:` transform. */
  method FormatTrimmed(value: string, decimals: nat, french: bool) returns (r: Option<string>)
    ensures var n := Parse(Trim(value));
            && (r.Some? <==> n.Some? && Formats(n.value, decimals))
            && (r.Some? ==>
                  var m := Result(n.value.negative, RoundedTo(n.value, decimals), decimals);
                  r.value == Localized(Text(m.(fraction := Significant(m.fraction))), french))
  {
    hide Parse, Trim, RoundedTo, Printed, Text, ToText, Result, Significant, DropLast, Formats;
    var formatted := FormatDecimal(value, decimals);
    if formatted.None? {
      return None;
    }
    var out := formatted.value;
    ghost var parsed := Parse(Trim(value)).value;
    ghost var negative, units := parsed.negative, RoundedTo(parsed, decimals);
    ghost var n := Result(negative, units, decimals);
    PrintedIsText(negative, units, decimals);
    TrimmedText(n);
    if '.' in out {
      var zeros := TrimEnd(out, '0');
      out := TrimEnd(zeros, '.');
    }
    NotNegativeZero(negative, units, decimals);
    if out == "-0" {
      out := "0";
    }
    return Some(Localized(out, french));
  }

  lemma TrimmedText(n: Numeral)
    requires n.whole != []
    ensures '.' in Text(n) <==> n.fraction != []
    ensures n.fraction == [] ==> Text(n.(fraction := Significant(n.fraction))) == Text(n)
    ensures n.fraction != [] ==> DropLast(DropLast(Text(n), '0'), '.') == Text(n.(fraction := Significant(n.fraction)))
  {
    hide ToText, DropLast, Significant;
    TextRoundTrip(n.whole);
    TextRoundTrip(n.fraction);
    var a := (if n.negative then "-" else "") + ToText(n.whole);
    if n.fraction == [] {
      assert Significant([]) == [];
    } else {
      ConcatAssoc(a, ".", ToText(n.fraction));
      assert Text(n) == a + "." + ToText(n.fraction);
      assert (a + "." + ToText(n.fraction))[|a|] == '.';
      DropZeroText(a, n.fraction);
      assert a[|a| - 1] == ToText(n.whole)[|n.whole| - 1];
      DropPointText(a, Significant(n.fraction));
      ConcatAssoc(a, ".", ToText(Significant(n.fraction)));
      assert a + "" == a;
    }
  }

  lemma NotNegativeZero(negative: bool, units: nat, decimals: nat)
    ensures var n := Result(negative, units, decimals); Text(n.(fraction := Significant(n.fraction))) != "-0"
  {
    hide ToText, Significant, Parse, Number, Pow10;
    var n := Result(negative, units, decimals);
    var m := n.(fraction := Significant(n.fraction));
    if Text(m) == "-0" {
      TextReads(m);
      TextReads(Numeral(true, [0], []));
      ToTextZero();
      assert Text(Numeral(true, [0], [])) == "-0";
      SignificantValue(n.whole, n.fraction);
      ResultMagnitude(negative, units, decimals);
      ZeroMagnitude();
    }
  }

  lemma ToTextZero()
    ensures ToText([0]) == "0"
  {
  }

  lemma ZeroMagnitude()
    ensures Number([0] + []) == 0
  {
    assert [0] + [] == [] + [0];
    NumberSnoc([], 0);
  }

  /** Trimming keeps the value and leaves neither a trailing zero nor a bare point. */
  lemma TrimmedReads(negative: bool, units: nat, decimals: nat)
    ensures var n := Result(negative, units, decimals);
            var read := Parse(Text(n.(fraction := Significant(n.fraction))));
            && read.Some? && read.value.negative == (negative && units != 0)
            && Magnitude(read.value) * Pow10(decimals) == units * Pow10(|read.value.fraction|)
            && (read.value.fraction != [] ==> read.value.fraction[|read.value.fraction| - 1] != 0)
  {
    hide Text, Parse, Number, Pow10;
    var n := Result(negative, units, decimals);
    TextReads(n.(fraction := Significant(n.fraction)));
    SignificantValue(n.whole, n.fraction);
    ResultMagnitude(negative, units, decimals);
  }
}
