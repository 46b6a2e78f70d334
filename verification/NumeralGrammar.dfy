/** Which texts are numerals and what surrounds them (crates/mb-printer-core/src/template.rs, `format_decimal`). */
module NumeralGrammar {
  import opened Bytes
  import opened Decimal
  import opened DecimalText

  /** The text spells the numeral: its sign, at least one digit, and a point or a comma before its fraction, which may
      be left empty. */
  predicate Spells(s: string, n: Numeral) {
    n.whole != [] && (WithPoints(s) == Text(n) || (n.fraction == [] && WithPoints(s) == Text(n) + "."))
  }

  lemma DigitsAreText(s: string)
    requires ToDigits(s).Some?
    ensures ToText(ToDigits(s).value) == s
  {
  }

  lemma UnsignedText(negative: bool, t: string)
    requires ParseUnsigned(negative, t).Some?
    ensures var n := ParseUnsigned(negative, t).value; var unsigned := Text(Numeral(false, n.whole, n.fraction));
      n.negative == negative && n.whole != [] && (t == unsigned || (n.fraction == [] && t == unsigned + "."))
  {
    hide ToDigits, ToText;
    var p := PointAt(t);
    DigitsAreText(t[..p]);
    var w := t[..p];
    assert "" + w == w;
    if p < |t| {
      DigitsAreText(t[p + 1..]);
      assert t == w + "." + t[p + 1..];
      NoText(t[p + 1..]);
    } else {
      assert t[..p] == t && w + "" == w;
      NoText("");
    }
  }

  lemma NoText(s: string)
    requires ToDigits(s).Some?
    ensures ToDigits(s).value == [] <==> s == ""
  {
  }

  /** A text is read as a numeral exactly when it spells it. */
  lemma ParsesExactly(s: string, n: Numeral)
    ensures Parse(s) == Some(n) <==> Spells(s, n)
  {
    hide ToDigits, ToText, ParseUnsigned, Text;
    var t := WithPoints(s);
    if Parse(s) == Some(n) {
      var negative := t != [] && t[0] == '-';
      UnsignedText(negative, if negative then t[1..] else t);
      Signed(n);
      assert negative ==> t == "-" + t[1..];
    }
    if Spells(s, n) {
      PointsStay(s);
      TextReads(n);
      PointsStay(Text(n));
      if WithPoints(s) == Text(n) + "." {
        TrailingPoint(n);
      }
      SameReading(s, if WithPoints(s) == Text(n) then Text(n) else Text(n) + ".");
    }
  }

  lemma Signed(n: Numeral)
    ensures var unsigned := Text(Numeral(false, n.whole, n.fraction));
      Text(n) == (if n.negative then "-" else "") + unsigned && (n.negative ==> Text(n) + "." == "-" + (unsigned + "."))
  {
    hide ToText;
    var w, f := ToText(n.whole), if n.fraction == [] then "" else "." + ToText(n.fraction);
    assert "" + w + f == w + f;
    assert "-" + w + f == "-" + (w + f);
  }

  lemma PointsStay(s: string)
    ensures WithPoints(WithPoints(s)) == WithPoints(s)
  {
  }

  lemma SameReading(s: string, t: string)
    requires WithPoints(s) == WithPoints(t)
    ensures Parse(s) == Parse(t)
  {
  }

  lemma UnsignedPoint(negative: bool, whole: Digits)
    requires whole != []
    ensures ParseUnsigned(negative, ToText(whole) + ".") == Some(Numeral(negative, whole, []))
  {
    hide ToText, ToDigits;
    TextRoundTrip(whole);
    TextRoundTrip([]);
    var w := ToText(whole);
    assert w + "." + "" == w + ".";
    PointAfter(w, "");
    var u := w + ".";
    assert u[..|w|] == w && u[|w| + 1..] == "" == ToText([]);
  }

  lemma NoCommaPoint(n: Numeral)
    ensures WithPoints(Text(n) + ".") == Text(n) + "."
  {
    hide Text;
    NoCommaText(n);
  }

  lemma TrailingPoint(n: Numeral)
    requires n.whole != [] && n.fraction == []
    ensures Parse(Text(n) + ".") == Some(n) && WithPoints(Text(n) + ".") == Text(n) + "."
  {
    hide ToText, ParseUnsigned, WithPoints, Text;
    NoCommaPoint(n);
    SignFirst(n);
    UnsignedPoint(n.negative, n.whole);
    BareWhole(n.whole);
    var s := Text(n) + ".";
    assert s[0] == Text(n)[0];
    assert n.negative ==> s[1..] == Text(n)[1..] + ".";
  }

  lemma BareWhole(whole: Digits)
    ensures Text(Numeral(false, whole, [])) == ToText(whole)
  {
    hide ToText;
    var w := ToText(whole);
    assert "" + w + "" == w;
  }

  // ----- what surrounds them -----

  /** White space is what Unicode calls so. */
  lemma WhiteExact(c: char)
    ensures IsWhite(c) <==> c as int in {
      9, 10, 11, 12, 13, 32, 133, 160, 5760, 8192, 8193, 8194, 8195, 8196, 8197, 8198, 8199, 8200, 8201, 8202, 8232,
      8233, 8239, 8287, 12288}
  {
  }

  predicate AllWhite(s: string) {
    forall i :: 0 <= i < |s| ==> IsWhite(s[i])
  }

  /** Trimming takes away all white space at both ends, and nothing else. */
  lemma TrimExact(s: string)
    ensures exists before, after :: AllWhite(before) && AllWhite(after) && s == before + Trim(s) + after
    ensures Trim(s) != "" ==> !IsWhite(Trim(s)[0]) && !IsWhite(Trim(s)[|Trim(s)| - 1])
  {
    hide IsWhite;
    var before := FrontTrimmed(s);
    var after := BackTrimmed(TrimFront(s));
    assert s == before + Trim(s) + after;
    if Trim(s) != "" {
      assert Trim(s)[0] == TrimFront(s)[0];
    }
  }

  lemma {:induction false} FrontTrimmed(s: string) returns (before: string)
    ensures AllWhite(before) && s == before + TrimFront(s)
    ensures TrimFront(s) != "" ==> !IsWhite(TrimFront(s)[0])
  {
    hide IsWhite;
    if s != [] && IsWhite(s[0]) {
      var rest := FrontTrimmed(s[1..]);
      before := [s[0]] + rest;
      assert s == [s[0]] + s[1..];
    } else {
      before := "";
    }
  }

  lemma {:induction false} BackTrimmed(s: string) returns (after: string)
    ensures AllWhite(after) && s == TrimBack(s) + after
    ensures TrimBack(s) != "" ==> !IsWhite(TrimBack(s)[|TrimBack(s)| - 1])
  {
    hide IsWhite;
    if s != [] && IsWhite(s[|s| - 1]) {
      var rest := BackTrimmed(s[..|s| - 1]);
      after := rest + [s[|s| - 1]];
      assert s == s[..|s| - 1] + [s[|s| - 1]];
    } else {
      after := "";
    }
  }

  /** The whole part fits 128 bits exactly when it is at most this. */
  lemma LargestWhole(n: nat)
    ensures n < U128_LIMIT <==> n <= 340282366920938463463374607431768211455
  {
  }
}
