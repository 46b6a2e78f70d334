/** When two elements of a batch page get the same identifier (crates/mb-printer-core/src/materialize.rs,
    `rewrite_elements`). */
module RenameClash {
  import opened Forest
  import opened ZoneBatch

  predicate EndsWith(s: string, suffix: string) {
    |s| >= |suffix| && s[|s| - |suffix|..] == suffix
  }

  /** What precedes a suffix. */
  function Lead(s: string, suffix: string): (r: string)
    requires EndsWith(s, suffix)
  {
    s[..|s| - |suffix|]
  }

  lemma Meet(a: string, s: string, b: string, t: string)
    requires |s| <= |t|
    ensures a + s == b + t <==> EndsWith(t, s) && a == b + Lead(t, s)
  {
    if a + s == b + t {
      var whole := a + s;
      assert whole[|whole| - |s|..] == s && (b + t)[|whole| - |s|..] == t[|t| - |s|..];
      assert whole[..|whole| - |s|] == a && (b + t)[..|whole| - |s|] == b + t[..|t| - |s|];
    }
    if EndsWith(t, s) && a == b + Lead(t, s) {
      assert t == Lead(t, s) + s;
    }
  }

  lemma EndsWithin(head: string, tail: string, s: string)
    requires |s| <= |tail|
    ensures EndsWith(head + tail, s) <==> EndsWith(tail, s)
  {
    assert (head + tail)[|head + tail| - |s|..] == tail[|tail| - |s|..];
  }

  // ----- the shape of a suffix -----

  /** A suffix up to the colon before the zone. */
  function Header(p: Placement): (r: string) {
    ":record:" + DecimalText(p.record) + ":zone"
  }

  lemma SuffixParts(p: Placement)
    ensures Suffix(p) == Header(p) + (":" + p.zone)
  {
  }

  lemma {:induction false} DecimalDigits(n: nat)
    ensures DecimalText(n) != "" && forall i :: 0 <= i < |DecimalText(n)| ==> '0' <= DecimalText(n)[i] <= '9'
    ensures NumberOf(DecimalText(n)) == n
  {
    if n >= 10 {
      DecimalDigits(n / 10);
      var d := DecimalText(n);
      assert d[..|d| - 1] == DecimalText(n / 10);
    }
  }

  /** A decimal numeral, read. */
  function NumberOf(digits: string): (n: int) {
    if digits == "" then 0
    else 10 * NumberOf(digits[..|digits| - 1]) + (digits[|digits| - 1] as int - '0' as int)
  }

  /** In a header, only its first character is a colon followed by the letter r. */
  lemma HeaderStart(p: Placement, i: nat)
    requires i < |Header(p)| && Header(p)[i] == ':'
    ensures i + 1 < |Header(p)| && (Header(p)[i + 1] == 'r' ==> i == 0)
  {
    DecimalDigits(p.record);
    var h, d := Header(p), DecimalText(p.record);
    assert h[|h| - 1] == 'e';
    assert forall k :: 8 <= k < 8 + |d| ==> h[k] == d[k - 8];
    assert h[8 + |d|..] == ":zone";
    assert forall k :: 8 + |d| <= k < |h| ==> h[k] == h[8 + |d|..][k - 8 - |d|];
  }

  lemma FirstSegment(a: string, x: string, b: string, y: string)
    requires a + ":" + x == b + ":" + y && ':' !in a && ':' !in b
    ensures a == b && x == y
  {
    if |a| < |b| {
      ColonWithin(a, x, b, y);
    } else if |b| < |a| {
      ColonWithin(b, y, a, x);
    } else {
      var s := a + ":" + x;
      assert a == s[..|a|] && b == s[..|a|] && x == s[|a| + 1..] && y == s[|a| + 1..];
    }
  }

  lemma ColonWithin(a: string, x: string, b: string, y: string)
    requires a + ":" + x == b + ":" + y && |a| < |b|
    ensures ':' in b
  {
    var s := a + ":" + x;
    assert s[|a|] == ':' && s[|a|] == b[|a|];
  }

  lemma SuffixTail(p: Placement)
    ensures |Suffix(p)| >= 8 && Suffix(p)[8..] == DecimalText(p.record) + ":" + ("zone:" + p.zone)
  {
    hide DecimalText;
    var d := DecimalText(p.record);
    assert Suffix(p) == ":record:" + (d + ":" + ("zone:" + p.zone));
  }

  lemma SuffixInjective(p: Placement, q: Placement)
    requires Suffix(p) == Suffix(q)
    ensures p.zone == q.zone && p.record == q.record
  {
    hide DecimalText, Suffix;
    DecimalDigits(p.record);
    DecimalDigits(q.record);
    SuffixTail(p);
    SuffixTail(q);
    var a, b := DecimalText(p.record), DecimalText(q.record);
    FirstSegment(a, "zone:" + p.zone, b, "zone:" + q.zone);
    assert p.zone == ("zone:" + p.zone)[5..] && q.zone == ("zone:" + q.zone)[5..];
  }

  /** Two places on the pages of a batch. */
  predicate Apart(p: Placement, q: Placement) {
    p.zone != q.zone || p.record != q.record
  }

  /** One suffix ends with that of another place exactly when its zone, with the colon before it, does. */
  lemma SuffixInZone(p: Placement, q: Placement)
    requires Apart(p, q)
    ensures EndsWith(Suffix(q), Suffix(p)) <==> EndsWith(":" + q.zone, Suffix(p))
  {
    hide Suffix, Header, DecimalText;
    var s, h, tail := Suffix(p), Header(q), ":" + q.zone;
    SuffixParts(p);
    SuffixParts(q);
    SuffixStart(p);
    if |s| <= |tail| {
      EndsWithin(h, tail, s);
    } else if EndsWith(Suffix(q), s) {
      var at := |h| + |tail| - |s|;
      assert (h + tail)[at..] == s;
      assert (h + tail)[at] == s[0] && (h + tail)[at + 1] == s[1];
      HeaderStart(q, at);
      assert Suffix(q) == s;
      SuffixInjective(p, q);
    }
  }

  lemma SuffixStart(p: Placement)
    ensures |Suffix(p)| > 14 && Suffix(p)[0] == ':' && Suffix(p)[1] == 'r' && Suffix(p)[7] == ':'
    ensures |Header(p)| > 0
  {
    DecimalDigits(p.record);
  }

  // ----- clashes -----

  /** Placed by `p`, the element `a` takes the identifier that `b` gets when placed by `q`: the zone of `q` hides the
      suffix of `p`, and `a` is `b` followed by the rest of `q`'s suffix. */
  predicate TakesNameOf(a: Id, p: Placement, b: Id, q: Placement) {
    && EndsWith(":" + q.zone, Suffix(p))
    && EndsWith(Suffix(q), Suffix(p)) && a == b + Lead(Suffix(q), Suffix(p))
  }

  /** On the same page or on different ones, renamed identifiers of different places are equal only in this way. */
  lemma RenamedMeet(a: Id, p: Placement, b: Id, q: Placement)
    requires Apart(p, q)
    ensures Renamed(a, p) == Renamed(b, q) <==> TakesNameOf(a, p, b, q) || TakesNameOf(b, q, a, p)
  {
    hide Suffix, EndsWith;
    var s, t := Suffix(p), Suffix(q);
    SuffixInZone(p, q);
    SuffixInZone(q, p);
    ShorterEnd(s, t);
    ShorterEnd(t, s);
    if |s| <= |t| {
      Meet(a, s, b, t);
    } else {
      Meet(b, t, a, s);
    }
    if |s| == |t| {
      Meet(b, t, a, s);
    }
  }

  lemma HiddenSuffix(b: Id, p: Placement, q: Placement, lead: string, before: string)
    requires Suffix(q) == lead + Suffix(p) && ":" + q.zone == before + Suffix(p)
    ensures TakesNameOf(b + lead, p, b, q)
  {
    hide Suffix;
    var s := Suffix(p);
    assert (lead + s)[|lead|..] == s && (lead + s)[..|lead|] == lead && (before + s)[|before|..] == s;
  }

  lemma ShorterEnd(s: string, t: string)
    ensures EndsWith(t, s) ==> |s| <= |t|
  {
  }

  /** An identifier placed by `q` ends with the suffix of `p`, another placement. */
  predicate Confusable(id: Id, q: Placement, p: Placement) {
    || EndsWith(":" + q.zone, Suffix(p))
    || (EndsWith(":" + p.zone, Suffix(q)) && EndsWith(Suffix(p), Suffix(q)) && EndsWith(id, Lead(Suffix(p), Suffix(q))))
  }

  lemma RenamedEndsWith(id: Id, q: Placement, p: Placement)
    requires Apart(p, q)
    ensures EndsWith(Renamed(id, q), Suffix(p)) <==> Confusable(id, q, p)
  {
    hide Suffix;
    var s, t := Suffix(p), Suffix(q);
    SuffixInZone(p, q);
    SuffixInZone(q, p);
    if |s| <= |t| {
      EndsWithin(id, t, s);
      if EndsWith(":" + p.zone, t) {
        assert |s| == |t| by { SuffixParts(p); }
        assert s == t;
        SuffixInjective(p, q);
      }
    } else {
      LongerEnd(id, t, s);
    }
  }

  lemma LongerEnd(id: string, t: string, s: string)
    requires |s| > |t|
    ensures EndsWith(id + t, s) <==> EndsWith(s, t) && EndsWith(id, Lead(s, t))
  {
    var w := id + t;
    if EndsWith(w, s) {
      var front := w[..|w| - |s|];
      assert w == front + s;
      Meet(id, t, front, s);
      assert (front + Lead(s, t))[|front|..] == Lead(s, t);
    }
    if EndsWith(s, t) && EndsWith(id, Lead(s, t)) {
      var front := id[..|id| - |Lead(s, t)|];
      assert id == front + Lead(s, t) && s == Lead(s, t) + t;
      assert w == front + s;
    }
  }

  /** A zone identifier without a colon hides no suffix. */
  lemma ColonFreeHidesNothing(zone: string, p: Placement)
    requires ':' !in zone
    ensures !EndsWith(":" + zone, Suffix(p))
  {
    hide Suffix;
    SuffixStart(p);
    if EndsWith(":" + zone, Suffix(p)) {
      EndHasColon(zone, Suffix(p));
    }
  }

  lemma EndHasColon(zone: string, s: string)
    requires EndsWith(":" + zone, s) && |s| > 7 && s[7] == ':'
    ensures ':' in zone
  {
    var z := ":" + zone;
    var at := |z| - |s| + 7;
    assert z[|z| - |s|..][7] == s[7];
    assert z[at] == zone[at - 1];
  }

  /** Without colons in the zones, a renamed identifier tells its element, its record and its zone, across all pages. */
  lemma ColonFreeNames(a: Id, p: Placement, b: Id, q: Placement)
    requires ':' !in p.zone && ':' !in q.zone
    ensures Renamed(a, p) == Renamed(b, q) <==> a == b && p.record == q.record && p.zone == q.zone
  {
    hide Suffix, EndsWith;
    if Apart(p, q) {
      RenamedMeet(a, p, b, q);
      ColonFreeHidesNothing(p.zone, q);
      ColonFreeHidesNothing(q.zone, p);
    } else {
      SameSuffix(p, q);
      RenamedInjective(a, b, p);
    }
  }

  lemma SameSuffix(p: Placement, q: Placement)
    requires !Apart(p, q)
    ensures Suffix(p) == Suffix(q)
  {
  }
}
