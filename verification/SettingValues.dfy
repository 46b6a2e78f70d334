/** What setting values stand for (crates/mb-printer-core/src/administration.rs, `normalized_setting_value`,
    `value_matches` and `compatible_syntax`): when two values count as the same setting, when a requested value is
    admitted by an allowed one, and which syntaxes may replace each other. */
module SettingValues {
  import opened Bytes
  import opened IppModel
  import opened Administration

  // ----- numbers as text -----

  function ReadDigits(s: Text): (n: int) {
    if s == [] then 0 else 10 * ReadDigits(s[..|s| - 1]) + (s[|s| - 1] as int - 0x30)
  }

  function ReadNumber(s: Text): (n: int) {
    if s != [] && s[0] == 0x2d then 0 - ReadDigits(s[1..]) else ReadDigits(s)
  }

  predicate IsDigit(b: byte) {
    0x30 <= b <= 0x39
  }

  lemma {:induction false} DigitsRead(n: nat)
    ensures Digits(n) != [] && (forall i :: 0 <= i < |Digits(n)| ==> IsDigit(Digits(n)[i]))
    ensures ReadDigits(Digits(n)) == n
  {
    var d := Digits(n);
    if n >= 10 {
      DigitsRead(n / 10);
      assert d[..|d| - 1] == Digits(n / 10);
    } else {
      assert d[..|d| - 1] == [];
    }
  }

  /** A number is printed with its sign and its decimal digits only, and reads as itself. */
  lemma DecimalReads(n: int)
    ensures ReadNumber(Decimal(n)) == n && (Decimal(n)[0] == 0x2d <==> n < 0)
    ensures forall i :: 0 <= i < |Decimal(n)| ==> IsDigit(Decimal(n)[i]) || Decimal(n)[i] == 0x2d
  {
    hide Digits, ReadDigits;
    if n < 0 {
      DigitsRead(-n);
      assert Decimal(n)[1..] == Digits(-n);
    } else {
      DigitsRead(n);
    }
  }

  /** A resolution as text: `300x600@3`. */
  function ResolutionText(crossFeed: int, feed: int, units: int): (r: Text) {
    Decimal(crossFeed) + Ascii("x") + Decimal(feed) + Ascii("@") + Decimal(units)
  }

  lemma FirstSeparator(a: Text, b: Text, separator: byte)
    requires separator !in a
    ensures var whole := a + [separator] + b;
      whole[|a|] == separator && forall i :: 0 <= i < |a| ==> whole[i] != separator
  {
    var whole := a + [separator] + b;
    assert forall i :: 0 <= i < |a| ==> whole[i] == a[i];
  }

  lemma SplitAt(a: Text, b: Text, c: Text, d: Text, separator: byte)
    requires a + [separator] + b == c + [separator] + d && separator !in a && separator !in c
    ensures a == c && b == d
  {
    var whole := a + [separator] + b;
    FirstSeparator(a, b, separator);
    FirstSeparator(c, d, separator);
    assert whole[..|a|] == a && whole[|a| + 1..] == b;
    assert whole[..|c|] == c && whole[|c| + 1..] == d;
  }

  lemma DecimalUnique(m: int, n: int)
    requires Decimal(m) == Decimal(n)
    ensures m == n
  {
    DecimalReads(m);
    DecimalReads(n);
  }

  lemma ResolutionUnique(x: int, f: int, u: int, x': int, f': int, u': int)
    requires ResolutionText(x, f, u) == ResolutionText(x', f', u')
    ensures x == x' && f == f' && u == u'
  {
    hide Decimal;
    forall n ensures 0x78 !in Decimal(n) && 0x40 !in Decimal(n) {
      DecimalReads(n);
    }
    assert Ascii("x") == [0x78] && Ascii("@") == [0x40];
    ResolutionSplits(x, f, u);
    ResolutionSplits(x', f', u');
    SplitAt(Decimal(x), Decimal(f) + [0x40] + Decimal(u), Decimal(x'), Decimal(f') + [0x40] + Decimal(u'), 0x78);
    SplitAt(Decimal(f), Decimal(u), Decimal(f'), Decimal(u'), 0x40);
    DecimalUnique(x, x');
    DecimalUnique(f, f');
    DecimalUnique(u, u');
  }

  lemma ResolutionSplits(x: int, f: int, u: int)
    ensures ResolutionText(x, f, u) == Decimal(x) + [0x78] + (Decimal(f) + [0x40] + Decimal(u))
  {
    hide Decimal;
    assert Ascii("x") == [0x78] && Ascii("@") == [0x40];
  }

  // ----- the same setting -----

  predicate IsNumber(v: Value) {
    v.data.Integer? || v.data.Enum?
  }

  function NumberOf(v: Value): (n: int)
    requires IsNumber(v)
  {
    if v.data.Integer? then v.data.i else v.data.e
  }

  predicate IsText(v: Value) {
    && v.data.Octets?
    && v.tag in {TextWithLanguage, TextWithoutLanguage, NameWithLanguage, NameWithoutLanguage}
  }

  predicate IsWord(v: Value) {
    v.data.Octets? && v.tag == Keyword
  }

  /** Octets without a reading of their own: date-times and all other octet strings. */
  predicate IsOpaque(v: Value) {
    v.data.DateTime? || (v.data.Octets? && !IsText(v) && !IsWord(v))
  }

  function OpaqueOctets(v: Value): (r: seq<byte>)
    requires IsOpaque(v)
  {
    if v.data.DateTime? then v.data.octets else v.data.bytes
  }

  /** A text or a name may happen to spell a resolution. */
  predicate Spells(text: Value, resolution: Value) {
    && IsText(text) && resolution.data.Resolution?
    && text.data.bytes == ResolutionText(resolution.data.crossFeed, resolution.data.feed, resolution.data.units)
  }

  /** Two values ask for the same setting: integers and enumerations by number, booleans, ranges by both ends, keywords,
      texts and names by their octets, which must be UTF-8, resolutions by their three numbers, everything else by its
      octets. */
  predicate SameSetting(v: Value, w: Value) {
    || (IsNumber(v) && IsNumber(w) && NumberOf(v) == NumberOf(w))
    || (v.data.Boolean? && w.data.Boolean? && v.data.b == w.data.b)
    || (v.data.RangeOfInteger? && w.data.RangeOfInteger? && v.data.lower == w.data.lower &&
        v.data.upper == w.data.upper)
    || (IsWord(v) && IsWord(w) && Utf8(v.data.bytes) && v.data.bytes == w.data.bytes)
    || (IsText(v) && IsText(w) && Utf8(v.data.bytes) && v.data.bytes == w.data.bytes)
    || (v.data.Resolution? && w.data.Resolution? && v.data == w.data)
    || (IsOpaque(v) && IsOpaque(w) && OpaqueOctets(v) == OpaqueOctets(w))
    || Spells(v, w) || Spells(w, v)
  }

  lemma TextOf(v: Value)
    requires v.data.Resolution?
    ensures Normalized(v) == Some(TextSetting(ResolutionText(v.data.crossFeed, v.data.feed, v.data.units)))
  {
    hide Decimal;
    assert Ascii("x") == [0x78] && Ascii("@") == [0x40];
  }

  /** ASCII is UTF-8. */
  lemma ResolutionIsText(v: Value, w: Value)
    requires Spells(v, w)
    ensures Utf8(v.data.bytes)
  {
    var r := w.data;
    DecimalReads(r.crossFeed);
    DecimalReads(r.feed);
    DecimalReads(r.units);
    hide Decimal;
    assert Ascii("x") == [0x78] && Ascii("@") == [0x40];
    AsciiIsUtf8(v.data.bytes);
  }

  lemma {:induction false} AsciiIsUtf8(s: Text)
    requires forall i :: 0 <= i < |s| ==> s[i] < 0x80
    ensures Utf8(s)
  {
    if s != [] {
      AsciiIsUtf8(s[1..]);
    }
  }

  /** Values normalize alike exactly when they ask for the same setting. */
  lemma NormalizesAlike(v: Value, w: Value)
    ensures Normalized(v).Some? && Normalized(v) == Normalized(w) <==> SameSetting(v, w)
  {
    hide Utf8, Decimal, ResolutionText;
    if v.data.Resolution? {
      TextOf(v);
    }
    if w.data.Resolution? {
      TextOf(w);
    }
    if v.data.Resolution? && w.data.Resolution? && Normalized(v) == Normalized(w) {
      ResolutionUnique(v.data.crossFeed, v.data.feed, v.data.units, w.data.crossFeed, w.data.feed, w.data.units);
    }
    if Spells(v, w) {
      ResolutionIsText(v, w);
    }
    if Spells(w, v) {
      ResolutionIsText(w, v);
    }
  }

  // ----- plans and what is read back -----

  /** The printer reports exactly one value for the setting, and it asks for what was requested. */
  predicate ReadsBack(m: Message, setting: Text, requested: Value) {
    var a := Find(m, setting);
    a.Some? && |a.value.values| == 1 && SameSetting(a.value.values[0], requested)
  }

  /** The plan's setting value is that of the value it sends. */
  predicate Consistent(plan: ChangePlan) {
    Normalized(plan.requestedProtocolValue) == Some(plan.requestedValue)
  }

  /** Plans are consistent, whether made from an observation or rebuilt from a confirmation. */
  lemma PlansAreConsistent(m: Message, supported: Option<SupportedValues>, request: Request, hash: Attribute -> Digest,
                           rebuilt: Option<ChangePlan>)
    requires rebuilt == PlanFromWire(request.printerId, request.generation, request.setting, [], request.requested,
                                     request.principal, request.expiresAt)
    ensures PlanChange(m, supported, request, hash).Ok? ==> Consistent(PlanChange(m, supported, request, hash).value)
    ensures rebuilt.Some? ==> Consistent(rebuilt.value)
  {
    hide Normalized, Find, Advertises, Settable, ConstraintError;
  }

  lemma AppliedReadsBack(plan: ChangePlan, m: Message)
    requires Consistent(plan)
    ensures Applied(plan, m) <==> ReadsBack(m, plan.setting, plan.requestedProtocolValue)
  {
    hide Find, Normalized, SameSetting;
    var a := Find(m, plan.setting);
    if a.Some? && |a.value.values| == 1 {
      NormalizesAlike(a.value.values[0], plan.requestedProtocolValue);
    }
  }

  // ----- requested and allowed values -----

  predicate SameLetter(a: byte, b: byte) {
    a == b || (0x41 <= a <= 0x5a && b == a + 0x20) || (0x41 <= b <= 0x5a && a == b + 0x20)
  }

  predicate SameIgnoringCase(a: Text, b: Text) {
    |a| == |b| && forall i :: 0 <= i < |a| ==> SameLetter(a[i], b[i])
  }

  lemma LowerAlike(a: Text, b: Text)
    ensures Lower(a) == Lower(b) <==> SameIgnoringCase(a, b)
  {
    if Lower(a) == Lower(b) {
      forall i | 0 <= i < |a| ensures SameLetter(a[i], b[i]) {
        assert Lower(a)[i] == Lower(b)[i];
      }
    }
  }

  /** The text before the first colon of a URI is the scheme, whatever the case of its letters. */
  ghost predicate HasScheme(uri: Text, scheme: Text) {
    exists before, after :: uri == before + Ascii(":") + after && 0x3a !in before && SameIgnoringCase(before, scheme)
  }

  lemma SchemeExact(uri: Text, scheme: Text)
    ensures HasScheme(uri, scheme) <==>
      BeforeColon(uri).Some? && Lower(BeforeColon(uri).value) == Lower(scheme)
  {
    assert Ascii(":") == [0x3a];
    var s := BeforeColon(uri);
    if s.Some? {
      LowerAlike(s.value, scheme);
      var after := uri[|s.value| + 1..];
      assert uri == s.value + Ascii(":") + after;
      if HasScheme(uri, scheme) {
        var before, rest :|
          uri == before + Ascii(":") + rest && 0x3a !in before && SameIgnoringCase(before, scheme);
        SplitAt(s.value, after, before, rest, 0x3a);
      }
    }
  }

  /** An allowed value admits a requested one exactly when it leaves names to the administrator, allows anything, is a
      range around it, is the scheme of the requested URI, or is that very value. */
  lemma MatchesExact(requested: Value, allowed: Value)
    ensures ValueMatches(requested, allowed) <==>
      || (allowed.tag == AdminDefine && requested.tag in {NameWithLanguage, NameWithoutLanguage})
      || allowed.data == Boolean(true)
      || (requested.data.Integer? && allowed.data.RangeOfInteger? &&
          allowed.data.lower <= requested.data.i <= allowed.data.upper)
      || (requested.data.RangeOfInteger? && allowed.data.RangeOfInteger? &&
          allowed.data.lower <= requested.data.lower && requested.data.upper <= allowed.data.upper)
      || (requested.tag == Uri && allowed.tag == UriScheme && requested.data.Octets? && allowed.data.Octets? &&
          Utf8(requested.data.bytes) && Utf8(allowed.data.bytes) &&
          HasScheme(requested.data.bytes, allowed.data.bytes))
      || requested == allowed
  {
    hide Utf8, Lower, BeforeColon, HasScheme;
    if requested.data.Octets? && allowed.data.Octets? {
      SchemeExact(requested.data.bytes, allowed.data.bytes);
    }
  }

  function WithoutLanguage(tag: ValueTag): (r: ValueTag) {
    match tag
    case TextWithLanguage => TextWithoutLanguage
    case NameWithLanguage => NameWithoutLanguage
    case other => other
  }

  /** A value may replace another of the same syntax, where texts and names may gain or lose their language. */
  lemma CompatibleExact(current: ValueTag, requested: ValueTag)
    ensures CompatibleSyntax(current, requested) <==> WithoutLanguage(current) == WithoutLanguage(requested)
  {
  }
}
