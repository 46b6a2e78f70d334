/** Fail-closed planning and validation of printer changes (crates/mb-printer-core/src/administration.rs). Text is its
    UTF-8 octets; the SHA-256 digests are functions handed in. */
module Administration {
  import opened Bytes
  import opened IppModel
  import Utf8Text

  type Text = seq<byte>
  type Digest = seq<byte>

  const SET_PRINTER_ATTRIBUTES: i32 := 0x0013
  const GET_PRINTER_SUPPORTED_VALUES: i32 := 0x0015
  const PRINTER_ATTRIBUTES_TAG: byte := 0x04
  const UNSUPPORTED_ATTRIBUTES_TAG: byte := 0x05

  function Ascii(s: string): (r: Text) {
    seq(|s|, i requires 0 <= i < |s| => s[i] as int % 256)
  }

  // ----- text -----

  /** `std::str::from_utf8` succeeds. */
  predicate Utf8(s: Text) {
    Utf8Text.Valid(s)
  }

  predicate EndsWith(name: Text, suffix: Text) {
    |name| >= |suffix| && name[|name| - |suffix|..] == suffix
  }

  function Lower(s: Text): (r: Text) {
    seq(|s|, i requires 0 <= i < |s| => if 0x41 <= s[i] <= 0x5a then s[i] + 0x20 else s[i])
  }

  /** What precedes the first colon. */
  function BeforeColon(s: Text): (r: Option<Text>)
    ensures r.Some? <==> 0x3a in s
    ensures r.Some? ==> r.value + [0x3a] <= s && 0x3a !in r.value
  {
    if s == [] then None
    else if s[0] == 0x3a then Some([])
    else
      match BeforeColon(s[1..])
      case None => None
      case Some(rest) => Some([s[0]] + rest)
  }

  function Digits(n: nat): (r: Text) {
    if n < 10 then [0x30 + n] else Digits(n / 10) + [0x30 + n % 10]
  }

  function Decimal(n: int): (r: Text) {
    if n < 0 then [0x2d] + Digits(-n) else Digits(n)
  }

  // ----- values -----

  datatype SettingValue =
    | BooleanSetting(b: bool)
    | IntegerSetting(i: int)
    | TextSetting(text: Text)
    | KeywordSetting(keyword: Text)
    | BytesSetting(bytes: seq<byte>)
    | RangeSetting(lower: int, upper: int) // the source's list of the two integers

  function Normalized(v: Value): (r: Option<SettingValue>) {
    match v.data
    case Boolean(b) => Some(BooleanSetting(b))
    case Integer(i) => Some(IntegerSetting(i))
    case Enum(e) => Some(IntegerSetting(e))
    case Octets(bytes) =>
      (match v.tag
       case Keyword => if Utf8(bytes) then Some(KeywordSetting(bytes)) else None
       case TextWithLanguage => NormalizedText(bytes)
       case TextWithoutLanguage => NormalizedText(bytes)
       case NameWithLanguage => NormalizedText(bytes)
       case NameWithoutLanguage => NormalizedText(bytes)
       case _ => Some(BytesSetting(bytes)))
    case RangeOfInteger(lower, upper) => Some(RangeSetting(lower, upper))
    case DateTime(octets) => Some(BytesSetting(octets))
    case Resolution(crossFeed, feed, units) =>
      Some(TextSetting(Decimal(crossFeed) + [0x78] + Decimal(feed) + [0x40] + Decimal(units)))
    case OutOfBand => None
    case Collection(_) => None
  }

  function NormalizedText(bytes: seq<byte>): (r: Option<SettingValue>) {
    if Utf8(bytes) then Some(TextSetting(bytes)) else None
  }

  predicate ValueMatches(requested: Value, allowed: Value) {
    if allowed.tag == AdminDefine &&
      (requested.tag == NameWithLanguage || requested.tag == NameWithoutLanguage) then true
    else if allowed.data == Boolean(true) then true
    else if requested.data.Integer? && allowed.data.RangeOfInteger? then
      allowed.data.lower <= requested.data.i <= allowed.data.upper
    else if requested.data.RangeOfInteger? && allowed.data.RangeOfInteger? then
      allowed.data.lower <= requested.data.lower && requested.data.upper <= allowed.data.upper
    else if requested.data.Octets? && allowed.data.Octets? && requested.tag == Uri && allowed.tag == UriScheme then
      var scheme := BeforeColon(requested.data.bytes);
      Utf8(requested.data.bytes) && scheme.Some? && Utf8(allowed.data.bytes)
      && Lower(scheme.value) == Lower(allowed.data.bytes)
    else requested == allowed
  }

  predicate AdmitsNames(tag: ValueTag, allowed: Value) {
    allowed.tag == AdminDefine && (tag == NameWithLanguage || tag == NameWithoutLanguage)
  }

  /** A requested range is admitted by an advertised range exactly when every integer in it is; one whose ends are the
      wrong way round is compared by its ends alone. */
  lemma RangeMatchesAllIntegers(tag: ValueTag, lower: i32, upper: i32, allowed: Value)
    requires allowed.data.RangeOfInteger?
    ensures lower <= upper ==>
      (ValueMatches(Value(tag, RangeOfInteger(lower, upper)), allowed)
       <==> forall i: i32 :: lower <= i <= upper ==> ValueMatches(Value(tag, Integer(i)), allowed))
    ensures lower > upper ==>
      (ValueMatches(Value(tag, RangeOfInteger(lower, upper)), allowed)
       <==> AdmitsNames(tag, allowed) || (allowed.data.lower <= lower && upper <= allowed.data.upper))
  {
    if lower <= upper && forall i: i32 :: lower <= i <= upper ==> ValueMatches(Value(tag, Integer(i)), allowed) {
      assert ValueMatches(Value(tag, Integer(lower)), allowed) && ValueMatches(Value(tag, Integer(upper)), allowed);
    }
  }

  predicate MatchesAny(requested: Value, allowed: seq<Value>) {
    exists i :: 0 <= i < |allowed| && ValueMatches(requested, allowed[i])
  }

  predicate CompatibleSyntax(current: ValueTag, requested: ValueTag) {
    || current == requested
    || (current in {TextWithLanguage, TextWithoutLanguage} && requested in {TextWithLanguage, TextWithoutLanguage})
    || (current in {NameWithLanguage, NameWithoutLanguage} && requested in {NameWithLanguage, NameWithoutLanguage})
  }

  // ----- observations -----

  function AllAttributes(groups: seq<Group>): (r: seq<Attribute>) {
    if groups == [] then [] else groups[0].attributes + AllAttributes(groups[1..])
  }

  /** Position `i` holds the first attribute of a name. */
  predicate FirstNamed(attributes: seq<Attribute>, name: Text, i: nat) {
    i < |attributes| && attributes[i].name == name && forall j :: 0 <= j < i ==> attributes[j].name != name
  }

  function FindIn(attributes: seq<Attribute>, name: Text): (r: Option<Attribute>) {
    if attributes == [] then None
    else if attributes[0].name == name then Some(attributes[0])
    else FindIn(attributes[1..], name)
  }

  lemma {:induction false} FindsFirst(attributes: seq<Attribute>, name: Text)
    ensures FindIn(attributes, name).None? <==> forall i :: 0 <= i < |attributes| ==> attributes[i].name != name
    ensures FindIn(attributes, name).Some? ==>
      exists i: nat :: FirstNamed(attributes, name, i) && attributes[i] == FindIn(attributes, name).value
  {
    if attributes != [] {
      if attributes[0].name == name {
        assert FirstNamed(attributes, name, 0);
      } else {
        var rest := attributes[1..];
        FindsFirst(rest, name);
        assert forall i :: 0 < i < |attributes| ==> attributes[i] == rest[i - 1];
        if FindIn(rest, name).Some? {
          var k: nat :| FirstNamed(rest, name, k) && rest[k] == FindIn(rest, name).value;
          assert FirstNamed(attributes, name, k + 1);
        }
      }
    }
  }

  function Find(m: Message, name: Text): (r: Option<Attribute>) {
    FindIn(AllAttributes(m.groups), name)
  }

  predicate Advertises(m: Message, operation: i32) {
    var a := Find(m, Ascii("operations-supported"));
    a.Some? && exists i :: 0 <= i < |a.value.values| && a.value.values[i].data == Enum(operation)
  }

  predicate IsKeyword(v: Value) {
    v.tag == Keyword && v.data.Octets? && Utf8(v.data.bytes) && v.data.bytes != []
  }

  /** The settable attribute names; `None` when the metadata is missing, empty or malformed. */
  function Settable(m: Message): (r: Option<set<Text>>) {
    var a := Find(m, Ascii("printer-settable-attributes-supported"));
    if a.None? then None
    else
      var names := Keywords(a.value.values);
      if names.None? || names.value == {} then None else names
  }

  function Keywords(values: seq<Value>): (r: Option<set<Text>>) {
    if values == [] then Some({})
    else if !IsKeyword(values[0]) then None
    else
      match Keywords(values[1..])
      case None => None
      case Some(rest) => Some({values[0].data.bytes} + rest)
  }

  predicate HasKeyword(values: seq<Value>, name: Text) {
    exists i :: 0 <= i < |values| && IsKeyword(values[i]) && values[i].data.bytes == name
  }

  lemma {:induction false} KeywordsExact(values: seq<Value>, name: Text)
    ensures Keywords(values).Some? <==> forall i :: 0 <= i < |values| ==> IsKeyword(values[i])
    ensures Keywords(values).Some? ==> (name in Keywords(values).value <==> HasKeyword(values, name))
    ensures Keywords(values).Some? ==> (Keywords(values).value == {} <==> values == [])
  {
    hide Utf8;
    if values != [] {
      var rest := values[1..];
      KeywordsExact(rest, name);
      assert forall i :: 0 < i < |values| ==> values[i] == rest[i - 1];
      if HasKeyword(rest, name) {
        var i :| 0 <= i < |rest| && IsKeyword(rest[i]) && rest[i].data.bytes == name;
        assert values[i + 1] == rest[i];
      }
      if HasKeyword(values, name) && !(IsKeyword(values[0]) && values[0].data.bytes == name) {
        var i :| 0 <= i < |values| && IsKeyword(values[i]) && values[i].data.bytes == name;
        assert rest[i - 1] == values[i];
      }
    }
  }

  /** The metadata is usable exactly when the first such attribute has values and all are non-empty UTF-8 keywords; the
      settable names are then exactly those keywords. */
  lemma SettableExact(m: Message, name: Text)
    ensures var a := Find(m, Ascii("printer-settable-attributes-supported"));
            && (Settable(m).Some? <==>
                  a.Some? && a.value.values != [] &&
                  forall i :: 0 <= i < |a.value.values| ==> IsKeyword(a.value.values[i]))
            && (Settable(m).Some? ==> (name in Settable(m).value <==> HasKeyword(a.value.values, name)))
  {
    hide Find, IsKeyword, Ascii, HasKeyword;
    var a := Find(m, Ascii("printer-settable-attributes-supported"));
    if a.Some? {
      KeywordsExact(a.value.values, name);
    }
  }

  datatype SupportedValues = SupportedValues(attributes: map<Text, seq<Value>>, unsupported: set<Text>)

  datatype ChangeError =
    | UnsuccessfulObservation | OperationNotAdvertised | MalformedSettable | NotSettableAttribute | CurrentValueMissing
    | IncompatibleValue | SupportedValuesRequired | MissingValueConstraints | RequestedValueNotSupported
    | Expired | StaleBinding(what: string) | StaleValue
    | MalformedSupportedValues

  /** An attribute with the tag of its group. */
  datatype Entry = Entry(tag: byte, attribute: Attribute)

  function EntriesIn(tag: byte, attributes: seq<Attribute>): (r: seq<Entry>) {
    seq(|attributes|, i requires 0 <= i < |attributes| => Entry(tag, attributes[i]))
  }

  /** The attributes of all groups, in order. */
  function Entries(groups: seq<Group>): (r: seq<Entry>) {
    if groups == [] then [] else EntriesIn(groups[0].tag, groups[0].attributes) + Entries(groups[1..])
  }

  predicate IsUnsupported(e: Entry) {
    e.tag == UNSUPPORTED_ATTRIBUTES_TAG
  }

  predicate IsPrinters(e: Entry) {
    e.tag == PRINTER_ATTRIBUTES_TAG
  }

  predicate Acceptable(e: Entry) {
    Utf8(e.attribute.name) && (IsPrinters(e) ==> EndsWith(e.attribute.name, Ascii("-supported")))
  }

  predicate AllAcceptable(entries: seq<Entry>) {
    forall i :: 0 <= i < |entries| ==> Acceptable(entries[i])
  }

  /** The answer to Get-Printer-Supported-Values, attribute by attribute; a later one of a name replaces an
      earlier one. */
  function ParseEntries(entries: seq<Entry>): (r: Result<SupportedValues, ChangeError>) {
    if entries == [] then Ok(SupportedValues(map[], {}))
    else
      match ParseEntries(entries[..|entries| - 1])
      case Err(e) => Err(e)
      case Ok(parsed) =>
        var e := entries[|entries| - 1];
        if !Acceptable(e) then Err(MalformedSupportedValues)
        else if IsUnsupported(e) then Ok(parsed.(unsupported := parsed.unsupported + {e.attribute.name}))
        else if IsPrinters(e) then
          Ok(parsed.(attributes := parsed.attributes[e.attribute.name := e.attribute.values]))
        else Ok(parsed)
  }

  function ParseSupported(m: Message): (r: Result<SupportedValues, ChangeError>) {
    if m.code >= 0x0100 then Err(MalformedSupportedValues) else ParseEntries(Entries(m.groups))
  }

  predicate PrintersEntry(e: Entry, name: Text) {
    IsPrinters(e) && e.attribute.name == name
  }

  /** Entry `i` is the last of the printer group with a name. */
  predicate LastPrinters(entries: seq<Entry>, name: Text, i: nat) {
    && i < |entries| && PrintersEntry(entries[i], name)
    && forall j :: i < j < |entries| ==> !PrintersEntry(entries[j], name)
  }

  predicate ListsUnsupported(entries: seq<Entry>, name: Text) {
    exists i :: 0 <= i < |entries| && IsUnsupported(entries[i]) && entries[i].attribute.name == name
  }

  /** What an accepted answer says about one name. */
  ghost predicate SaysOf(entries: seq<Entry>, parsed: SupportedValues, name: Text) {
    && (name in parsed.unsupported <==> ListsUnsupported(entries, name))
    && (name in parsed.attributes <==> exists i: nat :: LastPrinters(entries, name, i))
    && (forall i: nat :: LastPrinters(entries, name, i) ==>
          name in parsed.attributes && parsed.attributes[name] == entries[i].attribute.values)
  }

  lemma {:induction false} ParseEntriesExact(entries: seq<Entry>, name: Text)
    ensures ParseEntries(entries).Ok? <==> AllAcceptable(entries)
    ensures ParseEntries(entries).Ok? ==> SaysOf(entries, ParseEntries(entries).value, name)
  {
    hide Acceptable;
    if entries != [] {
      var front, last := entries[..|entries| - 1], entries[|entries| - 1];
      ParseEntriesExact(front, name);
      assert entries == front + [last];
      if ParseEntries(entries).Ok? {
        OneMoreEntry(front, last, ParseEntries(front).value, ParseEntries(entries).value, name);
      }
    }
  }

  lemma OneMoreEntry(front: seq<Entry>, last: Entry, before: SupportedValues, after: SupportedValues, name: Text)
    requires SaysOf(front, before, name)
    requires after == if IsUnsupported(last) then before.(unsupported := before.unsupported + {last.attribute.name})
                      else if IsPrinters(last) then
                        before.(attributes := before.attributes[last.attribute.name := last.attribute.values])
                      else before
    ensures SaysOf(front + [last], after, name)
  {
    var all := front + [last];
    var added := IsUnsupported(last) && last.attribute.name == name;
    assert ListsUnsupported(all, name) <==> ListsUnsupported(front, name) || added by {
      if ListsUnsupported(front, name) {
        var i :| 0 <= i < |front| && IsUnsupported(front[i]) && front[i].attribute.name == name;
        assert all[i] == front[i];
      }
      assert all[|front|] == last;
    }
    if PrintersEntry(last, name) {
      assert LastPrinters(all, name, |front|);
    } else {
      forall i: nat ensures LastPrinters(all, name, i) <==> LastPrinters(front, name, i) {
        LastStays(front, last, name, i);
      }
    }
  }

  lemma LastStays(front: seq<Entry>, last: Entry, name: Text, i: nat)
    requires !PrintersEntry(last, name)
    ensures LastPrinters(front + [last], name, i) <==> LastPrinters(front, name, i)
  {
    var all := front + [last];
    assert all[|front|] == last;
    if LastPrinters(all, name, i) {
      assert forall j :: i < j < |front| ==> all[j] == front[j];
    }
    if LastPrinters(front, name, i) {
      assert forall j :: i < j < |all| ==> j == |front| || all[j] == front[j];
    }
  }

  /** An answer is accepted exactly when it was successful, all names are UTF-8 and those of the printer group end in
      `-supported`; it then lists exactly the names of the unsupported group, and maps a name to the values of its last
      attribute in the printer group. */
  lemma ParseSupportedExact(m: Message, name: Text)
    ensures ParseSupported(m).Ok? <==> m.code < 0x0100 && AllAcceptable(Entries(m.groups))
    ensures ParseSupported(m).Ok? ==> SaysOf(Entries(m.groups), ParseSupported(m).value, name)
  {
    hide Entries, AllAcceptable, SaysOf;
    var entries := Entries(m.groups);
    ParseEntriesExact(entries, name);
    assert m.code < 0x0100 ==> ParseSupported(m) == ParseEntries(entries);
  }

  // ----- constraints -----

  function BaseOf(setting: Text): (r: Text)
    requires EndsWith(setting, Ascii("-default"))
  {
    setting[..|setting| - |Ascii("-default")|]
  }

  function ConstraintError(m: Message, supported: Option<SupportedValues>, setting: Text,
                           requested: Value): (e: Option<ChangeError>) {
    if EndsWith(setting, Ascii("-supported")) then
      if !Advertises(m, GET_PRINTER_SUPPORTED_VALUES) || supported.None? then Some(SupportedValuesRequired)
      else if setting in supported.value.unsupported then Some(RequestedValueNotSupported)
      else if setting !in supported.value.attributes then Some(MissingValueConstraints)
      else if !MatchesAny(requested, supported.value.attributes[setting]) then Some(RequestedValueNotSupported)
      else None
    else if EndsWith(setting, Ascii("-default")) then
      var a := Find(m, BaseOf(setting) + Ascii("-supported"));
      if a.None? then Some(MissingValueConstraints)
      else if !MatchesAny(requested, a.value.values) then Some(RequestedValueNotSupported)
      else None
    else None
  }

  // ----- planning and validating -----

  datatype Request = Request(printerId: Text, generation: nat, setting: Text, requested: Value, principal: Text,
                             protocol: Text, expiresAt: nat)

  datatype ChangePlan = ChangePlan(printerId: Text, generation: nat, setting: Text, expectedOld: Digest,
                                   requestedValue: SettingValue, requestedProtocolValue: Value, principal: Text,
                                   protocol: Text, expiresAt: nat)

  datatype Binding = Binding(printerId: Text, generation: nat, principal: Text, protocol: Text, now: nat)

  function PlanChange(m: Message, supported: Option<SupportedValues>, request: Request, hash: Attribute -> Digest)
    : (r: Result<ChangePlan, ChangeError>)
  {
    if m.code >= 0x0100 then Err(UnsuccessfulObservation)
    else if !Advertises(m, SET_PRINTER_ATTRIBUTES) then Err(OperationNotAdvertised)
    else if Settable(m).None? then Err(MalformedSettable)
    else if request.setting !in Settable(m).value then Err(NotSettableAttribute)
    else
      var current := Find(m, request.setting);
      if current.None? then Err(CurrentValueMissing)
      else if current.value.values == [] ||
              (!EndsWith(request.setting, Ascii("-supported")) &&
               exists i :: 0 <= i < |current.value.values| &&
                           !CompatibleSyntax(current.value.values[i].tag, request.requested.tag)) then
        Err(IncompatibleValue)
      else
        var e := ConstraintError(m, supported, request.setting, request.requested);
        if e.Some? then Err(e.value)
        else
          match Normalized(request.requested)
          case None => Err(IncompatibleValue)
          case Some(v) => Ok(ChangePlan(request.printerId, request.generation, request.setting, hash(current.value), v,
                                        request.requested, request.principal, request.protocol, request.expiresAt))
  }

  function ValidationError(plan: ChangePlan, m: Message, supported: Option<SupportedValues>, binding: Binding,
                           hash: Attribute -> Digest): (e: Option<ChangeError>)
  {
    if binding.now >= plan.expiresAt then Some(Expired)
    else if binding.printerId != plan.printerId then Some(StaleBinding("printer ID"))
    else if binding.generation != plan.generation then Some(StaleBinding("endpoint generation"))
    else if binding.principal != plan.principal then Some(StaleBinding("principal"))
    else if binding.protocol != plan.protocol then Some(StaleBinding("protocol"))
    else if !Advertises(m, SET_PRINTER_ATTRIBUTES) then Some(OperationNotAdvertised)
    else if Settable(m).None? then Some(MalformedSettable)
    else if plan.setting !in Settable(m).value then Some(NotSettableAttribute)
    else
      var current := Find(m, plan.setting);
      if current.None? then Some(CurrentValueMissing)
      else if hash(current.value) != plan.expectedOld then Some(StaleValue)
      else ConstraintError(m, supported, plan.setting, plan.requestedProtocolValue)
  }

  /** The requested value lies within what the printer says it supports: the separately read values for an
      `xxx-supported` setting, the observed `xxx-supported` for an `xxx-default` one. */
  predicate WithinConstraints(m: Message, supported: Option<SupportedValues>, setting: Text, requested: Value) {
    if EndsWith(setting, Ascii("-supported")) then
      && Advertises(m, GET_PRINTER_SUPPORTED_VALUES) && supported.Some? && setting !in supported.value.unsupported
      && setting in supported.value.attributes && MatchesAny(requested, supported.value.attributes[setting])
    else if EndsWith(setting, Ascii("-default")) then
      var a := Find(m, BaseOf(setting) + Ascii("-supported"));
      a.Some? && MatchesAny(requested, a.value.values)
    else true
  }

  /** All that must hold of the observation read directly before a write. */
  predicate Confirmed(plan: ChangePlan, m: Message, supported: Option<SupportedValues>, binding: Binding,
                      hash: Attribute -> Digest) {
    && binding == Binding(plan.printerId, plan.generation, plan.principal, plan.protocol, binding.now)
    && binding.now < plan.expiresAt
    && Advertises(m, SET_PRINTER_ATTRIBUTES)
    && Settable(m).Some? && plan.setting in Settable(m).value
    && Find(m, plan.setting).Some? && hash(Find(m, plan.setting).value) == plan.expectedOld
    && WithinConstraints(m, supported, plan.setting, plan.requestedProtocolValue)
  }

  /** The same in terms of the answer the supported values were read from: its last printer attribute of that name
      admits the value, and the name is not listed as unsupported. */
  lemma ConstraintsFromAnswer(m: Message, answer: Message, setting: Text, requested: Value)
    requires ParseSupported(answer).Ok? && EndsWith(setting, Ascii("-supported"))
    ensures var entries := Entries(answer.groups);
            WithinConstraints(m, Some(ParseSupported(answer).value), setting, requested)
            <==> Advertises(m, GET_PRINTER_SUPPORTED_VALUES) && !ListsUnsupported(entries, setting) &&
                 exists i: nat :: LastPrinters(entries, setting, i) &&
                   MatchesAny(requested, entries[i].attribute.values)
  {
    hide Entries, ParseSupported, Advertises, MatchesAny, ListsUnsupported, EndsWith, Ascii;
    ParseSupportedExact(answer, setting);
    var entries, parsed := Entries(answer.groups), ParseSupported(answer).value;
    if setting in parsed.attributes {
      var i: nat :| LastPrinters(entries, setting, i);
      assert parsed.attributes[setting] == entries[i].attribute.values;
    }
  }

  /** What a licensing observation says, read off its attributes. */
  lemma ConfirmedReads(plan: ChangePlan, m: Message, supported: Option<SupportedValues>, binding: Binding,
                       hash: Attribute -> Digest)
    requires Confirmed(plan, m, supported, binding, hash)
    ensures var a := Find(m, Ascii("printer-settable-attributes-supported"));
            && a.Some? && a.value.values != [] && HasKeyword(a.value.values, plan.setting)
            && forall i :: 0 <= i < |a.value.values| ==> IsKeyword(a.value.values[i])
  {
    hide Find, Advertises, WithinConstraints, Settable, IsKeyword, HasKeyword, Ascii;
    SettableExact(m, plan.setting);
  }

  lemma ConstraintsExact(m: Message, supported: Option<SupportedValues>, setting: Text, requested: Value)
    ensures ConstraintError(m, supported, setting, requested).None? <==>
      WithinConstraints(m, supported, setting, requested)
  {
    hide Find, Advertises, MatchesAny, Ascii, EndsWith;
  }

  /** Validation accepts exactly the confirmed observations. */
  lemma ValidationExact(plan: ChangePlan, m: Message, supported: Option<SupportedValues>, binding: Binding,
                        hash: Attribute -> Digest)
    ensures ValidationError(plan, m, supported, binding, hash).None? <==> Confirmed(plan, m, supported, binding, hash)
  {
    hide Find, Advertises, Settable, ConstraintError, WithinConstraints;
    ConstraintsExact(m, supported, plan.setting, plan.requestedProtocolValue);
  }

  /** A fresh plan validates on the observation it was made from, for exactly the bindings it names
      before it expires. */
  lemma FreshPlanValidates(m: Message, supported: Option<SupportedValues>, request: Request, binding: Binding,
                           hash: Attribute -> Digest)
    requires PlanChange(m, supported, request, hash).Ok?
    ensures var plan := PlanChange(m, supported, request, hash).value;
            ValidationError(plan, m, supported, binding, hash).None?
            <==> binding == Binding(request.printerId, request.generation, request.principal, request.protocol,
                                    binding.now)
                 && binding.now < request.expiresAt
  {
    hide Find, Advertises, Settable, ConstraintError, Normalized;
  }

  // ----- verification -----

  /** Exactly one value, normalizing to the requested one. */
  predicate Applied(plan: ChangePlan, m: Message) {
    var a := Find(m, plan.setting);
    a.Some? && |a.value.values| == 1 && Normalized(a.value.values[0]) == Some(plan.requestedValue)
  }

  /** Rebuilding a plan from a confirmation requires a value that normalizes. */
  function PlanFromWire(printerId: Text, generation: nat, setting: Text, expectedOld: Digest, requested: Value,
                        principal: Text, expiresAt: nat): (r: Option<ChangePlan>)
  {
    match Normalized(requested)
    case None => None
    case Some(v) => Some(ChangePlan(printerId, generation, setting, expectedOld, v, requested, principal,
                                    Ascii("ipp"), expiresAt))
  }

  /** The plan an agent rebuilds from a confirmation is the plan that was confirmed. */
  lemma ConfirmationRebuildsPlan(m: Message, supported: Option<SupportedValues>, request: Request,
                                 hash: Attribute -> Digest)
    requires request.protocol == Ascii("ipp") && PlanChange(m, supported, request, hash).Ok?
    ensures var plan := PlanChange(m, supported, request, hash).value;
            PlanFromWire(plan.printerId, plan.generation, plan.setting, plan.expectedOld, plan.requestedProtocolValue,
                         plan.principal, plan.expiresAt) == Some(plan)
  {
    hide Find, Advertises, Settable, ConstraintError, Normalized;
  }
}
