/** What the planner reads off a printer's answers, octet by octet and attribute by attribute
    (crates/mb-printer-core/src/administration.rs): when a plan is made and why a change is refused. */
module Observations {
  import opened Bytes
  import opened IppModel
  import opened Administration
  import Utf8Text

  // ----- names, keywords and operations -----

  lemma EndsWithExact(name: Text, suffix: Text)
    ensures EndsWith(name, suffix) <==> exists base :: name == base + suffix
  {
    if EndsWith(name, suffix) {
      assert name == name[..|name| - |suffix|] + suffix;
    }
    if base :| name == base + suffix {
      assert name[|base|..] == suffix;
    }
  }

  lemma AsciiOctets(s: string)
    requires forall i :: 0 <= i < |s| ==> s[i] as int < 0x100
    ensures |Ascii(s)| == |s| && forall i :: 0 <= i < |s| ==> Ascii(s)[i] == s[i] as int
  {
  }

  /** The name of a default setting names its supported values: `xxx-default` goes with `xxx-supported`. */
  lemma BaseExact(base: Text)
    ensures EndsWith(base + Ascii("-default"), Ascii("-default")) && BaseOf(base + Ascii("-default")) == base
  {
    EndsWithExact(base + Ascii("-default"), Ascii("-default"));
    assert (base + Ascii("-default"))[..|base|] == base;
  }

  /** A keyword is a non-empty text under the keyword tag. */
  lemma KeywordExact(v: Value)
    ensures IsKeyword(v) <==> exists s: string :: s != "" && v == Value(Keyword, Octets(Utf8Text.Encode(s)))
  {
    if IsKeyword(v) {
      var s := Utf8Text.ValidIsEncoded(v.data.bytes);
      assert v == Value(Keyword, Octets(Utf8Text.Encode(s)));
    }
    if s: string :| s != "" && v == Value(Keyword, Octets(Utf8Text.Encode(s))) {
      Utf8Text.EncodedIsValid(s);
      assert |Utf8Text.EncodeChar(s[0])| > 0;
    }
  }

  /** How many attributes precede group `g`. */
  function Offset(groups: seq<Group>, g: nat): (n: nat)
    requires g <= |groups|
  {
    if g == 0 then 0 else Offset(groups, g - 1) + |groups[g - 1].attributes|
  }

  lemma {:induction false} OffsetShifts(groups: seq<Group>, g: nat)
    requires 0 < g <= |groups|
    ensures Offset(groups, g) == |groups[0].attributes| + Offset(groups[1..], g - 1)
  {
    if g > 1 {
      OffsetShifts(groups, g - 1);
    }
  }

  /** The attributes of a message, and its entries with the tag of their group, are those of its groups one after
      another. */
  lemma {:induction false} InGroupOrder(groups: seq<Group>, g: nat, i: nat)
    requires g < |groups| && i < |groups[g].attributes|
    ensures |AllAttributes(groups)| == |Entries(groups)| == Offset(groups, |groups|)
    ensures Offset(groups, g) + i < Offset(groups, |groups|)
    ensures AllAttributes(groups)[Offset(groups, g) + i] == groups[g].attributes[i]
    ensures Entries(groups)[Offset(groups, g) + i] == Entry(groups[g].tag, groups[g].attributes[i])
  {
    AttributeCount(groups);
    OffsetShifts(groups, |groups|);
    OffsetGrows(groups, g);
    if g > 0 {
      OffsetShifts(groups, g);
      InGroupOrder(groups[1..], g - 1, i);
    }
  }

  lemma {:induction false} OffsetGrows(groups: seq<Group>, g: nat)
    requires g < |groups|
    ensures Offset(groups, g) + |groups[g].attributes| <= Offset(groups, |groups|)
    decreases |groups| - g
  {
    if g + 1 < |groups| {
      OffsetGrows(groups, g + 1);
    }
  }

  lemma {:induction false} AttributeCount(groups: seq<Group>)
    ensures |AllAttributes(groups)| == |Entries(groups)| == Offset(groups, |groups|)
  {
    if groups != [] {
      OffsetShifts(groups, |groups|);
      AttributeCount(groups[1..]);
    }
  }

  ghost predicate Lists(m: Message, name: Text, data: ValueData) {
    exists a: Attribute, i :: Find(m, name) == Some(a) && 0 <= i < |a.values| && a.values[i].data == data
  }

  /** Set-Printer-Attributes is operation 0x13 and Get-Printer-Supported-Values operation 0x15. */
  lemma AdvertisesExact(m: Message)
    ensures Advertises(m, SET_PRINTER_ATTRIBUTES) <==> Lists(m, Ascii("operations-supported"), Enum(0x13))
    ensures Advertises(m, GET_PRINTER_SUPPORTED_VALUES) <==> Lists(m, Ascii("operations-supported"), Enum(0x15))
  {
    hide Find, Ascii;
    forall n: i32 ensures Advertises(m, n) <==> Lists(m, Ascii("operations-supported"), Enum(n)) {
      var a := Find(m, Ascii("operations-supported"));
      if Advertises(m, n) {
        var i :| 0 <= i < |a.value.values| && a.value.values[i].data == Enum(n);
        assert a == Some(a.value) && a.value.values[i].data == Enum(n);
      }
    }
  }

  /** In an answer about supported values, names must be UTF-8, those in the printer group (tag 4) must end in
      `-supported`, and those in the unsupported group (tag 5) are the unsupported ones. */
  lemma AcceptableExact(e: Entry)
    ensures Acceptable(e) <==>
      && (exists s: string :: e.attribute.name == Utf8Text.Encode(s))
      && (e.tag == 4 ==> exists base :: e.attribute.name == base + Ascii("-supported"))
    ensures IsUnsupported(e) <==> e.tag == 5
    ensures IsPrinters(e) <==> e.tag == 4
  {
    hide Ascii, EndsWith;
    Utf8Text.ValidIffEncoded(e.attribute.name);
    EndsWithExact(e.attribute.name, Ascii("-supported"));
  }

  // ----- when a plan is made -----

  /** The current value of the setting has only values that the requested one may replace; a list of supported values
      may be replaced by any. */
  predicate Replaceable(a: Attribute, setting: Text, requested: Value) {
    && a.values != []
    && (EndsWith(setting, Ascii("-supported")) ||
        forall i :: 0 <= i < |a.values| ==> CompatibleSyntax(a.values[i].tag, requested.tag))
  }

  /** A plan is made exactly when the observation succeeded, the printer can set attributes and lists this one as
      settable, its current value can be replaced by the requested one, the value lies within its constraints and can be
      a setting; the plan then says what was requested, by whom, until when, and what the current value was. */
  lemma PlannedExactly(m: Message, supported: Option<SupportedValues>, request: Request, hash: Attribute -> Digest)
    ensures var r := PlanChange(m, supported, request, hash);
      && (r.Ok? <==>
            && m.code < 0x100 && Advertises(m, SET_PRINTER_ATTRIBUTES)
            && Settable(m).Some? && request.setting in Settable(m).value
            && Find(m, request.setting).Some?
            && Replaceable(Find(m, request.setting).value, request.setting, request.requested)
            && WithinConstraints(m, supported, request.setting, request.requested)
            && Normalized(request.requested).Some?)
      && (r.Ok? ==>
            r.value == ChangePlan(request.printerId, request.generation, request.setting,
                                  hash(Find(m, request.setting).value), Normalized(request.requested).value,
                                  request.requested, request.principal, request.protocol, request.expiresAt))
  {
    hide Find, Advertises, Settable, WithinConstraints, ConstraintError, Normalized, CompatibleSyntax, EndsWith, Ascii;
    ConstraintsExact(m, supported, request.setting, request.requested);
  }

  /** Each reason for refusing a change is a fact about the observation, the binding or the plan. */
  lemma RefusedForReason(plan: ChangePlan, m: Message, supported: Option<SupportedValues>, binding: Binding,
                         hash: Attribute -> Digest)
    requires ValidationError(plan, m, supported, binding, hash).Some?
    ensures match ValidationError(plan, m, supported, binding, hash).value
      case Expired => plan.expiresAt <= binding.now
      case StaleBinding(what) =>
        || (what == "printer ID" && binding.printerId != plan.printerId)
        || (what == "endpoint generation" && binding.generation != plan.generation)
        || (what == "principal" && binding.principal != plan.principal)
        || (what == "protocol" && binding.protocol != plan.protocol)
      case OperationNotAdvertised => !Advertises(m, SET_PRINTER_ATTRIBUTES)
      case MalformedSettable => Settable(m).None?
      case NotSettableAttribute => Settable(m).Some? && plan.setting !in Settable(m).value
      case CurrentValueMissing => Find(m, plan.setting).None?
      case StaleValue => Find(m, plan.setting).Some? && hash(Find(m, plan.setting).value) != plan.expectedOld
      case _ => !WithinConstraints(m, supported, plan.setting, plan.requestedProtocolValue)
  {
    hide Find, Advertises, Settable, EndsWith, Ascii, MatchesAny;
  }

  /** One of several allowed values admits the requested one. */
  lemma MatchesAnyExact(requested: Value, allowed: seq<Value>)
    ensures MatchesAny(requested, allowed) <==> exists v :: v in allowed && ValueMatches(requested, v)
  {
    hide ValueMatches;
    if MatchesAny(requested, allowed) {
      var i :| 0 <= i < |allowed| && ValueMatches(requested, allowed[i]);
      assert allowed[i] in allowed;
    }
  }
}
