/** The IPP encoder (crates/mb-printer-core/src/ipp.rs, `encode` and `Encoder`): every method writes exactly the wire
    form of its argument and counts exactly its cost, and fails exactly when the tree or the limits do not allow it. */
module IppEncode {
  import opened Bytes
  import opened IppModel
  import opened IppWire

  /** The parts of a value, a member and an attribute that must hold for the encoder to accept them. */
  predicate ValueOk(l: Limits, name: seq<byte>, v: Value, depth: nat) {
    FitsRaw(l, name) && Fits(l, v, depth) && Valued(v)
  }

  predicate MemberOk(l: Limits, m: Member, depth: nat) {
    FitsMember(l, m, depth) && m.values != [] && ValuedAll(m.values)
  }

  predicate AttributeOk(l: Limits, a: Attribute) {
    FitsAttribute(l, a) && ValuedAll(a.values) && |a.name| <= l.maxValueBytes
  }

  predicate MembersOk(l: Limits, ms: seq<Member>, depth: nat) {
    forall i :: 0 <= i < |ms| ==> MemberOk(l, ms[i], depth)
  }

  predicate NamedOk(l: Limits, name: seq<byte>, vs: seq<Value>, depth: nat) {
    forall i :: 0 <= i < |vs| ==> ValueOk(l, if i == 0 then name else [], vs[i], depth)
  }

  predicate AttributesOk(l: Limits, attrs: seq<Attribute>) {
    forall i :: 0 <= i < |attrs| ==> AttributeOk(l, attrs[i])
  }

  predicate GroupOk(l: Limits, g: Group) {
    IsDelimiter(g.tag) && AttributesOk(l, g.attributes)
  }

  predicate GroupsOk(l: Limits, gs: seq<Group>) {
    forall i :: 0 <= i < |gs| ==> GroupOk(l, gs[i])
  }

  lemma CollectionOk(l: Limits, name: seq<byte>, v: Value, depth: nat)
    requires IsCollection(v)
    ensures ValueOk(l, name, v, depth) <==>
      FitsRaw(l, name) && depth + 1 <= l.maxCollectionDepth && MembersOk(l, v.data.members, depth + 1)
  {
    hide FitsMember, ValuedAll;
    var ms := v.data.members;
    if MembersOk(l, ms, depth + 1) {
      forall i | 0 <= i < |ms| ensures FitsMember(l, ms[i], depth + 1) && ms[i].values != [] &&
        ValuedAll(ms[i].values) {
        assert MemberOk(l, ms[i], depth + 1);
      }
      assert FitsMembers(l, ms, depth + 1) && ValuedMembers(ms);
    }
    assert FitsMembers(l, ms, depth + 1) && ValuedMembers(ms) ==> MembersOk(l, ms, depth + 1);
  }

  lemma CollectionWire(name: seq<byte>, v: Value)
    requires IsCollection(v)
    ensures WireValue(name, v) == ([0x34] + (LengthBytes(|name|) + name)) + ((LengthBytes(0) + []) +
              (WireMembers(v.data.members) + END_COLLECTION))
  {
    hide WireMembers, LengthBytes;
  }

  lemma ValuesOk(l: Limits, name: seq<byte>, vs: seq<Value>, depth: nat)
    requires vs != []
    ensures NamedOk(l, name, vs, depth) <==> FitsRaw(l, name) && FitsAll(l, vs, depth) && ValuedAll(vs)
  {
    hide Fits, Valued;
    if NamedOk(l, name, vs, depth) {
      assert ValueOk(l, name, vs[0], depth);
      forall i | 0 <= i < |vs| ensures Fits(l, vs[i], depth) && Valued(vs[i]) {
        assert ValueOk(l, if i == 0 then name else [], vs[i], depth);
      }
    }
  }

  lemma NoValues(out: seq<byte>, c: Counters, name: seq<byte>, vs: seq<Value>)
    ensures out + WireNamed(name, vs[|vs|..]) == out && c.Add(CostNamed(name, vs[|vs|..])) == c
  {
    hide WireValue, CostValue;
    assert vs[|vs|..] == [];
    assert out + [] == out;
    ZeroAdd(c);
  }

  lemma NoMore()
    ensures WireMembers([]) == [] && CostMembers([]) == ZERO
    ensures WireAttributes([]) == [] && CostAttributes([]) == ZERO && WireGroups([]) == [] && CostGroups([]) == ZERO
  {
  }

  lemma NextMember(ms: seq<Member>, i: nat)
    requires i < |ms|
    ensures WireMembers(ms[i..]) == WireMember(ms[i]) + WireMembers(ms[i + 1..])
    ensures CostMembers(ms[i..]) == CostMember(ms[i]).Add(CostMembers(ms[i + 1..]))
  {
    hide WireMember, CostMember;
    assert ms[i..][1..] == ms[i + 1..];
  }

  lemma NextNamed(name: seq<byte>, vs: seq<Value>, i: nat)
    requires i < |vs|
    ensures var n := if i == 0 then name else [];
      && WireNamed(n, vs[i..]) == WireValue(n, vs[i]) + WireNamed([], vs[i + 1..])
      && CostNamed(n, vs[i..]) == CostValue(n, vs[i]).Add(CostNamed([], vs[i + 1..]))
  {
    hide WireValue, CostValue;
    assert vs[i..][1..] == vs[i + 1..];
  }

  lemma NextAttribute(attrs: seq<Attribute>, i: nat)
    requires i < |attrs|
    ensures WireAttributes(attrs[i..]) == WireAttribute(attrs[i]) + WireAttributes(attrs[i + 1..])
    ensures CostAttributes(attrs[i..]) == CostAttribute(attrs[i]).Add(CostAttributes(attrs[i + 1..]))
  {
    hide WireAttribute, CostAttribute;
    assert attrs[i..][1..] == attrs[i + 1..];
  }

  lemma NextGroup(gs: seq<Group>, i: nat)
    requires i < |gs|
    ensures WireGroups(gs[i..]) == WireGroup(gs[i]) + WireGroups(gs[i + 1..])
    ensures CostGroups(gs[i..]) == CostGroup(gs[i]).Add(CostGroups(gs[i + 1..]))
  {
    hide WireGroup, CostGroup;
    assert gs[i..][1..] == gs[i + 1..];
  }

  function LimitNamed(l: Limits, kind: string): (r: Option<nat>) {
    if kind == "message bytes" then Some(l.maxMessageBytes)
    else if kind == "groups" then Some(l.maxGroups)
    else if kind == "attributes" then Some(l.maxAttributes)
    else if kind == "values" then Some(l.maxValues)
    else if kind == "name bytes" then Some(l.maxNameBytes)
    else if kind == "value bytes" then Some(l.maxValueBytes)
    else if kind == "decoded bytes" then Some(l.maxDecodedBytes)
    else if kind == "collection depth" then Some(l.maxCollectionDepth)
    else if kind == "collection members" then Some(l.maxCollectionMembers)
    else None
  }

  /** An error about a limit names the limit it is about, and an amount beyond it. */
  predicate Tells(l: Limits, e: EncodeError) {
    !e.InvalidEncodeLimits? && (e.EncodeLimit? ==> LimitNamed(l, e.kind) == Some(e.limit) && e.actual > e.limit)
  }

  lemma NothingFits(l: Limits)
    ensures FitsRaw(l, [])
  {
  }

  lemma DepthTells(l: Limits, depth: nat)
    requires depth > l.maxCollectionDepth
    ensures Tells(l, EncodeLimit("collection depth", depth, l.maxCollectionDepth))
  {
  }

  class Encoder {
    const limits: Limits
    var output: seq<byte>
    var counters: Counters

    constructor (limits: Limits)
      ensures this.limits == limits && output == [] && counters == ZERO
    {
      this.limits := limits;
      output, counters := [], ZERO;
    }

    ghost predicate Valid()
      reads this
    {
      counters.Within(limits) && |output| <= limits.maxMessageBytes
    }

    /** From output `out` and counters `c`: `w` is appended and `k` counted exactly when `ok` holds and the
        message and counter limits leave room for both. */
    ghost predicate Wrote(r: Result<(), EncodeError>, out: seq<byte>, c: Counters, ok: bool, w: seq<byte>, k: Counters)
      reads this
    {
      && (r.Ok? <==> ok && |out| + |w| <= limits.maxMessageBytes && c.Add(k).Within(limits))
      && (r.Ok? ==> output == out + w && counters == c.Add(k))
      && (r.Err? ==> Tells(limits, r.error))
    }

    method Extend(bytes: seq<byte>) returns (r: Result<(), EncodeError>)
      modifies this`output
      ensures r.Ok? <==> |old(output)| + |bytes| <= limits.maxMessageBytes
      ensures r.Ok? ==> output == old(output) + bytes
      ensures r.Err? ==> Tells(limits, r.error)
    {
      var actual := |output| + |bytes|;
      if actual > limits.maxMessageBytes {
        return Err(EncodeLimit("message bytes", actual, limits.maxMessageBytes));
      }
      output := output + bytes;
      r := Ok(());
    }

    method WireBytes(bytes: seq<byte>) returns (r: Result<(), EncodeError>)
      requires Valid()
      modifies this
      ensures Wrote(r, old(output), old(counters), FitsRaw(limits, bytes), LengthBytes(|bytes|) + bytes,
                    Counters(0, 0, 0, 0, |bytes|))
    {
      if |bytes| > 0xffff {
        return Err(WireLengthOverflow);
      }
      if |bytes| > limits.maxValueBytes {
        return Err(EncodeLimit("value bytes", |bytes|, limits.maxValueBytes));
      }
      var actual := counters.decodedBytes + |bytes|;
      if actual > limits.maxDecodedBytes {
        return Err(EncodeLimit("decoded bytes", actual, limits.maxDecodedBytes));
      }
      counters := counters.(decodedBytes := actual);
      var _ :- Extend(U16Bytes(|bytes|));
      r := Extend(bytes);
    }

    method Entry(tag: byte, name: seq<byte>) returns (r: Result<(), EncodeError>)
      requires Valid()
      modifies this
      ensures Wrote(r, old(output), old(counters), FitsRaw(limits, name), [tag] + (LengthBytes(|name|) + name),
                    Counters(0, 0, 1, 0, |name|))
    {
      if counters.values + 1 > limits.maxValues {
        return Err(EncodeLimit("values", counters.values + 1, limits.maxValues));
      }
      counters := counters.(values := counters.values + 1);
      var _ :- Extend([tag]);
      r := WireBytes(name);
    }

    method Scalar(tag: byte, name: seq<byte>, raw: seq<byte>) returns (r: Result<(), EncodeError>)
      requires Valid()
      modifies this
      ensures Wrote(r, old(output), old(counters), FitsRaw(limits, name) && FitsRaw(limits, raw),
                    EntryBytes(tag, name, raw), EntryCost(name, raw))
    {
      assert EntryBytes(tag, name, raw) == ([tag] + (LengthBytes(|name|) + name)) + (LengthBytes(|raw|) + raw);
      var _ :- Entry(tag, name);
      r := WireBytes(raw);
    }

    method WriteValue(name: seq<byte>, v: Value, depth: nat) returns (r: Result<(), EncodeError>)
      requires Valid()
      modifies this
      ensures Wrote(r, old(output), old(counters), ValueOk(limits, name, v, depth), WireValue(name, v),
                    CostValue(name, v))
      decreases v
    {
      if v.tag == BegCollection && v.data.Collection? {
        r := WriteCollection(name, v, depth);
      } else {
        var encoded := EncodeScalar(v);
        if encoded.Err? {
          return Err(encoded.error);
        }
        r := Scalar(ToByte(v.tag), name, encoded.value);
      }
    }

    method WriteCollection(name: seq<byte>, v: Value, depth: nat) returns (r: Result<(), EncodeError>)
      requires Valid() && IsCollection(v)
      modifies this
      ensures Wrote(r, old(output), old(counters), ValueOk(limits, name, v, depth), WireValue(name, v),
                    CostValue(name, v))
      decreases v, 0
    {
      hide WireMembers, CostMembers, MembersOk, EntryBytes, LengthBytes, WireValue, ValueOk, Tells, FitsRaw;
      CollectionOk(limits, name, v, depth);
      CollectionWire(name, v);
      NothingFits(limits);
      var _ :- Entry(0x34, name);
      if depth + 1 > limits.maxCollectionDepth {
        DepthTells(limits, depth + 1);
        return Err(EncodeLimit("collection depth", depth + 1, limits.maxCollectionDepth));
      }
      var _ :- WireBytes([]);
      var _ :- WriteMembers(v.data.members, depth + 1);
      r := Scalar(0x37, [], []);
    }

    method WriteMembers(ms: seq<Member>, depth: nat) returns (r: Result<(), EncodeError>)
      requires Valid()
      modifies this
      ensures Wrote(r, old(output), old(counters), MembersOk(limits, ms, depth), WireMembers(ms), CostMembers(ms))
      decreases ms
    {
      hide WireMember, CostMember, WireMembers, CostMembers, MemberOk;
      assert ms[0..] == ms;
      for i := 0 to |ms|
        invariant Valid()
        invariant forall j :: 0 <= j < i ==> MemberOk(limits, ms[j], depth)
        invariant old(output) + WireMembers(ms) == output + WireMembers(ms[i..])
        invariant old(counters).Add(CostMembers(ms)) == counters.Add(CostMembers(ms[i..]))
      {
        NextMember(ms, i);
        ConcatAssoc(output, WireMember(ms[i]), WireMembers(ms[i + 1..]));
        AddAssoc(counters, CostMember(ms[i]), CostMembers(ms[i + 1..]));
        var _ :- WriteMember(ms[i], depth);
      }
      assert ms[|ms|..] == [];
      NoMore();
      assert output + [] == output;
      ZeroAdd(counters);
      r := Ok(());
    }

    method CountAttribute() returns (r: Result<(), EncodeError>)
      requires Valid()
      modifies this`counters
      ensures Wrote(r, output, old(counters), true, [], Counters(0, 1, 0, 0, 0))
    {
      assert output + [] == output;
      if counters.attributes + 1 > limits.maxAttributes {
        return Err(EncodeLimit("attributes", counters.attributes + 1, limits.maxAttributes));
      }
      counters := counters.(attributes := counters.attributes + 1);
      r := Ok(());
    }

    method WriteMember(m: Member, depth: nat) returns (r: Result<(), EncodeError>)
      requires Valid()
      modifies this
      ensures Wrote(r, old(output), old(counters), MemberOk(limits, m, depth), WireMember(m), CostMember(m))
      decreases m
    {
      hide EntryBytes, WireNamed, CostNamed, NamedOk, FitsAll, ValuedAll;
      if m.name == [] || m.values == [] {
        return Err(InvalidStructure("collection members require a name and at least one value"));
      }
      ValuesOk(limits, [], m.values, depth);
      if counters.members + 1 > limits.maxCollectionMembers {
        return Err(EncodeLimit("collection members", counters.members + 1, limits.maxCollectionMembers));
      }
      counters := counters.(members := counters.members + 1);
      var _ :- CountAttribute();
      if |m.name| > limits.maxNameBytes {
        return Err(EncodeLimit("name bytes", |m.name|, limits.maxNameBytes));
      }
      ConcatAssoc(output, EntryBytes(0x4a, [], m.name), WireNamed([], m.values));
      var _ :- Scalar(0x4a, [], m.name);
      r := WriteNamed([], m.values, depth);
    }

    method WriteNamed(name: seq<byte>, vs: seq<Value>, depth: nat) returns (r: Result<(), EncodeError>)
      requires Valid()
      modifies this
      ensures Wrote(r, old(output), old(counters), NamedOk(limits, name, vs, depth), WireNamed(name, vs),
                    CostNamed(name, vs))
      decreases vs
    {
      hide WireValue, CostValue, WireNamed, CostNamed, ValueOk;
      assert vs[0..] == vs;
      for i := 0 to |vs|
        invariant Valid()
        invariant forall j :: 0 <= j < i ==> ValueOk(limits, if j == 0 then name else [], vs[j], depth)
        invariant old(output) + WireNamed(name, vs) == output + WireNamed(if i == 0 then name else [], vs[i..])
        invariant old(counters).Add(CostNamed(name, vs)) == counters.Add(CostNamed(if i == 0 then name else [],
                                                                                   vs[i..]))
      {
        var n := if i == 0 then name else [];
        NextNamed(name, vs, i);
        ConcatAssoc(output, WireValue(n, vs[i]), WireNamed([], vs[i + 1..]));
        AddAssoc(counters, CostValue(n, vs[i]), CostNamed([], vs[i + 1..]));
        var _ :- WriteValue(n, vs[i], depth);
      }
      NoValues(output, counters, if |vs| == 0 then name else [], vs);
      r := Ok(());
    }

    method WriteAttribute(a: Attribute) returns (r: Result<(), EncodeError>)
      requires Valid()
      modifies this
      ensures Wrote(r, old(output), old(counters), AttributeOk(limits, a), WireAttribute(a), CostAttribute(a))
    {
      hide WireNamed, CostNamed, NamedOk, FitsAll, ValuedAll;
      if a.name == [] || a.values == [] {
        return Err(InvalidStructure("attributes require a non-empty name and at least one value"));
      }
      ValuesOk(limits, a.name, a.values, 0);
      var _ :- CountAttribute();
      if |a.name| > limits.maxNameBytes {
        return Err(EncodeLimit("name bytes", |a.name|, limits.maxNameBytes));
      }
      r := WriteNamed(a.name, a.values, 0);
    }

    method WriteGroup(g: Group) returns (r: Result<(), EncodeError>)
      requires Valid()
      modifies this
      ensures Wrote(r, old(output), old(counters), GroupOk(limits, g), WireGroup(g), CostGroup(g))
    {
      hide WireAttribute, CostAttribute, WireAttributes, CostAttributes, AttributeOk;
      var attrs := g.attributes;
      assert attrs[0..] == attrs;
      if !IsDelimiter(g.tag) {
        return Err(InvalidStructure("attribute group has an invalid delimiter tag"));
      }
      if counters.groups + 1 > limits.maxGroups {
        return Err(EncodeLimit("groups", counters.groups + 1, limits.maxGroups));
      }
      counters := counters.(groups := counters.groups + 1);
      ConcatAssoc(output, [g.tag], WireAttributes(attrs));
      var _ :- Extend([g.tag]);
      for i := 0 to |attrs|
        invariant Valid()
        invariant forall j :: 0 <= j < i ==> AttributeOk(limits, attrs[j])
        invariant old(output) + WireGroup(g) == output + WireAttributes(attrs[i..])
        invariant old(counters).Add(CostGroup(g)) == counters.Add(CostAttributes(attrs[i..]))
      {
        NextAttribute(attrs, i);
        ConcatAssoc(output, WireAttribute(attrs[i]), WireAttributes(attrs[i + 1..]));
        AddAssoc(counters, CostAttribute(attrs[i]), CostAttributes(attrs[i + 1..]));
        var _ :- WriteAttribute(attrs[i]);
      }
      assert attrs[|attrs|..] == [];
      NoMore();
      assert output + [] == output;
      ZeroAdd(counters);
      r := Ok(());
    }

    method WriteGroups(gs: seq<Group>) returns (r: Result<(), EncodeError>)
      requires Valid()
      modifies this
      ensures Wrote(r, old(output), old(counters), GroupsOk(limits, gs), WireGroups(gs), CostGroups(gs))
    {
      hide WireGroup, CostGroup, WireGroups, CostGroups, GroupOk;
      assert gs[0..] == gs;
      for i := 0 to |gs|
        invariant Valid()
        invariant forall j :: 0 <= j < i ==> GroupOk(limits, gs[j])
        invariant old(output) + WireGroups(gs) == output + WireGroups(gs[i..])
        invariant old(counters).Add(CostGroups(gs)) == counters.Add(CostGroups(gs[i..]))
      {
        NextGroup(gs, i);
        ConcatAssoc(output, WireGroup(gs[i]), WireGroups(gs[i + 1..]));
        AddAssoc(counters, CostGroup(gs[i]), CostGroups(gs[i + 1..]));
        var _ :- WriteGroup(gs[i]);
      }
      assert gs[|gs|..] == [];
      NoMore();
      assert output + [] == output;
      ZeroAdd(counters);
      r := Ok(());
    }
  }

  lemma MessageOk(l: Limits, m: Message)
    ensures GroupsOk(l, m.groups) <==> FitsMessage(l, m) && ValuedMessage(m) && ShortNames(l, m)
  {
    hide FitsAttribute, ValuedAll;
    if GroupsOk(l, m.groups) {
      forall i | 0 <= i < |m.groups|
        ensures FitsGroup(l, m.groups[i]) && ValuedGroup(m.groups[i]) && ShortNamesGroup(l, m.groups[i])
      {
        assert GroupOk(l, m.groups[i]);
      }
    }
    if FitsMessage(l, m) && ValuedMessage(m) && ShortNames(l, m) {
      forall i | 0 <= i < |m.groups| ensures GroupOk(l, m.groups[i]) {
        assert FitsGroup(l, m.groups[i]) && ValuedGroup(m.groups[i]) && ShortNamesGroup(l, m.groups[i]);
      }
    }
  }

  lemma FromEmpty(w: seq<byte>)
    ensures [] + w == w
  {
  }

  lemma EncodableParts(l: Limits, m: Message)
    ensures Encodable(l, m) <==>
      && l.Valid() && GroupsOk(l, m.groups) && CostGroups(m.groups).Within(l)
      && |WireHeader(m)| + |WireGroups(m.groups)| + 1 <= l.maxMessageBytes
  {
    hide WireGroups, CostGroups, GroupsOk, FitsMessage, ValuedMessage, ShortNames, WireHeader;
    MessageOk(l, m);
  }

  /** `encode` accepts exactly the encodable messages, writes exactly their wire form, and ends with exactly their cost
      in its counters. */
  method EncodeMessage(m: Message, l: Limits) returns (r: Result<seq<byte>, EncodeError>, ghost counted: Counters)
    ensures r.Ok? <==> Encodable(l, m)
    ensures r.Ok? ==> r.value == WireMessage(m) && counted == CostGroups(m.groups)
    ensures r.Err? ==> if l.Valid() then Tells(l, r.error) else r.error == InvalidEncodeLimits
  {
    hide Encodable, WireGroups, CostGroups, GroupsOk, WireHeader;
    counted := ZERO;
    EncodableParts(l, m);
    if !l.Valid() {
      return Err(InvalidEncodeLimits), counted;
    }
    var e := new Encoder(l);
    var w := WireHeader(m);
    FromEmpty(w);
    ZeroAdd(CostGroups(m.groups));
    ConcatAssoc(w, WireGroups(m.groups), [END_OF_ATTRIBUTES]);
    var header := e.Extend(w);
    if header.Err? {
      assert !Encodable(l, m);
      return Err(header.error), counted;
    }
    var groups := e.WriteGroups(m.groups);
    if groups.Err? {
      assert !Encodable(l, m);
      return Err(groups.error), counted;
    }
    var end := e.Extend([END_OF_ATTRIBUTES]);
    if end.Err? {
      assert !Encodable(l, m);
      return Err(end.error), counted;
    }
    assert Encodable(l, m) && e.counters == CostGroups(m.groups);
    r, counted := Ok(e.output), e.counters;
  }
}
