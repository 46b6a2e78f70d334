/** The wire form of an IPP message and its cost, defined on the tree alone: no limits, no failure, no state.
    Encoder and decoder are both measured against these definitions. */
module IppWire {
  import opened Bytes
  import opened IppModel

  const END_COLLECTION := EntryBytes(0x37, [], [])

  function LengthBytes(n: nat): (r: seq<byte>) {
    U16Bytes(n % 0x1_0000)
  }

  /** One attribute-with-one-value record of section 3.1.4 of RFC 8010. */
  function EntryBytes(tag: byte, name: seq<byte>, raw: seq<byte>): (r: seq<byte>) {
    [tag] + LengthBytes(|name|) + name + LengthBytes(|raw|) + raw
  }

  function Raw(v: Value): (r: seq<byte>) {
    match EncodeScalar(v)
    case Ok(raw) => raw
    case Err(_) => []
  }

  predicate IsCollection(v: Value) {
    v.tag == BegCollection && v.data.Collection?
  }

  function WireValue(name: seq<byte>, v: Value): (r: seq<byte>)
    decreases v
  {
    if IsCollection(v) then EntryBytes(0x34, name, []) + (WireMembers(v.data.members) + END_COLLECTION)
    else EntryBytes(ToByte(v.tag), name, Raw(v))
  }

  /** A set of values: the first carries `name`, every later one an empty name. */
  function WireNamed(name: seq<byte>, vs: seq<Value>): (r: seq<byte>)
    decreases vs
  {
    if vs == [] then [] else WireValue(name, vs[0]) + WireNamed([], vs[1..])
  }

  function WireMember(m: Member): (r: seq<byte>)
    decreases m
  {
    EntryBytes(0x4a, [], m.name) + WireNamed([], m.values)
  }

  function WireMembers(ms: seq<Member>): (r: seq<byte>)
    decreases ms
  {
    if ms == [] then [] else WireMember(ms[0]) + WireMembers(ms[1..])
  }

  function WireAttribute(a: Attribute): (r: seq<byte>) {
    WireNamed(a.name, a.values)
  }

  function WireAttributes(attrs: seq<Attribute>): (r: seq<byte>) {
    if attrs == [] then [] else WireAttribute(attrs[0]) + WireAttributes(attrs[1..])
  }

  function WireGroup(g: Group): (r: seq<byte>) {
    [g.tag] + WireAttributes(g.attributes)
  }

  function WireGroups(gs: seq<Group>): (r: seq<byte>) {
    if gs == [] then [] else WireGroup(gs[0]) + WireGroups(gs[1..])
  }

  function WireHeader(m: Message): (r: seq<byte>) {
    [m.major, m.minor] + U16Bytes(m.code) + U32Bytes(m.requestId)
  }

  function WireMessage(m: Message): (r: seq<byte>) {
    WireHeader(m) + (WireGroups(m.groups) + [END_OF_ATTRIBUTES])
  }

  function EntryCost(name: seq<byte>, raw: seq<byte>): (r: Counters) {
    Counters(0, 0, 1, 0, |name| + |raw|)
  }

  function CostValue(name: seq<byte>, v: Value): (r: Counters)
    decreases v
  {
    if IsCollection(v) then EntryCost(name, []).Add(CostMembers(v.data.members)).Add(EntryCost([], []))
    else EntryCost(name, Raw(v))
  }

  function CostNamed(name: seq<byte>, vs: seq<Value>): (r: Counters)
    decreases vs
  {
    if vs == [] then ZERO else CostValue(name, vs[0]).Add(CostNamed([], vs[1..]))
  }

  function CostMember(m: Member): (r: Counters)
    decreases m
  {
    Counters(0, 1, 1, 1, |m.name|).Add(CostNamed([], m.values))
  }

  function CostMembers(ms: seq<Member>): (r: Counters)
    decreases ms
  {
    if ms == [] then ZERO else CostMember(ms[0]).Add(CostMembers(ms[1..]))
  }

  function CostAttribute(a: Attribute): (r: Counters) {
    Counters(0, 1, 0, 0, 0).Add(CostNamed(a.name, a.values))
  }

  function CostAttributes(attrs: seq<Attribute>): (r: Counters) {
    if attrs == [] then ZERO else CostAttribute(attrs[0]).Add(CostAttributes(attrs[1..]))
  }

  function CostGroup(g: Group): (r: Counters) {
    Counters(1, 0, 0, 0, 0).Add(CostAttributes(g.attributes))
  }

  function CostGroups(gs: seq<Group>): (r: Counters) {
    if gs == [] then ZERO else CostGroup(gs[0]).Add(CostGroups(gs[1..]))
  }

  /** Structure and per-item bounds that both sides enforce. */
  predicate FitsName(l: Limits, name: seq<byte>) {
    |name| <= l.maxNameBytes && |name| < 0x1_0000
  }

  predicate FitsRaw(l: Limits, raw: seq<byte>) {
    |raw| <= l.maxValueBytes && |raw| < 0x1_0000
  }

  predicate Fits(l: Limits, v: Value, depth: nat)
    decreases v
  {
    if IsCollection(v) then
      depth + 1 <= l.maxCollectionDepth && FitsMembers(l, v.data.members, depth + 1)
    else
      EncodeScalar(v).Ok? && FitsRaw(l, EncodeScalar(v).value)
  }

  predicate FitsAll(l: Limits, vs: seq<Value>, depth: nat)
    decreases vs
  {
    forall i :: 0 <= i < |vs| ==> Fits(l, vs[i], depth)
  }

  predicate FitsMember(l: Limits, m: Member, depth: nat)
    decreases m
  {
    m.name != [] && FitsName(l, m.name) && FitsRaw(l, m.name) && FitsAll(l, m.values, depth)
  }

  predicate FitsMembers(l: Limits, ms: seq<Member>, depth: nat)
    decreases ms
  {
    forall i :: 0 <= i < |ms| ==> FitsMember(l, ms[i], depth)
  }

  predicate FitsAttribute(l: Limits, a: Attribute) {
    a.name != [] && FitsName(l, a.name) && a.values != [] && FitsAll(l, a.values, 0)
  }

  predicate FitsGroup(l: Limits, g: Group) {
    IsDelimiter(g.tag) && forall i :: 0 <= i < |g.attributes| ==> FitsAttribute(l, g.attributes[i])
  }

  predicate FitsMessage(l: Limits, m: Message) {
    forall i :: 0 <= i < |m.groups| ==> FitsGroup(l, m.groups[i])
  }

  /** Every value tag in the tree is one the decoder can produce. */
  predicate Canon(v: Value)
    decreases v, 1
  {
    Canonical(v.tag) && CanonInside(v)
  }

  predicate CanonInside(v: Value)
    decreases v, 0
  {
    IsCollection(v) ==> CanonMembers(v.data.members)
  }

  predicate CanonAll(vs: seq<Value>)
    decreases vs, 0
  {
    forall i :: 0 <= i < |vs| ==> Canon(vs[i])
  }

  predicate CanonMembers(ms: seq<Member>)
    decreases ms, 0
  {
    forall i :: 0 <= i < |ms| ==> CanonAll(ms[i].values)
  }

  predicate CanonGroup(g: Group) {
    forall i :: 0 <= i < |g.attributes| ==> CanonAll(g.attributes[i].values)
  }

  predicate CanonMessage(m: Message) {
    forall i :: 0 <= i < |m.groups| ==> CanonGroup(m.groups[i])
  }

  /** Every collection member in the tree has a value; only the encoder insists on it. */
  predicate Valued(v: Value)
    decreases v
  {
    IsCollection(v) ==> ValuedMembers(v.data.members)
  }

  predicate ValuedAll(vs: seq<Value>)
    decreases vs
  {
    forall i :: 0 <= i < |vs| ==> Valued(vs[i])
  }

  predicate ValuedMembers(ms: seq<Member>)
    decreases ms
  {
    forall i :: 0 <= i < |ms| ==> ms[i].values != [] && ValuedAll(ms[i].values)
  }

  predicate ValuedGroup(g: Group) {
    forall i :: 0 <= i < |g.attributes| ==> ValuedAll(g.attributes[i].values)
  }

  predicate ValuedMessage(m: Message) {
    forall i :: 0 <= i < |m.groups| ==> ValuedGroup(m.groups[i])
  }

  /** The encoder also holds attribute names to the value limit, the decoder only to the name limit. */
  predicate ShortNamesGroup(l: Limits, g: Group) {
    forall i :: 0 <= i < |g.attributes| ==> |g.attributes[i].name| <= l.maxValueBytes
  }

  predicate ShortNames(l: Limits, m: Message) {
    forall i :: 0 <= i < |m.groups| ==> ShortNamesGroup(l, m.groups[i])
  }

  /** Exactly the messages `encode` accepts. */
  predicate Encodable(l: Limits, m: Message) {
    && l.Valid() && FitsMessage(l, m) && ValuedMessage(m) && ShortNames(l, m)
    && CostGroups(m.groups).Within(l) && |WireMessage(m)| <= l.maxMessageBytes
  }

  lemma AddAssoc(x: Counters, y: Counters, z: Counters)
    ensures x.Add(y).Add(z) == x.Add(y.Add(z))
  {
  }

  lemma ZeroAdd(x: Counters)
    ensures ZERO.Add(x) == x == x.Add(ZERO)
  {
  }

  lemma {:induction false} NamedConcat(name: seq<byte>, a: seq<Value>, b: seq<Value>)
    ensures WireNamed(name, a + b) == WireNamed(name, a) + WireNamed(if a == [] then name else [], b)
    ensures CostNamed(name, a + b) == CostNamed(name, a).Add(CostNamed(if a == [] then name else [], b))
    decreases |a|
  {
    if a == [] {
      assert a + b == b;
      ZeroAdd(CostNamed(name, b));
    } else {
      assert (a + b)[1..] == a[1..] + b;
      NamedConcat([], a[1..], b);
      assert WireNamed(name, a + b) == WireValue(name, a[0]) + WireNamed([], a[1..] + b);
      assert CostNamed(name, a + b) == CostValue(name, a[0]).Add(CostNamed([], a[1..] + b));
      AddAssoc(CostValue(name, a[0]), CostNamed([], a[1..]), CostNamed([], b));
    }
  }

  lemma {:induction false} WireMembersConcat(a: seq<Member>, b: seq<Member>)
    ensures WireMembers(a + b) == WireMembers(a) + WireMembers(b)
  {
    if a == [] {
      assert a + b == b;
    } else {
      assert (a + b)[1..] == a[1..] + b;
      WireMembersConcat(a[1..], b);
      assert WireMembers(a + b) == WireMember(a[0]) + WireMembers(a[1..] + b);
    }
  }

  lemma {:induction false} CostMembersConcat(a: seq<Member>, b: seq<Member>)
    ensures CostMembers(a + b) == CostMembers(a).Add(CostMembers(b))
  {
    if a == [] {
      assert a + b == b;
      ZeroAdd(CostMembers(b));
    } else {
      assert (a + b)[1..] == a[1..] + b;
      CostMembersConcat(a[1..], b);
      assert CostMembers(a + b) == CostMember(a[0]).Add(CostMembers(a[1..] + b));
      AddAssoc(CostMember(a[0]), CostMembers(a[1..]), CostMembers(b));
    }
  }

  lemma {:induction false} WireAttributesConcat(a: seq<Attribute>, b: seq<Attribute>)
    ensures WireAttributes(a + b) == WireAttributes(a) + WireAttributes(b)
  {
    if a == [] {
      assert a + b == b;
    } else {
      assert (a + b)[1..] == a[1..] + b;
      WireAttributesConcat(a[1..], b);
      assert WireAttributes(a + b) == WireAttribute(a[0]) + WireAttributes(a[1..] + b);
    }
  }

  lemma {:induction false} CostAttributesConcat(a: seq<Attribute>, b: seq<Attribute>)
    ensures CostAttributes(a + b) == CostAttributes(a).Add(CostAttributes(b))
  {
    if a == [] {
      assert a + b == b;
      ZeroAdd(CostAttributes(b));
    } else {
      assert (a + b)[1..] == a[1..] + b;
      CostAttributesConcat(a[1..], b);
      assert CostAttributes(a + b) == CostAttribute(a[0]).Add(CostAttributes(a[1..] + b));
      AddAssoc(CostAttribute(a[0]), CostAttributes(a[1..]), CostAttributes(b));
    }
  }

  lemma {:induction false} WireGroupsConcat(a: seq<Group>, b: seq<Group>)
    ensures WireGroups(a + b) == WireGroups(a) + WireGroups(b)
  {
    if a == [] {
      assert a + b == b;
    } else {
      assert (a + b)[1..] == a[1..] + b;
      WireGroupsConcat(a[1..], b);
      assert WireGroups(a + b) == WireGroup(a[0]) + WireGroups(a[1..] + b);
    }
  }

  lemma {:induction false} CostGroupsConcat(a: seq<Group>, b: seq<Group>)
    ensures CostGroups(a + b) == CostGroups(a).Add(CostGroups(b))
  {
    if a == [] {
      assert a + b == b;
      ZeroAdd(CostGroups(b));
    } else {
      assert (a + b)[1..] == a[1..] + b;
      CostGroupsConcat(a[1..], b);
      assert CostGroups(a + b) == CostGroup(a[0]).Add(CostGroups(a[1..] + b));
      AddAssoc(CostGroup(a[0]), CostGroups(a[1..]), CostGroups(b));
    }
  }
}
