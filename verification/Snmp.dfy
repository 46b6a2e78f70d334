/** SNMP v2c messages (crates/mb-printer-core/src/snmp.rs): object identifiers, requests, and eliding the community. */
module Snmp {
  import opened Bytes
  import opened Ber
  import opened BerValues

  type Oid = seq<u32>

  // ----- object identifiers -----

  predicate WellFormed(o: Oid) {
    |o| >= 2 && o[0] <= 2 && (o[0] < 2 ==> o[1] <= 39)
  }

  /** The first two arcs share one sub-identifier; its arithmetic is that of 32 bits. */
  function SubIdentifiers(o: Oid): (r: seq<u32>)
    requires WellFormed(o)
  {
    [FirstOf(o) % 0x1_0000_0000] + o[2..]
  }

  function FirstOf(o: Oid): (r: nat)
    requires WellFormed(o)
  {
    var root: nat, second: nat := o[0], o[1];
    root * 40 + second
  }

  function ArcOctets(arcs: seq<u32>): (r: seq<byte>) {
    if arcs == [] then [] else Base128(arcs[0]) + ArcOctets(arcs[1..])
  }

  method EncodeOid(o: Oid) returns (r: Result<seq<byte>, SnmpError>)
    ensures r.Ok? <==> WellFormed(o)
    ensures r.Ok? ==> r.value == ArcOctets(SubIdentifiers(o))
    ensures r.Err? ==> r.error == InvalidOid
  {
    hide Base128;
    if |o| < 2 || o[0] > 2 || (o[0] < 2 && o[1] > 39) {
      return Err(InvalidOid);
    }
    var arcs := SubIdentifiers(o);
    var output := [];
    assert arcs[0..] == arcs;
    for i := 0 to |arcs|
      invariant output + ArcOctets(arcs[i..]) == ArcOctets(arcs)
    {
      assert arcs[i..][0] == arcs[i] && arcs[i..][1..] == arcs[i + 1..];
      ConcatAssoc(output, Base128(arcs[i]), ArcOctets(arcs[i + 1..]));
      output := EncodeBase128(arcs[i], output);
    }
    assert arcs[|arcs|..] == [];
    assert output + [] == output;
    r := Ok(output);
  }

  function ArcsFrom(bytes: seq<byte>, cursor: nat): (r: Result<seq<u32>, SnmpError>)
    requires cursor <= |bytes|
    decreases |bytes| - cursor
  {
    if cursor == |bytes| then Ok([])
    else
      match ArcFrom(bytes, cursor, 0, 0)
      case Err(e) => Err(e)
      case Ok((arc, next)) =>
        match ArcsFrom(bytes, next)
        case Err(e) => Err(e)
        case Ok(rest) => Ok([arc] + rest)
  }

  function Split(first: u32): (r: seq<u32>) {
    if first < 40 then [0, first] else if first < 80 then [1, first - 40] else [2, first - 80]
  }

  function DecodeOid(bytes: seq<byte>): (r: Result<Oid, SnmpError>) {
    match ArcsFrom(bytes, 0)
    case Err(e) => Err(e)
    case Ok(arcs) => if arcs == [] then Err(Malformed) else Ok(Split(arcs[0]) + arcs[1..])
  }

  /** One sub-identifier, octet by octet. */
  method ReadArc(bytes: seq<byte>, start: nat) returns (r: Result<(u32, nat), SnmpError>)
    ensures r == ArcFrom(bytes, start, 0, 0)
  {
    var value: u32, count: nat, cursor: nat := 0, 0, start;
    while true
      invariant count <= 5 && ArcFrom(bytes, start, 0, 0) == ArcFrom(bytes, cursor, value, count)
      decreases 5 - count
    {
      if cursor >= |bytes| {
        return Err(Malformed);
      }
      var octet := bytes[cursor];
      if count + 1 > 5 || value > 0x1ff_ffff {
        return Err(Malformed);
      }
      cursor, count := cursor + 1, count + 1;
      value := value * 128 + octet % 128;
      if octet < 0x80 {
        return Ok((value, cursor));
      }
    }
  }

  function Preceded(arcs: seq<u32>, rest: Result<seq<u32>, SnmpError>): (r: Result<seq<u32>, SnmpError>) {
    if rest.Err? then rest else Ok(arcs + rest.value)
  }

  /** All sub-identifiers; the first is then split into two arcs. */
  method DecodeOidOctets(bytes: seq<byte>) returns (r: Result<Oid, SnmpError>)
    ensures r == DecodeOid(bytes)
  {
    hide ArcFrom;
    var arcs: seq<u32>, cursor: nat := [], 0;
    if ArcsFrom(bytes, 0).Ok? {
      assert [] + ArcsFrom(bytes, 0).value == ArcsFrom(bytes, 0).value;
    }
    while cursor < |bytes|
      invariant cursor <= |bytes| && ArcsFrom(bytes, 0) == Preceded(arcs, ArcsFrom(bytes, cursor))
      decreases |bytes| - cursor
    {
      var arc := ReadArc(bytes, cursor);
      if arc.Err? {
        return Err(arc.error);
      }
      if ArcsFrom(bytes, arc.value.1).Ok? {
        ConcatAssoc(arcs, [arc.value.0], ArcsFrom(bytes, arc.value.1).value);
      }
      arcs, cursor := arcs + [arc.value.0], arc.value.1;
    }
    assert arcs + [] == arcs;
    if arcs == [] {
      return Err(Malformed);
    }
    return Ok(Split(arcs[0]) + arcs[1..]);
  }

  lemma {:induction false} ReadArcs(bytes: seq<byte>, cursor: nat, arcs: seq<u32>)
    requires cursor + |ArcOctets(arcs)| == |bytes| && At(bytes, cursor, ArcOctets(arcs))
    ensures ArcsFrom(bytes, cursor) == Ok(arcs)
    decreases |arcs|
  {
    hide At, Base128, ArcFrom;
    if arcs != [] {
      AtConcat(bytes, cursor, Base128(arcs[0]), ArcOctets(arcs[1..]));
      ReadBase128(bytes, cursor, arcs[0]);
      Base128Size(arcs[0]);
      ReadArcs(bytes, cursor + |Base128(arcs[0])|, arcs[1..]);
      assert [arcs[0]] + arcs[1..] == arcs;
    }
  }

  lemma Base128Size(v: u32)
    ensures |Base128(v)| > 0
  {
  }

  /** Encoding and decoding gives back the identifier exactly when its first sub-identifier fits 32 bits. */
  lemma OidRoundTrip(o: Oid)
    requires WellFormed(o)
    ensures DecodeOid(ArcOctets(SubIdentifiers(o))) == Ok(o) <==> FirstOf(o) < 0x1_0000_0000
  {
    hide ArcOctets, ArcsFrom;
    var arcs := SubIdentifiers(o);
    var w := ArcOctets(arcs);
    assert At(w, 0, w);
    ReadArcs(w, 0, arcs);
    assert o == [o[0], o[1]] + o[2..];
    assert arcs[1..] == o[2..];
    var first := FirstOf(o);
    if first >= 0x1_0000_0000 {
      assert arcs[0] == first - 0x1_0000_0000 && arcs[0] < 80;
      assert (Split(arcs[0]) + o[2..])[0] < 2;
    } else {
      assert Split(arcs[0]) == [o[0], o[1]];
    }
  }

  /** The identifier 2.4294967216 wraps and is decoded as 0.0. */
  lemma OidWraps()
    ensures var o: Oid := [2, 4294967216];
            WellFormed(o) && FirstOf(o) == 0x1_0000_0000 && DecodeOid(ArcOctets(SubIdentifiers(o))) == Ok([0, 0])
  {
    hide ArcOctets, ArcsFrom;
    var o: Oid := [2, 4294967216];
    var w := ArcOctets([0]);
    assert o[2..] == [] && SubIdentifiers(o) == [0];
    assert At(w, 0, w);
    ReadArcs(w, 0, [0]);
    assert Split(0) + [0][1..] == [0, 0];
  }

  // ----- messages -----

  function ValueAt(bytes: seq<byte>, offset: nat, tag: byte, maximum: nat): (r: Result<(seq<byte>, nat), SnmpError>)
    ensures r.Ok? ==> offset < r.value.1 <= |bytes|
  {
    match AnyAt(bytes, offset, maximum)
    case Err(e) => Err(e)
    case Ok(item) => if item.tag == tag then Ok((item.value, item.end)) else Err(Malformed)
  }

  function IntegerAt(bytes: seq<byte>, offset: nat): (r: Result<(int, nat), SnmpError>)
    ensures r.Ok? ==> offset < r.value.1 <= |bytes|
  {
    match ValueAt(bytes, offset, 0x02, 8)
    case Err(e) => Err(e)
    case Ok((value, end)) =>
      match DecodeInteger(value)
      case Err(e) => Err(e)
      case Ok(v) => Ok((v, end))
  }

  function NarrowIntegerAt(bytes: seq<byte>, offset: nat): (r: Result<(i32, nat), SnmpError>)
    ensures r.Ok? ==> offset < r.value.1 <= |bytes|
  {
    match IntegerAt(bytes, offset)
    case Err(e) => Err(e)
    case Ok((v, end)) => if -0x8000_0000 <= v < 0x8000_0000 then Ok((v, end)) else Err(Malformed)
  }

  datatype Binding = Binding(oid: Oid, tag: byte, value: seq<byte>)

  datatype Message = Message(community: seq<byte>, requestId: i32, status: i32, index: i32, bindings: seq<Binding>)

  datatype DecodeLimits = DecodeLimits(messageBytes: nat, varbinds: nat, valueBytes: nat)

  function BindingIn(content: seq<byte>, valueBytes: nat): (r: Result<Binding, SnmpError>) {
    match ValueAt(content, 0, 0x06, 256)
    case Err(e) => Err(e)
    case Ok((octets, next)) =>
      match DecodeOid(octets)
      case Err(e) => Err(e)
      case Ok(oid) =>
        match AnyAt(content, next, valueBytes)
        case Err(e) => Err(e)
        case Ok(item) => if item.end == |content| then Ok(Binding(oid, item.tag, item.value)) else Err(Malformed)
  }

  function BindingsFrom(bytes: seq<byte>, offset: nat, room: nat, valueBytes: nat): (r: Result<seq<Binding>, SnmpError>)
    requires offset <= |bytes|
    decreases |bytes| - offset
  {
    if offset == |bytes| then Ok([])
    else if room == 0 then Err(LimitExceeded)
    else
      match ValueAt(bytes, offset, 0x30, |bytes|)
      case Err(e) => Err(e)
      case Ok((content, next)) =>
        match BindingIn(content, valueBytes)
        case Err(e) => Err(e)
        case Ok(binding) =>
          match BindingsFrom(bytes, next, room - 1, valueBytes)
          case Err(e) => Err(e)
          case Ok(rest) => Ok([binding] + rest)
  }

  function PduIn(pdu: seq<byte>, community: seq<byte>, limits: DecodeLimits): (r: Result<Message, SnmpError>) {
    match NarrowIntegerAt(pdu, 0)
    case Err(e) => Err(e)
    case Ok((id, p1)) =>
      match NarrowIntegerAt(pdu, p1)
      case Err(e) => Err(e)
      case Ok((status, p2)) =>
        match NarrowIntegerAt(pdu, p2)
        case Err(e) => Err(e)
        case Ok((index, p3)) =>
          match ValueAt(pdu, p3, 0x30, |pdu|)
          case Err(e) => Err(e)
          case Ok((bindings, p4)) =>
            if p4 != |pdu| then Err(Malformed)
            else
              match BindingsFrom(bindings, 0, limits.varbinds, limits.valueBytes)
              case Err(e) => Err(e)
              case Ok(found) => Ok(Message(community, id, status, index, found))
  }

  /** Reads a message whose PDU has the given tag, as responses are read. */
  function ReadMessage(bytes: seq<byte>, pduTag: byte, limits: DecodeLimits): (r: Result<Message, SnmpError>) {
    if |bytes| > limits.messageBytes then Err(LimitExceeded)
    else
      match ValueAt(bytes, 0, 0x30, |bytes|)
      case Err(e) => Err(e)
      case Ok((outer, _)) =>
        match IntegerAt(outer, 0)
        case Err(e) => Err(e)
        case Ok((version, o1)) =>
          if version != 1 then Err(Malformed)
          else
            match ValueAt(outer, o1, 0x04, 255)
            case Err(e) => Err(e)
            case Ok((community, o2)) =>
              match ValueAt(outer, o2, pduTag, |outer|)
              case Err(e) => Err(e)
              case Ok((pdu, o3)) => if o3 == |outer| then PduIn(pdu, community, limits) else Err(Malformed)
  }

  // ----- requests -----

  function IntegerTlv(v: i64): (r: seq<byte>) {
    EightOctets(v);
    Pow256Of8();
    Tlv(0x02, Shortened(TwosComplement(v)))
  }

  /** No Rust buffer reaches this many octets. */
  const ROOM := 0x1000_0000_0000_0000

  function RequestBinding(oid: seq<byte>): (r: seq<byte>)
    requires |oid| <= ROOM
  {
    Pow256Of8();
    Tlv(0x06, oid) + Tlv(0x05, [])
  }

  lemma SmallTlv(tag: byte, value: seq<byte>)
    requires |value| < 2 * ROOM
    ensures |value| < Pow256(USIZE_OCTETS) && |value| < |Tlv(tag, value)| <= |value| + 10
  {
    hide LengthOctets;
    Pow256Of8();
    ShortLength(|value|);
  }

  lemma ShortLength(n: nat)
    requires n < Pow256(USIZE_OCTETS)
    ensures 0 < |LengthOctets(n)| <= 9
  {
    hide Pow256, Stripped, BigEndian;
    if n >= 128 {
      LongForm(n);
    }
  }

  lemma IntegerSize(v: i64)
    ensures 0 < |IntegerTlv(v)| <= 18
  {
    hide Tlv, TwosComplement;
    EightOctets(v);
    SmallTlv(0x02, Shortened(TwosComplement(v)));
  }

  lemma IntegerReads(bytes: seq<byte>, offset: nat, v: i64)
    requires At(bytes, offset, IntegerTlv(v))
    ensures IntegerAt(bytes, offset) == Ok((v, offset + |IntegerTlv(v)|))
  {
    hide At, Tlv, AnyAt, TwosComplement, DecodeInteger, Pow256;
    EightOctets(v);
    Pow256Of8();
    TlvReads(bytes, offset, 0x02, Shortened(TwosComplement(v)), 8);
    IntegerRoundTrip(v);
  }

  lemma ValueReads(bytes: seq<byte>, offset: nat, tag: byte, value: seq<byte>, maximum: nat)
    requires |value| < Pow256(USIZE_OCTETS) && |value| <= maximum && At(bytes, offset, Tlv(tag, value))
    ensures ValueAt(bytes, offset, tag, maximum) == Ok((value, offset + |Tlv(tag, value)|))
  {
    hide At, Tlv, AnyAt, Pow256;
    TlvReads(bytes, offset, tag, value, maximum);
  }

  lemma BindingReads(oid: seq<byte>, o: Oid, valueBytes: nat)
    requires |oid| <= 256 && DecodeOid(oid) == Ok(o)
    ensures BindingIn(RequestBinding(oid), valueBytes) == Ok(Binding(o, 0x05, []))
  {
    hide At, Tlv, AnyAt, ValueAt, DecodeOid, Pow256;
    SmallTlv(0x06, oid);
    SmallTlv(0x05, []);
    var content := RequestBinding(oid);
    AtWhole(content);
    AtConcat(content, 0, Tlv(0x06, oid), Tlv(0x05, []));
    ValueReads(content, 0, 0x06, oid, 256);
    TlvReads(content, |Tlv(0x06, oid)|, 0x05, [], valueBytes);
  }

  lemma AtWhole(s: seq<byte>)
    ensures At(s, 0, s)
  {
  }

  lemma OneBindingReads(content: seq<byte>, binding: Binding, room: nat, valueBytes: nat)
    requires |content| < 2 * ROOM && BindingIn(content, valueBytes) == Ok(binding) && room > 0
    ensures |content| < Pow256(USIZE_OCTETS)
    ensures BindingsFrom(Tlv(0x30, content), 0, room, valueBytes) == Ok([binding])
  {
    hide At, Tlv, ValueAt, BindingIn, Pow256;
    SmallTlv(0x30, content);
    var bytes := Tlv(0x30, content);
    AtWhole(bytes);
    ValueReads(bytes, 0, 0x30, content, |bytes|);
    assert BindingsFrom(bytes, |bytes|, room - 1, valueBytes) == Ok([]);
    assert [binding] + [] == [binding];
  }

  function RequestPdu(requestId: i32, oid: seq<byte>): (r: seq<byte>)
    requires |oid| <= ROOM
  {
    BindingSize(oid);
    IntegerTlv(requestId) + (IntegerTlv(0) + (IntegerTlv(0) + Tlv(0x30, Tlv(0x30, RequestBinding(oid)))))
  }

  lemma BindingSize(oid: seq<byte>)
    requires |oid| <= ROOM
    ensures |RequestBinding(oid)| <= |oid| + 20 < Pow256(USIZE_OCTETS)
    ensures |Tlv(0x30, RequestBinding(oid))| <= |oid| + 30 < Pow256(USIZE_OCTETS)
    ensures |Tlv(0x30, Tlv(0x30, RequestBinding(oid)))| <= |oid| + 40
  {
    hide Tlv;
    SmallTlv(0x06, oid);
    SmallTlv(0x05, []);
    Pow256Of8();
    SmallTlv(0x30, RequestBinding(oid));
    SmallTlv(0x30, Tlv(0x30, RequestBinding(oid)));
  }

  lemma PduReads(requestId: i32, oid: seq<byte>, o: Oid, community: seq<byte>, limits: DecodeLimits)
    requires |oid| <= 256 && DecodeOid(oid) == Ok(o) && limits.varbinds > 0
    ensures PduIn(RequestPdu(requestId, oid), community, limits)
         == Ok(Message(community, requestId, 0, 0, [Binding(o, 0x05, [])]))
  {
    hide At, Tlv, IntegerTlv, IntegerAt, ValueAt, DecodeOid, BindingsFrom, BindingIn, RequestBinding, Pow256;
    var pdu, zero := RequestPdu(requestId, oid), IntegerTlv(0);
    BindingSize(oid);
    var list := Tlv(0x30, RequestBinding(oid));
    IntegerSize(requestId);
    IntegerSize(0);
    AtWhole(pdu);
    AtConcat(pdu, 0, IntegerTlv(requestId), zero + (zero + Tlv(0x30, list)));
    var a := |IntegerTlv(requestId)|;
    AtConcat(pdu, a, zero, zero + Tlv(0x30, list));
    AtConcat(pdu, a + |zero|, zero, Tlv(0x30, list));
    IntegerReads(pdu, 0, requestId);
    IntegerReads(pdu, a, 0);
    IntegerReads(pdu, a + |zero|, 0);
    SmallTlv(0x30, list);
    ValueReads(pdu, a + |zero| + |zero|, 0x30, list, |pdu|);
    BindingReads(oid, o, limits.valueBytes);
    OneBindingReads(RequestBinding(oid), Binding(o, 0x05, []), limits.varbinds, limits.valueBytes);
  }

  function RequestBody(community: seq<byte>, requestId: i32, oid: seq<byte>, pduTag: byte): (r: seq<byte>)
    requires |community| <= 255 && |oid| <= ROOM
  {
    PduSize(requestId, oid);
    IntegerTlv(1) + (Tlv(0x04, community) + Tlv(pduTag, RequestPdu(requestId, oid)))
  }

  lemma PduSize(requestId: i32, oid: seq<byte>)
    requires |oid| <= ROOM
    ensures |RequestPdu(requestId, oid)| <= |oid| + 100 < Pow256(USIZE_OCTETS) && 255 < Pow256(USIZE_OCTETS)
  {
    hide Tlv, IntegerTlv, RequestBinding;
    BindingSize(oid);
    IntegerSize(requestId);
    IntegerSize(0);
    Pow256Of8();
  }

  /** A Get or GetNext request for one object. */
  function RequestOctets(community: seq<byte>, requestId: i32, oid: seq<byte>, pduTag: byte): (r: seq<byte>)
    requires |community| <= 255 && |oid| <= ROOM
  {
    BodySize(community, requestId, oid, pduTag);
    Tlv(0x30, RequestBody(community, requestId, oid, pduTag))
  }

  lemma BodySize(community: seq<byte>, requestId: i32, oid: seq<byte>, pduTag: byte)
    requires |community| <= 255 && |oid| <= ROOM
    ensures |RequestBody(community, requestId, oid, pduTag)| <= |oid| + 500 < Pow256(USIZE_OCTETS)
  {
    hide Tlv, IntegerTlv, RequestPdu;
    PduSize(requestId, oid);
    IntegerSize(1);
    SmallTlv(0x04, community);
    SmallTlv(pduTag, RequestPdu(requestId, oid));
    Pow256Of8();
  }

  /** Reading a request gives back its community, request identifier and object identifier, for every identifier that
      survives its own encoding and fits the 256 octets a reader accepts. */
  lemma RequestRoundTrip(community: seq<byte>, requestId: i32, o: Oid, pduTag: byte, limits: DecodeLimits)
    requires |community| <= 255 && WellFormed(o) && FirstOf(o) < 0x1_0000_0000
    requires |ArcOctets(SubIdentifiers(o))| <= 256 && limits.varbinds > 0
    requires |RequestOctets(community, requestId, ArcOctets(SubIdentifiers(o)), pduTag)| <= limits.messageBytes
    ensures ReadMessage(RequestOctets(community, requestId, ArcOctets(SubIdentifiers(o)), pduTag), pduTag, limits)
         == Ok(Message(community, requestId, 0, 0, [Binding(o, 0x05, [])]))
  {
    hide At, Tlv, IntegerTlv, IntegerAt, ValueAt, DecodeOid, PduIn, RequestPdu, Pow256, ArcOctets, SubIdentifiers;
    var oid := ArcOctets(SubIdentifiers(o));
    OidRoundTrip(o);
    var body, pdu := RequestBody(community, requestId, oid, pduTag), RequestPdu(requestId, oid);
    var bytes := RequestOctets(community, requestId, oid, pduTag);
    BodySize(community, requestId, oid, pduTag);
    PduSize(requestId, oid);
    SmallTlv(0x30, body);
    SmallTlv(0x04, community);
    SmallTlv(pduTag, pdu);
    AtWhole(bytes);
    ValueReads(bytes, 0, 0x30, body, |bytes|);
    AtWhole(body);
    AtConcat(body, 0, IntegerTlv(1), Tlv(0x04, community) + Tlv(pduTag, pdu));
    AtConcat(body, |IntegerTlv(1)|, Tlv(0x04, community), Tlv(pduTag, pdu));
    IntegerReads(body, 0, 1);
    ValueReads(body, |IntegerTlv(1)|, 0x04, community, 255);
    ValueReads(body, |IntegerTlv(1)| + |Tlv(0x04, community)|, pduTag, pdu, |body|);
    PduReads(requestId, oid, o, community, limits);
  }

  /** `permitted` is the registry's verdict on the object: registered for a Get, below a permitted root
      for a GetNext. */
  method EncodeRequest(community: seq<byte>, requestId: i32, o: Oid, pduTag: byte, permitted: bool)
    returns (r: Result<seq<byte>, SnmpError>)
    requires WellFormed(o) ==> |ArcOctets(SubIdentifiers(o))| <= ROOM
    ensures r.Ok? <==> permitted && 0 < |community| <= 255 && WellFormed(o)
    ensures r.Ok? ==> r.value == RequestOctets(community, requestId, ArcOctets(SubIdentifiers(o)), pduTag)
    ensures r.Err? ==> r.error == if permitted && 0 < |community| <= 255 then InvalidOid else UnregisteredObject
  {
    hide Tlv, IntegerTlv, ArcOctets, SubIdentifiers;
    if community == [] || |community| > 255 || !permitted {
      return Err(UnregisteredObject);
    }
    var encoded := EncodeOid(o);
    if encoded.Err? {
      return Err(encoded.error);
    }
    var oid := encoded.value;
    BindingSize(oid);
    PduSize(requestId, oid);
    BodySize(community, requestId, oid, pduTag);
    var varbinds := Tlv(0x30, Tlv(0x30, RequestBinding(oid)));
    var pdu := IntegerTlv(requestId) + (IntegerTlv(0) + (IntegerTlv(0) + varbinds));
    r := Ok(Tlv(0x30, IntegerTlv(1) + (Tlv(0x04, community) + Tlv(pduTag, pdu))));
  }

  // ----- eliding the community -----

  /** Where the community is in a message that can be read that far: `content` is the outer sequence, which starts at
      `start`; the community ends at `end` within it. */
  datatype Located = Located(content: seq<byte>, start: nat, community: seq<byte>, end: nat)

  function Locate(bytes: seq<byte>): (r: Result<Located, SnmpError>)
    ensures r.Ok? ==> r.value.start + |r.value.content| <= |bytes|
    ensures r.Ok? ==> |r.value.community| <= r.value.end <= |r.value.content|
  {
    match AnyAt(bytes, 0, |bytes|)
    case Err(e) => Err(e)
    case Ok(outer) =>
      if outer.tag != 0x30 then Err(Malformed)
      else
        match IntegerAt(outer.value, 0)
        case Err(e) => Err(e)
        case Ok((_, o1)) =>
          match AnyAt(outer.value, o1, 255)
          case Err(e) => Err(e)
          case Ok(item) =>
            if item.tag != 0x04 then Err(Malformed)
            else Ok(Located(outer.value, outer.end - |outer.value|, item.value, item.end))
  }

  /** What was located stands in the message where it says. */
  lemma LocatedThere(bytes: seq<byte>)
    requires Locate(bytes).Ok?
    ensures var l := Locate(bytes).value;
            && l.content == bytes[l.start..l.start + |l.content|]
            && l.community == l.content[l.end - |l.community|..l.end]
  {
    hide AnyAt, IntegerAt;
  }

  /** Octets after the outer sequence. */
  function Trailing(bytes: seq<byte>, l: Located): (r: int) {
    |bytes| - (l.start + |l.content|)
  }

  predicate Masked(bytes: seq<byte>, out: seq<byte>, from: nat, to: nat) {
    && |out| == |bytes| && from <= to <= |bytes|
    && forall i :: 0 <= i < |bytes| ==> out[i] == if from <= i < to then 0x2a else bytes[i]
  }

  /** Where the overwriting starts. */
  function MaskStart(bytes: seq<byte>, l: Located): (r: int) {
    l.start + l.end - |l.community| + Trailing(bytes, l)
  }

  /** Overwrites as many octets as the community has. */
  method SanitizeMessage(bytes: seq<byte>) returns (r: Result<seq<byte>, SnmpError>)
    ensures r.Ok? <==> Locate(bytes).Ok?
    ensures r.Err? ==> r.error == Locate(bytes).error
    ensures r.Ok? ==> var l := Locate(bytes).value;
              MaskStart(bytes, l) >= 0 &&
                Masked(bytes, r.value, MaskStart(bytes, l), MaskStart(bytes, l) + |l.community|)
  {
    hide AnyAt, IntegerAt;
    var outer := AnyAt(bytes, 0, |bytes|);
    if outer.Err? {
      return Err(outer.error);
    }
    if outer.value.tag != 0x30 {
      return Err(Malformed);
    }
    var content := outer.value.value;
    var version := IntegerAt(content, 0);
    if version.Err? {
      return Err(version.error);
    }
    var valueStart := version.value.1;
    var item := AnyAt(content, valueStart, 255);
    if item.Err? {
      return Err(item.error);
    }
    if item.value.tag != 0x04 {
      return Err(Malformed);
    }
    var community, valueEnd := item.value.value, item.value.end;
    var headerLength := valueEnd - valueStart - |community|;
    var outerHeader := |bytes| - |content|;
    var start := outerHeader + valueStart + headerLength;
    var end := start + |community|;
    var sanitized := new byte[|bytes|](i requires 0 <= i < |bytes| => bytes[i]);
    for i := start to end
      invariant forall k :: 0 <= k < |bytes| ==> sanitized[k] == if start <= k < i then 0x2a else bytes[k]
    {
      sanitized[i] := 0x2a;
    }
    r := Ok(sanitized[..]);
  }

  /** The community's own octets. */
  predicate InCommunity(l: Located, i: nat) {
    l.start + l.end - |l.community| <= i < l.start + l.end
  }

  /** For every message that can be read up to its community, the octets overwritten are exactly the community's if and
      only if the outer sequence spans the message or there is no community. */
  lemma ElidesIffSpanning(bytes: seq<byte>)
    requires Locate(bytes).Ok?
    ensures var l := Locate(bytes).value;
            (forall i: nat :: MaskStart(bytes, l) <= i < MaskStart(bytes, l) + |l.community| <==> InCommunity(l, i))
            <==> Trailing(bytes, l) == 0 || l.community == []
  {
    hide Locate;
    var l := Locate(bytes).value;
    var own := l.start + l.end - |l.community|;
    if Trailing(bytes, l) > 0 && l.community != [] {
      assert InCommunity(l, own) && own < MaskStart(bytes, l);
    }
  }

  /** When the outer sequence spans the message, only the community changes and all of it does. */
  lemma SpanningElides(bytes: seq<byte>, out: seq<byte>, i: nat)
    requires Locate(bytes).Ok? && Trailing(bytes, Locate(bytes).value) == 0 && i < |bytes|
    requires var l := Locate(bytes).value;
             MaskStart(bytes, l) >= 0 && Masked(bytes, out, MaskStart(bytes, l), MaskStart(bytes, l) + |l.community|)
    ensures |out| == |bytes| && out[i] == if InCommunity(Locate(bytes).value, i) then 0x2a else bytes[i]
    ensures var l := Locate(bytes).value;
            bytes[l.start + l.end - |l.community|..l.start + l.end] == l.community
  {
    hide Locate;
    LocatedThere(bytes);
    var l := Locate(bytes).value;
    SliceOfSlice(bytes, l.start, l.start + |l.content|, l.end - |l.community|, l.end);
  }

  lemma ShortItem(bytes: seq<byte>, offset: nat, tag: byte, value: seq<byte>, maximum: nat)
    requires |value| < 128 && |value| <= maximum && At(bytes, offset, [tag, |value|] + value)
    ensures AnyAt(bytes, offset, maximum) == Ok(Item(tag, value, offset + 2 + |value|))
  {
    hide AnyAt, At, Pow256;
    Pow256Of8();
    assert Tlv(tag, value) == [tag, |value|] + value;
    TlvReads(bytes, offset, tag, value, maximum);
  }

  lemma SmallInteger(bytes: seq<byte>, offset: nat, b: byte)
    requires b < 128 && At(bytes, offset, [0x02, 1, b])
    ensures NarrowIntegerAt(bytes, offset) == Ok((b, offset + 3)) && IntegerAt(bytes, offset) == Ok((b, offset + 3))
  {
    hide AnyAt, At, Extended, Signed;
    assert [0x02, |[b]|] + [b] == [0x02, 1, b];
    ShortItem(bytes, offset, 0x02, [b], 8);
    ExtendedKeeps([b]);
    OneOctet(b);
  }

  lemma OneOctet(b: byte)
    requires b < 128
    ensures Signed([b]) == b
  {
    NumberNone();
    NumberSnoc([], b);
    assert [] + [b] == [b];
  }

  lemma ExtendedKeeps(s: seq<byte>)
    requires 0 < |s| <= 8
    ensures Signed(Extended(s)) == Signed(s)
  {
    hide Signed;
    ExtendedSigned(s, 8 - |s|);
  }

  /** A response without bindings to request 5, with community `ab`. */
  const RESPONSE_PDU: seq<byte> := [2, 1, 5, 2, 1, 0, 2, 1, 0, 0x30, 0]
  const RESPONSE_BODY: seq<byte> := [2, 1, 1, 4, 2, 97, 98, 0xa2, 11, 2, 1, 5, 2, 1, 0, 2, 1, 0, 0x30, 0]

  /** The response with one octet after its outer sequence. */
  const TRAILED_RESPONSE: seq<byte> :=
    [0x30, 20, 2, 1, 1, 4, 2, 97, 98, 0xa2, 11, 2, 1, 5, 2, 1, 0, 2, 1, 0, 0x30, 0, 0]

  lemma ResponsePduReads(limits: DecodeLimits)
    ensures PduIn(RESPONSE_PDU, [97, 98], limits) == Ok(Message([97, 98], 5, 0, 0, []))
  {
    hide AnyAt, IntegerAt;
    var pdu := RESPONSE_PDU;
    assert At(pdu, 0, [2, 1, 5]) && At(pdu, 3, [2, 1, 0]) && At(pdu, 6, [2, 1, 0]) && At(pdu, 9, [0x30, 0] + []);
    SmallInteger(pdu, 0, 5);
    SmallInteger(pdu, 3, 0);
    SmallInteger(pdu, 6, 0);
    ShortItem(pdu, 9, 0x30, [], |pdu|);
    assert BindingsFrom([], 0, limits.varbinds, limits.valueBytes) == Ok([]);
  }

  lemma TrailedResponseOuter()
    ensures AnyAt(TRAILED_RESPONSE, 0, |TRAILED_RESPONSE|) == Ok(Item(0x30, RESPONSE_BODY, 22))
  {
    hide AnyAt;
    assert At(TRAILED_RESPONSE, 0, [0x30, |RESPONSE_BODY|] + RESPONSE_BODY);
    ShortItem(TRAILED_RESPONSE, 0, 0x30, RESPONSE_BODY, |TRAILED_RESPONSE|);
  }

  lemma ResponseBodyStart()
    ensures IntegerAt(RESPONSE_BODY, 0) == Ok((1, 3))
    ensures AnyAt(RESPONSE_BODY, 3, 255) == Ok(Item(0x04, [97, 98], 7))
  {
    hide AnyAt, IntegerAt;
    assert At(RESPONSE_BODY, 0, [2, 1, 1]);
    SmallInteger(RESPONSE_BODY, 0, 1);
    assert At(RESPONSE_BODY, 3, [0x04, |[97, 98]|] + [97, 98]);
    ShortItem(RESPONSE_BODY, 3, 0x04, [97, 98], 255);
  }

  lemma ResponseBodyPdu()
    ensures AnyAt(RESPONSE_BODY, 7, |RESPONSE_BODY|) == Ok(Item(0xa2, RESPONSE_PDU, 20))
  {
    hide AnyAt;
    assert At(RESPONSE_BODY, 7, [0xa2, |RESPONSE_PDU|] + RESPONSE_PDU);
    ShortItem(RESPONSE_BODY, 7, 0xa2, RESPONSE_PDU, |RESPONSE_BODY|);
  }

  /** A response that decodes, with one octet after its outer sequence: what is overwritten is shifted by one, so the
      first octet of its community stays. */
  lemma TrailingOctetShiftsMask(limits: DecodeLimits, out: seq<byte>)
    requires limits.messageBytes >= |TRAILED_RESPONSE|
    ensures ReadMessage(TRAILED_RESPONSE, 0xa2, limits) == Ok(Message([97, 98], 5, 0, 0, []))
    ensures Locate(TRAILED_RESPONSE) == Ok(Located(RESPONSE_BODY, 2, [97, 98], 7))
    ensures var l := Located(RESPONSE_BODY, 2, [97, 98], 7);
            && Trailing(TRAILED_RESPONSE, l) == 1 && MaskStart(TRAILED_RESPONSE, l) == 8 && InCommunity(l, 7)
            && (Masked(TRAILED_RESPONSE, out, 8, 10) ==> out[7] == 97)
  {
    hide AnyAt, IntegerAt, PduIn;
    TrailedResponseOuter();
    ResponseBodyStart();
    ResponseBodyPdu();
    ResponsePduReads(limits);
  }
}
