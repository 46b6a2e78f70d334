/** IPP messages, their limits and counters, and the scalar codec (crates/mb-printer-core/src/ipp.rs). */
module IppModel {
  import opened Bytes

  const END_OF_ATTRIBUTES: byte := 0x03

  datatype Limits = Limits(
    maxMessageBytes: nat, maxGroups: nat, maxAttributes: nat, maxValues: nat, maxNameBytes: nat,
    maxValueBytes: nat, maxDecodedBytes: nat, maxCollectionDepth: nat, maxCollectionMembers: nat)
  {
    predicate Valid() {
      && maxMessageBytes >= 8 && maxGroups > 0 && maxAttributes > 0 && maxValues > 0 && maxNameBytes > 0
      && maxValueBytes > 0 && maxDecodedBytes > 0 && maxCollectionDepth > 0 && maxCollectionMembers > 0
    }
  }

  datatype ValueTag =
    | Unsupported | Unknown | NoValue | NotSettable | DeleteAttribute | AdminDefine
    | IntegerTag | BooleanTag | EnumTag | OctetString | DateTimeTag | ResolutionTag | RangeOfIntegerTag
    | BegCollection | TextWithLanguage | NameWithLanguage | EndCollection | TextWithoutLanguage
    | NameWithoutLanguage | Keyword | Uri | UriScheme | Charset | NaturalLanguage | MimeMediaType
    | MemberAttrName | Extension(tag: byte)
  {
    predicate IsOutOfBand() {
      Unsupported? || Unknown? || NoValue? || NotSettable? || DeleteAttribute? || AdminDefine?
    }

    /** Tags that only structure collections and so never tag a decoded value. */
    predicate IsControl() {
      EndCollection? || MemberAttrName?
    }

    predicate HasFixedSyntax() {
      IntegerTag? || BooleanTag? || EnumTag? || DateTimeTag? || ResolutionTag? || RangeOfIntegerTag?
      || BegCollection?
    }
  }

  type DateTimeOctets = s: seq<byte> | |s| == 11 witness [0, 0, 0, 0, 0, 0, 0, 0, 0, 0, 0]

  datatype Value = Value(tag: ValueTag, data: ValueData)

  datatype ValueData =
    | OutOfBand
    | Integer(i: i32)
    | Boolean(b: bool)
    | Enum(e: i32)
    | DateTime(octets: DateTimeOctets)
    | Resolution(crossFeed: i32, feed: i32, units: byte)
    | RangeOfInteger(lower: i32, upper: i32)
    | Collection(members: seq<Member>)
    | Octets(bytes: seq<byte>)

  datatype Member = Member(name: seq<byte>, values: seq<Value>)
  datatype Attribute = Attribute(name: seq<byte>, values: seq<Value>)
  datatype Group = Group(tag: byte, attributes: seq<Attribute>)
  datatype Message = Message(
    major: byte, minor: byte, code: u16, requestId: u32, groups: seq<Group>, originalBytes: seq<byte>)

  /** What both sides count against the limits. */
  datatype Counters = Counters(groups: nat, attributes: nat, values: nat, members: nat, decodedBytes: nat) {
    function Add(o: Counters): Counters {
      Counters(groups + o.groups, attributes + o.attributes, values + o.values, members + o.members,
               decodedBytes + o.decodedBytes)
    }

    predicate Within(l: Limits) {
      && groups <= l.maxGroups && attributes <= l.maxAttributes && values <= l.maxValues
      && members <= l.maxCollectionMembers && decodedBytes <= l.maxDecodedBytes
    }
  }

  const ZERO := Counters(0, 0, 0, 0, 0)

  predicate IsDelimiter(tag: byte) {
    0x01 <= tag <= 0x0f && tag != END_OF_ATTRIBUTES
  }

  function FromByte(tag: byte): (r: ValueTag) {
    match tag
    case 0x10 => Unsupported
    case 0x12 => Unknown
    case 0x13 => NoValue
    case 0x15 => NotSettable
    case 0x16 => DeleteAttribute
    case 0x17 => AdminDefine
    case 0x21 => IntegerTag
    case 0x22 => BooleanTag
    case 0x23 => EnumTag
    case 0x30 => OctetString
    case 0x31 => DateTimeTag
    case 0x32 => ResolutionTag
    case 0x33 => RangeOfIntegerTag
    case 0x34 => BegCollection
    case 0x35 => TextWithLanguage
    case 0x36 => NameWithLanguage
    case 0x37 => EndCollection
    case 0x41 => TextWithoutLanguage
    case 0x42 => NameWithoutLanguage
    case 0x44 => Keyword
    case 0x45 => Uri
    case 0x46 => UriScheme
    case 0x47 => Charset
    case 0x48 => NaturalLanguage
    case 0x49 => MimeMediaType
    case 0x4a => MemberAttrName
    case other => Extension(other)
  }

  function ToByte(tag: ValueTag): (r: byte) {
    match tag
    case Unsupported => 0x10
    case Unknown => 0x12
    case NoValue => 0x13
    case NotSettable => 0x15
    case DeleteAttribute => 0x16
    case AdminDefine => 0x17
    case IntegerTag => 0x21
    case BooleanTag => 0x22
    case EnumTag => 0x23
    case OctetString => 0x30
    case DateTimeTag => 0x31
    case ResolutionTag => 0x32
    case RangeOfIntegerTag => 0x33
    case BegCollection => 0x34
    case TextWithLanguage => 0x35
    case NameWithLanguage => 0x36
    case EndCollection => 0x37
    case TextWithoutLanguage => 0x41
    case NameWithoutLanguage => 0x42
    case Keyword => 0x44
    case Uri => 0x45
    case UriScheme => 0x46
    case Charset => 0x47
    case NaturalLanguage => 0x48
    case MimeMediaType => 0x49
    case MemberAttrName => 0x4a
    case Extension(b) => b
  }

  /** A tag the decoder can produce for a value: in the named form when its byte has a name, not a
      collection control tag, and not a byte that would open or end an attribute group. */
  predicate Canonical(tag: ValueTag) {
    && FromByte(ToByte(tag)) == tag
    && !tag.IsControl()
    && !IsDelimiter(ToByte(tag)) && ToByte(tag) != END_OF_ATTRIBUTES
  }

  datatype DecodeError =
    | InvalidLimits
    | MessageTooLarge(actual: nat, limit: nat)
    | Truncated(offset: nat, needed: nat)
    | MissingGroup(offset: nat, tag: byte)
    | EndInsideCollection(offset: nat)
    | MissingRepeatedAttribute(offset: nat)
    | IllegalTag(offset: nat, tag: byte, reason: string)
    | InvalidValue(offset: nat, tag: byte, reason: string)
    | Limit(kind: string, actual: nat, limit: nat)
    | TrailingBytes(offset: nat)
    | MissingEndOfAttributes

  datatype EncodeError =
    | InvalidEncodeLimits
    | InvalidStructure(reason: string)
    | EncodeLimit(kind: string, actual: nat, limit: nat)
    | WireLengthOverflow
    | TagDataMismatch(tag: byte)

  function EncodeScalar(v: Value): (r: Result<seq<byte>, EncodeError>) {
    match v.data
    case OutOfBand => if v.tag.IsOutOfBand() then Ok([]) else Err(TagDataMismatch(ToByte(v.tag)))
    case Integer(i) => if v.tag == IntegerTag then Ok(I32Bytes(i)) else Err(TagDataMismatch(ToByte(v.tag)))
    case Enum(i) => if v.tag == EnumTag then Ok(I32Bytes(i)) else Err(TagDataMismatch(ToByte(v.tag)))
    case Boolean(b) =>
      if v.tag == BooleanTag then Ok([if b then 1 else 0]) else Err(TagDataMismatch(ToByte(v.tag)))
    case DateTime(d) => if v.tag == DateTimeTag then Ok(d) else Err(TagDataMismatch(ToByte(v.tag)))
    case Resolution(x, f, u) =>
      if v.tag == ResolutionTag then Ok(I32Bytes(x) + I32Bytes(f) + [u]) else Err(TagDataMismatch(ToByte(v.tag)))
    case RangeOfInteger(l, u) =>
      if v.tag == RangeOfIntegerTag then Ok(I32Bytes(l) + I32Bytes(u)) else Err(TagDataMismatch(ToByte(v.tag)))
    case Octets(bytes) =>
      if !v.tag.IsOutOfBand() && !v.tag.HasFixedSyntax() then Ok(bytes) else Err(TagDataMismatch(ToByte(v.tag)))
    case Collection(_) => Err(TagDataMismatch(ToByte(v.tag)))
  }

  function DecodeScalar(tag: ValueTag, raw: seq<byte>, offset: nat): (r: Result<ValueData, DecodeError>) {
    if tag.IsOutOfBand() then
      if raw != [] then Err(InvalidValue(offset, ToByte(tag), "out-of-band value must be empty")) else Ok(OutOfBand)
    else
      match tag
      case IntegerTag => if |raw| == 4 then Ok(Integer(I32Of(raw))) else NotFourBytes(tag, offset)
      case EnumTag => if |raw| == 4 then Ok(Enum(I32Of(raw))) else NotFourBytes(tag, offset)
      case BooleanTag =>
        if raw == [0] then Ok(Boolean(false)) else if raw == [1] then Ok(Boolean(true))
        else Err(InvalidValue(offset, ToByte(tag), "boolean must be exactly one byte containing zero or one"))
      case DateTimeTag =>
        if |raw| == 11 then Ok(DateTime(raw))
        else Err(InvalidValue(offset, ToByte(tag), "dateTime must be exactly 11 bytes"))
      case ResolutionTag =>
        if |raw| == 9 then Ok(Resolution(I32Of(raw[0..4]), I32Of(raw[4..8]), raw[8]))
        else Err(InvalidValue(offset, ToByte(tag), "resolution must be exactly 9 bytes"))
      case RangeOfIntegerTag =>
        if |raw| == 8 then Ok(RangeOfInteger(I32Of(raw[0..4]), I32Of(raw[4..8])))
        else Err(InvalidValue(offset, ToByte(tag), "rangeOfInteger must be exactly 8 bytes"))
      case BegCollection => Err(InvalidValue(offset, ToByte(tag), "nested collection was not decoded"))
      case _ => Ok(Octets(raw))
  }

  function NotFourBytes(tag: ValueTag, offset: nat): (r: Result<ValueData, DecodeError>) {
    Err(InvalidValue(offset, ToByte(tag), "integer and enum values must be exactly 4 bytes"))
  }

  /** A byte is read to a tag and written back unchanged; only a non-canonical extension breaks the other way. */
  lemma TagRoundTrip(b: byte, tag: ValueTag)
    ensures ToByte(FromByte(b)) == b
    ensures FromByte(ToByte(tag)) != tag <==> tag.Extension? && !FromByte(tag.tag).Extension?
  {
  }

  lemma ScalarReadsBack(tag: ValueTag, data: ValueData, raw: seq<byte>, offset: nat)
    requires EncodeScalar(Value(tag, data)) == Ok(raw)
    ensures DecodeScalar(tag, raw, offset) == Ok(data)
  {
    hide I32Bytes, I32Of;
    match data
    case Resolution(x, f, u) => PairReadsBack(x, f, [u], raw);
    case RangeOfInteger(l, u) => PairReadsBack(l, u, [], raw);
    case Integer(i) => I32RoundTrip(i);
    case Enum(i) => I32RoundTrip(i);
    case _ =>
  }

  lemma PairReadsBack(a: i32, b: i32, rest: seq<byte>, raw: seq<byte>)
    requires raw == I32Bytes(a) + I32Bytes(b) + rest
    ensures |raw| == 8 + |rest| && I32Of(raw[0..4]) == a && I32Of(raw[4..8]) == b && raw[8..] == rest
  {
    hide I32Bytes, I32Of;
    I32RoundTrip(a);
    I32RoundTrip(b);
    assert raw[0..4] == I32Bytes(a) && raw[4..8] == I32Bytes(b);
  }

  lemma ScalarWritesBack(tag: ValueTag, data: ValueData, raw: seq<byte>, offset: nat)
    requires DecodeScalar(tag, raw, offset) == Ok(data)
    ensures EncodeScalar(Value(tag, data)) == Ok(raw)
  {
    hide I32Bytes, I32Of;
    match data
    case Resolution(x, f, u) =>
      I32Unique(raw[0..4]);
      I32Unique(raw[4..8]);
      assert raw == raw[0..4] + raw[4..8] + [raw[8]];
    case RangeOfInteger(l, u) =>
      I32Unique(raw[0..4]);
      I32Unique(raw[4..8]);
      assert raw == raw[0..4] + raw[4..8];
    case Integer(i) => I32Unique(raw);
    case Enum(i) => I32Unique(raw);
    case _ =>
  }

  /** The scalar codec is a bijection between the data a tag admits and the octets it accepts. */
  lemma ScalarRoundTrip(tag: ValueTag, data: ValueData, raw: seq<byte>, offset: nat)
    ensures EncodeScalar(Value(tag, data)) == Ok(raw) <==> DecodeScalar(tag, raw, offset) == Ok(data)
  {
    if EncodeScalar(Value(tag, data)) == Ok(raw) {
      ScalarReadsBack(tag, data, raw, offset);
    }
    if DecodeScalar(tag, raw, offset) == Ok(data) {
      ScalarWritesBack(tag, data, raw, offset);
    }
  }
}
