/** The octets of the wire form, named one by one (section 3 of RFC 8010). */
module IppOctets {
  import opened Bytes
  import opened IppModel
  import opened IppWire

  /** Limits are usable when a message has room for its header and nothing else is forbidden altogether. */
  lemma UsableLimits(l: Limits)
    ensures l.Valid() <==>
      && l.maxMessageBytes > 7
      && 0 !in {l.maxGroups, l.maxAttributes, l.maxValues, l.maxNameBytes, l.maxValueBytes, l.maxDecodedBytes,
                l.maxCollectionDepth, l.maxCollectionMembers}
  {
  }

  /** Group delimiters are the octets below sixteen other than zero and the end of the attributes. */
  lemma DelimiterOctets(b: byte)
    ensures IsDelimiter(b) <==> b in {1, 2, 4, 5, 6, 7, 8, 9, 10, 11, 12, 13, 14, 15}
    ensures b == END_OF_ATTRIBUTES <==> b == 3
  {
  }

  /** The registered value tags in the order of their octets; every other octet is an extension. */
  lemma TagOctets(b: byte)
    ensures match b
      case 0x10 => FromByte(b) == Unsupported
      case 0x12 => FromByte(b) == Unknown
      case 0x13 => FromByte(b) == NoValue
      case 0x15 => FromByte(b) == NotSettable
      case 0x16 => FromByte(b) == DeleteAttribute
      case 0x17 => FromByte(b) == AdminDefine
      case 0x21 => FromByte(b) == IntegerTag
      case 0x22 => FromByte(b) == BooleanTag
      case 0x23 => FromByte(b) == EnumTag
      case 0x30 => FromByte(b) == OctetString
      case 0x31 => FromByte(b) == DateTimeTag
      case 0x32 => FromByte(b) == ResolutionTag
      case 0x33 => FromByte(b) == RangeOfIntegerTag
      case 0x34 => FromByte(b) == BegCollection
      case 0x35 => FromByte(b) == TextWithLanguage
      case 0x36 => FromByte(b) == NameWithLanguage
      case 0x37 => FromByte(b) == EndCollection
      case 0x41 => FromByte(b) == TextWithoutLanguage
      case 0x42 => FromByte(b) == NameWithoutLanguage
      case 0x44 => FromByte(b) == Keyword
      case 0x45 => FromByte(b) == Uri
      case 0x46 => FromByte(b) == UriScheme
      case 0x47 => FromByte(b) == Charset
      case 0x48 => FromByte(b) == NaturalLanguage
      case 0x49 => FromByte(b) == MimeMediaType
      case 0x4a => FromByte(b) == MemberAttrName
      case _ => FromByte(b) == Extension(b)
  {
  }

  /** Out-of-band tags carry no value, control tags structure collections, and seven tags have a syntax of their own. */
  lemma TagKinds(b: byte)
    ensures FromByte(b).IsOutOfBand() <==> b in {0x10, 0x12, 0x13, 0x15, 0x16, 0x17}
    ensures FromByte(b).IsControl() <==> b in {0x37, 0x4a}
    ensures FromByte(b).HasFixedSyntax() <==> b in {0x21, 0x22, 0x23, 0x31, 0x32, 0x33, 0x34}
  {
  }

  /** An entry is its tag, the length of its name in two octets, high one first, the name, and the same of its value. */
  lemma EntryOctets(tag: byte, name: seq<byte>, raw: seq<byte>)
    requires |name| < 0x1_0000 && |raw| < 0x1_0000
    ensures var w, n := EntryBytes(tag, name, raw), |name|;
      && |w| == 5 + n + |raw| && w[0] == tag
      && w[1] as int * 256 + w[2] == n && w[3..3 + n] == name
      && w[3 + n] as int * 256 + w[4 + n] == |raw| && w[5 + n..] == raw
  {
    U16Octets(|name|);
    U16Octets(|raw|);
    Fields(tag, U16Bytes(|name|), name, U16Bytes(|raw|), raw);
  }

  lemma Fields(tag: byte, a: seq<byte>, name: seq<byte>, b: seq<byte>, raw: seq<byte>)
    requires |a| == |b| == 2
    ensures var w, n := [tag] + a + name + b + raw, |name|;
      && |w| == 5 + n + |raw| && w[0] == tag && w[1] == a[0] && w[2] == a[1] && w[3..3 + n] == name
      && w[3 + n] == b[0] && w[4 + n] == b[1] && w[5 + n..] == raw
  {
  }

  /** A collection opens with 0x34 and closes with 0x37; its members are announced by 0x4a. */
  lemma CollectionOctets(name: seq<byte>, v: Value, m: Member)
    requires IsCollection(v)
    ensures |WireValue(name, v)| > 0 && WireValue(name, v)[0] == 0x34
    ensures END_COLLECTION == [0x37, 0, 0, 0, 0]
    ensures |WireMember(m)| > 0 && WireMember(m)[0] == 0x4a
  {
    hide WireMembers, WireNamed;
  }

  /** A message is its version, operation or status, and request identifier, its groups, and the end of the attributes.
      */
  lemma MessageOctets(m: Message)
    ensures var w := WireMessage(m);
      && |w| >= 9 && w[0] == m.major && w[1] == m.minor && w[2] as int * 256 + w[3] == m.code
      && w[4] as int * 16777216 + w[5] as int * 65536 + w[6] as int * 256 + w[7] == m.requestId
      && w[8..|w| - 1] == WireGroups(m.groups) && w[|w| - 1] == 3
  {
    hide WireGroups;
    U16Octets(m.code);
    U32Octets(m.requestId);
    var w := WireMessage(m);
    assert w == [m.major, m.minor] + U16Bytes(m.code) + U32Bytes(m.requestId) + WireGroups(m.groups) + [3];
    hide U16Bytes, U32Bytes;
    assert w[2] == U16Bytes(m.code)[0] && w[3] == U16Bytes(m.code)[1];
    assert w[4..8] == U32Bytes(m.requestId);
  }
}
