/** The IPP decoder (crates/mb-printer-core/src/ipp.rs, `decode` and `Decoder`): first as functions of the input and a
    cursor, then as the class that moves an offset and counters and is proved to compute those functions. */
module IppDecode {
  import opened Bytes
  import opened IppModel
  import opened IppWire

  datatype Cursor = Cursor(offset: nat, counters: Counters)

  type Parsed<T> = Result<(T, Cursor), DecodeError>

  datatype Head = Head(tag: ValueTag, name: seq<byte>, raw: seq<byte>)

  function Byte(input: seq<byte>, c: Cursor): (r: Parsed<byte>) {
    if c.offset < |input| then Ok((input[c.offset], c.(offset := c.offset + 1)))
    else Err(Truncated(c.offset, 1))
  }

  function Take(input: seq<byte>, c: Cursor, length: nat): (r: Parsed<seq<byte>>) {
    if c.offset + length <= |input| then
      Ok((input[c.offset..c.offset + length], c.(offset := c.offset + length)))
    else
      Err(Truncated(c.offset, c.offset + length - |input|))
  }

  function U16(input: seq<byte>, c: Cursor): (r: Parsed<u16>) {
    var (b, n) :- Take(input, c, 2);
    Ok((U16Of(b[0], b[1]), n))
  }

  function U32(input: seq<byte>, c: Cursor): (r: Parsed<u32>) {
    var (b, n) :- Take(input, c, 4);
    Ok((U32Of(b), n))
  }

  function AddDecodedBytes(l: Limits, c: Cursor, length: nat): (r: Result<Cursor, DecodeError>) {
    var actual := c.counters.decodedBytes + length;
    if actual > l.maxDecodedBytes then Err(Limit("decoded bytes", actual, l.maxDecodedBytes))
    else Ok(c.(counters := c.counters.(decodedBytes := actual)))
  }

  function AddValue(l: Limits, c: Cursor): (r: Result<Cursor, DecodeError>) {
    var actual := c.counters.values + 1;
    if actual > l.maxValues then Err(Limit("values", actual, l.maxValues))
    else Ok(c.(counters := c.counters.(values := actual)))
  }

  function AddAttribute(l: Limits, c: Cursor): (r: Result<Cursor, DecodeError>) {
    var actual := c.counters.attributes + 1;
    if actual > l.maxAttributes then Err(Limit("attributes", actual, l.maxAttributes))
    else Ok(c.(counters := c.counters.(attributes := actual)))
  }

  function AddMember(l: Limits, c: Cursor): (r: Result<Cursor, DecodeError>) {
    var actual := c.counters.members + 1;
    if actual > l.maxCollectionMembers then Err(Limit("collection members", actual, l.maxCollectionMembers))
    else Ok(c.(counters := c.counters.(members := actual)))
  }

  function AddGroup(l: Limits, c: Cursor): (r: Result<Cursor, DecodeError>) {
    var actual := c.counters.groups + 1;
    if actual > l.maxGroups then Err(Limit("groups", actual, l.maxGroups))
    else Ok(c.(counters := c.counters.(groups := actual)))
  }

  /** A length-prefixed field, held to `limit` and counted as decoded bytes. */
  function Field(input: seq<byte>, l: Limits, c: Cursor, kind: string, limit: nat): (r: Parsed<seq<byte>>) {
    var (length, c1) :- U16(input, c);
    if length > limit then Err(Limit(kind, length, limit))
    else
      var (bytes, c2) :- Take(input, c1, length);
      var c3 :- AddDecodedBytes(l, c2, length);
      Ok((bytes, c3))
  }

  /** Tag, name and raw value of one entry, before the value is interpreted. */
  function ReadHead(input: seq<byte>, l: Limits, c: Cursor): (r: Parsed<Head>)
    ensures r.Ok? ==> c.offset + 5 <= r.value.1.offset <= |input|
  {
    var (tag, c1) :- Byte(input, c);
    var (name, c2) :- Field(input, l, c1, "name bytes", l.maxNameBytes);
    var (raw, c3) :- Field(input, l, c2, "value bytes", l.maxValueBytes);
    var c4 :- AddValue(l, c3);
    Ok((Head(FromByte(tag), name, raw), c4))
  }

  function Entry(input: seq<byte>, l: Limits, c: Cursor, depth: nat): (r: Parsed<(seq<byte>, Value)>)
    ensures r.Ok? ==> c.offset + 5 <= r.value.1.offset <= |input|
    decreases |input| - c.offset, 0
  {
    var (h, n) :- ReadHead(input, l, c);
    if h.tag == BegCollection then
      if h.raw != [] then
        Err(InvalidValue(c.offset, ToByte(h.tag), "begCollection must have an empty value"))
      else if depth + 1 > l.maxCollectionDepth then
        Err(Limit("collection depth", depth + 1, l.maxCollectionDepth))
      else
        var (members, n1) :- Members(input, l, n, depth + 1, []);
        Ok(((h.name, Value(h.tag, Collection(members))), n1))
    else
      var data :- DecodeScalar(h.tag, h.raw, c.offset);
      Ok(((h.name, Value(h.tag, data)), n))
  }

  /** The member loop of `Decoder::collection`, from `members` collected so far. */
  function Members(input: seq<byte>, l: Limits, c: Cursor, depth: nat, members: seq<Member>)
    : (r: Parsed<seq<Member>>)
    ensures r.Ok? ==> c.offset <= r.value.1.offset <= |input|
    decreases |input| - c.offset, 1
  {
    if c.offset >= |input| then Err(MissingEndOfAttributes)
    else if input[c.offset] == END_OF_ATTRIBUTES then Err(EndInsideCollection(c.offset))
    else if IsDelimiter(input[c.offset]) then
      Err(IllegalTag(c.offset, input[c.offset], "attribute group delimiter inside a collection"))
    else
      var ((name, value), n) :- Entry(input, l, c, depth);
      if name != [] then
        Err(InvalidValue(c.offset, ToByte(value.tag), "collection entries must have empty wire names"))
      else if value.tag == EndCollection then
        if value.data != Octets([]) then
          Err(InvalidValue(c.offset, ToByte(value.tag), "endCollection must have an empty value"))
        else Ok((members, n))
      else if value.tag == MemberAttrName && value.data.Octets? then
        var n1 :- OpenMember(l, n, value.data.bytes, c.offset);
        Members(input, l, n1, depth, members + [Member(value.data.bytes, [])])
      else if members == [] then
        Err(InvalidValue(c.offset, ToByte(value.tag), "member value precedes memberAttrName"))
      else
        Members(input, l, n, depth, PushValue(members, value))
  }

  /** What a memberAttrName entry, already read, must satisfy and counts. */
  function OpenMember(l: Limits, c: Cursor, name: seq<byte>, offset: nat): (r: Result<Cursor, DecodeError>)
    ensures r.Ok? ==> r.value.offset == c.offset
  {
    if name == [] then Err(InvalidValue(offset, 0x4a, "memberAttrName cannot be empty"))
    else if |name| > l.maxNameBytes then Err(Limit("name bytes", |name|, l.maxNameBytes))
    else
      var c1 :- AddMember(l, c);
      AddAttribute(l, c1)
  }

  function PushValue(members: seq<Member>, value: Value): (r: seq<Member>)
    requires members != []
  {
    var last := members[|members| - 1];
    members[..|members| - 1] + [Member(last.name, last.values + [value])]
  }

  function PushRepeated(attrs: seq<Attribute>, value: Value): (r: seq<Attribute>)
    requires attrs != []
  {
    var last := attrs[|attrs| - 1];
    attrs[..|attrs| - 1] + [Attribute(last.name, last.values + [value])]
  }

  /** The attribute loop of `decode` inside one group, from `attrs` collected so far. */
  function Attributes(input: seq<byte>, l: Limits, c: Cursor, attrs: seq<Attribute>): (r: Parsed<seq<Attribute>>)
    ensures r.Ok? ==> c.offset <= r.value.1.offset
    ensures r.Ok? && c.offset <= |input| ==> r.value.1.offset <= |input|
    decreases |input| - c.offset
  {
    if c.offset >= |input| || input[c.offset] == END_OF_ATTRIBUTES || IsDelimiter(input[c.offset]) then
      Ok((attrs, c))
    else
      var ((name, value), n) :- Entry(input, l, c, 0);
      if name == [] && attrs == [] then Err(MissingRepeatedAttribute(c.offset))
      else
        var n1 :- if name == [] then Ok(n) else AddAttribute(l, n);
        if value.tag.IsControl() then
          Err(IllegalTag(c.offset, ToByte(value.tag), "collection control tag outside a collection"))
        else
          Attributes(input, l, n1,
                     if name == [] then PushRepeated(attrs, value) else attrs + [Attribute(name, [value])])
  }

  /** The group loop of `decode`, from `groups` collected so far. */
  function Groups(input: seq<byte>, l: Limits, c: Cursor, groups: seq<Group>): (r: Parsed<seq<Group>>)
    requires c.offset <= |input|
    decreases |input| - c.offset
  {
    if c.offset >= |input| then Err(MissingEndOfAttributes)
    else
      var tag := input[c.offset];
      var n := c.(offset := c.offset + 1);
      if tag == END_OF_ATTRIBUTES then
        if n.offset != |input| then Err(TrailingBytes(n.offset)) else Ok((groups, n))
      else if !IsDelimiter(tag) then Err(MissingGroup(c.offset, tag))
      else
        var n1 :- AddGroup(l, n);
        var (attrs, n2) :- Attributes(input, l, n1, []);
        Groups(input, l, n2, groups + [Group(tag, attrs)])
  }

  datatype Header = Header(major: byte, minor: byte, code: u16, requestId: u32)

  function ReadHeader(input: seq<byte>): (r: Parsed<Header>)
    ensures r.Ok? ==> r.value.1 == Cursor(8, ZERO) && |input| >= 8
  {
    var (major, c1) :- Byte(input, Cursor(0, ZERO));
    var (minor, c2) :- Byte(input, c1);
    var (code, c3) :- U16(input, c2);
    var (requestId, c4) :- U32(input, c3);
    Ok((Header(major, minor, code, requestId), c4))
  }

  /** `decode`, together with the counters the decoder ends with. */
  function DecodeCounted(input: seq<byte>, l: Limits): (r: Parsed<Message>) {
    if !l.Valid() then Err(InvalidLimits)
    else if |input| > l.maxMessageBytes then Err(MessageTooLarge(|input|, l.maxMessageBytes))
    else
      var (h, c) :- ReadHeader(input);
      var (groups, n) :- Groups(input, l, c, []);
      Ok((Message(h.major, h.minor, h.code, h.requestId, groups, input), n))
  }

  function Decode(input: seq<byte>, l: Limits): (r: Result<Message, DecodeError>) {
    var (m, _) :- DecodeCounted(input, l);
    Ok(m)
  }

  class Decoder {
    const input: seq<byte>
    const limits: Limits
    var offset: nat
    var counters: Counters

    constructor (input: seq<byte>, limits: Limits)
      ensures this.input == input && this.limits == limits && State() == Cursor(0, ZERO)
    {
      this.input := input;
      this.limits := limits;
      offset := 0;
      counters := ZERO;
    }

    ghost function State(): (c: Cursor)
      reads this
    {
      Cursor(offset, counters)
    }

    /** The outcome `r` of a method is what the function `spec` says, and so is the state it leaves. */
    ghost predicate Agrees<T>(r: Result<T, DecodeError>, spec: Parsed<T>)
      reads this
    {
      match r
      case Ok(v) => spec == Ok((v, State()))
      case Err(e) => spec == Err(e)
    }

    ghost predicate Moves(r: Result<(), DecodeError>, spec: Result<Cursor, DecodeError>)
      reads this
    {
      match r
      case Ok(_) => spec == Ok(State())
      case Err(e) => spec == Err(e)
    }

    method ReadByte() returns (r: Result<byte, DecodeError>)
      modifies this
      ensures Agrees(r, Byte(input, old(State())))
    {
      if offset >= |input| {
        return Err(Truncated(offset, 1));
      }
      r := Ok(input[offset]);
      offset := offset + 1;
    }

    method ReadBytes(length: nat) returns (r: Result<seq<byte>, DecodeError>)
      modifies this
      ensures Agrees(r, Take(input, old(State()), length))
    {
      var end := offset + length;
      if end > |input| {
        return Err(Truncated(offset, end - |input|));
      }
      r := Ok(input[offset..end]);
      offset := end;
    }

    method ReadU16() returns (r: Result<u16, DecodeError>)
      modifies this
      ensures Agrees(r, U16(input, old(State())))
    {
      var b :- ReadBytes(2);
      r := Ok(U16Of(b[0], b[1]));
    }

    method ReadU32() returns (r: Result<u32, DecodeError>)
      modifies this
      ensures Agrees(r, U32(input, old(State())))
    {
      var b :- ReadBytes(4);
      r := Ok(U32Of(b));
    }

    method CountDecodedBytes(length: nat) returns (r: Result<(), DecodeError>)
      modifies this`counters
      ensures Moves(r, AddDecodedBytes(limits, old(State()), length))
    {
      var actual := counters.decodedBytes + length;
      if actual > limits.maxDecodedBytes {
        return Err(Limit("decoded bytes", actual, limits.maxDecodedBytes));
      }
      counters := counters.(decodedBytes := actual);
      r := Ok(());
    }

    method CountAttribute() returns (r: Result<(), DecodeError>)
      modifies this`counters
      ensures Moves(r, AddAttribute(limits, old(State())))
    {
      if counters.attributes + 1 > limits.maxAttributes {
        return Err(Limit("attributes", counters.attributes + 1, limits.maxAttributes));
      }
      counters := counters.(attributes := counters.attributes + 1);
      r := Ok(());
    }

    method CountMember(name: seq<byte>, start: nat) returns (r: Result<(), DecodeError>)
      modifies this`counters
      ensures Moves(r, OpenMember(limits, old(State()), name, start))
    {
      if name == [] {
        return Err(InvalidValue(start, 0x4a, "memberAttrName cannot be empty"));
      }
      if |name| > limits.maxNameBytes {
        return Err(Limit("name bytes", |name|, limits.maxNameBytes));
      }
      if counters.members + 1 > limits.maxCollectionMembers {
        return Err(Limit("collection members", counters.members + 1, limits.maxCollectionMembers));
      }
      counters := counters.(members := counters.members + 1);
      r := CountAttribute();
    }

    method ReadField(kind: string, limit: nat) returns (r: Result<seq<byte>, DecodeError>)
      modifies this
      ensures Agrees(r, Field(input, limits, old(State()), kind, limit))
    {
      var length :- ReadU16();
      if length > limit {
        return Err(Limit(kind, length, limit));
      }
      var bytes :- ReadBytes(length);
      var _ :- CountDecodedBytes(length);
      r := Ok(bytes);
    }

    method AttributeValue(depth: nat) returns (r: Result<(seq<byte>, Value), DecodeError>)
      modifies this
      ensures Agrees(r, Entry(input, limits, old(State()), depth))
      decreases |input| - offset, 0
    {
      hide Field, Members;
      var start := offset;
      var tagByte :- ReadByte();
      var tag := FromByte(tagByte);
      var name :- ReadField("name bytes", limits.maxNameBytes);
      var raw :- ReadField("value bytes", limits.maxValueBytes);
      if counters.values + 1 > limits.maxValues {
        return Err(Limit("values", counters.values + 1, limits.maxValues));
      }
      counters := counters.(values := counters.values + 1);
      assert ReadHead(input, limits, old(State())) == Ok((Head(tag, name, raw), State()));
      if tag == BegCollection {
        if raw != [] {
          return Err(InvalidValue(start, ToByte(tag), "begCollection must have an empty value"));
        }
        if depth + 1 > limits.maxCollectionDepth {
          return Err(Limit("collection depth", depth + 1, limits.maxCollectionDepth));
        }
        var members :- ReadMembers(depth + 1);
        r := Ok((name, Value(tag, Collection(members))));
      } else {
        var data :- DecodeScalar(tag, raw, start);
        r := Ok((name, Value(tag, data)));
      }
    }

    method ReadMembers(depth: nat) returns (r: Result<seq<Member>, DecodeError>)
      modifies this
      ensures Agrees(r, Members(input, limits, old(State()), depth, []))
      decreases |input| - offset, 1
    {
      hide Entry, OpenMember;
      var members: seq<Member> := [];
      while true
        invariant old(offset) <= offset
        invariant Members(input, limits, old(State()), depth, []) == Members(input, limits, State(), depth, members)
        decreases |input| - offset
      {
        var start := offset;
        if start >= |input| {
          return Err(MissingEndOfAttributes);
        }
        var next := input[start];
        if next == END_OF_ATTRIBUTES {
          return Err(EndInsideCollection(start));
        }
        if IsDelimiter(next) {
          return Err(IllegalTag(start, next, "attribute group delimiter inside a collection"));
        }
        var entry :- AttributeValue(depth);
        var (name, value) := entry;
        if name != [] {
          return Err(InvalidValue(start, ToByte(value.tag), "collection entries must have empty wire names"));
        }
        if value.tag == EndCollection {
          if value.data != Octets([]) {
            return Err(InvalidValue(start, ToByte(value.tag), "endCollection must have an empty value"));
          }
          return Ok(members);
        } else if value.tag == MemberAttrName && value.data.Octets? {
          var _ :- CountMember(value.data.bytes, start);
          members := members + [Member(value.data.bytes, [])];
        } else {
          if members == [] {
            return Err(InvalidValue(start, ToByte(value.tag), "member value precedes memberAttrName"));
          }
          members := PushValue(members, value);
        }
      }
    }

    method ReadAttributes() returns (r: Result<seq<Attribute>, DecodeError>)
      modifies this
      ensures Agrees(r, Attributes(input, limits, old(State()), []))
    {
      hide Entry;
      var attrs: seq<Attribute> := [];
      while offset < |input|
        invariant Attributes(input, limits, old(State()), []) == Attributes(input, limits, State(), attrs)
        decreases |input| - offset
      {
        var next := input[offset];
        if next == END_OF_ATTRIBUTES || IsDelimiter(next) {
          break;
        }
        var start := offset;
        var entry :- AttributeValue(0);
        var (name, value) := entry;
        if name == [] {
          if attrs == [] {
            return Err(MissingRepeatedAttribute(start));
          }
          attrs := PushRepeated(attrs, value);
        } else {
          var _ :- CountAttribute();
          attrs := attrs + [Attribute(name, [value])];
        }
        if value.tag.IsControl() {
          return Err(IllegalTag(start, ToByte(value.tag), "collection control tag outside a collection"));
        }
      }
      r := Ok(attrs);
    }

    method ReadGroups() returns (r: Result<seq<Group>, DecodeError>)
      requires offset <= |input|
      modifies this
      ensures Agrees(r, Groups(input, limits, old(State()), []))
    {
      hide Attributes;
      var groups: seq<Group> := [];
      while true
        invariant offset <= |input|
        invariant Groups(input, limits, old(State()), []) == Groups(input, limits, State(), groups)
        decreases |input| - offset
      {
        var markerOffset := offset;
        if offset >= |input| {
          return Err(MissingEndOfAttributes);
        }
        var tag := input[offset];
        offset := offset + 1;
        if tag == END_OF_ATTRIBUTES {
          if offset != |input| {
            return Err(TrailingBytes(offset));
          }
          return Ok(groups);
        }
        if !IsDelimiter(tag) {
          return Err(MissingGroup(markerOffset, tag));
        }
        if counters.groups + 1 > limits.maxGroups {
          return Err(Limit("groups", counters.groups + 1, limits.maxGroups));
        }
        counters := counters.(groups := counters.groups + 1);
        var attrs :- ReadAttributes();
        groups := groups + [Group(tag, attrs)];
      }
    }
  }

  method DecodeMessage(input: seq<byte>, l: Limits) returns (r: Result<Message, DecodeError>)
    ensures r == Decode(input, l)
  {
    if !l.Valid() {
      return Err(InvalidLimits);
    }
    if |input| > l.maxMessageBytes {
      return Err(MessageTooLarge(|input|, l.maxMessageBytes));
    }
    var d := new Decoder(input, l);
    var major :- d.ReadByte();
    var minor :- d.ReadByte();
    var code :- d.ReadU16();
    var requestId :- d.ReadU32();
    var groups :- d.ReadGroups();
    r := Ok(Message(major, minor, code, requestId, groups, input));
  }
}
