/** The IPP codec as a whole: the exact domain and image of `decode`, and both round trips. */
module IppCodec {
  import opened Bytes
  import opened IppModel
  import opened IppWire
  import opened IppDecode
  import opened IppDecodeProofs
  import opened IppMessageProofs

  lemma HeaderExact(input: seq<byte>, h: Header)
    ensures ReadHeader(input) == Ok((h, Cursor(8, ZERO))) <==>
      At(input, 0, [h.major, h.minor] + U16Bytes(h.code) + U32Bytes(h.requestId))
  {
    var w := [h.major, h.minor] + U16Bytes(h.code) + U32Bytes(h.requestId);
    if |input| >= 8 {
      var b := input[4..8];
      U32RoundTrip(h.requestId);
      U32Unique(b);
      assert input[0..8] == [input[0], input[1]] + [input[2], input[3]] + b;
      assert U16Bytes(U16Of(input[2], input[3])) == [input[2], input[3]];
      assert w[4..8] == U32Bytes(h.requestId);
    }
  }

  /** The trees `decode` can produce under limits `l`. */
  predicate Decodable(l: Limits, m: Message) {
    && l.Valid() && FitsMessage(l, m) && CanonMessage(m)
    && CostGroups(m.groups).Within(l) && |WireMessage(m)| <= l.maxMessageBytes
  }

  lemma GoodMessage(l: Limits, m: Message)
    ensures GoodGroups(l, m.groups) <==> FitsMessage(l, m) && CanonMessage(m)
  {
    hide FitsAttribute, CanonAll;
    if GoodGroups(l, m.groups) {
      forall i | 0 <= i < |m.groups| ensures FitsGroup(l, m.groups[i]) && CanonGroup(m.groups[i]) {
        assert GoodAttributes(l, m.groups[i].attributes);
      }
    }
    if FitsMessage(l, m) && CanonMessage(m) {
      forall i | 0 <= i < |m.groups|
        ensures IsDelimiter(m.groups[i].tag) && GoodAttributes(l, m.groups[i].attributes)
      {
        assert FitsGroup(l, m.groups[i]) && CanonGroup(m.groups[i]);
      }
    }
  }

  lemma WireAt(input: seq<byte>, m: Message)
    ensures input == WireMessage(m) <==>
      && At(input, 0, WireHeader(m)) && At(input, 8, WireGroups(m.groups) + [END_OF_ATTRIBUTES])
      && 8 + |WireGroups(m.groups)| + 1 == |input|
  {
    hide WireGroups, U32Bytes;
    U32RoundTrip(m.requestId);
    AtConcat(input, 0, WireHeader(m), WireGroups(m.groups) + [END_OF_ATTRIBUTES]);
    assert input[0..|input|] == input;
  }

  lemma DecodeComplete(input: seq<byte>, l: Limits, m: Message)
    requires Decodable(l, m) && input == WireMessage(m) && m.originalBytes == input
    ensures DecodeCounted(input, l) == Ok((m, Cursor(|input|, CostGroups(m.groups))))
  {
    hide At, WireMessage, WireGroups, CostGroups, Groups, ReadHeader, FitsMessage, CanonMessage, GoodGroups;
    WireAt(input, m);
    GoodMessage(l, m);
    HeaderExact(input, Header(m.major, m.minor, m.code, m.requestId));
    ZeroAdd(CostGroups(m.groups));
    GroupsComplete(input, l, Cursor(8, ZERO), [], m.groups);
    assert [] + m.groups == m.groups;
  }

  lemma DecodeParts(input: seq<byte>, l: Limits, m: Message, n: Cursor)
    requires DecodeCounted(input, l) == Ok((m, n))
    ensures l.Valid() && 8 <= |input| <= l.maxMessageBytes && m.originalBytes == input
    ensures ReadHeader(input) == Ok((Header(m.major, m.minor, m.code, m.requestId), Cursor(8, ZERO)))
    ensures Groups(input, l, Cursor(8, ZERO), []) == Ok((m.groups, n))
  {
    hide ReadHeader;
    var (h, c) := ReadHeader(input).value;
    assert c == Cursor(8, ZERO);
    var g := Groups(input, l, c, []).value;
    assert g == (g.0, g.1) && m.groups == g.0 && n == g.1;
  }

  lemma DecodeSound(input: seq<byte>, l: Limits, m: Message, n: Cursor)
    requires DecodeCounted(input, l) == Ok((m, n))
    ensures Decodable(l, m) && input == WireMessage(m) && m.originalBytes == input
    ensures n == Cursor(|input|, CostGroups(m.groups))
  {
    hide At, WireGroups, CostGroups, Groups, ReadHeader, FitsMessage, CanonMessage, GoodGroups, U32Bytes;
    hide DecodeCounted;
    DecodeParts(input, l, m, n);
    HeaderExact(input, Header(m.major, m.minor, m.code, m.requestId));
    NoGroupsYet(l);
    var w, k := GroupsSound(input, l, Cursor(8, ZERO), [], m.groups, n);
    assert [] + w == w;
    ZeroAdd(k);
    GoodMessage(l, m);
    WireAt(input, m);
  }

  lemma NoGroupsYet(l: Limits)
    ensures GoodGroups(l, []) && WireGroups([]) == [] && CostGroups([]) == ZERO && ZERO.Within(l)
  {
  }

  /** `decode` succeeds on exactly the wire forms of decodable trees and then returns that tree: the accepted form is
      canonical, so no two inputs share a tree. */
  lemma DecodeExact(input: seq<byte>, l: Limits, m: Message)
    ensures Decode(input, l) == Ok(m) <==> Decodable(l, m) && input == WireMessage(m) && m.originalBytes == input
  {
    hide Decodable, WireMessage, DecodeCounted;
    if Decode(input, l) == Ok(m) {
      DecodeSound(input, l, m, DecodeCounted(input, l).value.1);
    }
    if Decodable(l, m) && input == WireMessage(m) && m.originalBytes == input {
      DecodeComplete(input, l, m);
    }
  }

  /** Encoding then decoding under the same limits gives the message back exactly when its value tags are canonical,
      and the decoder ends with the counters of the encoder. */
  lemma EncodeThenDecode(m: Message, l: Limits)
    requires Encodable(l, m)
    ensures var back := m.(originalBytes := WireMessage(m));
      && (Decode(WireMessage(m), l) == Ok(back) <==> CanonMessage(m))
      && (CanonMessage(m) ==> DecodeCounted(WireMessage(m), l)
                              == Ok((back, Cursor(|WireMessage(m)|, CostGroups(m.groups)))))
  {
    hide WireGroups, CostGroups, DecodeCounted;
    var back := m.(originalBytes := WireMessage(m));
    SameWire(m, WireMessage(m));
    DecodeExact(WireMessage(m), l, back);
    if CanonMessage(m) {
      DecodeComplete(WireMessage(m), l, back);
    }
  }

  /** Decoding then encoding gives the input back, byte for byte, exactly when every collection member has a value and
      no attribute name is longer than the value limit. */
  lemma DecodeThenEncode(input: seq<byte>, l: Limits, m: Message)
    requires Decode(input, l) == Ok(m)
    ensures WireMessage(m) == input
    ensures Encodable(l, m) <==> ValuedMessage(m) && ShortNames(l, m)
    ensures l.maxNameBytes <= l.maxValueBytes ==> ShortNames(l, m)
  {
    hide WireMessage, CostGroups, DecodeCounted, Decode, ValuedMessage, CanonMessage;
    DecodeExact(input, l, m);
    if l.maxNameBytes <= l.maxValueBytes {
      forall i | 0 <= i < |m.groups| ensures ShortNamesGroup(l, m.groups[i]) {
        assert FitsGroup(l, m.groups[i]);
      }
    }
  }

  /** Two inputs that decode, under any limits, to trees with the same header and groups are the same input. */
  lemma DecodeInjective(a: seq<byte>, b: seq<byte>, la: Limits, lb: Limits)
    requires Decode(a, la).Ok? && Decode(b, lb).Ok?
    requires Decode(a, la).value.(originalBytes := []) == Decode(b, lb).value.(originalBytes := [])
    ensures a == b
  {
    hide Decode, Decodable, WireGroups;
    var ma, mb := Decode(a, la).value, Decode(b, lb).value;
    DecodeExact(a, la, ma);
    DecodeExact(b, lb, mb);
    assert WireMessage(ma) == WireMessage(mb);
  }

  /** A message with one attribute, whose one value is a collection with one member that has no value. */
  function EmptyMemberMessage(name: seq<byte>, member: seq<byte>): (m: Message) {
    Message(2, 0, 0, 1, [Group(1, [Attribute(name, [Value(BegCollection, Collection([Member(member, [])]))])])], [])
  }

  /** A collection member may lack a value on the wire, and then the encoder refuses the tree the decoder produced: the
      conditions of `DecodeThenEncode` are not always met. */
  lemma EmptyMemberDecodesButDoesNotEncode(l: Limits, name: seq<byte>, member: seq<byte>)
    requires l.Valid() && name != [] && FitsName(l, name) && member != [] && FitsName(l, member) && FitsRaw(l, member)
    requires CostGroups(EmptyMemberMessage(name, member).groups).Within(l)
    requires |WireMessage(EmptyMemberMessage(name, member))| <= l.maxMessageBytes
    ensures var m := EmptyMemberMessage(name, member);
      && Decode(WireMessage(m), l) == Ok(m.(originalBytes := WireMessage(m)))
      && !Encodable(l, m)
  {
    hide WireMessage, CostGroups, Decode;
    var m := EmptyMemberMessage(name, member);
    var v := Value(BegCollection, Collection([Member(member, [])]));
    assert !Encodable(l, m) by {
      assert !ValuedMembers([Member(member, [])]) by {
        assert [Member(member, [])][0].values == [];
      }
      assert !ValuedAll([v]) by {
        assert !Valued([v][0]);
      }
      assert m.groups[0].attributes[0].values == [v];
    }
    assert FitsMessage(l, m) by {
      assert FitsMember(l, Member(member, []), 1);
      assert Fits(l, v, 0);
      assert FitsAttribute(l, Attribute(name, [v]));
      assert FitsGroup(l, m.groups[0]);
    }
    assert CanonMessage(m) by {
      assert CanonAll(Member(member, []).values);
      assert CanonMembers([Member(member, [])]);
      assert Canon(v);
      assert CanonAll([v]);
      assert CanonGroup(m.groups[0]);
    }
    SameWire(m, WireMessage(m));
    DecodeExact(WireMessage(m), l, m.(originalBytes := WireMessage(m)));
  }

  lemma SameWire(m: Message, bytes: seq<byte>)
    ensures WireMessage(m.(originalBytes := bytes)) == WireMessage(m)
  {
  }
}
