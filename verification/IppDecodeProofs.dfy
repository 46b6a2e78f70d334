/** The decoder accepts exactly the wire forms of well-formed trees, and counts exactly their cost. */
module IppDecodeProofs {
  import opened Bytes
  import opened IppModel
  import opened IppWire
  import opened IppDecode

  /** The cursor after an item of wire form `w` and cost `cost`. */
  function Past(c: Cursor, w: seq<byte>, cost: Counters): (n: Cursor) {
    Cursor(c.offset + |w|, c.counters.Add(cost))
  }

  lemma LengthExact(input: seq<byte>, c: Cursor, n: nat)
    requires n < 0x1_0000
    ensures At(input, c.offset, LengthBytes(n)) <==> U16(input, c) == Ok((n, c.(offset := c.offset + 2)))
  {
    if c.offset + 2 <= |input| {
      var b := input[c.offset..c.offset + 2];
      assert b == U16Bytes(U16Of(b[0], b[1]));
    }
  }

  lemma FieldExact(input: seq<byte>, l: Limits, c: Cursor, kind: string, limit: nat, f: seq<byte>, n: Cursor)
    ensures Field(input, l, c, kind, limit) == Ok((f, n)) <==>
      && At(input, c.offset, LengthBytes(|f|) + f) && |f| < 0x1_0000 && |f| <= limit
      && n == Past(c, LengthBytes(|f|) + f, Counters(0, 0, 0, 0, |f|))
      && n.counters.decodedBytes <= l.maxDecodedBytes
  {
    hide LengthBytes, U16;
    AtConcat(input, c.offset, LengthBytes(|f|), f);
    TwoBytes(|f|);
    if |f| < 0x1_0000 {
      LengthExact(input, c, |f|);
    }
    U16Moves(input, c);
  }

  lemma TwoBytes(n: nat)
    ensures |LengthBytes(n)| == 2
  {
  }

  lemma U16Moves(input: seq<byte>, c: Cursor)
    ensures U16(input, c).Ok? ==> U16(input, c).value.1 == c.(offset := c.offset + 2)
  {
  }

  lemma EntryAt(input: seq<byte>, offset: nat, tag: byte, name: seq<byte>, raw: seq<byte>)
    ensures |EntryBytes(tag, name, raw)| == 5 + |name| + |raw|
    ensures At(input, offset, EntryBytes(tag, name, raw)) <==>
      && offset < |input| && input[offset] == tag
      && At(input, offset + 1, LengthBytes(|name|) + name)
      && At(input, offset + 3 + |name|, LengthBytes(|raw|) + raw)
  {
    var x, y := LengthBytes(|name|) + name, LengthBytes(|raw|) + raw;
    assert EntryBytes(tag, name, raw) == [tag] + (x + y);
    AtConcat(input, offset, [tag], x + y);
    AtConcat(input, offset + 1, x, y);
    assert At(input, offset, [tag]) <==> offset < |input| && input[offset] == tag;
  }

  lemma HeadComplete(input: seq<byte>, l: Limits, c: Cursor, h: Head)
    requires At(input, c.offset, EntryBytes(ToByte(h.tag), h.name, h.raw))
    requires FromByte(ToByte(h.tag)) == h.tag && FitsName(l, h.name) && FitsRaw(l, h.raw)
    requires c.counters.Add(EntryCost(h.name, h.raw)).Within(l)
    ensures ReadHead(input, l, c)
         == Ok((h, Past(c, EntryBytes(ToByte(h.tag), h.name, h.raw), EntryCost(h.name, h.raw))))
  {
    hide At, Field, LengthBytes, EntryBytes, FromByte, ToByte;
    EntryAt(input, c.offset, ToByte(h.tag), h.name, h.raw);
    TwoBytes(|h.name|);
    TwoBytes(|h.raw|);
    var c1 := c.(offset := c.offset + 1);
    var c2 := Past(c1, LengthBytes(|h.name|) + h.name, Counters(0, 0, 0, 0, |h.name|));
    var c3 := Past(c2, LengthBytes(|h.raw|) + h.raw, Counters(0, 0, 0, 0, |h.raw|));
    FieldExact(input, l, c1, "name bytes", l.maxNameBytes, h.name, c2);
    FieldExact(input, l, c2, "value bytes", l.maxValueBytes, h.raw, c3);
  }

  lemma HeadSound(input: seq<byte>, l: Limits, c: Cursor, h: Head, n: Cursor)
    requires ReadHead(input, l, c) == Ok((h, n)) && c.counters.Within(l)
    ensures At(input, c.offset, EntryBytes(ToByte(h.tag), h.name, h.raw))
    ensures ToByte(h.tag) == input[c.offset]
    ensures FromByte(ToByte(h.tag)) == h.tag && FitsName(l, h.name) && FitsRaw(l, h.raw)
    ensures n == Past(c, EntryBytes(ToByte(h.tag), h.name, h.raw), EntryCost(h.name, h.raw))
    ensures n.counters.Within(l)
  {
    hide At, Field, LengthBytes, EntryBytes, FromByte, ToByte;
    TwoBytes(|h.name|);
    TwoBytes(|h.raw|);
    TagRoundTrip(input[c.offset], h.tag);
    EntryAt(input, c.offset, ToByte(h.tag), h.name, h.raw);
    var c1 := c.(offset := c.offset + 1);
    var c2 := Field(input, l, c1, "name bytes", l.maxNameBytes).value.1;
    FieldExact(input, l, c1, "name bytes", l.maxNameBytes, h.name, c2);
    var c3 := Field(input, l, c2, "value bytes", l.maxValueBytes).value.1;
    FieldExact(input, l, c2, "value bytes", l.maxValueBytes, h.raw, c3);
  }

  lemma PastTwice(c: Cursor, w1: seq<byte>, k1: Counters, w2: seq<byte>, k2: Counters)
    ensures Past(Past(c, w1, k1), w2, k2) == Past(c, w1 + w2, k1.Add(k2))
  {
  }

  const END_COST := EntryCost([], [])

  lemma ScalarTag(v: Value)
    requires EncodeScalar(v).Ok?
    ensures v.tag != BegCollection
  {
  }

  lemma ControlEntry(input: seq<byte>, l: Limits, c: Cursor, depth: nat, tag: ValueTag, raw: seq<byte>)
    requires tag.IsControl() && At(input, c.offset, EntryBytes(ToByte(tag), [], raw))
    requires FitsRaw(l, raw) && c.counters.Add(EntryCost([], raw)).Within(l)
    ensures Entry(input, l, c, depth)
         == Ok((([], Value(tag, Octets(raw))), Past(c, EntryBytes(ToByte(tag), [], raw), EntryCost([], raw))))
    ensures c.offset < |input| && input[c.offset] == ToByte(tag)
  {
    EntryAt(input, c.offset, ToByte(tag), [], raw);
    HeadComplete(input, l, c, Head(tag, [], raw));
  }

  /** Reading an entry off its wire form gives the value back and counts its cost. */
  lemma EntryComplete(input: seq<byte>, l: Limits, c: Cursor, depth: nat, name: seq<byte>, v: Value)
    requires At(input, c.offset, WireValue(name, v))
    requires FromByte(ToByte(v.tag)) == v.tag && CanonInside(v)
    requires FitsName(l, name) && Fits(l, v, depth) && c.counters.Add(CostValue(name, v)).Within(l)
    ensures Entry(input, l, c, depth) == Ok(((name, v), Past(c, WireValue(name, v), CostValue(name, v))))
    decreases |input| - c.offset, 0
  {
    hide At, EntryBytes, ReadHead, Members, WireMembers, CostMembers, FitsMembers, CanonMembers, EncodeScalar,
      DecodeScalar;
    if IsCollection(v) {
      var ms, w := v.data.members, EntryBytes(0x34, name, []);
      AtConcat(input, c.offset, w, WireMembers(ms) + END_COLLECTION);
      EntryAt(input, c.offset, 0x34, name, []);
      HeadComplete(input, l, c, Head(BegCollection, name, []));
      var n := Past(c, w, EntryCost(name, []));
      AddAssoc(c.counters, EntryCost(name, []), CostMembers(ms).Add(END_COST));
      AddAssoc(EntryCost(name, []), CostMembers(ms), END_COST);
      assert [] + ms == ms;
      MembersComplete(input, l, n, depth + 1, [], ms);
      PastTwice(c, w, EntryCost(name, []), WireMembers(ms) + END_COLLECTION, CostMembers(ms).Add(END_COST));
    } else {
      HeadComplete(input, l, c, Head(v.tag, name, Raw(v)));
      ScalarRoundTrip(v.tag, v.data, Raw(v), c.offset);
      ScalarTag(v);
    }
  }

  lemma OpenMemberCounts(l: Limits, c: Cursor, name: seq<byte>, offset: nat)
    requires name != [] && |name| <= l.maxNameBytes && c.counters.Add(Counters(0, 1, 0, 1, 0)).Within(l)
    ensures OpenMember(l, c, name, offset) == Ok(Past(c, [], Counters(0, 1, 0, 1, 0)))
  {
  }

  lemma OpenStep(input: seq<byte>, l: Limits, c: Cursor, depth: nat, acc: seq<Member>, name: seq<byte>)
    requires At(input, c.offset, EntryBytes(0x4a, [], name))
    requires name != [] && FitsName(l, name) && FitsRaw(l, name)
    requires c.counters.Add(Counters(0, 1, 1, 1, |name|)).Within(l)
    ensures Members(input, l, c, depth, acc)
         == Members(input, l, Past(c, EntryBytes(0x4a, [], name), Counters(0, 1, 1, 1, |name|)), depth,
                    acc + [Member(name, [])])
  {
    hide At, EntryBytes, Entry, OpenMember;
    ControlEntry(input, l, c, depth, MemberAttrName, name);
    OpenMemberCounts(l, Past(c, EntryBytes(0x4a, [], name), EntryCost([], name)), name, c.offset);
    PastTwice(c, EntryBytes(0x4a, [], name), EntryCost([], name), [], Counters(0, 1, 0, 1, 0));
    NoneLeft(EntryBytes(0x4a, [], name), []);
  }

  lemma EndStep(input: seq<byte>, l: Limits, c: Cursor, depth: nat, acc: seq<Member>)
    requires At(input, c.offset, END_COLLECTION) && c.counters.Add(END_COST).Within(l)
    ensures Members(input, l, c, depth, acc) == Ok((acc, Past(c, END_COLLECTION, END_COST)))
  {
    hide At, EntryBytes, Entry;
    ControlEntry(input, l, c, depth, EndCollection, []);
  }

  lemma NoneLeft<T>(acc: seq<T>, rest: seq<T>)
    requires rest == []
    ensures acc + rest == acc
  {
  }

  lemma NoMembers(rest: seq<Member>)
    requires rest == []
    ensures WireMembers(rest) + END_COLLECTION == END_COLLECTION && CostMembers(rest).Add(END_COST) == END_COST
  {
    hide WireMember, CostMember, Counters.Add;
    ZeroAdd(END_COST);
  }

  /** The wire form of a non-empty member list, split where the decoder splits it. */
  lemma FirstMember(l: Limits, ms: seq<Member>, depth: nat)
    requires ms != []
    ensures WireMembers(ms) + END_COLLECTION
         == EntryBytes(0x4a, [], ms[0].name) + (WireNamed([], ms[0].values) + (WireMembers(ms[1..]) + END_COLLECTION))
    ensures CostMembers(ms).Add(END_COST)
         == Counters(0, 1, 1, 1, |ms[0].name|).Add(CostNamed([], ms[0].values).Add(CostMembers(ms[1..]).Add(END_COST)))
    ensures FitsMembers(l, ms, depth) ==> FitsMember(l, ms[0], depth) && FitsMembers(l, ms[1..], depth)
    ensures CanonMembers(ms) ==> CanonAll(ms[0].values) && CanonMembers(ms[1..])
  {
    hide EntryBytes, WireNamed, CostNamed, FitsMember, CanonAll;
    var m := ms[0];
    ConcatAssoc(WireMember(m), WireMembers(ms[1..]), END_COLLECTION);
    ConcatAssoc(EntryBytes(0x4a, [], m.name), WireNamed([], m.values), WireMembers(ms[1..]) + END_COLLECTION);
    AddAssoc(CostMember(m), CostMembers(ms[1..]), END_COST);
    AddAssoc(Counters(0, 1, 1, 1, |m.name|), CostNamed([], m.values), CostMembers(ms[1..]).Add(END_COST));
  }

  lemma MembersComplete(input: seq<byte>, l: Limits, c: Cursor, depth: nat, acc: seq<Member>, rest: seq<Member>)
    requires At(input, c.offset, WireMembers(rest) + END_COLLECTION)
    requires FitsMembers(l, rest, depth) && CanonMembers(rest)
    requires c.counters.Add(CostMembers(rest).Add(END_COST)).Within(l)
    ensures Members(input, l, c, depth, acc)
         == Ok((acc + rest, Past(c, WireMembers(rest) + END_COLLECTION, CostMembers(rest).Add(END_COST))))
    decreases |input| - c.offset, 1
  {
    hide At, EntryBytes, Members, FitsAll, FitsMembers, CanonAll, CanonMembers;
    hide WireNamed, CostNamed, WireMembers, CostMembers;
    if rest == [] {
      NoneLeft(acc, rest);
      NoMembers(rest);
      EndStep(input, l, c, depth, acc);
    } else {
      var m, open := rest[0], Counters(0, 1, 1, 1, |rest[0].name|);
      var w := EntryBytes(0x4a, [], m.name);
      var tail := WireNamed([], m.values) + (WireMembers(rest[1..]) + END_COLLECTION);
      var k := CostNamed([], m.values).Add(CostMembers(rest[1..]).Add(END_COST));
      FirstMember(l, rest, depth);
      AtConcat(input, c.offset, w, tail);
      EntryAt(input, c.offset, 0x4a, [], m.name);
      OpenStep(input, l, c, depth, acc, m.name);
      AddAssoc(c.counters, open, k);
      MemberValuesComplete(input, l, Past(c, w, open), depth, acc, m.name, [], m.values, rest[1..]);
      assert [] + m.values == m.values;
      assert acc + [m] + rest[1..] == acc + rest;
      PastTwice(c, w, open, tail, k);
    }
  }

  lemma NoValues(vs: seq<Value>, tail: seq<byte>, k: Counters)
    requires vs == []
    ensures WireNamed([], vs) + tail == tail && CostNamed([], vs).Add(k) == k
  {
    hide WireValue, CostValue;
  }

  lemma FirstValue(vs: seq<Value>, tail: seq<byte>, k: Counters)
    requires vs != []
    ensures WireNamed([], vs) + tail == WireValue([], vs[0]) + (WireNamed([], vs[1..]) + tail)
    ensures CostNamed([], vs).Add(k) == CostValue([], vs[0]).Add(CostNamed([], vs[1..]).Add(k))
  {
    hide WireValue, CostValue;
    ConcatAssoc(WireValue([], vs[0]), WireNamed([], vs[1..]), tail);
    AddAssoc(CostValue([], vs[0]), CostNamed([], vs[1..]), k);
  }

  lemma MemberValuesComplete(input: seq<byte>, l: Limits, c: Cursor, depth: nat, acc: seq<Member>,
                             name: seq<byte>, done: seq<Value>, vs: seq<Value>, rest: seq<Member>)
    requires At(input, c.offset, WireNamed([], vs) + (WireMembers(rest) + END_COLLECTION))
    requires FitsAll(l, vs, depth) && CanonAll(vs) && FitsMembers(l, rest, depth) && CanonMembers(rest)
    requires c.counters.Add(CostNamed([], vs).Add(CostMembers(rest).Add(END_COST))).Within(l)
    ensures Members(input, l, c, depth, acc + [Member(name, done)])
         == Ok((acc + [Member(name, done + vs)] + rest,
                Past(c, WireNamed([], vs) + (WireMembers(rest) + END_COLLECTION),
                     CostNamed([], vs).Add(CostMembers(rest).Add(END_COST)))))
    decreases |input| - c.offset, 2
  {

    hide At, EntryBytes, Members, Entry, WireValue, CostValue, Fits, WireMembers, CostMembers, WireNamed, CostNamed;
    var tail, k := WireMembers(rest) + END_COLLECTION, CostMembers(rest).Add(END_COST);
    if vs == [] {
      NoneLeft(done, vs);
      NoValues(vs, tail, k);
      MembersComplete(input, l, c, depth, acc + [Member(name, done)], rest);
    } else {
      var v, vs' := vs[0], vs[1..];
      FirstValue(vs, tail, k);
      AtConcat(input, c.offset, WireValue([], v), WireNamed([], vs') + tail);
      ValueStarts(input, c.offset, [], v);
      AddAssoc(c.counters, CostValue([], v), CostNamed([], vs').Add(k));
      ValueStep(input, l, c, depth, acc, name, done, v);
      MemberValuesComplete(input, l, Past(c, WireValue([], v), CostValue([], v)), depth, acc, name, done + [v], vs',
                           rest);
      assert done + [v] + vs' == done + vs;
      PastTwice(c, WireValue([], v), CostValue([], v), WireNamed([], vs') + tail, CostNamed([], vs').Add(k));
    }
  }

  lemma ValueStep(input: seq<byte>, l: Limits, c: Cursor, depth: nat, acc: seq<Member>, name: seq<byte>,
                  done: seq<Value>, v: Value)
    requires At(input, c.offset, WireValue([], v))
    requires Fits(l, v, depth) && Canon(v) && c.counters.Add(CostValue([], v)).Within(l)
    ensures Members(input, l, c, depth, acc + [Member(name, done)])
         == Members(input, l, Past(c, WireValue([], v), CostValue([], v)), depth, acc + [Member(name, done + [v])])
    decreases |input| - c.offset, 1
  {
    hide At, Entry, WireValue, CostValue, Fits, CanonInside;
    ValueStarts(input, c.offset, [], v);
    EntryComplete(input, l, c, depth, [], v);
    assert PushValue(acc + [Member(name, done)], v) == acc + [Member(name, done + [v])];
  }

  lemma ValueStarts(input: seq<byte>, offset: nat, name: seq<byte>, v: Value)
    requires At(input, offset, WireValue(name, v))
    ensures |WireValue(name, v)| >= 5 && offset < |input| && input[offset] == ToByte(v.tag)
  {
    if IsCollection(v) {
      AtConcat(input, offset, EntryBytes(0x34, name, []), WireMembers(v.data.members) + END_COLLECTION);
      EntryAt(input, offset, 0x34, name, []);
    } else {
      EntryAt(input, offset, ToByte(v.tag), name, Raw(v));
    }
  }

  lemma PushWire(acc: seq<Member>, v: Value)
    requires acc != []
    ensures WireMembers(PushValue(acc, v)) == WireMembers(acc) + WireValue([], v)
    ensures CostMembers(PushValue(acc, v)) == CostMembers(acc).Add(CostValue([], v))
  {
    hide EntryBytes, WireValue, CostValue, WireNamed, CostNamed, WireMembers, CostMembers;
    var front, last := acc[..|acc| - 1], acc[|acc| - 1];
    var last' := Member(last.name, last.values + [v]);
    assert acc == front + [last] && PushValue(acc, v) == front + [last'];
    OneMember(front, last);
    OneMember(front, last');
    NamedConcat([], last.values, [v]);
    OneValue([], v);
    ConcatAssoc(WireMembers(front), WireMember(last), WireValue([], v));
    ConcatAssoc(EntryBytes(0x4a, [], last.name), WireNamed([], last.values), WireValue([], v));
  }

  lemma OneValue(name: seq<byte>, v: Value)
    ensures WireNamed(name, [v]) == WireValue(name, v) && CostNamed(name, [v]) == CostValue(name, v)
  {
    hide WireValue, CostValue;
    assert [v][1..] == [];
  }

  lemma OneMember(front: seq<Member>, m: Member)
    ensures WireMembers(front + [m]) == WireMembers(front) + WireMember(m)
    ensures CostMembers(front + [m]) == CostMembers(front).Add(CostMember(m))
  {
    hide WireMember, CostMember;
    WireMembersConcat(front, [m]);
    CostMembersConcat(front, [m]);
    assert [m][1..] == [];
  }

  /** Whatever an entry decodes to, its wire form is what was read and its cost is what was counted. */
  lemma EntrySound(input: seq<byte>, l: Limits, c: Cursor, depth: nat, name: seq<byte>, v: Value, n: Cursor)
    requires Entry(input, l, c, depth) == Ok(((name, v), n)) && c.counters.Within(l)
    ensures At(input, c.offset, WireValue(name, v)) && ToByte(v.tag) == input[c.offset]
    ensures n == Past(c, WireValue(name, v), CostValue(name, v)) && n.counters.Within(l)
    ensures FromByte(ToByte(v.tag)) == v.tag && CanonInside(v) && FitsName(l, name) && Fits(l, v, depth)
    decreases |input| - c.offset, 0
  {
    hide At, EntryBytes, ReadHead, Members, WireMembers, CostMembers, FitsMembers, CanonMembers, EncodeScalar,
      DecodeScalar;
    var (h, n1) := ReadHead(input, l, c).value;
    HeadSound(input, l, c, h, n1);
    if h.tag == BegCollection {
      var ms, w := v.data.members, EntryBytes(0x34, name, []);
      NothingRead(l, depth + 1);
      var wm, km := MembersSound(input, l, n1, depth + 1, [], ms, n);
      assert [] + wm == wm;
      AtConcat(input, c.offset, w, WireMembers(ms) + END_COLLECTION);
      PastTwice(c, w, EntryCost(name, []), WireMembers(ms) + END_COLLECTION, CostMembers(ms).Add(END_COST));
      AddAssoc(EntryCost(name, []), CostMembers(ms), END_COST);
    } else {
      ScalarRoundTrip(v.tag, v.data, h.raw, c.offset);
    }
  }

  lemma NothingRead(l: Limits, depth: nat)
    ensures FitsMembers(l, [], depth) && CanonMembers([]) && WireMembers([]) == [] && CostMembers([]) == ZERO
  {
  }

  /** One turn of the member loop, read off a successful run. */
  lemma MembersTurn(input: seq<byte>, l: Limits, c: Cursor, depth: nat, acc: seq<Member>, ms: seq<Member>, n: Cursor)
    requires Members(input, l, c, depth, acc) == Ok((ms, n))
    ensures c.offset < |input| && input[c.offset] != END_OF_ATTRIBUTES && !IsDelimiter(input[c.offset])
    ensures Entry(input, l, c, depth).Ok?
    ensures
      var ((name, v), n1) := Entry(input, l, c, depth).value;
      && name == []
      && if v.tag == EndCollection then v.data == Octets([]) && ms == acc && n == n1
         else if v.tag == MemberAttrName && v.data.Octets? then
           && v.data.bytes != [] && |v.data.bytes| <= l.maxNameBytes
           && n1.counters.members < l.maxCollectionMembers && n1.counters.attributes < l.maxAttributes
           && Members(input, l, Past(n1, [], Counters(0, 1, 0, 1, 0)), depth, acc + [Member(v.data.bytes, [])])
              == Ok((ms, n))
         else acc != [] && Members(input, l, n1, depth, PushValue(acc, v)) == Ok((ms, n))
  {
    hide Entry;
  }

  /** One turn of the member loop that does not end it: `w` was read, `k` counted, and both were collected. */
  lemma MembersStep(input: seq<byte>, l: Limits, c: Cursor, depth: nat, acc: seq<Member>, ms: seq<Member>, n: Cursor)
    returns (acc': seq<Member>, w: seq<byte>, k: Counters)
    requires Members(input, l, c, depth, acc) == Ok((ms, n)) && c.counters.Within(l)
    requires Entry(input, l, c, depth).Ok? && Entry(input, l, c, depth).value.0.1.tag != EndCollection
    requires FitsMembers(l, acc, depth) && CanonMembers(acc)
    ensures At(input, c.offset, w) && 0 < |w| && c.offset + |w| <= |input|
    ensures Members(input, l, Past(c, w, k), depth, acc') == Ok((ms, n)) && c.counters.Add(k).Within(l)
    ensures WireMembers(acc') == WireMembers(acc) + w && CostMembers(acc') == CostMembers(acc).Add(k)
    ensures FitsMembers(l, acc', depth) && CanonMembers(acc')
    decreases |input| - c.offset, 1
  {
    hide At, EntryBytes, Entry, Members, WireMembers, CostMembers, WireValue, CostValue, Fits;
    hide FitsMembers, CanonMembers, CanonInside;
    MembersTurn(input, l, c, depth, acc, ms, n);
    var ((name, v), n1) := Entry(input, l, c, depth).value;
    EntrySound(input, l, c, depth, name, v, n1);
    w := WireValue([], v);
    if v.tag == MemberAttrName {
      ControlIsOctets(l, v, depth);
      OpenRead(l, acc, v, depth);
      acc', k := acc + [Member(v.data.bytes, [])], CostValue([], v).Add(Counters(0, 1, 0, 1, 0));
      AddAssoc(CostMembers(acc), CostValue([], v), Counters(0, 1, 0, 1, 0));
      assert Past(n1, [], Counters(0, 1, 0, 1, 0)) == Past(c, w, k);
    } else {
      PushFits(l, acc, v, depth);
      PushWire(acc, v);
      acc', k := PushValue(acc, v), CostValue([], v);
    }
  }

  lemma MembersEnd(input: seq<byte>, l: Limits, c: Cursor, depth: nat, acc: seq<Member>, ms: seq<Member>, n: Cursor,
                   w: seq<byte>, k: Counters)
    requires w == [] && k == ZERO
    requires Members(input, l, c, depth, acc) == Ok((ms, n)) && c.counters.Within(l)
    requires Entry(input, l, c, depth).Ok? && Entry(input, l, c, depth).value.0.1.tag == EndCollection
    ensures ms == acc && At(input, c.offset, w + END_COLLECTION)
    ensures n == Past(c, w + END_COLLECTION, k.Add(END_COST)) && n.counters.Within(l)
    ensures WireMembers(ms) == WireMembers(acc) + w && CostMembers(ms) == CostMembers(acc).Add(k)
    decreases |input| - c.offset, 1
  {
    hide At, EntryBytes, Entry, Members, WireValue, CostValue, Fits, CanonInside, WireMembers, CostMembers;
    MembersTurn(input, l, c, depth, acc, ms, n);
    var ((name, v), n1) := Entry(input, l, c, depth).value;
    EntrySound(input, l, c, depth, name, v, n1);
    EndRead(v);
    NothingWired(ms, acc, w);
    NothingCounted(ms, acc, k);
    ZeroAdd(END_COST);
  }

  lemma NothingWired(ms: seq<Member>, acc: seq<Member>, w: seq<byte>)
    requires ms == acc && w == []
    ensures WireMembers(ms) == WireMembers(acc) + w && w + END_COLLECTION == END_COLLECTION
  {
    hide EntryBytes, WireMembers;
  }

  lemma NothingCounted(ms: seq<Member>, acc: seq<Member>, k: Counters)
    requires ms == acc && k == ZERO
    ensures CostMembers(ms) == CostMembers(acc).Add(k)
  {
    hide CostMembers;
    ZeroAdd(CostMembers(acc));
  }

  lemma EntryRead(input: seq<byte>, l: Limits, c: Cursor, depth: nat, acc: seq<Member>)
    requires Members(input, l, c, depth, acc).Ok?
    ensures Entry(input, l, c, depth).Ok?
  {
    hide Entry;
  }

  lemma MembersSound(input: seq<byte>, l: Limits, c: Cursor, depth: nat, acc: seq<Member>, ms: seq<Member>, n: Cursor)
    returns (w: seq<byte>, k: Counters)
    requires Members(input, l, c, depth, acc) == Ok((ms, n)) && c.counters.Within(l)
    requires FitsMembers(l, acc, depth) && CanonMembers(acc)
    ensures At(input, c.offset, w + END_COLLECTION)
    ensures n == Past(c, w + END_COLLECTION, k.Add(END_COST)) && n.counters.Within(l)
    ensures WireMembers(ms) == WireMembers(acc) + w && CostMembers(ms) == CostMembers(acc).Add(k)
    ensures FitsMembers(l, ms, depth) && CanonMembers(ms)
    decreases |input| - c.offset, 2
  {
    hide At, EntryBytes, Entry, Members, WireMembers, CostMembers, WireValue, CostValue, Fits;
    hide FitsMembers, CanonMembers, CanonInside;
    EntryRead(input, l, c, depth, acc);
    if Entry(input, l, c, depth).value.0.1.tag == EndCollection {
      w, k := [], ZERO;
      MembersEnd(input, l, c, depth, acc, ms, n, w, k);
    } else {
      var acc', w1, k1 := MembersStep(input, l, c, depth, acc, ms, n);
      var w2, k2 := MembersSound(input, l, Past(c, w1, k1), depth, acc', ms, n);
      w, k := w1 + w2, k1.Add(k2);
      AtConcat(input, c.offset, w1, w2 + END_COLLECTION);
      ConcatAssoc(w1, w2, END_COLLECTION);
      PastTwice(c, w1, k1, w2 + END_COLLECTION, k2.Add(END_COST));
      AddAssoc(k1, k2, END_COST);
      ConcatAssoc(WireMembers(acc), w1, w2);
      AddAssoc(CostMembers(acc), k1, k2);
    }
  }

  lemma EndRead(v: Value)
    requires v == Value(EndCollection, Octets([]))
    ensures WireValue([], v) == END_COLLECTION && CostValue([], v) == END_COST
  {
  }

  lemma ControlIsOctets(l: Limits, v: Value, depth: nat)
    requires v.tag.IsControl() && Fits(l, v, depth)
    ensures v.data.Octets?
  {
  }

  lemma OpenRead(l: Limits, acc: seq<Member>, v: Value, depth: nat)
    requires v.tag == MemberAttrName && v.data.Octets? && Fits(l, v, depth)
    requires v.data.bytes != [] && |v.data.bytes| <= l.maxNameBytes
    requires FitsMembers(l, acc, depth) && CanonMembers(acc)
    ensures var m := Member(v.data.bytes, []);
      && WireMembers(acc + [m]) == WireMembers(acc) + WireValue([], v)
      && CostMembers(acc + [m]) == CostMembers(acc).Add(CostValue([], v)).Add(Counters(0, 1, 0, 1, 0))
      && FitsMembers(l, acc + [m], depth) && CanonMembers(acc + [m])
  {
    hide WireMembers, CostMembers, EntryBytes, WireValue, CostValue, WireMember, CostMember, FitsMember, CanonAll, Fits;
    var m := Member(v.data.bytes, []);
    OneMember(acc, m);
    NamedOnly(l, m, v, depth);
    AddAssoc(CostMembers(acc), CostValue([], v), Counters(0, 1, 0, 1, 0));
  }

  /** A member that has a name and no value yet. */
  lemma NamedOnly(l: Limits, m: Member, v: Value, depth: nat)
    requires v.tag == MemberAttrName && v.data.Octets? && Fits(l, v, depth)
    requires v.data.bytes != [] && |v.data.bytes| <= l.maxNameBytes && m == Member(v.data.bytes, [])
    ensures WireMember(m) == WireValue([], v)
    ensures CostMember(m) == CostValue([], v).Add(Counters(0, 1, 0, 1, 0))
    ensures FitsMember(l, m, depth) && CanonAll(m.values)
  {
    hide EntryBytes;
    assert WireNamed([], m.values) == [];
    assert WireMember(m) == EntryBytes(0x4a, [], m.name);
    assert CostMember(m) == Counters(0, 1, 1, 1, |m.name|);
  }

  lemma PushFits(l: Limits, acc: seq<Member>, v: Value, depth: nat)
    requires acc != [] && FitsMembers(l, acc, depth) && CanonMembers(acc)
    requires Fits(l, v, depth) && Canon(v)
    ensures FitsMembers(l, PushValue(acc, v), depth) && CanonMembers(PushValue(acc, v))
  {
    hide Fits, Canon;
    var last := acc[|acc| - 1];
    assert FitsMember(l, last, depth) && CanonAll(last.values);
    assert FitsAll(l, last.values + [v], depth) && CanonAll(last.values + [v]);
  }
}
