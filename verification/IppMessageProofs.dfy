/** From entries to whole messages: attributes, groups, and the exact domain and image of `decode`. */
module IppMessageProofs {
  import opened Bytes
  import opened IppModel
  import opened IppWire
  import opened IppDecode
  import opened IppDecodeProofs

  const ATTRIBUTE_COST := Counters(0, 1, 0, 0, 0)
  const GROUP_COST := Counters(1, 0, 0, 0, 0)

  predicate Stops(input: seq<byte>, offset: nat) {
    offset >= |input| || input[offset] == END_OF_ATTRIBUTES || IsDelimiter(input[offset])
  }

  predicate GoodAttributes(l: Limits, attrs: seq<Attribute>) {
    forall i :: 0 <= i < |attrs| ==> FitsAttribute(l, attrs[i]) && CanonAll(attrs[i].values)
  }

  predicate GoodGroups(l: Limits, gs: seq<Group>) {
    forall i :: 0 <= i < |gs| ==> IsDelimiter(gs[i].tag) && GoodAttributes(l, gs[i].attributes)
  }

  // ----- completeness -----

  lemma NamedStep(input: seq<byte>, l: Limits, c: Cursor, acc: seq<Attribute>, name: seq<byte>, v: Value)
    requires At(input, c.offset, WireValue(name, v)) && name != [] && FitsName(l, name)
    requires Fits(l, v, 0) && Canon(v) && c.counters.Add(ATTRIBUTE_COST.Add(CostValue(name, v))).Within(l)
    ensures Attributes(input, l, c, acc)
         == Attributes(input, l, Past(c, WireValue(name, v), ATTRIBUTE_COST.Add(CostValue(name, v))),
                       acc + [Attribute(name, [v])])
  {
    hide At, Entry, WireValue, CostValue, Fits, CanonInside;
    ValueStarts(input, c.offset, name, v);
    EntryComplete(input, l, c, 0, name, v);
  }

  lemma RepeatedStep(input: seq<byte>, l: Limits, c: Cursor, acc: seq<Attribute>, name: seq<byte>, done: seq<Value>,
                     v: Value)
    requires At(input, c.offset, WireValue([], v))
    requires Fits(l, v, 0) && Canon(v) && c.counters.Add(CostValue([], v)).Within(l)
    ensures Attributes(input, l, c, acc + [Attribute(name, done)])
         == Attributes(input, l, Past(c, WireValue([], v), CostValue([], v)), acc + [Attribute(name, done + [v])])
  {
    hide At, Entry, WireValue, CostValue, Fits, CanonInside;
    ValueStarts(input, c.offset, [], v);
    EntryComplete(input, l, c, 0, [], v);
    assert PushRepeated(acc + [Attribute(name, done)], v) == acc + [Attribute(name, done + [v])];
  }

  lemma StopStep(input: seq<byte>, l: Limits, c: Cursor, acc: seq<Attribute>, rest: seq<Attribute>)
    requires rest == [] && Stops(input, c.offset)
    ensures Attributes(input, l, c, acc) == Ok((acc, Past(c, WireAttributes(rest), CostAttributes(rest))))
  {
    hide Entry, WireAttribute, CostAttribute;
  }

  /** The wire form of a non-empty attribute list, split where the decoder splits it. */
  lemma FirstAttribute(l: Limits, attrs: seq<Attribute>)
    requires attrs != [] && GoodAttributes(l, attrs)
    ensures var a, rest := attrs[0], attrs[1..];
      && a.name != [] && FitsName(l, a.name) && a.values != []
      && Fits(l, a.values[0], 0) && Canon(a.values[0])
      && FitsAll(l, a.values[1..], 0) && CanonAll(a.values[1..]) && GoodAttributes(l, rest)
      && WireAttributes(attrs) == WireValue(a.name, a.values[0]) + (WireNamed([], a.values[1..]) + WireAttributes(rest))
      && CostAttributes(attrs) == ATTRIBUTE_COST.Add(CostValue(a.name, a.values[0])).Add(
                                    CostNamed([], a.values[1..]).Add(CostAttributes(rest)))
  {
    hide WireAttributes, CostAttributes, WireNamed, CostNamed, WireValue, CostValue, Fits, Canon;
    assert FitsAttribute(l, attrs[0]) && CanonAll(attrs[0].values);
    FirstAttributeWire(attrs[0], attrs[1..]);
    FirstAttributeCost(attrs[0], attrs[1..]);
    assert [attrs[0]] + attrs[1..] == attrs;
  }

  lemma FirstAttributeWire(a: Attribute, rest: seq<Attribute>)
    requires a.values != []
    ensures WireAttributes([a] + rest)
         == WireValue(a.name, a.values[0]) + (WireNamed([], a.values[1..]) + WireAttributes(rest))
  {
    hide WireValue;
    assert ([a] + rest)[1..] == rest;
    ConcatAssoc(WireValue(a.name, a.values[0]), WireNamed([], a.values[1..]), WireAttributes(rest));
  }

  lemma FirstAttributeCost(a: Attribute, rest: seq<Attribute>)
    requires a.values != []
    ensures CostAttributes([a] + rest)
         == ATTRIBUTE_COST.Add(CostValue(a.name, a.values[0])).Add(CostNamed([],
                                                                             a.values[1..]).Add(CostAttributes(rest)))
  {
    hide CostValue;
    var x, y, z := CostValue(a.name, a.values[0]), CostNamed([], a.values[1..]), CostAttributes(rest);
    assert CostAttributes([a] + rest) == CostAttribute(a).Add(z) by {
      hide CostAttribute;
      assert ([a] + rest)[1..] == rest;
    }
    assert CostNamed(a.name, a.values) == x.Add(y);
    AddAssoc(ATTRIBUTE_COST, x, y);
    AddAssoc(ATTRIBUTE_COST.Add(x), y, z);
  }

  lemma AttributesComplete(input: seq<byte>, l: Limits, c: Cursor, acc: seq<Attribute>, rest: seq<Attribute>)
    requires At(input, c.offset, WireAttributes(rest)) && Stops(input, c.offset + |WireAttributes(rest)|)
    requires GoodAttributes(l, rest) && c.counters.Add(CostAttributes(rest)).Within(l)
    ensures Attributes(input, l, c, acc) == Ok((acc + rest, Past(c, WireAttributes(rest), CostAttributes(rest))))
    decreases |input| - c.offset, 0
  {
    hide At, Attributes, WireAttributes, CostAttributes, GoodAttributes, WireNamed, CostNamed;
    hide WireValue, CostValue, Fits, Canon, FitsAll, CanonAll;
    if rest == [] {
      NothingLeft(input, c, rest);
      StopStep(input, l, c, acc, rest);
      NoneLeft(acc, rest);
    } else {
      FirstAttribute(l, rest);
      var a := rest[0];
      var w, k := WireValue(a.name, a.values[0]), ATTRIBUTE_COST.Add(CostValue(a.name, a.values[0]));
      var tail := WireNamed([], a.values[1..]) + WireAttributes(rest[1..]);
      var kt := CostNamed([], a.values[1..]).Add(CostAttributes(rest[1..]));
      AtConcat(input, c.offset, w, tail);
      ValueStarts(input, c.offset, a.name, a.values[0]);
      AddAssoc(c.counters, k, kt);
      NamedStep(input, l, c, acc, a.name, a.values[0]);
      RepeatedComplete(input, l, Past(c, w, k), acc, a.name, [a.values[0]], a.values[1..], rest[1..]);
      assert [a.values[0]] + a.values[1..] == a.values;
      assert acc + [a] + rest[1..] == acc + rest;
      PastTwice(c, w, k, tail, kt);
    }
  }

  lemma NothingLeft(input: seq<byte>, c: Cursor, rest: seq<Attribute>)
    requires rest == [] && Stops(input, c.offset + |WireAttributes(rest)|)
    ensures Stops(input, c.offset)
  {
  }

  lemma RepeatedComplete(input: seq<byte>, l: Limits, c: Cursor, acc: seq<Attribute>, name: seq<byte>,
                         done: seq<Value>, vs: seq<Value>, rest: seq<Attribute>)
    requires At(input, c.offset, WireNamed([], vs) + WireAttributes(rest))
    requires Stops(input, c.offset + |WireNamed([], vs) + WireAttributes(rest)|)
    requires FitsAll(l, vs, 0) && CanonAll(vs) && GoodAttributes(l, rest)
    requires c.counters.Add(CostNamed([], vs).Add(CostAttributes(rest))).Within(l)
    ensures Attributes(input, l, c, acc + [Attribute(name, done)])
         == Ok((acc + [Attribute(name, done + vs)] + rest,
                Past(c, WireNamed([], vs) + WireAttributes(rest), CostNamed([], vs).Add(CostAttributes(rest)))))
    decreases |input| - c.offset, 1
  {
    hide At, Attributes, WireAttributes, CostAttributes, GoodAttributes, WireValue, CostValue, Fits, Canon;
    hide WireNamed, CostNamed;
    var tail, k := WireAttributes(rest), CostAttributes(rest);
    if vs == [] {
      NoneLeft(done, vs);
      NoValues(vs, tail, k);
      AttributesComplete(input, l, c, acc + [Attribute(name, done)], rest);
    } else {
      var v, vs' := vs[0], vs[1..];
      FirstValue(vs, tail, k);
      AtConcat(input, c.offset, WireValue([], v), WireNamed([], vs') + tail);
      ValueStarts(input, c.offset, [], v);
      AddAssoc(c.counters, CostValue([], v), CostNamed([], vs').Add(k));
      RepeatedStep(input, l, c, acc, name, done, v);
      RepeatedComplete(input, l, Past(c, WireValue([], v), CostValue([], v)), acc, name, done + [v], vs', rest);
      assert done + [v] + vs' == done + vs;
      PastTwice(c, WireValue([], v), CostValue([], v), WireNamed([], vs') + tail, CostNamed([], vs').Add(k));
    }
  }

  lemma GroupsComplete(input: seq<byte>, l: Limits, c: Cursor, acc: seq<Group>, rest: seq<Group>)
    requires At(input, c.offset, WireGroups(rest) + [END_OF_ATTRIBUTES])
    requires c.offset + |WireGroups(rest)| + 1 == |input|
    requires GoodGroups(l, rest) && c.counters.Add(CostGroups(rest)).Within(l)
    ensures Groups(input, l, c, acc)
         == Ok((acc + rest, Past(c, WireGroups(rest) + [END_OF_ATTRIBUTES], CostGroups(rest))))
    decreases |rest|
  {
    hide At, Attributes, WireGroups, CostGroups, WireAttributes, CostAttributes, GoodAttributes, Stops;
    if rest == [] {
      NoGroups(rest);
      assert [END_OF_ATTRIBUTES] + [] == [END_OF_ATTRIBUTES];
      ByteAt(input, c.offset, END_OF_ATTRIBUTES, []);
      NoneLeft(acc, rest);
    } else {
      var g, tail := rest[0], WireGroups(rest[1..]) + [END_OF_ATTRIBUTES];
      var w, k := WireAttributes(g.attributes), CostAttributes(g.attributes);
      FirstGroup(rest);
      ByteAt(input, c.offset, g.tag, w + tail);
      var n1 := Past(c, [g.tag], GROUP_COST);
      AtConcat(input, n1.offset, w, tail);
      GroupStops(input, l, n1.offset + |w|, rest[1..]);
      AddAssoc(c.counters, GROUP_COST.Add(k), CostGroups(rest[1..]));
      AddAssoc(c.counters, GROUP_COST, k);
      AttributesComplete(input, l, n1, [], g.attributes);
      assert [] + g.attributes == g.attributes;
      var n2 := Past(n1, w, k);
      GroupsComplete(input, l, n2, acc + [g], rest[1..]);
      assert acc + [g] + rest[1..] == acc + rest;
      PastTwice(c, [g.tag], GROUP_COST, w, k);
      PastTwice(c, [g.tag] + w, GROUP_COST.Add(k), tail, CostGroups(rest[1..]));
    }
  }

  lemma NoGroups(rest: seq<Group>)
    requires rest == []
    ensures WireGroups(rest) + [END_OF_ATTRIBUTES] == [END_OF_ATTRIBUTES] && CostGroups(rest) == ZERO
  {
    hide WireGroup, CostGroup;
  }

  lemma FirstGroup(gs: seq<Group>)
    requires gs != []
    ensures WireGroups(gs) + [END_OF_ATTRIBUTES]
         == [gs[0].tag] + (WireAttributes(gs[0].attributes) + (WireGroups(gs[1..]) + [END_OF_ATTRIBUTES]))
    ensures CostGroups(gs) == GROUP_COST.Add(CostAttributes(gs[0].attributes)).Add(CostGroups(gs[1..]))
  {
    hide WireAttributes, CostAttributes;
    var end := [END_OF_ATTRIBUTES];
    ConcatAssoc(WireGroup(gs[0]), WireGroups(gs[1..]), end);
    ConcatAssoc([gs[0].tag], WireAttributes(gs[0].attributes), WireGroups(gs[1..]) + end);
  }

  lemma ByteAt(input: seq<byte>, offset: nat, b: byte, tail: seq<byte>)
    ensures At(input, offset, [b] + tail) <==> offset < |input| && input[offset] == b && At(input, offset + 1, tail)
  {
    AtConcat(input, offset, [b], tail);
    assert At(input, offset, [b]) <==> offset < |input| && input[offset] == b;
  }

  lemma GroupStops(input: seq<byte>, l: Limits, offset: nat, rest: seq<Group>)
    requires At(input, offset, WireGroups(rest) + [END_OF_ATTRIBUTES]) && GoodGroups(l, rest)
    ensures Stops(input, offset)
  {
    hide At, WireGroups, GoodAttributes;
    if rest == [] {
      NoGroups(rest);
      assert [END_OF_ATTRIBUTES] + [] == [END_OF_ATTRIBUTES];
      ByteAt(input, offset, END_OF_ATTRIBUTES, []);
    } else {
      FirstGroup(rest);
      ByteAt(input, offset, rest[0].tag, WireAttributes(rest[0].attributes) +
             (WireGroups(rest[1..]) + [END_OF_ATTRIBUTES]));
    }
  }

  // ----- soundness -----

  lemma OneAttribute(front: seq<Attribute>, a: Attribute)
    ensures WireAttributes(front + [a]) == WireAttributes(front) + WireAttribute(a)
    ensures CostAttributes(front + [a]) == CostAttributes(front).Add(CostAttribute(a))
  {
    hide WireAttribute, CostAttribute;
    WireAttributesConcat(front, [a]);
    CostAttributesConcat(front, [a]);
    assert [a][1..] == [];
  }

  lemma RepeatedWire(acc: seq<Attribute>, v: Value)
    requires acc != [] && acc[|acc| - 1].values != []
    ensures WireAttributes(PushRepeated(acc, v)) == WireAttributes(acc) + WireValue([], v)
    ensures CostAttributes(PushRepeated(acc, v)) == CostAttributes(acc).Add(CostValue([], v))
  {
    hide WireValue, CostValue, WireAttributes, CostAttributes, WireNamed, CostNamed;
    var front, last := acc[..|acc| - 1], acc[|acc| - 1];
    var last' := Attribute(last.name, last.values + [v]);
    assert acc == front + [last];
    OneAttribute(front, last);
    OneAttribute(front, last');
    NamedConcat(last.name, last.values, [v]);
    OneValue([], v);
    ConcatAssoc(WireAttributes(front), WireAttribute(last), WireValue([], v));
  }

  lemma RepeatedGood(l: Limits, acc: seq<Attribute>, v: Value)
    requires acc != [] && GoodAttributes(l, acc) && Fits(l, v, 0) && Canon(v)
    ensures acc[|acc| - 1].values != [] && GoodAttributes(l, PushRepeated(acc, v))
  {
    hide Fits, Canon;
    var last := acc[|acc| - 1];
    assert FitsAttribute(l, last) && CanonAll(last.values);
    var last' := Attribute(last.name, last.values + [v]);
    assert FitsAttribute(l, last') && CanonAll(last'.values);
  }

  lemma NamedGood(l: Limits, acc: seq<Attribute>, name: seq<byte>, v: Value)
    requires GoodAttributes(l, acc) && Fits(l, v, 0) && Canon(v) && name != [] && FitsName(l, name)
    ensures GoodAttributes(l, acc + [Attribute(name, [v])])
    ensures WireAttributes(acc + [Attribute(name, [v])]) == WireAttributes(acc) + WireValue(name, v)
    ensures CostAttributes(acc + [Attribute(name, [v])])
         == CostAttributes(acc).Add(CostValue(name, v)).Add(ATTRIBUTE_COST)
  {
    hide Fits, Canon, WireAttributes, CostAttributes, WireValue, CostValue, WireNamed, CostNamed;
    var a := Attribute(name, [v]);
    OneAttribute(acc, a);
    OneValue(name, v);
    assert FitsAttribute(l, a) && CanonAll(a.values);
  }

  /** One turn of the attribute loop, read off a successful run. */
  lemma AttributesTurn(input: seq<byte>, l: Limits, c: Cursor, acc: seq<Attribute>, attrs: seq<Attribute>, n: Cursor)
    requires Attributes(input, l, c, acc) == Ok((attrs, n)) && !Stops(input, c.offset)
    ensures Entry(input, l, c, 0).Ok?
    ensures
      var ((name, v), n1) := Entry(input, l, c, 0).value;
      && !v.tag.IsControl()
      && if name == [] then acc != [] &&
        Attributes(input, l, Past(n1, [], ZERO), PushRepeated(acc, v)) == Ok((attrs, n))
         else
           && n1.counters.attributes < l.maxAttributes
           && Attributes(input, l, Past(n1, [], ATTRIBUTE_COST), acc + [Attribute(name, [v])]) == Ok((attrs, n))
  {
    hide Entry;
  }

  lemma Started(input: seq<byte>, offset: nat, v: Value)
    requires !Stops(input, offset) && ToByte(v.tag) == input[offset]
    requires FromByte(ToByte(v.tag)) == v.tag && !v.tag.IsControl()
    ensures Canonical(v.tag)
  {
  }

  lemma AttributesStop(input: seq<byte>, l: Limits, c: Cursor, acc: seq<Attribute>, attrs: seq<Attribute>, n: Cursor)
    requires Attributes(input, l, c, acc) == Ok((attrs, n)) && Stops(input, c.offset)
    ensures n == c && attrs == acc
  {
    hide Entry;
  }

  /** One turn of the attribute loop: `w` was read, `k` was counted, and both went into what is collected. */
  lemma AttributesStep(input: seq<byte>, l: Limits, c: Cursor, acc: seq<Attribute>, attrs: seq<Attribute>, n: Cursor)
    returns (acc': seq<Attribute>, w: seq<byte>, k: Counters)
    requires Attributes(input, l, c, acc) == Ok((attrs, n)) && c.counters.Within(l) && GoodAttributes(l, acc)
    requires !Stops(input, c.offset)
    ensures At(input, c.offset, w) && 0 < |w| && c.offset + |w| <= |input|
    ensures Attributes(input, l, Past(c, w, k), acc') == Ok((attrs, n)) && c.counters.Add(k).Within(l)
    ensures WireAttributes(acc') == WireAttributes(acc) + w && CostAttributes(acc') == CostAttributes(acc).Add(k)
    ensures GoodAttributes(l, acc')
  {
    hide At, Entry, Attributes, WireAttributes, CostAttributes, WireValue, CostValue, Fits, CanonInside;
    hide GoodAttributes, Stops, ToByte, FromByte, Canonical, PushRepeated, FitsName;
    AttributesTurn(input, l, c, acc, attrs, n);
    var ((name, v), n1) := Entry(input, l, c, 0).value;
    EntrySound(input, l, c, 0, name, v, n1);
    Started(input, c.offset, v);
    var e := if name == [] then ZERO else ATTRIBUTE_COST;
    acc' := if name == [] then PushRepeated(acc, v) else acc + [Attribute(name, [v])];
    w, k := WireValue(name, v), CostValue(name, v).Add(e);
    CollectedGood(l, acc, name, v, acc');
    AddAssoc(CostAttributes(acc), CostValue(name, v), e);
    AddAssoc(c.counters, CostValue(name, v), e);
    assert Past(n1, [], e) == Past(c, w, k);
  }

  /** The attribute loop collects exactly the attributes whose wire form `w` it reads. */
  lemma AttributesSound(input: seq<byte>, l: Limits, c: Cursor, acc: seq<Attribute>, attrs: seq<Attribute>, n: Cursor)
    returns (w: seq<byte>, k: Counters)
    requires Attributes(input, l, c, acc) == Ok((attrs, n)) && c.counters.Within(l) && c.offset <= |input|
    requires GoodAttributes(l, acc)
    ensures At(input, c.offset, w) && n == Past(c, w, k) && n.counters.Within(l)
    ensures WireAttributes(attrs) == WireAttributes(acc) + w && CostAttributes(attrs) == CostAttributes(acc).Add(k)
    ensures GoodAttributes(l, attrs)
    decreases |input| - c.offset
  {
    hide At, Attributes, WireAttributes, CostAttributes, GoodAttributes, Stops;
    if Stops(input, c.offset) {
      AttributesStop(input, l, c, acc, attrs, n);
      w, k := [], ZERO;
      NothingAt(input, c.offset);
      ZeroAdd(CostAttributes(acc));
      NoneLeft(WireAttributes(acc), w);
    } else {
      var acc', w1, k1 := AttributesStep(input, l, c, acc, attrs, n);
      var w2, k2 := AttributesSound(input, l, Past(c, w1, k1), acc', attrs, n);
      w, k := w1 + w2, k1.Add(k2);
      AtConcat(input, c.offset, w1, w2);
      PastTwice(c, w1, k1, w2, k2);
      ConcatAssoc(WireAttributes(acc), w1, w2);
      AddAssoc(CostAttributes(acc), k1, k2);
    }
  }

  lemma NothingAt(input: seq<byte>, offset: nat)
    requires offset <= |input|
    ensures At(input, offset, [])
  {
  }

  lemma CollectedGood(l: Limits, acc: seq<Attribute>, name: seq<byte>, v: Value, acc': seq<Attribute>)
    requires GoodAttributes(l, acc) && Fits(l, v, 0) && Canon(v) && FitsName(l, name)
    requires if name == [] then acc != [] && acc' == PushRepeated(acc, v) else acc' == acc + [Attribute(name, [v])]
    ensures GoodAttributes(l, acc') && WireAttributes(acc') == WireAttributes(acc) + WireValue(name, v)
    ensures CostAttributes(acc')
         == CostAttributes(acc).Add(CostValue(name, v)).Add(if name == [] then ZERO else ATTRIBUTE_COST)
  {
    hide WireAttributes, CostAttributes, WireValue, CostValue, Fits, Canon, GoodAttributes;
    if name == [] {
      RepeatedGood(l, acc, v);
      RepeatedWire(acc, v);
    } else {
      NamedGood(l, acc, name, v);
    }
  }

  lemma OneGroup(front: seq<Group>, g: Group)
    ensures WireGroups(front + [g]) == WireGroups(front) + WireGroup(g)
    ensures CostGroups(front + [g]) == CostGroups(front).Add(CostGroup(g))
  {
    hide WireGroup, CostGroup;
    WireGroupsConcat(front, [g]);
    CostGroupsConcat(front, [g]);
    assert [g][1..] == [];
  }

  /** One turn of the group loop, read off a successful run. */
  lemma GroupsTurn(input: seq<byte>, l: Limits, c: Cursor, acc: seq<Group>, gs: seq<Group>, n: Cursor)
    requires c.offset <= |input| && Groups(input, l, c, acc) == Ok((gs, n))
    ensures c.offset < |input|
    ensures if input[c.offset] == END_OF_ATTRIBUTES then
              gs == acc && n == Past(c, [END_OF_ATTRIBUTES], ZERO) && n.offset == |input|
            else
              var n1 := Past(c, [input[c.offset]], GROUP_COST);
              && IsDelimiter(input[c.offset]) && c.counters.groups < l.maxGroups
              && Attributes(input, l, n1, []).Ok?
              && var (attrs, n2) := Attributes(input, l, n1, []).value;
              && n1.offset <= n2.offset <= |input|
              && Groups(input, l, n2, acc + [Group(input[c.offset], attrs)]) == Ok((gs, n))
  {
    hide Attributes;
  }

  /** The group loop collects exactly the groups whose wire form, with the end marker, is the rest of the input. */
  lemma GroupsSound(input: seq<byte>, l: Limits, c: Cursor, acc: seq<Group>, gs: seq<Group>, n: Cursor)
    returns (w: seq<byte>, k: Counters)
    requires c.offset <= |input| && Groups(input, l, c, acc) == Ok((gs, n)) && c.counters.Within(l)
    requires GoodGroups(l, acc)
    ensures At(input, c.offset, w + [END_OF_ATTRIBUTES]) && c.offset + |w| + 1 == |input|
    ensures n == Past(c, w + [END_OF_ATTRIBUTES], k) && n.counters.Within(l)
    ensures WireGroups(gs) == WireGroups(acc) + w && CostGroups(gs) == CostGroups(acc).Add(k)
    ensures GoodGroups(l, gs)
    decreases |input| - c.offset
  {
    hide At, Attributes, Groups, WireAttributes, CostAttributes, WireGroups, CostGroups, GoodAttributes;
    var end := [END_OF_ATTRIBUTES];
    GroupsTurn(input, l, c, acc, gs, n);
    if input[c.offset] == END_OF_ATTRIBUTES {
      w, k := [], ZERO;
      assert [] + end == end + [] == end;
      NothingAt(input, c.offset + 1);
      ByteAt(input, c.offset, END_OF_ATTRIBUTES, []);
      NoneLeft(WireGroups(acc), w);
      ZeroAdd(CostGroups(acc));
    } else {
      var tag, n1 := input[c.offset], Past(c, [input[c.offset]], GROUP_COST);
      var (attrs, n2) := Attributes(input, l, n1, []).value;
      var g := Group(tag, attrs);
      NoAttributes(l);
      var w1, k1 := AttributesSound(input, l, n1, [], attrs, n2);
      assert [] + w1 == w1;
      OneGroup(acc, g);
      var w2, k2 := GroupsSound(input, l, n2, acc + [g], gs, n);
      w, k := ([tag] + w1) + w2, GROUP_COST.Add(k1).Add(k2);
      ByteAt(input, c.offset, tag, w1 + (w2 + end));
      AtConcat(input, n1.offset, w1, w2 + end);
      ConcatAssoc([tag], w1, w2 + end);
      ConcatAssoc([tag] + w1, w2, end);
      PastTwice(c, [tag], GROUP_COST, w1, k1);
      PastTwice(c, [tag] + w1, GROUP_COST.Add(k1), w2 + end, k2);
      ConcatAssoc(WireGroups(acc), [tag] + w1, w2);
      AddAssoc(CostGroups(acc), GROUP_COST.Add(k1), k2);
    }
  }

  lemma NoAttributes(l: Limits)
    ensures GoodAttributes(l, []) && WireAttributes([]) == [] && CostAttributes([]) == ZERO
  {
  }
}
