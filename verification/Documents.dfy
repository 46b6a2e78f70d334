/** Structural validation of documents (crates/mb-printer-core/src/document.rs, `validate_with_limits`): identifiers,
    zones, groups, references and cycles. */
module Documents {
  import opened Bytes
  import opened Forest

  datatype Constraints = Constraints(preserveAspect: bool, zone: Option<Id>)

  /** `children` is present exactly for groups, `text` for elements that carry template text. */
  datatype Element = Element(id: Id, zOrder: int, visible: bool, groupId: Option<Id>, constraints: Option<Constraints>,
                             text: Option<string>, children: Option<seq<Id>>)
  {
    function Zone(): (r: Option<Id>) {
      if constraints.None? then None else constraints.value.zone
    }
  }

  datatype ValidationError = BadZone(id: Id) | BadReference(id: Id) | Cycle(id: Id) | DuplicateId(id: Id)

  function Hierarchy(elements: seq<Element>): (r: seq<Node>) {
    seq(|elements|, i requires 0 <= i < |elements| => Node(elements[i].id, elements[i].groupId))
  }

  function FindElement(elements: seq<Element>, id: Id): (r: Option<Element>)
    ensures r.Some? ==> r.value in elements && r.value.id == id
    ensures r.None? ==> forall e :: e in elements ==> e.id != id
  {
    if elements == [] then None
    else if elements[0].id == id then Some(elements[0])
    else FindElement(elements[1..], id)
  }

  /** Of several elements of one name, the first counts. */
  lemma {:induction false} FindsFirstElement(elements: seq<Element>, i: nat)
    requires i < |elements| && forall j :: 0 <= j < i ==> elements[j].id != elements[i].id
    ensures FindElement(elements, elements[i].id) == Some(elements[i])
  {
    if i > 0 {
      FindsFirstElement(elements[1..], i - 1);
    }
  }

  /** Following a group reference in the document is following it in its hierarchy. */
  lemma {:induction false} FindNode(elements: seq<Element>, id: Id)
    ensures var e, n := FindElement(elements, id), Find(Hierarchy(elements), id);
            (e.Some? <==> n.Some?) && (e.Some? ==> n.value == Node(e.value.id, e.value.groupId))
  {
    if elements != [] {
      FindNode(elements[1..], id);
      assert Hierarchy(elements)[1..] == Hierarchy(elements[1..]);
      assert Hierarchy(elements)[0] == Node(elements[0].id, elements[0].groupId);
    }
  }

  // ----- well-formed documents -----

  /** Position `i` is the first with its identifier. */
  predicate Fresh(nodes: seq<Node>, i: nat)
    requires i < |nodes|
  {
    forall j :: 0 <= j < i ==> nodes[j].id != nodes[i].id
  }

  predicate HasId(nodes: seq<Node>, id: Id) {
    exists i :: 0 <= i < |nodes| && nodes[i].id == id
  }

  predicate Named(zones: seq<Node>, i: nat)
    requires i < |zones|
  {
    zones[i].id != "" && Fresh(zones, i)
  }

  predicate ClonesZone(zones: seq<Node>, i: nat)
    requires i < |zones|
  {
    zones[i].up.Some? ==> HasId(zones, zones[i].up.value)
  }

  ghost predicate ZoneOk(zones: seq<Node>, i: nat)
    requires i < |zones|
  {
    Named(zones, i) && ClonesZone(zones, i) && Ends(zones, Some(zones[i].id))
  }

  /** The first element of the parent's name lists the element among its children if it is a group, and some group has
      that name. */
  predicate ParentOk(elements: seq<Element>, e: Element) {
    e.groupId.Some? ==>
      && (exists i :: 0 <= i < |elements| && elements[i].id == e.groupId.value && elements[i].children.Some?)
      && (var p := FindElement(elements, e.groupId.value);
          p.Some? && p.value.children.Some? ==> e.id in p.value.children.value)
  }

  predicate ChildOk(elements: seq<Element>, e: Element, k: nat)
    requires e.children.Some? && k < |e.children.value|
  {
    var child := e.children.value[k];
    && child != e.id && child !in e.children.value[..k]
    && (exists i :: 0 <= i < |elements| && elements[i].id == child)
    && (var c := FindElement(elements, child); c.Some? && c.value.groupId == Some(e.id))
  }

  predicate ChildrenOk(elements: seq<Element>, e: Element) {
    e.children.Some? ==> forall k :: 0 <= k < |e.children.value| ==> ChildOk(elements, e, k)
  }

  predicate ElementOk(elements: seq<Element>, zones: seq<Node>, resources: set<Id>, i: nat)
    requires i < |elements|
  {
    var e := elements[i];
    && e.id != "" && e.id !in resources && (forall j :: 0 <= j < i ==> elements[j].id != e.id)
    && ParentOk(elements, e)
    && (e.Zone().Some? ==> HasId(zones, e.Zone().value))
    && ChildrenOk(elements, e)
  }

  ghost predicate WellFormed(elements: seq<Element>, zones: seq<Node>, resources: set<Id>) {
    && (forall i :: 0 <= i < |zones| ==> ZoneOk(zones, i))
    && (forall i :: 0 <= i < |elements| ==> ElementOk(elements, zones, resources, i))
    && (forall i :: 0 <= i < |elements| ==> Ends(Hierarchy(elements), Some(elements[i].id)))
  }

  // ----- the validator -----

  method CheckZones(zones: seq<Node>) returns (errors: seq<ValidationError>)
    ensures errors == [] <==> forall i :: 0 <= i < |zones| ==> ZoneOk(zones, i)
  {
    hide Ends;
    errors := [];
    var ids := {};
    for i := 0 to |zones|
      invariant ids == set j | 0 <= j < i :: zones[j].id
      invariant errors == [] <==> forall j :: 0 <= j < i ==> Named(zones, j)
    {
      ghost var before := errors;
      if zones[i].id == "" || zones[i].id in ids {
        errors := errors + [BadZone(zones[i].id)];
      }
      assert errors == [] <==> before == [] && Named(zones, i);
      ids := ids + {zones[i].id};
    }
    for i := 0 to |zones|
      invariant errors == [] <==>
        (forall j :: 0 <= j < |zones| ==> Named(zones, j)) &&
        (forall j :: 0 <= j < i ==> ClonesZone(zones, j))
    {
      ghost var before := errors;
      if zones[i].up.Some? && zones[i].up.value !in ids {
        errors := errors + [BadReference(zones[i].id)];
      }
      assert errors == [] <==> before == [] && ClonesZone(zones, i);
    }
    for i := 0 to |zones|
      invariant errors == [] <==>
        (forall j :: 0 <= j < |zones| ==> Named(zones, j)) &&
        (forall j :: 0 <= j < |zones| ==> ClonesZone(zones, j)) &&
        (forall j :: 0 <= j < i ==> Ends(zones, Some(zones[j].id)))
    {
      var cyclic := Cyclic(zones, zones[i].id);
      if cyclic {
        errors := errors + [Cycle(zones[i].id)];
      }
    }
    if forall j :: 0 <= j < |zones| ==> ZoneOk(zones, j) {
      forall j | 0 <= j < |zones| ensures Named(zones, j) && ClonesZone(zones, j) && Ends(zones, Some(zones[j].id)) {
        assert ZoneOk(zones, j);
      }
    }
  }

  method CheckChildren(elements: seq<Element>, elementIds: set<Id>, e: Element) returns (errors: seq<ValidationError>)
    requires elementIds == set j | 0 <= j < |elements| :: elements[j].id
    ensures errors == [] <==> ChildrenOk(elements, e)
  {
    errors := [];
    if e.children.None? {
      return;
    }
    var children := e.children.value;
    var unique := {};
    for k := 0 to |children|
      invariant errors == [] ==> unique == set j | 0 <= j < k :: children[j]
      invariant errors == [] <==> forall j :: 0 <= j < k ==> ChildOk(elements, e, j)
    {
      var child := children[k];
      var c := FindElement(elements, child);
      ghost var before := errors;
      assert errors == [] ==> (child in unique <==> child in children[..k]);
      if child == e.id || child !in elementIds || child in unique {
        errors := errors + [BadReference(child)];
      } else {
        unique := unique + {child};
        if c.None? || c.value.groupId != Some(e.id) {
          errors := errors + [BadReference(child)];
        }
      }
      assert errors == [] <==> before == [] && ChildOk(elements, e, k);
    }
  }

  method CheckElements(elements: seq<Element>, zones: seq<Node>,
                       resources: set<Id>) returns (errors: seq<ValidationError>)
    ensures errors == [] <==> forall i :: 0 <= i < |elements| ==> ElementOk(elements, zones, resources, i)
  {
    hide ChildrenOk, FindElement;
    errors := [];
    var zoneIds := set j | 0 <= j < |zones| :: zones[j].id;
    var elementIds := set j | 0 <= j < |elements| :: elements[j].id;
    var groupIds := set j | 0 <= j < |elements| && elements[j].children.Some? :: elements[j].id;
    var ids := resources;
    for i := 0 to |elements|
      invariant ids == resources + set j | 0 <= j < i :: elements[j].id
      invariant errors == [] <==> forall j :: 0 <= j < i ==> ElementOk(elements, zones, resources, j)
    {
      var e := elements[i];
      ghost var before := errors;
      if e.id == "" || e.id in ids {
        errors := errors + [DuplicateId(e.id)];
      }
      ids := ids + {e.id};
      if e.groupId.Some? {
        if e.groupId.value !in groupIds {
          errors := errors + [BadReference(e.id)];
        }
        var p := FindElement(elements, e.groupId.value);
        if p.Some? && p.value.children.Some? && e.id !in p.value.children.value {
          errors := errors + [BadReference(e.id)];
        }
      }
      if e.Zone().Some? && e.Zone().value !in zoneIds {
        errors := errors + [BadReference(e.id)];
      }
      var more := CheckChildren(elements, elementIds, e);
      errors := errors + more;
      assert errors == [] <==> before == [] && ElementOk(elements, zones, resources, i);
    }
  }

  /** The structural part of validation accepts exactly the well-formed documents. */
  method Validate(elements: seq<Element>, zones: seq<Node>, resources: set<Id>) returns (errors: seq<ValidationError>)
    ensures errors == [] <==> WellFormed(elements, zones, resources)
  {
    hide ZoneOk, ElementOk, Ends;
    errors := CheckZones(zones);
    var more := CheckElements(elements, zones, resources);
    errors := errors + more;
    ghost var before := errors;
    for i := 0 to |elements|
      invariant errors == [] <==>
        before == [] && forall j :: 0 <= j < i ==> Ends(Hierarchy(elements), Some(elements[j].id))
    {
      var cyclic := Cyclic(Hierarchy(elements), elements[i].id);
      if cyclic {
        errors := errors + [Cycle(elements[i].id)];
      }
    }
  }

  // ----- what a valid document is -----

  lemma {:induction false} FindIsUnique(elements: seq<Element>, i: nat)
    requires i < |elements| && forall j, k :: 0 <= j < k < |elements| ==> elements[j].id != elements[k].id
    ensures FindElement(elements, elements[i].id) == Some(elements[i])
  {
    if i > 0 {
      assert elements[0].id != elements[i].id;
      FindIsUnique(elements[1..], i - 1);
    }
  }

  lemma UniqueIds(elements: seq<Element>, zones: seq<Node>, resources: set<Id>)
    requires WellFormed(elements, zones, resources)
    ensures forall j, k :: 0 <= j < k < |elements| ==> elements[j].id != elements[k].id
  {
    hide ParentOk, ChildrenOk;
    forall j, k | 0 <= j < k < |elements| ensures elements[j].id != elements[k].id {
      assert ElementOk(elements, zones, resources, k);
    }
  }

  /** The children a group lists are exactly the elements that name it as their group. */
  lemma ChildrenMirrorParents(elements: seq<Element>, zones: seq<Node>, resources: set<Id>, g: nat, c: nat)
    requires WellFormed(elements, zones, resources) && g < |elements| && c < |elements|
    ensures elements[g].children.Some? && elements[c].id in elements[g].children.value
            <==> elements[c].groupId == Some(elements[g].id)
  {
    hide Ends, FindElement;
    UniqueIds(elements, zones, resources);
    FindIsUnique(elements, g);
    FindIsUnique(elements, c);
    assert ElementOk(elements, zones, resources, g) && ElementOk(elements, zones, resources, c);
    if elements[g].children.Some? && elements[c].id in elements[g].children.value {
      var k :| 0 <= k < |elements[g].children.value| && elements[g].children.value[k] == elements[c].id;
      assert ChildOk(elements, elements[g], k);
    }
    if elements[c].groupId == Some(elements[g].id) {
      var i :| 0 <= i < |elements| && elements[i].id == elements[g].id && elements[i].children.Some?;
      assert i == g;
    }
  }

  /** No element is above itself, and every element has fewer ancestors than there are elements. */
  lemma HierarchyIsForest(elements: seq<Element>, zones: seq<Node>, resources: set<Id>, i: nat, n: nat)
    requires WellFormed(elements, zones, resources) && i < |elements|
    ensures n > 0 ==> Walk(Hierarchy(elements), Some(elements[i].id), n) != Some(elements[i].id)
    ensures n >= |elements| ==> Walk(Hierarchy(elements), elements[i].groupId, n).None?
  {
    hide Walk, ElementOk, ZoneOk, Up, Ends;
    var h, id := Hierarchy(elements), elements[i].id;
    assert Ends(h, Some(id));
    NothingMet(h, id);
    if n > 0 && Walk(h, Some(id), n) == Some(id) {
      Distinct(h, Some(id), 0, n);
    }
    FewAncestors(h, id);
    UniqueIds(elements, zones, resources);
    FindIsUnique(elements, i);
    FindNode(elements, id);
    assert Up(h, id) == elements[i].groupId by { UpOf(h, id); }
    if n >= |elements| {
      StaysEnded(h, elements[i].groupId, |elements|, n);
    }
  }

  lemma UpOf(nodes: seq<Node>, id: Id)
    ensures Find(nodes, id).Some? ==> Up(nodes, id) == Find(nodes, id).value.up
  {
  }

  /** Chains of cloned zones are finite and never come back. */
  lemma ClonesAreForest(elements: seq<Element>, zones: seq<Node>, resources: set<Id>, i: nat, n: nat)
    requires WellFormed(elements, zones, resources) && i < |zones| && n > 0
    ensures Walk(zones, Some(zones[i].id), n) != Some(zones[i].id)
    ensures n > |zones| ==> Walk(zones, Some(zones[i].id), n).None?
  {
    hide Walk, ElementOk;
    var id := zones[i].id;
    assert ZoneOk(zones, i);
    NothingMet(zones, id);
    if Walk(zones, Some(id), n) == Some(id) {
      Distinct(zones, Some(id), 0, n);
    }
    ShortWalk(zones, Some(id));
    if n > |zones| {
      StaysEnded(zones, Some(id), |zones| + 1, n);
    }
  }
}
