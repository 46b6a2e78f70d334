/** Every page of a zone batch is again a valid document, and each record can be read back from its page. */
module ZoneBatchProofs {
  import opened Bytes
  import opened Forest
  import opened Documents
  import opened Raster
  import opened ZoneBatch
  import opened RenameClash

  /** Element `j` in slot `s` takes the identifier of element `l` in slot `t` of the same page. */
  predicate Clash(b: Batch, number: nat, s: nat, t: nat, j: nat, l: nat)
    requires s < |b.zoneIds| && t < |b.zoneIds| && j < |b.elements| && l < |b.elements|
  {
    s != t && TakesNameOf(b.elements[j].id, PlacementAt(b, number, s), b.elements[l].id, PlacementAt(b, number, t))
  }

  /** No two elements of the filled slots of a page get the same identifier. Zone identifiers, element identifiers and
      the page number decide this. */
  predicate NoClash(b: Batch, number: nat, slots: nat) {
    forall s, t, j, l ::
      0 <= s < slots && 0 <= t < slots && slots <= |b.zoneIds| && 0 <= j < |b.elements| && 0 <= l < |b.elements| ==>
      !Clash(b, number, s, t, j, l)
  }

  ghost predicate Sources(b: Batch, zones: seq<Node>, resources: set<Id>) {
    WellFormed(b.elements, zones, resources) && Selects(zones, b.zoneIds)
  }

  ghost predicate GoodPage(b: Batch, zones: seq<Node>, resources: set<Id>, number: nat, slots: nat) {
    Sources(b, zones, resources) && NoClash(b, number, slots)
  }

  /** Zone identifiers without colons never clash. */
  lemma ColonFreeZones(b: Batch, number: nat, slots: nat)
    requires forall s :: 0 <= s < |b.zoneIds| ==> ':' !in b.zoneIds[s]
    ensures NoClash(b, number, slots)
  {
    hide EndsWith, Suffix;
    forall s, t, j, l |
      0 <= s < slots && 0 <= t < slots && slots <= |b.zoneIds| && 0 <= j < |b.elements| && 0 <= l < |b.elements|
      ensures !Clash(b, number, s, t, j, l)
    {
      ColonFreeHidesNothing(b.zoneIds[t], PlacementAt(b, number, s));
    }
  }

  // ----- elements of a page -----

  function RenamedChildren(c: Option<seq<Id>>, p: Placement): (r: Option<seq<Id>>) {
    if c.None? then None else Some(RenamedAll(c.value, p))
  }

  /** What slot `slot` of a page shows for element `j`. */
  lemma Shown(b: Batch, page: seq<Element>, number: nat, slots: nat, slot: nat, j: nat)
    requires PageIs(b, page, number, slots) && slot < slots && j < |b.elements|
    ensures Cell(|b.elements|, slot, j) < |page|
    ensures var e, p := page[Cell(|b.elements|, slot, j)], PlacementAt(b, number, slot);
            && e.id == Renamed(b.elements[j].id, p) && e.groupId == RenamedOption(b.elements[j].groupId, p)
            && e.children == RenamedChildren(b.elements[j].children, p)
            && e.Zone() == Some(b.zoneIds[slot]) && e.zOrder == Cell(|b.elements|, slot, j)
  {
    hide Cell, Renamed;
    assert ElementIs(b, page, number, slot, j);
  }

  /** Every position of a page belongs to one slot and one element. */
  lemma SlotOf(b: Batch, page: seq<Element>, number: nat, slots: nat, i: nat) returns (slot: nat, j: nat)
    requires PageIs(b, page, number, slots) && i < |page|
    ensures slot < slots && j < |b.elements| && Cell(|b.elements|, slot, j) == i
  {
    hide OnPage;
    CellOf(|b.elements|, slots, i);
    slot, j := i / |b.elements|, i % |b.elements|;
  }

  /** The z-order of a page is strictly increasing: each element has its position. */
  lemma ZOrderIsPosition(b: Batch, page: seq<Element>, number: nat, slots: nat, i: nat)
    requires PageIs(b, page, number, slots) && i < |page|
    ensures page[i].zOrder == i
  {
    hide Cell, PageIs;
    var slot, j := SlotOf(b, page, number, slots, i);
    Shown(b, page, number, slots, slot, j);
  }

  lemma IdsApart(b: Batch, zones: seq<Node>, resources: set<Id>, page: seq<Element>, number: nat, slots: nat, i: nat,
                 k: nat)
    requires GoodPage(b, zones, resources, number, slots) && PageIs(b, page, number, slots) && i < |page| &&
      k < |page| && i != k
    ensures page[i].id != page[k].id
  {
    hide Cell, WellFormed, Renamed, TakesNameOf;
    UniqueIds(b.elements, zones, resources);
    var s, j := SlotOf(b, page, number, slots, i);
    var t, l := SlotOf(b, page, number, slots, k);
    Shown(b, page, number, slots, s, j);
    Shown(b, page, number, slots, t, l);
    if s != t {
      assert s < t || t < s;
      RenamedMeet(b.elements[j].id, PlacementAt(b, number, s), b.elements[l].id, PlacementAt(b, number, t));
      assert !Clash(b, number, s, t, j, l) && !Clash(b, number, t, s, l, j);
    } else {
      RenamedInjective(b.elements[j].id, b.elements[l].id, PlacementAt(b, number, s));
      assert j < l || l < j;
    }
  }

  lemma AllApart(b: Batch, zones: seq<Node>, resources: set<Id>, page: seq<Element>, number: nat, slots: nat)
    requires GoodPage(b, zones, resources, number, slots) && PageIs(b, page, number, slots)
    ensures forall j, k :: 0 <= j < k < |page| ==> page[j].id != page[k].id
  {
    hide GoodPage, PageIs;
    forall j, k | 0 <= j < k < |page| ensures page[j].id != page[k].id {
      IdsApart(b, zones, resources, page, number, slots, j, k);
    }
  }

  /** Looking up a renamed identifier finds the element of the same slot. */
  lemma FoundInSlot(b: Batch, zones: seq<Node>, resources: set<Id>, page: seq<Element>, number: nat, slots: nat,
                    slot: nat, j: nat)
    requires GoodPage(b, zones, resources, number, slots) && PageIs(b, page, number, slots) && slot < slots &&
      j < |b.elements|
    ensures Cell(|b.elements|, slot, j) < |page|
    ensures FindElement(page,
                        Renamed(b.elements[j].id,
                                PlacementAt(b, number, slot))) == Some(page[Cell(|b.elements|, slot, j)])
  {
    hide GoodPage, Cell, Renamed;
    Shown(b, page, number, slots, slot, j);
    AllApart(b, zones, resources, page, number, slots);
    FindIsUnique(page, Cell(|b.elements|, slot, j));
  }

  // ----- references -----

  lemma RenamedMember(ids: seq<Id>, id: Id, p: Placement)
    ensures Renamed(id, p) in RenamedAll(ids, p) <==> id in ids
  {
    hide Renamed;
    if Renamed(id, p) in RenamedAll(ids, p) {
      var k :| 0 <= k < |ids| && RenamedAll(ids, p)[k] == Renamed(id, p);
      RenamedInjective(ids[k], id, p);
    }
    if id in ids {
      var k :| 0 <= k < |ids| && ids[k] == id;
      assert RenamedAll(ids, p)[k] == Renamed(id, p);
    }
  }

  lemma PageParentOk(b: Batch, zones: seq<Node>, resources: set<Id>, page: seq<Element>, number: nat, slots: nat,
                     slot: nat, j: nat)
    requires GoodPage(b, zones, resources, number, slots) && PageIs(b, page, number, slots) && slot < slots &&
      j < |b.elements|
    ensures Cell(|b.elements|, slot, j) < |page| && ParentOk(page, page[Cell(|b.elements|, slot, j)])
  {
    hide PageIs, Renamed, Cell, ChildrenOk, Ends;
    SlotsBound(b, page, number, slots, slot);
    var p, e := PlacementAt(b, number, slot), b.elements[j];
    Shown(b, page, number, slots, slot, j);
    if e.groupId.Some? {
      assert ElementOk(b.elements, zones, resources, j);
      var g :| 0 <= g < |b.elements| && b.elements[g].id == e.groupId.value && b.elements[g].children.Some?;
      UniqueIds(b.elements, zones, resources);
      FindIsUnique(b.elements, g);
      Shown(b, page, number, slots, slot, g);
      FoundInSlot(b, zones, resources, page, number, slots, slot, g);
      RenamedMember(b.elements[g].children.value, e.id, p);
    }
  }

  lemma PageChildOk(b: Batch, zones: seq<Node>, resources: set<Id>, page: seq<Element>, number: nat, slots: nat,
                    slot: nat, j: nat, k: nat)
    requires GoodPage(b, zones, resources, number, slots) && PageIs(b, page, number, slots) && slot < slots &&
      j < |b.elements|
    requires b.elements[j].children.Some? && k < |b.elements[j].children.value|
    ensures var i := Cell(|b.elements|, slot, j);
            i < |page| && page[i].children.Some? && k < |page[i].children.value| && ChildOk(page, page[i], k)
  {
    hide PageIs, Renamed, Cell, ParentOk, Ends;
    SlotsBound(b, page, number, slots, slot);
    var p, e := PlacementAt(b, number, slot), b.elements[j];
    var child := e.children.value[k];
    assert ElementOk(b.elements, zones, resources, j) && ChildOk(b.elements, e, k);
    Shown(b, page, number, slots, slot, j);
    var c :| 0 <= c < |b.elements| && b.elements[c].id == child;
    UniqueIds(b.elements, zones, resources);
    FindIsUnique(b.elements, c);
    Shown(b, page, number, slots, slot, c);
    FoundInSlot(b, zones, resources, page, number, slots, slot, c);
    RenamedInjective(child, e.id, p);
    assert RenamedAll(e.children.value, p)[..k] == RenamedAll(e.children.value[..k], p);
    RenamedMember(e.children.value[..k], child, p);
  }

  // ----- the hierarchy -----

  lemma {:induction false} WalkStaysInside(elements: seq<Element>, zones: seq<Node>, resources: set<Id>, id: Id, n: nat)
    requires WellFormed(elements, zones, resources) && HasElement(elements, id)
    ensures var at := Walk(Hierarchy(elements), Some(id), n); at.Some? ==> HasElement(elements, at.value)
  {
    hide ChildrenOk, Ends, Hierarchy, Find;
    if n > 0 {
      WalkStaysInside(elements, zones, resources, id, n - 1);
      var at := Walk(Hierarchy(elements), Some(id), n - 1);
      if at.Some? {
        var i :| 0 <= i < |elements| && elements[i].id == at.value;
        UniqueIds(elements, zones, resources);
        FindIsUnique(elements, i);
        FindNode(elements, at.value);
        assert ElementOk(elements, zones, resources, i);
      }
    }
  }

  /** Walking up on the page is walking up in the document, renamed. */
  lemma {:induction false} WalkRenamed(b: Batch, zones: seq<Node>, resources: set<Id>, page: seq<Element>,
                                       number: nat, slots: nat,
                                       slot: nat, id: Id, n: nat)
    requires GoodPage(b, zones, resources, number, slots) && PageIs(b, page, number, slots) && slot < slots &&
      HasElement(b.elements, id)
    ensures var p := PlacementAt(b, number, slot);
            Walk(Hierarchy(page), Some(Renamed(id, p)), n) == RenamedOption(Walk(Hierarchy(b.elements), Some(id), n), p)
  {
    hide PageIs, Renamed, Cell, WellFormed, Hierarchy, Find, FindElement;
    SlotsBound(b, page, number, slots, slot);
    if n > 0 {
      WalkRenamed(b, zones, resources, page, number, slots, slot, id, n - 1);
      WalkStaysInside(b.elements, zones, resources, id, n - 1);
      var at := Walk(Hierarchy(b.elements), Some(id), n - 1);
      if at.Some? {
        var i :| 0 <= i < |b.elements| && b.elements[i].id == at.value;
        UniqueIds(b.elements, zones, resources);
        FindIsUnique(b.elements, i);
        FindNode(b.elements, at.value);
        Shown(b, page, number, slots, slot, i);
        FoundInSlot(b, zones, resources, page, number, slots, slot, i);
        FindNode(page, Renamed(at.value, PlacementAt(b, number, slot)));
      }
    }
  }

  lemma PageHierarchyEnds(b: Batch, zones: seq<Node>, resources: set<Id>, page: seq<Element>, number: nat, slots: nat,
                          slot: nat, j: nat)
    requires GoodPage(b, zones, resources, number, slots) && PageIs(b, page, number, slots) && slot < slots &&
      j < |b.elements|
    ensures Ends(Hierarchy(page), Some(Renamed(b.elements[j].id, PlacementAt(b, number, slot))))
  {
    hide PageIs, Renamed, Cell, Hierarchy, Walk, ElementOk;
    var id := b.elements[j].id;
    assert Ends(Hierarchy(b.elements), Some(id));
    var n: nat :| Walk(Hierarchy(b.elements), Some(id), n).None?;
    WalkRenamed(b, zones, resources, page, number, slots, slot, id, n);
  }

  // ----- the main results -----

  lemma PageElementOk(b: Batch, zones: seq<Node>, resources: set<Id>, page: seq<Element>, number: nat, slots: nat,
                      i: nat)
    requires GoodPage(b, zones, resources, number, slots) && PageIs(b, page, number, slots) && i < |page|
    ensures ElementOk(page, zones, {}, i) && Ends(Hierarchy(page), Some(page[i].id))
  {
    hide PageIs, Cell, WellFormed, ParentOk, Ends, Hierarchy;
    var slot, j := SlotOf(b, page, number, slots, i);
    Shown(b, page, number, slots, slot, j);
    AllApart(b, zones, resources, page, number, slots);
    PageParentOk(b, zones, resources, page, number, slots, slot, j);
    if b.elements[j].children.Some? {
      forall k | 0 <= k < |b.elements[j].children.value| ensures ChildOk(page, page[i], k) {
        PageChildOk(b, zones, resources, page, number, slots, slot, j, k);
      }
    }
    PageHierarchyEnds(b, zones, resources, page, number, slots, slot, j);
    SlotsBound(b, page, number, slots, slot);
    Positive(b.elements[j].id, PlacementAt(b, number, slot));
  }

  lemma Positive(id: Id, p: Placement)
    ensures Renamed(id, p) != ""
  {
  }

  lemma SlotsBound(b: Batch, page: seq<Element>, number: nat, slots: nat, slot: nat)
    requires PageIs(b, page, number, slots) && slot < slots
    ensures slot < |b.zoneIds|
  {
  }

  /** A clash gives two elements of the page one identifier. */
  lemma ClashRepeats(b: Batch, zones: seq<Node>, page: seq<Element>, number: nat, slots: nat, s: nat, t: nat, j: nat,
                     l: nat)
    requires Selects(zones, b.zoneIds) && PageIs(b, page, number, slots)
    requires s < slots && t < slots && j < |b.elements| && l < |b.elements| && slots <= |b.zoneIds|
    requires Clash(b, number, s, t, j, l)
    ensures var i, k := Cell(|b.elements|, s, j), Cell(|b.elements|, t, l);
            i != k && i < |page| && k < |page| && page[i].id == page[k].id
  {
    hide Cell, Renamed, TakesNameOf, PageIs;
    Shown(b, page, number, slots, s, j);
    Shown(b, page, number, slots, t, l);
    assert s < t || t < s;
    RenamedMeet(b.elements[j].id, PlacementAt(b, number, s), b.elements[l].id, PlacementAt(b, number, t));
    if s < t {
      CellOrder(|b.elements|, s, j, t, l);
    } else {
      CellOrder(|b.elements|, t, l, s, j);
    }
  }

  /** Identifiers of a page are pairwise distinct exactly when no two elements clash. */
  lemma DistinctIffNoClash(b: Batch, zones: seq<Node>, resources: set<Id>, page: seq<Element>, number: nat, slots: nat)
    requires Sources(b, zones, resources) && PageIs(b, page, number, slots)
    ensures (forall i, k :: 0 <= i < k < |page| ==> page[i].id != page[k].id) <==> NoClash(b, number, slots)
  {
    hide PageIs, Cell, WellFormed, Selects, Clash;
    if NoClash(b, number, slots) {
      AllApart(b, zones, resources, page, number, slots);
    } else {
      var s, t, j, l :| 0 <= s < slots && 0 <= t < slots && slots <= |b.zoneIds| && 0 <= j < |b.elements| &&
                        0 <= l < |b.elements| && Clash(b, number, s, t, j, l);
      ClashRepeats(b, zones, page, number, slots, s, t, j, l);
      var i, k := Cell(|b.elements|, s, j), Cell(|b.elements|, t, l);
      assert i < k || k < i;
    }
  }

  /** Every page is again a valid document exactly when no two of its elements clash: then identifiers are distinct,
      group references closed and mutually inverse and the hierarchy acyclic. With the document's resources, it passes
      validation exactly when, besides, no renamed identifier happens to be that of a resource. */
  lemma PagesAreValid(b: Batch, zones: seq<Node>, resources: set<Id>, page: seq<Element>, number: nat, slots: nat)
    requires Sources(b, zones, resources) && PageIs(b, page, number, slots)
    ensures WellFormed(page, zones, {}) <==> NoClash(b, number, slots)
    ensures WellFormed(page, zones, resources) <==>
            NoClash(b, number, slots) && forall i :: 0 <= i < |page| ==> page[i].id !in resources
  {
    hide PageIs, ZoneOk, ParentOk, ChildrenOk, Ends, Hierarchy, NoClash;
    DistinctIffNoClash(b, zones, resources, page, number, slots);
    if NoClash(b, number, slots) {
      ValidWithoutClash(b, zones, resources, page, number, slots);
    } else {
      var i, k :| 0 <= i < k < |page| && page[i].id == page[k].id;
      assert !ElementOk(page, zones, {}, k) && !ElementOk(page, zones, resources, k);
    }
  }

  lemma ValidWithoutClash(b: Batch, zones: seq<Node>, resources: set<Id>, page: seq<Element>, number: nat, slots: nat)
    requires GoodPage(b, zones, resources, number, slots) && PageIs(b, page, number, slots)
    ensures WellFormed(page, zones, {})
    ensures WellFormed(page, zones, resources) <==> forall i :: 0 <= i < |page| ==> page[i].id !in resources
  {
    hide PageIs, ZoneOk, ParentOk, ChildrenOk, Ends, Hierarchy, NoClash;
    forall i | 0 <= i < |page|
      ensures ElementOk(page, zones, {}, i) && Ends(Hierarchy(page), Some(page[i].id))
      ensures ElementOk(page, zones, resources, i) <==> page[i].id !in resources
    {
      PageElementOk(b, zones, resources, page, number, slots, i);
    }
  }

  function Stripped(id: Id, suffix: string): (r: Id) {
    if |id| < |suffix| then id else id[..|id| - |suffix|]
  }

  /** Undoing the rename of an element of one placement. */
  function Restored(e: Element, suffix: string): (r: Element) {
    e.(id := Stripped(e.id, suffix),
       groupId := if e.groupId.None? then None else Some(Stripped(e.groupId.value, suffix)),
       children := if e.children.None? then None
                   else Some(seq(|e.children.value|,
                                 i requires 0 <= i < |e.children.value| => Stripped(e.children.value[i], suffix))))
  }

  lemma StrippedRenamed(id: Id, p: Placement)
    ensures Stripped(Renamed(id, p), Suffix(p)) == id && EndsWith(Renamed(id, p), Suffix(p))
  {
    hide Suffix;
    var s := id + Suffix(p);
    assert s[..|s| - |Suffix(p)|] == id && s[|s| - |Suffix(p)|..] == Suffix(p);
  }

  /** Which elements carry the suffix of one placement: its own, and exactly those others that are
      confusable with it. */
  lemma PlacementElements(b: Batch, zones: seq<Node>, page: seq<Element>, number: nat, slots: nat, slot: nat, t: nat,
                          j: nat)
    requires Selects(zones, b.zoneIds) && PageIs(b, page, number, slots) && slot < slots && t < slots &&
      j < |b.elements|
    ensures var i := Cell(|b.elements|, t, j);
            && i < |page|
            && (EndsWith(page[i].id, Suffix(PlacementAt(b, number, slot)))
                <==> slot == t || Confusable(b.elements[j].id, PlacementAt(b, number, t), PlacementAt(b, number, slot)))
  {
    hide PageIs, Suffix, Cell, EndsWith, Confusable, Renamed;
    Shown(b, page, number, slots, t, j);
    SlotsBound(b, page, number, slots, t);
    SlotsBound(b, page, number, slots, slot);
    var p, q := PlacementAt(b, number, slot), PlacementAt(b, number, t);
    StrippedRenamed(b.elements[j].id, q);
    if slot != t {
      assert slot < t || t < slot;
      RenamedEndsWith(b.elements[j].id, q, p);
    }
  }

  /** With zone identifiers without colons, the elements of a placement are exactly those that carry its suffix. */
  lemma ColonFreePlacements(b: Batch, zones: seq<Node>, page: seq<Element>, number: nat, slots: nat, slot: nat, t: nat,
                            j: nat)
    requires Selects(zones, b.zoneIds) && PageIs(b, page, number, slots) && slot < slots && t < slots
    requires j < |b.elements| && forall s :: 0 <= s < |b.zoneIds| ==> ':' !in b.zoneIds[s]
    ensures var i := Cell(|b.elements|, t, j);
            i < |page| && (EndsWith(page[i].id, Suffix(PlacementAt(b, number, slot))) <==> slot == t)
  {
    hide EndsWith, Suffix, Cell, PageIs;
    PlacementElements(b, zones, page, number, slots, slot, t, j);
    SlotsBound(b, page, number, slots, t);
    SlotsBound(b, page, number, slots, slot);
    ColonFreeHidesNothing(b.zoneIds[t], PlacementAt(b, number, slot));
    ColonFreeHidesNothing(b.zoneIds[slot], PlacementAt(b, number, t));
  }

  /** Undoing the rename gives back the record's materialized element, up to zone and z-order. */
  lemma PlacementRestores(b: Batch, page: seq<Element>, number: nat, slots: nat, slot: nat, j: nat)
    requires PageIs(b, page, number, slots) && slot < slots && j < |b.elements|
    ensures var i, record := Cell(|b.elements|, slot, j), Cell(|b.zoneIds|, number, slot);
            && ElementIs(b, page, number, slot, j) && i < |page| && record < |b.records|
            && var was, now := Filled(b.elements[j], b.records[record], b.evaluate),
                               Restored(page[i], Suffix(PlacementAt(b, number, slot)));
            && now.(zOrder := was.zOrder, constraints := was.constraints) == was
            && now.constraints.Some? && now.constraints.value.zone == Some(b.zoneIds[slot])
            && (now.constraints.value.preserveAspect <==> was.constraints.Some? && was.constraints.value.preserveAspect)
  {
    hide Renamed, Suffix, Stripped, EndsWith;
    var i, p := Cell(|b.elements|, slot, j), PlacementAt(b, number, slot);
    var record := Cell(|b.zoneIds|, number, slot);
    assert ElementIs(b, page, number, slot, j);
    var was := Filled(b.elements[j], b.records[record], b.evaluate);
    StrippedRenamed(was.id, p);
    if was.groupId.Some? {
      StrippedRenamed(was.groupId.value, p);
    }
    if was.children.Some? {
      forall k | 0 <= k < |was.children.value| ensures Stripped(RenamedAll(was.children.value, p)[k],
                                                                Suffix(p)) == was.children.value[k] {
        StrippedRenamed(was.children.value[k], p);
      }
      assert Restored(page[i], Suffix(p)).children.value == was.children.value;
    }
  }

  // ----- a page that does not pass validation -----

  function Plain(id: Id): (e: Element) {
    Element(id, 0, true, None, None, None, None)
  }

  const CLASHING_ELEMENTS := [Plain("a:record:0:zone:x"), Plain("a")]
  const CLASHING_ZONES := [Node("q", None), Node("x:record:1:zone:q", None)]

  /** Two records of a document of two elements, placed in two zones of which one hides the suffix of the other. */
  function ClashingBatch(evaluate: Evaluator): (b: Batch) {
    Batch(CLASHING_ELEMENTS, [map[], map[]], ["x:record:1:zone:q", "q"], evaluate)
  }

  function ClashingPage(evaluate: Evaluator): (page: seq<Element>) {
    var b := ClashingBatch(evaluate);
    [OnPage(b, 0, 0, 0), OnPage(b, 0, 0, 1), OnPage(b, 0, 1, 0), OnPage(b, 0, 1, 1)]
  }

  lemma RootsAreWellFormed(elements: seq<Element>, zones: seq<Node>)
    requires forall i :: 0 <= i < |elements| ==> elements[i] == Plain(elements[i].id) && elements[i].id != ""
    requires forall i, j :: 0 <= i < j < |elements| ==> elements[i].id != elements[j].id
    requires forall i :: 0 <= i < |zones| ==> zones[i].up == None && zones[i].id != ""
    requires forall i, j :: 0 <= i < j < |zones| ==> zones[i].id != zones[j].id
    ensures WellFormed(elements, zones, {})
  {
    forall i | 0 <= i < |zones| ensures ZoneOk(zones, i) {
      RootEnds(zones, zones[i].id);
    }
    forall i | 0 <= i < |elements| ensures Ends(Hierarchy(elements), Some(elements[i].id)) {
      RootEnds(Hierarchy(elements), elements[i].id);
    }
  }

  lemma RootEnds(nodes: seq<Node>, id: Id)
    requires forall i :: 0 <= i < |nodes| ==> nodes[i].up == None
    ensures Ends(nodes, Some(id))
  {
    assert Walk(nodes, Some(id), 0) == Some(id);
    assert Up(nodes, id) == None;
    assert Walk(nodes, Some(id), 1).None?;
  }

  lemma ClashingPageIs(evaluate: Evaluator)
    ensures PageIs(ClashingBatch(evaluate), ClashingPage(evaluate), 0, 2)
  {
    hide OnPage;
    var b, page := ClashingBatch(evaluate), ClashingPage(evaluate);
    assert ElementIs(b, page, 0, 0, 0) && ElementIs(b, page, 0, 0, 1);
    assert ElementIs(b, page, 0, 1, 0) && ElementIs(b, page, 0, 1, 1);
  }

  lemma ClashingPlacements(evaluate: Evaluator)
    ensures Suffix(PlacementAt(ClashingBatch(evaluate), 0, 0)) == ":record:0:zone:x:record:1:zone:q"
    ensures Suffix(PlacementAt(ClashingBatch(evaluate), 0, 1)) == ":record:1:zone:q"
  {
    assert DecimalText(0) == "0" && DecimalText(1) == "1";
  }

  lemma ClashingNames(evaluate: Evaluator)
    ensures Clash(ClashingBatch(evaluate), 0, 1, 0, 0, 1)
  {
    hide Suffix, TakesNameOf;
    ClashingPlacements(evaluate);
    var b := ClashingBatch(evaluate);
    assert ":record:0:zone:x:record:1:zone:q" == ":record:0:zone:x" + ":record:1:zone:q";
    assert ":" + "x:record:1:zone:q" == ":x" + ":record:1:zone:q";
    assert "a:record:0:zone:x" == "a" + ":record:0:zone:x";
    HiddenSuffix("a", PlacementAt(b, 0, 1), PlacementAt(b, 0, 0), ":record:0:zone:x", ":x");
  }

  /** A valid document and a valid selection of zones can give a page that does not pass validation. */
  lemma ValidBatchInvalidPage(evaluate: Evaluator)
    ensures var b, page := ClashingBatch(evaluate), ClashingPage(evaluate);
            Sources(b, CLASHING_ZONES, {}) && PageIs(b, page, 0, 2) && !WellFormed(page, CLASHING_ZONES, {})
  {
    hide WellFormed, PageIs, Clash, OnPage;
    var b, page := ClashingBatch(evaluate), ClashingPage(evaluate);
    RootsAreWellFormed(CLASHING_ELEMENTS, CLASHING_ZONES);
    assert Selects(CLASHING_ZONES, b.zoneIds) by {
      assert HasId(CLASHING_ZONES, CLASHING_ZONES[0].id) && HasId(CLASHING_ZONES, CLASHING_ZONES[1].id);
    }
    ClashingPageIs(evaluate);
    ClashingNames(evaluate);
    assert !NoClash(b, 0, 2);
    PagesAreValid(b, CLASHING_ZONES, {}, page, 0, 2);
  }
}
