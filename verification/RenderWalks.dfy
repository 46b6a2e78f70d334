/** The renderer's bounded walks (crates/mb-printer-core/src/render.rs, `effectively_visible`, `effective_zone` and
    `zone_clones`) compute the unbounded meanings, on any document. */
module RenderWalks {
  import opened Bytes
  import opened Forest
  import opened Documents

  // ----- visibility -----

  /** The `j`-th element above is there and visible. */
  predicate VisibleAt(elements: seq<Element>, start: Option<Id>, j: nat) {
    var at := Walk(Hierarchy(elements), start, j);
    at.Some? && FindElement(elements, at.value).Some? && FindElement(elements, at.value).value.visible
  }

  /** The chain of groups above ends in a root, and every group on it is there and visible. */
  ghost predicate ShownThrough(elements: seq<Element>, start: Option<Id>) {
    exists k: nat :: Walk(Hierarchy(elements), start, k).None? && forall j: nat :: j < k ==>
      VisibleAt(elements, start, j)
  }

  method EffectivelyVisible(elements: seq<Element>, e: Element) returns (visible: bool)
    ensures visible <==> e.visible && ShownThrough(elements, e.groupId)
  {
    hide Walk, FindElement, Hierarchy;
    if !e.visible {
      return false;
    }
    ghost var h := Hierarchy(elements);
    var group := e.groupId;
    NoStep(h, e.groupId);
    for i := 0 to |elements|
      invariant group == Walk(h, e.groupId, i)
      invariant forall j: nat :: j < i ==> VisibleAt(elements, e.groupId, j)
    {
      var parent := if group.None? then None else FindElement(elements, group.value);
      if parent.None? || !parent.value.visible {
        if group.Some? && ShownThrough(elements, e.groupId) {
          HiddenAt(elements, e.groupId, i);
        }
        return parent.None? && group.None?;
      }
      OneStep(elements, e.groupId, i);
      group := parent.value.groupId;
    }
    if group.Some? && ShownThrough(elements, e.groupId) {
      TooLong(elements, e.groupId);
    }
    return group.None?;
  }

  lemma NoStep(nodes: seq<Node>, start: Option<Id>)
    ensures Walk(nodes, start, 0) == start
  {
  }

  lemma OneStep(elements: seq<Element>, start: Option<Id>, i: nat)
    requires Walk(Hierarchy(elements), start, i).Some?
    ensures var e := FindElement(elements, Walk(Hierarchy(elements), start, i).value);
            Walk(Hierarchy(elements), start, i + 1) == (if e.None? then None else e.value.groupId)
  {
    hide Hierarchy, Find, FindElement;
    FindNode(elements, Walk(Hierarchy(elements), start, i).value);
  }

  lemma HiddenAt(elements: seq<Element>, start: Option<Id>, i: nat)
    requires ShownThrough(elements, start) && Walk(Hierarchy(elements), start, i).Some?
    ensures VisibleAt(elements, start, i)
  {
    hide Walk, VisibleAt;
    var h := Hierarchy(elements);
    var k: nat :| Walk(h, start, k).None? && forall j: nat :: j < k ==> VisibleAt(elements, start, j);
    if k <= i {
      StaysEnded(h, start, k, i);
    }
  }

  lemma KnownElement(elements: seq<Element>, id: Id)
    requires FindElement(elements, id).Some?
    ensures id in Ids(Hierarchy(elements))
  {
    hide FindElement;
    var e := FindElement(elements, id).value;
    var i :| 0 <= i < |elements| && elements[i] == e;
    assert Hierarchy(elements)[i].id == id;
  }

  /** A chain that ends visibly is no longer than the list of elements. */
  lemma TooLong(elements: seq<Element>, start: Option<Id>)
    requires ShownThrough(elements, start)
    ensures Walk(Hierarchy(elements), start, |elements|).None?
  {
    hide Walk, FindElement, Ids, NoRepeat;
    var h := Hierarchy(elements);
    var k: nat :| Walk(h, start, k).None? && forall j: nat :: j < k ==> VisibleAt(elements, start, j);
    forall j: nat | j < k ensures Walk(h, start, j).Some? && Walk(h, start, j).value in Ids(h) {
      assert VisibleAt(elements, start, j);
      KnownElement(elements, Walk(h, start, j).value);
    }
    assert Known(h, start, k);
    if k > 0 {
      assert VisibleAt(elements, start, k - 1);
    }
    NoRepeatIfEnds(h, start, k);
    Bounded(h, start, k);
    StaysEnded(h, start, k, |elements|);
  }

  /** In a valid document an element shows exactly when it and everything above it are visible. */
  lemma VisibleInValidDocument(elements: seq<Element>, zones: seq<Node>, resources: set<Id>, i: nat)
    requires WellFormed(elements, zones, resources) && i < |elements|
    ensures var h, start := Hierarchy(elements), elements[i].groupId;
            ShownThrough(elements, start)
            <==> forall n: nat :: Walk(h, start, n).Some? ==> VisibleAt(elements, start, n)
  {
    hide Walk, VisibleAt, WellFormed;
    var h, start := Hierarchy(elements), elements[i].groupId;
    HierarchyIsForest(elements, zones, resources, i, |elements|);
    if ShownThrough(elements, start) {
      forall n: nat | Walk(h, start, n).Some? ensures VisibleAt(elements, start, n) {
        HiddenAt(elements, start, n);
      }
    } else {
      var k := FirstEnd(h, start, |elements|);
      assert !(forall j: nat :: j < k ==> VisibleAt(elements, start, j));
    }
  }

  lemma {:induction false} FirstEnd(nodes: seq<Node>, start: Option<Id>, n: nat) returns (k: nat)
    requires Walk(nodes, start, n).None?
    ensures k <= n && Walk(nodes, start, k).None? && forall j: nat :: j < k ==> Walk(nodes, start, j).Some?
  {
    hide Walk;
    if j: nat :| j < n && Walk(nodes, start, j).None? {
      k := FirstEnd(nodes, start, j);
    } else {
      k := n;
    }
  }

  // ----- zones -----

  predicate ZoneAt(elements: seq<Element>, start: Option<Id>, j: nat) {
    var at := Walk(Hierarchy(elements), start, j);
    at.Some? && FindElement(elements, at.value).Some? && FindElement(elements, at.value).value.Zone().Some?
  }

  /** `zone` is that of the nearest of the element and its ancestors that has one. */
  ghost predicate NearestZone(elements: seq<Element>, e: Element, zone: Option<Id>) {
    if e.Zone().Some? then zone == e.Zone()
    else if zone.None? then forall j: nat :: !ZoneAt(elements, e.groupId, j)
    else exists j: nat :: ZoneAt(elements, e.groupId, j) && zone == ZoneThere(elements, e.groupId, j) &&
                          forall i: nat :: i < j ==> !ZoneAt(elements, e.groupId, i)
  }

  function ZoneThere(elements: seq<Element>, start: Option<Id>, j: nat): (r: Option<Id>)
    requires ZoneAt(elements, start, j)
  {
    FindElement(elements, Walk(Hierarchy(elements), start, j).value).value.Zone()
  }

  method EffectiveZone(elements: seq<Element>, e: Element) returns (zone: Option<Id>)
    ensures NearestZone(elements, e, zone)
  {
    hide Walk, FindElement, Hierarchy;
    ghost var h := Hierarchy(elements);
    var current := Some(e);
    NoStep(h, e.groupId);
    for n := 0 to |elements| + 1
      invariant n == 0 ==> current == Some(e)
      invariant n > 0 ==> e.Zone().None? && current == ElementAt(elements, e.groupId, n - 1)
      invariant forall j: nat :: j < n - 1 ==> !ZoneAt(elements, e.groupId, j)
    {
      if current.None? {
        NothingAbove(elements, e.groupId, n - 1);
        return None;
      }
      var item := current.value;
      if item.Zone().Some? {
        assert n > 0 ==> ZoneAt(elements, e.groupId, n - 1);
        return item.Zone();
      }
      if n > 0 {
        OneStep(elements, e.groupId, n - 1);
      }
      current := if item.groupId.None? then None else FindElement(elements, item.groupId.value);
    }
    NoZoneFurtherUp(elements, e.groupId);
    return None;
  }

  function ElementAt(elements: seq<Element>, start: Option<Id>, j: nat): (r: Option<Element>) {
    var at := Walk(Hierarchy(elements), start, j);
    if at.None? then None else FindElement(elements, at.value)
  }

  lemma NothingAbove(elements: seq<Element>, start: Option<Id>, n: nat)
    requires ElementAt(elements, start, n).None? && forall j: nat :: j < n ==> !ZoneAt(elements, start, j)
    ensures forall j: nat :: !ZoneAt(elements, start, j)
  {
    hide Walk, FindElement, Hierarchy;
    var h := Hierarchy(elements);
    if Walk(h, start, n).Some? {
      OneStep(elements, start, n);
    } else {
      StaysEnded(h, start, n, n + 1);
    }
    forall j: nat | j > n ensures !ZoneAt(elements, start, j) {
      StaysEnded(h, start, n + 1, j);
    }
  }

  /** If no zone is found in as many steps as there are elements, there is none, even if the chain is a cycle. */
  lemma NoZoneFurtherUp(elements: seq<Element>, start: Option<Id>)
    requires forall j: nat :: j < |elements| ==> !ZoneAt(elements, start, j)
    ensures forall j: nat :: !ZoneAt(elements, start, j)
  {
    hide Walk, FindElement, Ids, NoRepeat;
    var h := Hierarchy(elements);
    var zoned := set i | 0 <= i < |elements| && FindElement(elements, elements[i].id).Some? &&
                         FindElement(elements, elements[i].id).value.Zone().Some? :: elements[i].id;
    forall j: nat ensures !ZoneAt(elements, start, j) {
      if ZoneAt(elements, start, j) {
        var at := Walk(h, start, j).value;
        KnownElement(elements, at);
        IsListed(elements, at);
        var m := FirstHit(h, start, zoned, 0, j);
        assert ZoneAt(elements, start, m);
        KnownBefore(h, start, m);
        KnownElement(elements, Walk(h, start, m).value);
        assert Known(h, start, m + 1);
        Bounded(h, start, m + 1);
      }
    }
  }

  lemma IsListed(elements: seq<Element>, id: Id)
    requires FindElement(elements, id).Some?
    ensures exists i :: 0 <= i < |elements| && elements[i].id == id
  {
    var i :| 0 <= i < |elements| && elements[i] == FindElement(elements, id).value;
  }

  // ----- clones -----

  /** Whether `candidate` is a clone, of a clone, ... of `source`. */
  ghost predicate ClonesEventually(zones: seq<Node>, candidate: Id, source: Id) {
    exists n: nat :: n > 0 && Walk(zones, Some(candidate), n) == Some(source)
  }

  method ZoneClones(zones: seq<Node>, candidate: Id, source: Id) returns (clones: bool)
    ensures clones <==> ClonesEventually(zones, candidate, source)
  {
    hide Walk, Up;
    NothingMet(zones, candidate);
    NextStep(zones, candidate, 0);
    var next := Up(zones, candidate);
    for i := 0 to |zones|
      invariant next == Walk(zones, Some(candidate), i + 1)
      invariant forall n: nat :: 0 < n < i + 1 ==> Walk(zones, Some(candidate), n) != Some(source)
    {
      if next == Some(source) {
        return true;
      }
      if next.None? {
        forall n: nat | n > i ensures Walk(zones, Some(candidate), n) != Some(source) {
          StaysEnded(zones, Some(candidate), i + 1, n);
        }
        return false;
      }
      NextStep(zones, candidate, i + 1);
      next := Up(zones, next.value);
    }
    if ClonesEventually(zones, candidate, source) {
      ReachedSoon(zones, candidate, source);
    }
    return false;
  }

  lemma ReachedSoon(zones: seq<Node>, candidate: Id, source: Id)
    requires ClonesEventually(zones, candidate, source)
    ensures exists n: nat :: 0 < n <= |zones| && Walk(zones, Some(candidate), n) == Some(source)
  {
    hide Walk, NoRepeat, Known;
    var n: nat :| n > 0 && Walk(zones, Some(candidate), n) == Some(source);
    var m := FirstHit(zones, Some(candidate), {source}, 1, n);
    KnownBefore(zones, Some(candidate), m);
    Bounded(zones, Some(candidate), m);
  }
}
