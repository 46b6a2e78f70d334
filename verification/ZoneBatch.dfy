/** Zone batches (crates/mb-printer-core/src/materialize.rs): records placed into the zones of successive pages.
    Template evaluation is a function handed in, and so are the verdicts on the size of serialized documents. */
module ZoneBatch {
  import opened Bytes
  import opened Forest
  import opened Documents
  import opened Raster
  import Utf8Text

  type Record = map<string, string>

  datatype Limits = Limits(maxItems: nat, maxPages: nat, maxElements: nat, maxOutputBytes: nat)

  datatype BatchError =
    | NoZones | InvalidDocument | LimitExceeded
    | DuplicateZone(index: nat) | UnknownZone(index: nat) | Template(element: nat)

  datatype Placement = Placement(record: nat, page: nat, zone: Id)

  // ----- choosing zones and placing records -----

  /** The selection names existing zones, each once. */
  predicate Selects(zones: seq<Node>, zoneIds: seq<Id>) {
    && (forall i :: 0 <= i < |zoneIds| ==> HasId(zones, zoneIds[i]))
    && (forall i, j :: 0 <= i < j < |zoneIds| ==> zoneIds[i] != zoneIds[j])
  }

  method SelectedZones(zones: seq<Node>, zoneIds: seq<Id>) returns (e: Option<BatchError>)
    ensures e.None? <==> Selects(zones, zoneIds)
  {
    var seen := {};
    for i := 0 to |zoneIds|
      invariant seen == set j | 0 <= j < i :: zoneIds[j]
      invariant forall j :: 0 <= j < i ==> HasId(zones, zoneIds[j])
      invariant forall j, k :: 0 <= j < k < i ==> zoneIds[j] != zoneIds[k]
    {
      if zoneIds[i] in seen {
        return Some(DuplicateZone(i));
      }
      seen := seen + {zoneIds[i]};
      if !HasId(zones, zoneIds[i]) {
        return Some(UnknownZone(i));
      }
    }
    return None;
  }

  function PageCount(records: nat, slots: nat): (r: nat)
    requires slots > 0
  {
    if records == 0 then 0 else (records + (slots - 1)) / slots
  }

  /** Exactly enough pages: the last record is on the last page. */
  lemma PageCountExact(records: nat, slots: nat)
    requires slots > 0
    ensures forall r :: 0 <= r < records ==> r / slots < PageCount(records, slots)
    ensures records > 0 ==> (records - 1) / slots == PageCount(records, slots) - 1
  {
    if records > 0 {
      LastPage(records - 1, slots);
      forall r | 0 <= r < records ensures r / slots <= (records - 1) / slots {
        DivMonotone(r, records - 1, slots);
      }
    }
  }

  lemma LastPage(n: nat, d: nat)
    requires d > 0
    ensures (n + d) / d == n / d + 1
  {
    assert n == d * (n / d) + n % d;
    assert n + d == d * (n / d + 1) + n % d;
    QuotientUnique(n + d, d, n / d + 1, n % d);
  }

  const U32_MAX := 0xffff_ffff

  /** The page count is computed in 32 bits, and an overflow is a refusal. */
  predicate CountsIn32Bits(records: nat, slots: nat) {
    slots <= U32_MAX && (records > 0 ==> records + slots - 1 <= U32_MAX)
  }

  ghost predicate Plannable(elements: seq<Element>, zones: seq<Node>, resources: set<Id>, records: nat,
                            zoneIds: seq<Id>,
                            limits: Limits)
  {
    && zoneIds != [] && |elements| <= limits.maxElements && WellFormed(elements, zones, resources)
    && records <= limits.maxItems && Selects(zones, zoneIds)
    && CountsIn32Bits(records, |zoneIds|) && PageCount(records, |zoneIds|) <= limits.maxPages
  }

  function PlaceFor(record: nat, zoneIds: seq<Id>): (p: Placement)
    requires zoneIds != []
  {
    Placement(record, record / |zoneIds|, zoneIds[record % |zoneIds|])
  }

  /** Record `n` is in that zone of that page before which there are `n` zones, page by page. */
  predicate PlacedAt(n: nat, p: Placement, zoneIds: seq<Id>, slot: nat) {
    p.record == n && slot < |zoneIds| && p.page * |zoneIds| + slot == n && p.zone == zoneIds[slot]
  }

  lemma PlacedInOrder(n: nat, zoneIds: seq<Id>, p: Placement)
    requires zoneIds != []
    ensures p == PlaceFor(n, zoneIds) <==> exists slot :: PlacedAt(n, p, zoneIds, slot)
  {
    var k := |zoneIds|;
    assert n == n / k * k + n % k;
    if p == PlaceFor(n, zoneIds) {
      assert PlacedAt(n, p, zoneIds, n % k);
    }
    if slot: nat :| PlacedAt(n, p, zoneIds, slot) {
      QuotientUnique(n, k, p.page, slot);
    }
  }

  /** Record `r` goes to page `r / k` and there to zone `r mod k`. */
  method PlanZoneBatch(elements: seq<Element>, zones: seq<Node>, resources: set<Id>, recordCount: u32, zoneIds: seq<Id>,
                       limits: Limits)
    returns (r: Result<(nat, seq<Placement>), BatchError>)
    ensures r.Ok? <==> Plannable(elements, zones, resources, recordCount, zoneIds, limits)
    ensures r.Ok? ==> r.value.0 == PageCount(recordCount, |zoneIds|) && |r.value.1| == recordCount
    ensures r.Ok? ==> forall n :: 0 <= n < recordCount ==> r.value.1[n] == PlaceFor(n, zoneIds)
  {
    hide WellFormed, Selects, PageCount, PlaceFor;
    if zoneIds == [] {
      return Err(NoZones);
    }
    if |elements| > limits.maxElements {
      return Err(LimitExceeded);
    }
    var errors := Validate(elements, zones, resources);
    if errors != [] {
      return Err(InvalidDocument);
    }
    if recordCount > limits.maxItems {
      return Err(LimitExceeded);
    }
    var rejected := SelectedZones(zones, zoneIds);
    if rejected.Some? {
      return Err(rejected.value);
    }
    var slots := |zoneIds|;
    if slots > U32_MAX {
      return Err(LimitExceeded);
    }
    if recordCount > 0 {
      var sum: nat := recordCount;
      if sum + (slots - 1) > U32_MAX {
        return Err(LimitExceeded);
      }
    }
    var pageCount := PageCount(recordCount, slots);
    if pageCount > limits.maxPages {
      return Err(LimitExceeded);
    }
    var placements := [];
    var count: nat := recordCount;
    for record := 0 to count
      invariant |placements| == record
      invariant forall n :: 0 <= n < record ==> placements[n] == PlaceFor(n, zoneIds)
    {
      placements := placements + [PlaceFor(record, zoneIds)];
    }
    return Ok((pageCount, placements));
  }

  // ----- renaming -----

  function DecimalText(n: nat): (r: string) {
    if n < 10 then [('0' as int + n) as char] else DecimalText(n / 10) + [('0' as int + n % 10) as char]
  }

  function Suffix(p: Placement): (r: string) {
    ":record:" + DecimalText(p.record) + ":zone" + ":" + p.zone
  }

  function Renamed(id: Id, p: Placement): (r: Id) {
    id + Suffix(p)
  }

  function RenamedAll(ids: seq<Id>, p: Placement): (r: seq<Id>) {
    seq(|ids|, i requires 0 <= i < |ids| => Renamed(ids[i], p))
  }

  function RenamedOption(id: Option<Id>, p: Placement): (r: Option<Id>) {
    if id.None? then None else Some(Renamed(id.value, p))
  }

  /** An element as it appears on a page. */
  function Rewritten(e: Element, p: Placement): (r: Element) {
    e.(id := Renamed(e.id, p),
       groupId := RenamedOption(e.groupId, p),
       constraints := Some(Constraints(e.constraints.Some? && e.constraints.value.preserveAspect, Some(p.zone))),
       children := if e.children.None? then None else Some(RenamedAll(e.children.value, p)))
  }

  lemma RenamedInjective(a: Id, b: Id, p: Placement)
    ensures Renamed(a, p) == Renamed(b, p) <==> a == b
  {
    var s := Suffix(p);
    if a + s == b + s {
      assert a == (a + s)[..|a|] && b == (b + s)[..|b|];
    }
  }

  predicate Closed(elements: seq<Element>, e: Element) {
    && (e.groupId.Some? ==> HasElement(elements, e.groupId.value))
    && (e.children.Some? ==> forall k :: 0 <= k < |e.children.value| ==> HasElement(elements, e.children.value[k]))
  }

  predicate HasElement(elements: seq<Element>, id: Id) {
    exists i :: 0 <= i < |elements| && elements[i].id == id
  }

  /** Renames elements and their references in place; a reference to an unknown element is an error. */
  method RewriteElements(elements: seq<Element>, p: Placement, maxBytes: nat) returns (r: Result<seq<Element>,
                                                                                       BatchError>)
    ensures r.Ok? <==> forall i :: 0 <= i < |elements| ==>
              Closed(elements, elements[i]) && Utf8Text.Length(Renamed(elements[i].id, p)) <= maxBytes
    ensures r.Ok? ==> |r.value| == |elements|
    ensures r.Ok? ==> forall i :: 0 <= i < |elements| ==> r.value[i] == Rewritten(elements[i], p)
    ensures r.Err? ==> r.error == LimitExceeded
  {
    hide Renamed, Rewritten, Closed, Utf8Text.Length;
    var ids := RenameTable(elements, p, maxBytes);
    if ids.None? {
      return Err(LimitExceeded);
    }
    var out := [];
    for i := 0 to |elements|
      invariant |out| == i
      invariant forall j :: 0 <= j < i ==> Closed(elements, elements[j]) && out[j] == Rewritten(elements[j], p)
    {
      var e := RewriteElement(elements, elements[i], ids.value, p);
      if e.None? {
        return Err(LimitExceeded);
      }
      out := out + [e.value];
    }
    return Ok(out);
  }

  /** One element, renamed by the table. */
  method RewriteElement(ghost elements: seq<Element>, e: Element, table: map<Id, Id>, p: Placement)
    returns (r: Option<Element>)
    requires e in elements && forall id :: id in table <==> HasElement(elements, id)
    requires forall id :: id in table ==> table[id] == Renamed(id, p)
    ensures r.Some? <==> Closed(elements, e)
    ensures r.Some? ==> r.value == Rewritten(e, p)
  {
    hide Renamed;
    assert HasElement(elements, e.id);
    if e.groupId.Some? && e.groupId.value !in table {
      return None;
    }
    var children: Option<seq<Id>> := None;
    if e.children.Some? {
      children := RenameChildren(e.children.value, table, p);
      if children.None? {
        return None;
      }
    }
    var aspect := e.constraints.Some? && e.constraints.value.preserveAspect;
    return Some(e.(id := table[e.id], groupId := if e.groupId.None? then None else Some(table[e.groupId.value]),
                   constraints := Some(Constraints(aspect, Some(p.zone))), children := children));
  }

  method RenameTable(elements: seq<Element>, p: Placement, maxBytes: nat) returns (r: Option<map<Id, Id>>)
    ensures r.Some? <==> forall i :: 0 <= i < |elements| ==> Utf8Text.Length(Renamed(elements[i].id, p)) <= maxBytes
    ensures r.Some? ==> forall id :: id in r.value <==> HasElement(elements, id)
    ensures r.Some? ==> forall id :: id in r.value ==> r.value[id] == Renamed(id, p)
  {
    hide Renamed;
    var ids: map<Id, Id> := map[];
    for i := 0 to |elements|
      invariant forall j :: 0 <= j < i ==> Utf8Text.Length(Renamed(elements[j].id, p)) <= maxBytes
      invariant forall id :: id in ids <==> exists j :: 0 <= j < i && elements[j].id == id
      invariant forall id :: id in ids ==> ids[id] == Renamed(id, p)
    {
      var rewritten := Renamed(elements[i].id, p);
      if Utf8Text.Length(rewritten) > maxBytes {
        return None;
      }
      ids := ids[elements[i].id := rewritten];
    }
    return Some(ids);
  }

  method RenameChildren(children: seq<Id>, ids: map<Id, Id>, p: Placement) returns (r: Option<seq<Id>>)
    requires forall id :: id in ids ==> ids[id] == Renamed(id, p)
    ensures r.Some? <==> forall k :: 0 <= k < |children| ==> children[k] in ids
    ensures r.Some? ==> r.value == RenamedAll(children, p)
  {
    hide Renamed;
    var renamed := [];
    for k := 0 to |children|
      invariant |renamed| == k
      invariant forall l :: 0 <= l < k ==> children[l] in ids && renamed[l] == Renamed(children[l], p)
    {
      if children[k] !in ids {
        return None;
      }
      renamed := renamed + [ids[children[k]]];
    }
    assert renamed == RenamedAll(children, p);
    return Some(renamed);
  }

  // ----- building pages -----

  type Evaluator = (string, Record) -> Option<string>

  /** An element with its template text evaluated. */
  function Filled(e: Element, record: Record, evaluate: Evaluator): (r: Element) {
    if e.text.None? then e else e.(text := evaluate(e.text.value, record))
  }

  predicate Evaluates(e: Element, record: Record, evaluate: Evaluator) {
    e.text.Some? ==> evaluate(e.text.value, record).Some?
  }

  /** The bytes of an evaluated text. */
  function TextSize(e: Element, record: Record, evaluate: Evaluator): (n: nat) {
    if e.text.None? || evaluate(e.text.value, record).None? then 0
    else Utf8Text.Length(evaluate(e.text.value, record).value)
  }

  function TextBytes(elements: seq<Element>, record: Record, evaluate: Evaluator): (n: nat) {
    if elements == [] then 0
    else TextBytes(elements[..|elements| - 1], record, evaluate) + TextSize(elements[|elements| - 1], record, evaluate)
  }

  /** Every text of the elements can be evaluated, and together they fit. */
  predicate Materializes(elements: seq<Element>, record: Record, evaluate: Evaluator, maxBytes: nat) {
    && (forall i :: 0 <= i < |elements| ==> Evaluates(elements[i], record, evaluate))
    && TextBytes(elements, record, evaluate) <= maxBytes
  }

  lemma {:induction false} TextBytesGrow(elements: seq<Element>, i: nat, record: Record, evaluate: Evaluator)
    requires i <= |elements|
    ensures TextBytes(elements[..i], record, evaluate) <= TextBytes(elements, record, evaluate)
    decreases |elements| - i
  {
    hide Utf8Text.Length;
    if i < |elements| {
      assert elements[..i + 1][..i] == elements[..i];
      TextBytesGrow(elements, i + 1, record, evaluate);
    } else {
      assert elements[..i] == elements;
    }
  }

  method MaterializeUnchecked(elements: seq<Element>, record: Record, evaluate: Evaluator, maxBytes: nat)
    returns (r: Result<seq<Element>, BatchError>)
    ensures r.Ok? <==> Materializes(elements, record, evaluate, maxBytes)
    ensures r.Ok? ==> |r.value| == |elements|
    ensures r.Ok? ==> forall i :: 0 <= i < |elements| ==> r.value[i] == Filled(elements[i], record, evaluate)
    ensures r.Err? && r.error.Template? ==>
      r.error.element < |elements| && !Evaluates(elements[r.error.element], record, evaluate)
  {
    hide Utf8Text.Length, TextBytes;
    var out, bytes := [], 0;
    NoTexts(record, evaluate);
    for i := 0 to |elements|
      invariant |out| == i && bytes == TextBytes(elements[..i], record, evaluate) <= maxBytes
      invariant forall j :: 0 <= j < i ==>
        Evaluates(elements[j], record, evaluate) && out[j] == Filled(elements[j], record, evaluate)
    {
      var e := elements[i];
      TextBytesNext(elements, i, record, evaluate);
      TextBytesGrow(elements, i + 1, record, evaluate);
      if e.text.Some? {
        var text := evaluate(e.text.value, record);
        if text.None? {
          return Err(Template(i));
        }
        bytes := bytes + Utf8Text.Length(text.value);
        if bytes > maxBytes {
          return Err(LimitExceeded);
        }
        e := e.(text := text);
      }
      out := out + [e];
    }
    assert elements[..|elements|] == elements;
    return Ok(out);
  }

  lemma NoTexts(record: Record, evaluate: Evaluator)
    ensures TextBytes([], record, evaluate) == 0
  {
  }

  lemma TextBytesNext(elements: seq<Element>, i: nat, record: Record, evaluate: Evaluator)
    requires i < |elements|
    ensures TextBytes(elements[..i + 1], record, evaluate)
         == TextBytes(elements[..i], record, evaluate) + TextSize(elements[i], record, evaluate)
  {
    assert elements[..i + 1][..i] == elements[..i];
  }

  /** What a batch is made from. */
  datatype Batch = Batch(elements: seq<Element>, records: seq<Record>, zoneIds: seq<Id>, evaluate: Evaluator)

  function PlacementAt(b: Batch, number: nat, slot: nat): (p: Placement)
    requires slot < |b.zoneIds|
  {
    Placement(Cell(|b.zoneIds|, number, slot), number, b.zoneIds[slot])
  }

  /** Element `j` of slot `slot` of a page: that of record `page * k + slot`, renamed, its position as z-order. */
  function OnPage(b: Batch, number: nat, slot: nat, j: nat): (e: Element)
    requires slot < |b.zoneIds| && j < |b.elements| && Cell(|b.zoneIds|, number, slot) < |b.records|
  {
    Rewritten(Filled(b.elements[j], b.records[Cell(|b.zoneIds|, number, slot)], b.evaluate),
              PlacementAt(b, number, slot))
      .(zOrder := Cell(|b.elements|, slot, j))
  }

  predicate ElementIs(b: Batch, page: seq<Element>, number: nat, slot: nat, j: nat)
    requires slot < |b.zoneIds| && j < |b.elements|
  {
    && Cell(|b.zoneIds|, number, slot) < |b.records| && Cell(|b.elements|, slot, j) < |page|
    && page[Cell(|b.elements|, slot, j)] == OnPage(b, number, slot, j)
  }

  /** The first `slots` slots of a page are filled, and there is nothing else on it. */
  predicate PageIs(b: Batch, page: seq<Element>, number: nat, slots: nat) {
    && slots <= |b.zoneIds| && |page| == |b.elements| * slots
    && forall slot, j :: 0 <= slot < slots && 0 <= j < |b.elements| ==> ElementIs(b, page, number, slot, j)
  }

  /** How many records are on a page once the first `next` are placed. */
  function Filling(next: nat, number: nat, slots: nat): (r: nat)
    requires slots > 0
  {
    if number < next / slots then slots else if number == next / slots then next % slots else 0
  }

  lemma FillingNext(next: nat, slots: nat, number: nat)
    requires slots > 0
    ensures Filling(next + 1, number, slots) == Filling(next, number, slots) + (if number == next / slots then 1 else 0)
    ensures Cell(slots, next / slots, next % slots) == next
  {
    var q, r := next / slots, next % slots;
    assert next == slots * q + r;
    if r + 1 < slots {
      QuotientUnique(next + 1, slots, q, r + 1);
    } else {
      assert slots * (q + 1) == slots * q + slots;
      QuotientUnique(next + 1, slots, q + 1, 0);
    }
  }

  lemma NothingFilled(number: nat, slots: nat)
    requires slots > 0
    ensures Filling(0, number, slots) == 0
  {
  }

  const I32_MAX := 0x7fff_ffff

  /** The z-orders of a slot are representable in 32 bits. */
  predicate Numbered(b: Batch, slot: nat) {
    |b.elements| > 0 ==> Cell(|b.elements|, slot, |b.elements| - 1) <= I32_MAX
  }

  lemma ZOrderRange(b: Batch, slot: nat)
    ensures Numbered(b, slot) <==> |b.elements| == 0 || Cell(|b.elements|, slot, |b.elements| - 1) <= 2147483647
  {
  }

  /** Appends one materialized record to a page. */
  method AppendRecord(b: Batch, page: seq<Element>, number: nat, slot: nat, renamed: seq<Element>)
    returns (r: Option<seq<Element>>)
    requires slot < |b.zoneIds| && Cell(|b.zoneIds|, number, slot) < |b.records| && PageIs(b, page, number, slot)
    requires |renamed| == |b.elements|
    requires forall j :: 0 <= j < |b.elements| ==>
      renamed[j] == Rewritten(Filled(b.elements[j], b.records[Cell(|b.zoneIds|, number, slot)], b.evaluate),
                              PlacementAt(b, number, slot))
    ensures r.Some? <==> Numbered(b, slot)
    ensures r.Some? ==> PageIs(b, r.value, number, slot + 1)
  {
    hide Rewritten, Filled, Cell;
    var m := |b.elements|;
    var out := page;
    SlotStart(m, slot);
    for i := 0 to m
      invariant |out| == |page| + i && out[..|page|] == page
      invariant i > 0 ==> |page| + i - 1 <= I32_MAX
      invariant forall j :: 0 <= j < i ==> ElementIs(b, out, number, slot, j)
    {
      CellAt(m, slot, m - 1);
      CellAt(m, slot, i);
      if |out| > I32_MAX {
        return None;
      }
      ghost var before := out;
      out := out + [renamed[i].(zOrder := |out|)];
      forall j | 0 <= j < i ensures ElementIs(b, out, number, slot, j) {
        assert ElementIs(b, before, number, slot, j);
      }
      assert ElementIs(b, out, number, slot, i);
    }
    if m > 0 {
      CellAt(m, slot, m - 1);
    }
    CellAt(m, slot, m);
    OldSlots(b, page, out, number, slot);
    r := Some(out);
  }

  lemma CellAt(m: nat, slot: nat, i: nat)
    ensures Cell(m, slot, i) == Cell(m, slot, 0) + i
  {
  }

  lemma SlotStart(m: nat, slot: nat)
    ensures Cell(m, slot, 0) == m * slot && Cell(m, slot, m) == m * (slot + 1)
  {
  }

  lemma OldSlots(b: Batch, page: seq<Element>, out: seq<Element>, number: nat, slot: nat)
    requires slot < |b.zoneIds| && Cell(|b.zoneIds|, number, slot) < |b.records| && PageIs(b, page, number, slot)
    requires |out| == Cell(|b.elements|, slot, |b.elements|) && |page| <= |out| && out[..|page|] == page
    requires forall j :: 0 <= j < |b.elements| ==> ElementIs(b, out, number, slot, j)
    ensures PageIs(b, out, number, slot + 1)
  {
    hide Cell, OnPage;
    SlotStart(|b.elements|, slot);
    forall s, j | 0 <= s < slot + 1 && 0 <= j < |b.elements| ensures ElementIs(b, out, number, s, j) {
      if s < slot {
        assert ElementIs(b, page, number, s, j);
        assert page[Cell(|b.elements|, s, j)] == out[..|page|][Cell(|b.elements|, s, j)];
      }
    }
  }

  /** Record `n` can be materialized, renamed into its zone and numbered. */
  predicate Placeable(b: Batch, n: nat, limits: Limits, fieldsFit: Record -> bool)
    requires n < |b.records| && b.zoneIds != []
  {
    && fieldsFit(b.records[n])
    && Materializes(b.elements, b.records[n], b.evaluate, limits.maxOutputBytes)
    && (forall j :: 0 <= j < |b.elements| ==>
          Utf8Text.Length(Renamed(b.elements[j].id,
                                  PlacementAt(b, n / |b.zoneIds|, n % |b.zoneIds|))) <= limits.maxOutputBytes)
    && Numbered(b, n % |b.zoneIds|)
  }

  /** When a batch succeeds: it can be planned, and unless it has no records it fits and every record can be placed. */
  ghost predicate Succeeds(b: Batch, zones: seq<Node>, resources: set<Id>, limits: Limits, fieldsFit: Record -> bool,
                           documentFits: bool, outputFits: bool)
  {
    && |b.records| <= U32_MAX && Plannable(b.elements, zones, resources, |b.records|, b.zoneIds, limits)
    && (b.records != [] ==>
          && |b.elements| * |b.zoneIds| <= limits.maxElements && documentFits && outputFits
          && forall n :: 0 <= n < |b.records| ==> Placeable(b, n, limits, fieldsFit))
  }

  /** Every page of the batch: page `q` holds records `q * k` to `q * k + k - 1` in the selected zones, in order. */
  method MaterializeZoneBatch(b: Batch, zones: seq<Node>, resources: set<Id>, limits: Limits, fieldsFit: Record -> bool,
                              documentFits: bool, outputFits: bool)
    returns (r: Result<seq<seq<Element>>, BatchError>)
    ensures r.Ok? <==> Succeeds(b, zones, resources, limits, fieldsFit, documentFits, outputFits)
    ensures r.Ok? ==> |r.value| == PageCount(|b.records|, |b.zoneIds|)
    ensures r.Ok? ==> forall q :: 0 <= q < |r.value| ==>
                        PageIs(b, r.value[q], q, Filling(|b.records|, q, |b.zoneIds|))
  {
    hide WellFormed, Selects, PageCount, PageIs, Filling, Placeable, CountsIn32Bits;
    if |b.records| > U32_MAX {
      return Err(LimitExceeded);
    }
    var planned := PlanZoneBatch(b.elements, zones, resources, |b.records|, b.zoneIds, limits);
    if planned.Err? {
      return Err(planned.error);
    }
    var pageCount, placements := planned.value.0, planned.value.1;
    var k := |b.zoneIds|;
    PageCountExact(|b.records|, k);
    NoPagesWithoutRecords(|b.records|, k);
    if pageCount == 0 {
      return Ok([]);
    }
    if |b.elements| * k > limits.maxElements || !documentFits {
      return Err(LimitExceeded);
    }
    var pages := seq(pageCount, _ => []);
    forall q | 0 <= q < pageCount ensures PageIs(b, pages[q], q, Filling(0, q, k)) {
      EmptyPage(b, q);
    }
    for n := 0 to |placements|
      invariant |pages| == pageCount
      invariant forall q :: 0 <= q < pageCount ==> PageIs(b, pages[q], q, Filling(n, q, k))
      invariant forall m :: 0 <= m < n ==> Placeable(b, m, limits, fieldsFit)
    {
      var number := n / k;
      FillingHere(n, k);
      FillingNext(n, k, number);
      var next := PlaceRecord(b, zones, resources, pages[number], n, placements[n], limits, fieldsFit);
      if next.Err? {
        return Err(next.error);
      }
      forall q | 0 <= q < pageCount && q != number ensures Filling(n + 1, q, k) == Filling(n, q, k) {
        FillingNext(n, k, q);
      }
      pages := pages[number := next.value];
    }
    if !outputFits {
      return Err(LimitExceeded);
    }
    return Ok(pages);
  }

  /** One turn of the placement loop. */
  method PlaceRecord(b: Batch, ghost zones: seq<Node>, ghost resources: set<Id>, page: seq<Element>, n: nat,
                     placement: Placement, limits: Limits, fieldsFit: Record -> bool)
    returns (r: Result<seq<Element>, BatchError>)
    requires n < |b.records| && b.zoneIds != [] && WellFormed(b.elements, zones, resources)
    requires placement == PlaceFor(n, b.zoneIds)
    requires PageIs(b, page, n / |b.zoneIds|, n % |b.zoneIds|)
    ensures r.Ok? <==> Placeable(b, n, limits, fieldsFit)
    ensures r.Ok? ==> PageIs(b, r.value, n / |b.zoneIds|, n % |b.zoneIds| + 1)
  {
    hide WellFormed, PageIs, Cell, Rewritten, Filled, Materializes, Numbered, Renamed, Utf8Text.Length, Closed;
    var number, slot := n / |b.zoneIds|, n % |b.zoneIds|;
    if !fieldsFit(b.records[n]) {
      return Err(LimitExceeded);
    }
    var filled := MaterializeUnchecked(b.elements, b.records[n], b.evaluate, limits.maxOutputBytes);
    if filled.Err? {
      return Err(filled.error);
    }
    FilledKeeps(b.elements, filled.value, b.records[n], b.evaluate, zones, resources);
    FillingNext(n, |b.zoneIds|, number);
    assert placement == PlacementAt(b, number, slot);
    var renamed := RewriteElements(filled.value, placement, limits.maxOutputBytes);
    if renamed.Err? {
      return Err(renamed.error);
    }
    var next := AppendRecord(b, page, number, slot, renamed.value);
    if next.None? {
      return Err(LimitExceeded);
    }
    return Ok(next.value);
  }

  /** Evaluating texts keeps identifiers and references, which are closed in a valid document. */
  lemma FilledKeeps(elements: seq<Element>, filled: seq<Element>, record: Record, evaluate: Evaluator, zones: seq<Node>,
                    resources: set<Id>)
    requires WellFormed(elements, zones, resources) && |filled| == |elements|
    requires forall i :: 0 <= i < |elements| ==> filled[i] == Filled(elements[i], record, evaluate)
    ensures forall i :: 0 <= i < |elements| ==> filled[i].id == elements[i].id && Closed(filled, filled[i])
  {
    forall i | 0 <= i < |elements| ensures filled[i].id == elements[i].id && Closed(filled, filled[i]) {
      assert ElementOk(elements, zones, resources, i);
      var e := elements[i];
      if e.groupId.Some? {
        var g :| 0 <= g < |elements| && elements[g].id == e.groupId.value && elements[g].children.Some?;
        assert filled[g].id == e.groupId.value;
      }
      if e.children.Some? {
        forall k | 0 <= k < |e.children.value| ensures HasElement(filled, e.children.value[k]) {
          assert ChildOk(elements, e, k);
          var c :| 0 <= c < |elements| && elements[c].id == e.children.value[k];
          assert filled[c].id == e.children.value[k];
        }
      }
    }
  }

  lemma NoPagesWithoutRecords(records: nat, slots: nat)
    requires slots > 0
    ensures PageCount(records, slots) == 0 <==> records == 0
  {
    PageCountExact(records, slots);
    if records > 0 {
      assert (records - 1) / slots >= 0;
    }
  }

  lemma EmptyPage(b: Batch, number: nat)
    requires |b.zoneIds| > 0
    ensures PageIs(b, [], number, Filling(0, number, |b.zoneIds|))
  {
    hide OnPage;
    NothingFilled(number, |b.zoneIds|);
  }

  lemma FillingHere(n: nat, slots: nat)
    requires slots > 0
    ensures Filling(n, n / slots, slots) == n % slots
  {
  }
}
