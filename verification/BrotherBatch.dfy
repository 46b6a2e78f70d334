/** Batches of Brother rasters in one job (crates/mb-printer-core/src/protocol.rs, `plan_batch_with_limits`). */
module BrotherBatch {
  import opened Bytes
  import opened Plan
  import opened BrotherLines
  import opened BrotherPlan

  // ----- the batch the planner is meant to build -----

  /** Every page after another; the cutter configuration goes with the first only. */
  function Pages(p: Printer, rasters: seq<Page>, o: Options, m: Media, cutter: bool): (s: seq<Action>)
    requires forall i :: 0 <= i < |rasters| ==> rasters[i].widthBytes > 0
  {
    if rasters == [] then []
    else PageActions(p, rasters[0], o, m, cutter) + Pages(p, rasters[1..], o, m, false)
  }

  function BatchJob(p: Printer, rasters: seq<Page>, o: Options, m: Media): (s: seq<Action>)
    requires forall i :: 0 <= i < |rasters| ==> rasters[i].widthBytes > 0
  {
    Job(Setup(p) + Pages(p, rasters, o, m, o.cut))
  }

  /** The error of the first raster that cannot be planned. */
  function FirstRejection(p: Printer, rasters: seq<Page>, o: Options, limits: Limits): (e: Option<PlanError>) {
    if rasters == [] then None
    else
      var e := Rejection(p, rasters[0], o, limits);
      if e.Some? then e else FirstRejection(p, rasters[1..], o, limits)
  }

  function BatchPlan(p: Printer, rasters: seq<Page>, o: Options, limits: Limits): (result: Planned)
    requires forall i :: 0 <= i < |rasters| ==> rasters[i].widthBytes > 0
  {
    if rasters == [] then Err(Range("batch documents"))
    else if o.copies != 1 then Err(Range("batch copies must be expanded"))
    else
      var e := FirstRejection(p, rasters, o, limits);
      if e.Some? then Err(e.value)
      else
        MediaKnown(p, rasters, o, limits);
        Limited(Ok(BatchJob(p, rasters, o, o.media.value)), limits)
  }

  lemma MediaKnown(p: Printer, rasters: seq<Page>, o: Options, limits: Limits)
    requires rasters != [] && FirstRejection(p, rasters, o, limits).None?
    ensures o.media.Some?
  {
  }

  // ----- finding and filtering by command name -----

  predicate IsCommand(a: Action, name: string) {
    a.CommandWrite? && a.name == name
  }

  predicate ConfiguresCutter(a: Action) {
    IsCommand(a, AUTOCUT) || IsCommand(a, CUT_EVERY)
  }

  function WithoutCutter(actions: seq<Action>): (s: seq<Action>) {
    if actions == [] then []
    else (if ConfiguresCutter(actions[0]) then [] else [actions[0]]) + WithoutCutter(actions[1..])
  }

  lemma {:induction false} WithoutCutterConcat(a: seq<Action>, b: seq<Action>)
    ensures WithoutCutter(a + b) == WithoutCutter(a) + WithoutCutter(b)
  {
    hide ConfiguresCutter;
    if a == [] {
      assert a + b == b;
    } else {
      assert (a + b)[1..] == a[1..] + b;
      WithoutCutterConcat(a[1..], b);
      ConcatAssoc(if ConfiguresCutter(a[0]) then [] else [a[0]], WithoutCutter(a[1..]), WithoutCutter(b));
    }
  }

  lemma {:induction false} NothingToFilter(a: seq<Action>)
    requires forall i :: 0 <= i < |a| ==> !ConfiguresCutter(a[i])
    ensures WithoutCutter(a) == a
  {
    hide ConfiguresCutter;
    if a != [] {
      NothingToFilter(a[1..]);
    }
  }

  method PageStart(body: seq<Action>) returns (start: Option<nat>)
    ensures start.None? ==> forall i :: 0 <= i < |body| ==> !IsCommand(body[i], PRINT_INFORMATION)
    ensures start.Some? ==> start.value < |body| && IsCommand(body[start.value], PRINT_INFORMATION)
    ensures start.Some? ==> forall i :: 0 <= i < start.value ==> !IsCommand(body[i], PRINT_INFORMATION)
  {
    for i := 0 to |body|
      invariant forall j :: 0 <= j < i ==> !IsCommand(body[j], PRINT_INFORMATION)
    {
      if IsCommand(body[i], PRINT_INFORMATION) {
        return Some(i);
      }
    }
    return None;
  }

  method DropCutter(actions: seq<Action>) returns (kept: seq<Action>)
    ensures kept == WithoutCutter(actions)
  {
    hide ConfiguresCutter, WithoutCutter;
    kept := [];
    NothingWithout();
    for i := 0 to |actions|
      invariant kept == WithoutCutter(actions[..i])
    {
      WithoutCutterNext(actions, i);
      if !ConfiguresCutter(actions[i]) {
        kept := kept + [actions[i]];
      }
    }
    assert actions[..|actions|] == actions;
  }

  lemma NothingWithout()
    ensures WithoutCutter([]) == []
  {
  }

  lemma WithoutCutterNext(actions: seq<Action>, i: nat)
    requires i < |actions|
    ensures WithoutCutter(actions[..i + 1])
         == WithoutCutter(actions[..i]) + (if ConfiguresCutter(actions[i]) then [] else [actions[i]])
    ensures ConfiguresCutter(actions[i]) ==> WithoutCutter(actions[..i + 1]) == WithoutCutter(actions[..i])
  {
    hide ConfiguresCutter;
    assert actions[..i + 1] == actions[..i] + [actions[i]];
    WithoutCutterConcat(actions[..i], [actions[i]]);
    assert [actions[i]][1..] == [];
  }

  lemma SetupNames(p: Printer, i: nat)
    requires i < |Setup(p)|
    ensures !IsCommand(Setup(p)[i], PRINT_INFORMATION) && !ConfiguresCutter(Setup(p)[i])
  {
  }

  lemma TailNames(p: Printer, r: Page, o: Options, m: Media, i: nat)
    requires r.widthBytes > 0 && i < |PageTail(p, r, o, m)|
    ensures !ConfiguresCutter(PageTail(p, r, o, m)[i])
  {
  }

  /** From its print information on and without the cutter, a planned body is a later page of the batch. */
  lemma LaterPage(p: Printer, r: Page, o: Options, start: nat)
    requires r.widthBytes > 0 && o.media.Some?
    requires start < |Body(p, r, o)| && IsCommand(Body(p, r, o)[start], PRINT_INFORMATION)
    requires forall i :: 0 <= i < start ==> !IsCommand(Body(p, r, o)[i], PRINT_INFORMATION)
    ensures WithoutCutter(Body(p, r, o)[start..]) == PageActions(p, r, o, o.media.value, false)
  {
    hide Setup, PageTail, PrintInformation, Cutter;
    var body, m := Body(p, r, o), o.media.value;
    var page := PageActions(p, r, o, m, o.cut);
    PageHead(r, o, m);
    assert body[|Setup(p)|] == PrintInformation(r, o, m);
    if start < |Setup(p)| {
      SetupNames(p, start);
    }
    assert start == |Setup(p)| && body[start..] == page;
    FilteredPage(p, r, o, m);
  }

  lemma PageHead(r: Page, o: Options, m: Media)
    ensures IsCommand(PrintInformation(r, o, m), PRINT_INFORMATION)
  {
  }

  lemma FilteredPage(p: Printer, r: Page, o: Options, m: Media)
    requires r.widthBytes > 0
    ensures WithoutCutter(PageActions(p, r, o, m, o.cut)) == PageActions(p, r, o, m, false)
  {
    hide PageTail, PrintInformation, Cutter;
    var head, cutter, tail := [PrintInformation(r, o, m)], if o.cut then Cutter(o) else [], PageTail(p, r, o, m);
    WithoutCutterConcat(head + cutter, tail);
    WithoutCutterConcat(head, cutter);
    HeadNames(r, o, m);
    NothingToFilter(head);
    forall i | 0 <= i < |tail| ensures !ConfiguresCutter(tail[i]) {
      TailNames(p, r, o, m, i);
    }
    NothingToFilter(tail);
    CutterFiltered(o);
    assert head + [] == head;
  }

  lemma HeadNames(r: Page, o: Options, m: Media)
    ensures !ConfiguresCutter(PrintInformation(r, o, m))
  {
  }

  lemma CutterFiltered(o: Options)
    ensures WithoutCutter(Cutter(o)) == [] && WithoutCutter([]) == []
  {
    var c := Cutter(o);
    assert ConfiguresCutter(c[0]) && ConfiguresCutter(c[1]);
    assert WithoutCutter(c[1..]) == WithoutCutter(c[1..][1..]);
    assert c[1..][1..] == [];
  }

  // ----- the planner -----

  method PlanBatchWithLimits(p: Printer, rasters: seq<Page>, o: Options, limits: Limits) returns (result: Planned)
    requires forall i :: 0 <= i < |rasters| ==> rasters[i].widthBytes > 0
    ensures result == BatchPlan(p, rasters, o, limits)
  {
    hide Rejection, Body, Setup, Pages, PageActions, LimitError, WithoutCutter, Job, FirstRejection;
    if rasters == [] {
      return Err(Range("batch documents"));
    }
    if o.copies != 1 {
      return Err(Range("batch copies must be expanded"));
    }
    var actions := [];
    assert rasters[0..] == rasters;
    for index := 0 to |rasters|
      invariant FirstRejection(p, rasters, o, limits) == FirstRejection(p, rasters[index..], o, limits)
      invariant index == 0 ==> actions == []
      invariant index > 0 ==> o.media.Some? && Begun(p, rasters, o, o.media.value, index, actions)
    {
      var raster := rasters[index];
      FirstRejectionAt(p, rasters, o, limits, index);
      var page := PlanInner(p, raster, o, limits);
      if page.Err? {
        return page;
      }
      RejectionNone(p, raster, o, limits);
      OneCopy(Body(p, raster, o));
      var body := page.value[1..|page.value| - 1];
      if index == 0 {
        FirstPage(p, rasters, o, o.media.value);
        actions := [JobBoundary(Start)] + body;
      } else {
        var start := PageStart(body);
        if start.None? {
          NamesItsPage(p, raster, o);
          return Err(Unsupported("Brother batch page boundary"));
        }
        LaterPage(p, raster, o, start.value);
        var kept := DropCutter(body[start.value..]);
        NextPage(p, rasters, o, o.media.value, index, actions);
        actions := actions + kept;
      }
    }
    FirstRejectionAt(p, rasters, o, limits, |rasters|);
    LastPage(p, rasters, o, o.media.value, actions);
    actions := actions + [JobBoundary(End)];
    var over := EnforcePlanLimits(actions, limits);
    if over.Some? {
      return Err(over.value);
    }
    return Ok(actions);
  }

  /** After `index` pages, appending the remaining ones completes the batch but for its end. */
  ghost predicate Begun(p: Printer, rasters: seq<Page>, o: Options, m: Media, index: nat, actions: seq<Action>)
    requires forall i :: 0 <= i < |rasters| ==> rasters[i].widthBytes > 0
  {
    index <= |rasters| &&
    actions + Pages(p, rasters[index..], o, m, false) == [JobBoundary(Start)] +
      (Setup(p) + Pages(p, rasters, o, m, o.cut))
  }

  lemma FirstRejectionAt(p: Printer, rasters: seq<Page>, o: Options, limits: Limits, i: nat)
    requires i <= |rasters|
    ensures FirstRejection(p, rasters[i..], o, limits)
         == if i == |rasters| then None
            else if Rejection(p, rasters[i], o, limits).Some? then Rejection(p, rasters[i], o, limits)
            else FirstRejection(p, rasters[i + 1..], o, limits)
  {
    hide Rejection;
    if i < |rasters| {
      assert rasters[i..][0] == rasters[i] && rasters[i..][1..] == rasters[i + 1..];
    }
  }

  lemma FirstPage(p: Printer, rasters: seq<Page>, o: Options, m: Media)
    requires (forall i :: 0 <= i < |rasters| ==> rasters[i].widthBytes > 0) && rasters != [] && o.media == Some(m)
    ensures Begun(p, rasters, o, m, 1, [JobBoundary(Start)] + Body(p, rasters[0], o))
  {
    hide Setup, PageActions;
    var page, rest := PageActions(p, rasters[0], o, m, o.cut), Pages(p, rasters[1..], o, m, false);
    ConcatAssoc([JobBoundary(Start)], Setup(p) + page, rest);
    ConcatAssoc(Setup(p), page, rest);
  }

  lemma NextPage(p: Printer, rasters: seq<Page>, o: Options, m: Media, index: nat, actions: seq<Action>)
    requires (forall i :: 0 <= i < |rasters| ==> rasters[i].widthBytes > 0) && index < |rasters|
    requires Begun(p, rasters, o, m, index, actions)
    ensures Begun(p, rasters, o, m, index + 1, actions + PageActions(p, rasters[index], o, m, false))
  {
    hide Setup, PageActions;
    assert rasters[index..][0] == rasters[index] && rasters[index..][1..] == rasters[index + 1..];
    ConcatAssoc(actions, PageActions(p, rasters[index], o, m, false), Pages(p, rasters[index + 1..], o, m, false));
  }

  lemma LastPage(p: Printer, rasters: seq<Page>, o: Options, m: Media, actions: seq<Action>)
    requires (forall i :: 0 <= i < |rasters| ==> rasters[i].widthBytes > 0) &&
      Begun(p, rasters, o, m, |rasters|, actions)
    ensures actions + [JobBoundary(End)] == BatchJob(p, rasters, o, m)
  {
    hide Setup, PageActions;
    assert rasters[|rasters|..] == [];
    assert actions + [] == actions;
  }

  lemma RejectionNone(p: Printer, r: Page, o: Options, limits: Limits)
    requires Rejection(p, r, o, limits).None?
    ensures o.media.Some?
  {
  }

  lemma NamesItsPage(p: Printer, r: Page, o: Options)
    requires r.widthBytes > 0 && o.media.Some?
    ensures exists i :: 0 <= i < |Body(p, r, o)| && IsCommand(Body(p, r, o)[i], PRINT_INFORMATION)
  {
    hide Setup, PrintInformation, PageTail;
    PageHead(r, o, o.media.value);
    assert Body(p, r, o)[|Setup(p)|] == PrintInformation(r, o, o.media.value);
  }

  /** A batch of one raster is the plan of that raster. */
  lemma BatchOfOne(p: Printer, r: Page, o: Options, limits: Limits)
    requires r.widthBytes > 0 && o.copies == 1
    ensures BatchPlan(p, [r], o, limits) == Limited(InnerPlan(p, r, o, limits), limits)
  {
    hide Rejection, Setup, PageActions, LimitError, Job;
    assert [r][1..] == [];
    assert FirstRejection(p, [r][1..], o, limits) == None;
    if Rejection(p, r, o, limits).None? {
      RejectionNone(p, r, o, limits);
      var m := o.media.value;
      OneCopy(Body(p, r, o));
      assert Pages(p, [r], o, m, o.cut) == PageActions(p, r, o, m, o.cut) by {
        assert Pages(p, [r][1..], o, m, false) == [];
        assert PageActions(p, r, o, m, o.cut) + [] == PageActions(p, r, o, m, o.cut);
      }
      assert BatchJob(p, [r], o, m) == Job(Body(p, r, o));
    }
  }

  // ----- what a batch prints -----

  datatype Role = Starts | Ends | AsksStatus | AwaitsStatus | Cuts | CutsEvery | Informs | Transfers | Prints | Other

  function RoleOf(a: Action): (r: Role) {
    match a
    case JobBoundary(kind) => if kind == Start then Starts else Ends
    case CommandWrite(name, _, _) =>
      if name == STATUS_REQUEST then AsksStatus
      else if name == AUTOCUT then Cuts
      else if name == CUT_EVERY then CutsEvery
      else if name == PRINT_INFORMATION then Informs
      else if name == PRINT then Prints
      else Other
    case RasterWrite(_, _, _) => Transfers
    case WaitForResponse(_, _, _) => AwaitsStatus
    case _ => Other
  }

  /** The roles of a plan's actions, incidental commands left out. */
  function Roles(actions: seq<Action>): (s: seq<Role>) {
    if actions == [] then []
    else (if RoleOf(actions[0]) == Other then [] else [RoleOf(actions[0])]) + Roles(actions[1..])
  }

  function Payloads(actions: seq<Action>): (s: seq<seq<byte>>) {
    if actions == [] then []
    else (if actions[0].RasterWrite? then [actions[0].raster] else []) + Payloads(actions[1..])
  }

  lemma {:induction false} RolesConcat(a: seq<Action>, b: seq<Action>)
    ensures Roles(a + b) == Roles(a) + Roles(b) && Payloads(a + b) == Payloads(a) + Payloads(b)
  {
    hide RoleOf;
    if a == [] {
      assert a + b == b;
    } else {
      assert (a + b)[1..] == a[1..] + b;
      RolesConcat(a[1..], b);
      ConcatAssoc(if RoleOf(a[0]) == Other then [] else [RoleOf(a[0])], Roles(a[1..]), Roles(b));
      ConcatAssoc(if a[0].RasterWrite? then [a[0].raster] else [], Payloads(a[1..]), Payloads(b));
    }
  }

  lemma RolesOne(a: Action)
    ensures Roles([a]) == (if RoleOf(a) == Other then [] else [RoleOf(a)])
    ensures Payloads([a]) == (if a.RasterWrite? then [a.raster] else [])
  {
    hide RoleOf;
    assert [a][1..] == [];
  }

  function Triples(n: nat): (s: seq<Role>) {
    if n == 0 then [] else [Informs, Transfers, Prints] + Triples(n - 1)
  }

  lemma SetupRoles(p: Printer)
    ensures Roles(Setup(p)) == [AsksStatus, AwaitsStatus] && Payloads(Setup(p)) == []
  {
    hide RoleOf, Roles, Payloads;
    var subscribe := if p.creditFlow then [SubscribeNotifications] else [];
    var quiet := [Cmd("switch to raster mode", [0x1b, 0x69, 0x61, 1]),
                  Cmd("invalidate", seq(p.invalidateBytes, _ => 0)),
                  Cmd("ESC @ init", [0x1b, 0x40]), Cmd("switch to raster mode", [0x1b, 0x69, 0x61, 1])];
    var ask, wait := Cmd(STATUS_REQUEST, [0x1b, 0x69, 0x53]), WaitForResponse(3000, 0, BrotherStatus32);
    assert Setup(p) == subscribe + quiet + [ask] + [wait];
    RolesConcat(subscribe + quiet + [ask], [wait]);
    RolesConcat(subscribe + quiet, [ask]);
    RolesOne(ask);
    RolesOne(wait);
    KnownRoles();
    forall i | 0 <= i < |subscribe + quiet| ensures RoleOf((subscribe + quiet)[i]) == Other {
      SetupRole(p, i);
    }
    AllOther(subscribe + quiet);
  }

  lemma SetupRole(p: Printer, i: nat)
    requires i + 2 < |Setup(p)|
    ensures RoleOf(Setup(p)[i]) == Other
  {
  }

  lemma KnownRoles()
    ensures forall bytes :: RoleOf(Cmd(STATUS_REQUEST, bytes)) == AsksStatus
    ensures forall t, f, v :: RoleOf(WaitForResponse(t, f, v)) == AwaitsStatus
    ensures forall bytes :: RoleOf(Cmd(AUTOCUT, bytes)) == Cuts
    ensures forall bytes :: RoleOf(Cmd(CUT_EVERY, bytes)) == CutsEvery
    ensures forall bytes :: RoleOf(Cmd(PRINT_INFORMATION, bytes)) == Informs
    ensures forall bytes :: RoleOf(Cmd(PRINT, bytes)) == Prints
    ensures forall b, n, d :: RoleOf(RasterWrite(b, n, d)) == Transfers
    ensures RoleOf(JobBoundary(Start)) == Starts && RoleOf(JobBoundary(End)) == Ends
  {
  }

  lemma {:induction false} AllOther(a: seq<Action>)
    requires forall i :: 0 <= i < |a| ==> RoleOf(a[i]) == Other
    ensures Roles(a) == [] && Payloads(a) == []
  {
    if a != [] {
      AllOther(a[1..]);
    }
  }

  lemma TailRoles(p: Printer, r: Page, o: Options, m: Media)
    requires r.widthBytes > 0
    ensures Roles(PageTail(p, r, o, m)) == [Transfers, Prints] && Payloads(PageTail(p, r, o, m)) == [Lines(p, r, o)]
  {
    hide RoleOf, Roles, Payloads, Lines;
    var tail := PageTail(p, r, o, m);
    var quiet, raster, print_ := tail[..|tail| - 2], RasterAction(p, r, o), Cmd(PRINT, [0x1a]);
    assert tail == quiet + [raster] + [print_];
    RolesConcat(quiet + [raster], [print_]);
    RolesConcat(quiet, [raster]);
    RolesOne(raster);
    RolesOne(print_);
    KnownRoles();
    forall i | 0 <= i < |quiet| ensures RoleOf(quiet[i]) == Other {
      TailRole(p, r, o, m, i);
    }
    AllOther(quiet);
  }

  lemma TailRole(p: Printer, r: Page, o: Options, m: Media, i: nat)
    requires r.widthBytes > 0 && i + 2 < |PageTail(p, r, o, m)|
    ensures RoleOf(PageTail(p, r, o, m)[i]) == Other
  {
  }

  function CutterRoles(cutter: bool): (s: seq<Role>) {
    if cutter then [Cuts, CutsEvery] else []
  }

  lemma PageRoles(p: Printer, r: Page, o: Options, m: Media, cutter: bool)
    requires r.widthBytes > 0
    ensures Roles(PageActions(p, r, o, m, cutter)) == [Informs] + CutterRoles(cutter) + [Transfers, Prints]
    ensures Payloads(PageActions(p, r, o, m, cutter)) == [Lines(p, r, o)]
  {
    hide RoleOf, Roles, Payloads, Lines, PageTail;
    var head, cuts, tail := PrintInformation(r, o, m), if cutter then Cutter(o) else [], PageTail(p, r, o, m);
    RolesConcat([head] + cuts, tail);
    RolesConcat([head], cuts);
    RolesOne(head);
    TailRoles(p, r, o, m);
    KnownRoles();
    if cutter {
      assert cuts == [cuts[0]] + [cuts[1]];
      RolesConcat([cuts[0]], [cuts[1]]);
      RolesOne(cuts[0]);
      RolesOne(cuts[1]);
    } else {
      AllOther(cuts);
    }
  }

  /** The printable payload of every raster, in order. */
  function AllLines(p: Printer, rasters: seq<Page>, o: Options): (s: seq<seq<byte>>)
    requires forall i :: 0 <= i < |rasters| ==> rasters[i].widthBytes > 0
  {
    seq(|rasters|, i requires 0 <= i < |rasters| => Lines(p, rasters[i], o))
  }

  lemma {:induction false} LaterPagesRoles(p: Printer, rasters: seq<Page>, o: Options, m: Media)
    requires forall i :: 0 <= i < |rasters| ==> rasters[i].widthBytes > 0
    ensures Roles(Pages(p, rasters, o, m, false)) == Triples(|rasters|)
    ensures Payloads(Pages(p, rasters, o, m, false)) == AllLines(p, rasters, o)
  {
    hide Roles, Payloads, PageActions, Lines;
    if rasters == [] {
      AllOther([]);
    } else {
      var page := PageActions(p, rasters[0], o, m, false);
      RolesConcat(page, Pages(p, rasters[1..], o, m, false));
      PageRoles(p, rasters[0], o, m, false);
      LaterPagesRoles(p, rasters[1..], o, m);
      assert [Informs] + [] + [Transfers, Prints] == [Informs, Transfers, Prints];
      assert AllLines(p, rasters, o) == [Lines(p, rasters[0], o)] + AllLines(p, rasters[1..], o);
    }
  }

  /** One start, one status request and wait, one cutter configuration if cutting, then print information, raster and
      print for each raster in order, and one end; the raster payloads are those of the rasters in order. */
  lemma {:induction false} BatchStructure(p: Printer, rasters: seq<Page>, o: Options, m: Media)
    requires (forall i :: 0 <= i < |rasters| ==> rasters[i].widthBytes > 0) && rasters != []
    ensures Roles(BatchJob(p, rasters, o, m))
         == [Starts, AsksStatus, AwaitsStatus, Informs] + CutterRoles(o.cut) + [Transfers, Prints] +
            Triples(|rasters| - 1) + [Ends]
    ensures Payloads(BatchJob(p, rasters, o, m)) == AllLines(p, rasters, o)
  {
    hide RoleOf, Roles, Payloads, PageActions, Lines, Setup, Triples;
    var body := Pages(p, rasters, o, m, o.cut);
    FirstAndLater(p, rasters, o, m);
    JobRoles(Setup(p) + body);
    RolesConcat(Setup(p), body);
    SetupRoles(p);
    assert [] + Payloads(body) == Payloads(body);
    var later := Triples(|rasters| - 1);
    var first := [Informs] + CutterRoles(o.cut) + [Transfers, Prints];
    assert [Starts] + ([AsksStatus, AwaitsStatus] + (first + later)) + [Ends]
        == [Starts, AsksStatus, AwaitsStatus, Informs] + CutterRoles(o.cut) + [Transfers, Prints] + later + [Ends];
  }

  lemma JobRoles(body: seq<Action>)
    ensures Roles(Job(body)) == [Starts] + Roles(body) + [Ends] && Payloads(Job(body)) == Payloads(body)
  {
    hide RoleOf, Roles, Payloads;
    var start, end := JobBoundary(Start), JobBoundary(End);
    RolesConcat([start] + body, [end]);
    RolesConcat([start], body);
    RolesOne(start);
    RolesOne(end);
    KnownRoles();
    assert [] + Payloads(body) + [] == Payloads(body);
  }

  lemma FirstAndLater(p: Printer, rasters: seq<Page>, o: Options, m: Media)
    requires (forall i :: 0 <= i < |rasters| ==> rasters[i].widthBytes > 0) && rasters != []
    ensures Roles(Pages(p, rasters, o, m, o.cut)) == [Informs] + CutterRoles(o.cut) + [Transfers, Prints] +
      Triples(|rasters| - 1)
    ensures Payloads(Pages(p, rasters, o, m, o.cut)) == AllLines(p, rasters, o)
  {
    hide RoleOf, Roles, Payloads, PageActions, Lines, Triples;
    RolesConcat(PageActions(p, rasters[0], o, m, o.cut), Pages(p, rasters[1..], o, m, false));
    PageRoles(p, rasters[0], o, m, o.cut);
    LaterPagesRoles(p, rasters[1..], o, m);
    assert AllLines(p, rasters, o) == [Lines(p, rasters[0], o)] + AllLines(p, rasters[1..], o);
  }

  function RepeatedRoles(roles: seq<Role>, n: nat): (s: seq<Role>) {
    if n == 0 then [] else RepeatedRoles(roles, n - 1) + roles
  }

  lemma {:induction false} RepeatedParts(body: seq<Action>, roles: seq<Role>, payload: seq<byte>, n: nat)
    requires Roles(body) == roles && Payloads(body) == [payload]
    ensures Roles(Repeated(body, n)) == RepeatedRoles(roles, n)
    ensures Payloads(Repeated(body, n)) == seq(n, _ => payload)
  {
    hide Roles, Payloads;
    if n == 0 {
      NoRoles();
    } else {
      RepeatedParts(body, roles, payload, n - 1);
      RolesConcat(Repeated(body, n - 1), body);
      assert seq(n, _ => payload) == seq(n - 1, _ => payload) + [payload];
    }
  }

  lemma NoRoles()
    ensures Roles([]) == [] && Payloads([]) == []
  {
  }

  /** A plan of copies: between one start and one end, that many times the status exchange, print information, the
      cutter configuration if cutting, the raster and the print command; every payload is that of the raster. */
  lemma {:induction false} CopiesStructure(p: Printer, r: Page, o: Options, m: Media, copies: nat)
    requires r.widthBytes > 0 && o.media == Some(m)
    ensures var copy := [AsksStatus, AwaitsStatus, Informs] + CutterRoles(o.cut) + [Transfers, Prints];
            && Roles(Job(Repeated(Body(p, r, o), copies))) == [Starts] + RepeatedRoles(copy, copies) + [Ends]
            && Payloads(Job(Repeated(Body(p, r, o), copies))) == seq(copies, _ => Lines(p, r, o))
  {
    hide RoleOf, Roles, Payloads, PageActions, Lines, Setup, Repeated;
    var page := PageActions(p, r, o, m, o.cut);
    var copy := [AsksStatus, AwaitsStatus, Informs] + CutterRoles(o.cut) + [Transfers, Prints];
    RolesConcat(Setup(p), page);
    SetupRoles(p);
    PageRoles(p, r, o, m, o.cut);
    assert [AsksStatus, AwaitsStatus] + ([Informs] + CutterRoles(o.cut) + [Transfers, Prints]) == copy;
    assert [] + [Lines(p, r, o)] == [Lines(p, r, o)];
    RepeatedParts(Body(p, r, o), copy, Lines(p, r, o), copies);
    JobRoles(Repeated(Body(p, r, o), copies));
  }

  /** A printer reading the lines of the batch finds every raster, mirrored, in order. */
  lemma BatchPrintsEveryRaster(p: Printer, rasters: seq<Page>, o: Options, m: Media, i: nat)
    requires (forall i :: 0 <= i < |rasters| ==> 0 < rasters[i].widthBytes <= WidestRow(Compresses(p, o)))
    requires i < |rasters|
    ensures var payloads := Payloads(BatchJob(p, rasters, o, m));
            |payloads| == |rasters| &&
            ReadLines(payloads[i],
                      Compresses(p, o)) == Some(MirroredRows(Chunks(rasters[i].data, rasters[i].widthBytes)))
  {
    hide Payloads, BatchJob, ReadLines, MirroredRows, Framed, OneByteLengths;
    BatchStructure(p, rasters, o, m);
    LinesReadBack(p, rasters[i], o);
  }

  lemma LinesReadBack(p: Printer, r: Page, o: Options)
    requires 0 < r.widthBytes <= WidestRow(Compresses(p, o))
    ensures ReadLines(Lines(p, r, o), Compresses(p, o)) == Some(MirroredRows(Chunks(r.data, r.widthBytes)))
  {
    hide ReadLines, Framed, OneByteLengths, Chunks;
    var rows := MirroredRows(Chunks(r.data, r.widthBytes));
    ChunksWhole(r.data, r.widthBytes);
    NarrowRowsFit(rows, Compresses(p, o));
    ReadFramed(rows, Compresses(p, o));
  }
}
