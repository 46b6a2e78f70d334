/** The Brother planner (crates/mb-printer-core/src/protocol.rs): single plans, copies, batches and plan limits. */
module BrotherPlan {
  import opened Bytes
  import opened Plan
  import opened BrotherLines

  datatype Printer = Printer(compression: bool, minRows: nat, maxRows: nat, invalidateBytes: nat, creditFlow: bool,
                             chunkSize: nat, chunkDelayMs: nat)

  datatype Media = Media(widthMm: byte, lengthMm: byte, continuous: bool, feedMargin: u16)

  datatype Options = Options(density: byte, copies: u16, cut: bool, cutEvery: byte, compress: bool, highQuality: bool,
                             streaming: bool, lzo: bool, media: Option<Media>)

  /** A zero row width makes the source panic while it cuts the data into rows. */
  datatype Page = Page(widthBytes: u16, height: u32, data: seq<byte>)

  datatype Limits = Limits(maxCopies: u16, maxPlanActions: nat, maxPlanBytes: nat)

  datatype PlanError = RasterLength | Range(what: string) | Unsupported(what: string) | Limit(what: string)

  type Planned = Result<seq<Action>, PlanError>

  const PRINT_INFORMATION := "ESC i z print information"
  const AUTOCUT := "ESC i M autocut"
  const CUT_EVERY := "ESC i A cut every"
  const STATUS_REQUEST := "ESC i S status request"
  const PRINT := "print"

  function Cmd(name: string, bytes: seq<byte>): (r: Action) {
    CommandWrite(name, bytes, true)
  }

  // ----- what a plan consists of -----

  function RequestRejection(r: Page, o: Options, limits: Limits): (e: Option<PlanError>) {
    if |r.data| != r.widthBytes * r.height then Some(RasterLength)
    else if !(1 <= o.density <= 8) then Some(Range("density"))
    else if o.copies == 0 then Some(Range("copies"))
    else if o.copies > limits.maxCopies then Some(Limit("copies"))
    else if o.cut && o.cutEvery == 0 then Some(Range("cut every"))
    else if o.lzo then Some(Unsupported("LZO compression is not qualified for bundled printers"))
    else None
  }

  function MediaRejection(p: Printer, r: Page, o: Options): (e: Option<PlanError>) {
    if o.media.None? then Some(Range("brother media"))
    else if p.minRows > 0 && o.media.value.continuous && r.height < p.minRows then Some(Range("brother minimum rows"))
    else if p.maxRows > 0 && r.height > p.maxRows then Some(Range("brother maximum rows"))
    else None
  }

  function Rejection(p: Printer, r: Page, o: Options, limits: Limits): (e: Option<PlanError>) {
    var e := RequestRejection(r, o, limits);
    if e.Some? then e else MediaRejection(p, r, o)
  }

  predicate Compresses(p: Printer, o: Options) {
    o.compress && p.compression
  }

  function Lines(p: Printer, r: Page, o: Options): (s: seq<byte>)
    requires r.widthBytes > 0
  {
    Framed(MirroredRows(Chunks(r.data, r.widthBytes)), Compresses(p, o))
  }

  /** What opens the job: mode switches, the status request and its wait. */
  function Setup(p: Printer): (s: seq<Action>) {
    (if p.creditFlow then [SubscribeNotifications] else []) +
    [Cmd("switch to raster mode", [0x1b, 0x69, 0x61, 1]), Cmd("invalidate", seq(p.invalidateBytes, _ => 0)),
     Cmd("ESC @ init", [0x1b, 0x40]), Cmd("switch to raster mode", [0x1b, 0x69, 0x61, 1]),
     Cmd(STATUS_REQUEST, [0x1b, 0x69, 0x53]), WaitForResponse(3000, 0, BrotherStatus32)]
  }

  function PrintInformation(r: Page, o: Options, m: Media): (a: Action) {
    Cmd(PRINT_INFORMATION,
        [0x1b, 0x69, 0x7a, if o.highQuality then 0xce else 0x8e, if m.continuous then 0x0a else 0x0b, m.widthMm,
         if m.continuous then 0 else m.lengthMm] + LittleEndian(r.height) + [0, 0])
  }

  function LittleEndian(n: u32): (r: seq<byte>) {
    [n % 0x100, n / 0x100 % 0x100, n / 0x1_0000 % 0x100, n / 0x100_0000]
  }

  function Cutter(o: Options): (s: seq<Action>) {
    [Cmd(AUTOCUT, [0x1b, 0x69, 0x4d, 0x40]), Cmd(CUT_EVERY, [0x1b, 0x69, 0x41, o.cutEvery])]
  }

  function RasterAction(p: Printer, r: Page, o: Options): (a: Action)
    requires r.widthBytes > 0
  {
    RasterWrite(Lines(p, r, o), p.chunkSize, if o.streaming then 0 else p.chunkDelayMs)
  }

  /** What follows the cutter configuration on every page. */
  function PageTail(p: Printer, r: Page, o: Options, m: Media): (s: seq<Action>)
    requires r.widthBytes > 0
  {
    [Cmd("ESC i K expanded mode", [0x1b, 0x69, 0x4b, if o.cut then 8 else 0]),
     Cmd("ESC i d margins", [0x1b, 0x69, 0x64, m.feedMargin % 0x100, m.feedMargin / 0x100])] +
    (if Compresses(p, o) then [Cmd("M compression", [0x4d, 2])] else []) +
    [RasterAction(p, r, o), Cmd(PRINT, [0x1a])]
  }

  /** One page; the cutter configuration is part of it only where `cutter` says so. */
  function PageActions(p: Printer, r: Page, o: Options, m: Media, cutter: bool): (s: seq<Action>)
    requires r.widthBytes > 0
  {
    [PrintInformation(r, o, m)] + (if cutter then Cutter(o) else []) + PageTail(p, r, o, m)
  }

  function Body(p: Printer, r: Page, o: Options): (s: seq<Action>)
    requires r.widthBytes > 0 && o.media.Some?
  {
    Setup(p) + PageActions(p, r, o, o.media.value, o.cut)
  }

  function Job(body: seq<Action>): (s: seq<Action>) {
    [JobBoundary(Start)] + body + [JobBoundary(End)]
  }

  function Repeated(body: seq<Action>, n: nat): (s: seq<Action>) {
    if n == 0 then [] else Repeated(body, n - 1) + body
  }

  function OwnedBy(a: Action): (n: nat) {
    match a
    case CommandWrite(name, bytes, _) => |name| + |bytes|
    case RasterWrite(raster, _, _) => |raster|
    case _ => 0
  }

  function OwnedBytes(actions: seq<Action>): (n: nat) {
    if actions == [] then 0 else OwnedBy(actions[0]) + OwnedBytes(actions[1..])
  }

  function LimitError(actions: seq<Action>, limits: Limits): (e: Option<PlanError>) {
    if |actions| > limits.maxPlanActions then Some(Limit("actions"))
    else if OwnedBytes(actions) > limits.maxPlanBytes then Some(Limit("owned bytes"))
    else None
  }

  /** The plan of `copies` prints of one raster: the body that many times between one pair of job boundaries. A single
      print is checked against the plan limits only by the callers of the inner planner. */
  function InnerPlan(p: Printer, r: Page, o: Options, limits: Limits): (result: Planned)
    requires r.widthBytes > 0
  {
    var e := Rejection(p, r, o, limits);
    if e.Some? then Err(e.value)
    else
      var actions := Job(Repeated(Body(p, r, o), o.copies));
      var over := LimitError(actions, limits);
      if o.copies > 1 && over.Some? then Err(over.value) else Ok(actions)
  }

  function Limited(planned: Planned, limits: Limits): (result: Planned) {
    if planned.Err? then planned
    else
      var over := LimitError(planned.value, limits);
      if over.Some? then Err(over.value) else planned
  }

  // ----- sizes -----

  lemma {:induction false} OwnedConcat(a: seq<Action>, b: seq<Action>)
    ensures OwnedBytes(a + b) == OwnedBytes(a) + OwnedBytes(b)
  {
    hide OwnedBy;
    if a == [] {
      assert a + b == b;
    } else {
      assert (a + b)[1..] == a[1..] + b;
      OwnedConcat(a[1..], b);
    }
  }

  /** Action count and owned bytes of a job of copies, predicted from the body alone. */
  lemma {:induction false} CopiesPredicted(body: seq<Action>, n: nat)
    ensures |Job(Repeated(body, n))| == |body| * n + 2
    ensures OwnedBytes(Job(Repeated(body, n))) == OwnedBytes(body) * n
  {
    JobOwns(Repeated(body, n));
    RepeatedSize(body, n);
  }

  lemma {:induction false} RepeatedSize(body: seq<Action>, n: nat)
    ensures |Repeated(body, n)| == |body| * n && OwnedBytes(Repeated(body, n)) == OwnedBytes(body) * n
  {
    if n > 0 {
      RepeatedSize(body, n - 1);
      OwnedConcat(Repeated(body, n - 1), body);
      assert |body| * n == |body| * (n - 1) + |body|;
      assert OwnedBytes(body) * n == OwnedBytes(body) * (n - 1) + OwnedBytes(body);
    }
  }

  lemma JobOwns(body: seq<Action>)
    ensures OwnedBytes(Job(body)) == OwnedBytes(body)
  {
    OwnedConcat([JobBoundary(Start)] + body, [JobBoundary(End)]);
    OwnedConcat([JobBoundary(Start)], body);
    assert OwnedBytes([JobBoundary(Start)]) == 0 && OwnedBytes([JobBoundary(End)]) == 0;
  }

  // ----- the planners -----

  method CheckedBytes(actions: seq<Action>) returns (total: nat)
    ensures total == OwnedBytes(actions)
  {
    total := 0;
    assert actions[0..] == actions;
    for i := 0 to |actions|
      invariant total + OwnedBytes(actions[i..]) == OwnedBytes(actions)
    {
      assert actions[i..][0] == actions[i] && actions[i..][1..] == actions[i + 1..];
      match actions[i] {
        case CommandWrite(name, bytes, _) => total := total + |name| + |bytes|;
        case RasterWrite(raster, _, _) => total := total + |raster|;
        case _ =>
      }
    }
  }

  method EnforcePlanLimits(actions: seq<Action>, limits: Limits) returns (e: Option<PlanError>)
    ensures e == LimitError(actions, limits)
  {
    if |actions| > limits.maxPlanActions {
      return Some(Limit("actions"));
    }
    var owned := CheckedBytes(actions);
    if owned > limits.maxPlanBytes {
      return Some(Limit("owned bytes"));
    }
    return None;
  }

  method PlanInner(p: Printer, r: Page, o: Options, limits: Limits) returns (result: Planned)
    requires r.widthBytes > 0
    ensures result == InnerPlan(p, r, o, limits)
    decreases o.copies
  {
    hide MediaRejection, RequestRejection, Body, OwnedBytes, Repeated, Job;
    var rejected := RequestRejection(r, o, limits);
    if rejected.Some? {
      return Err(rejected.value);
    }
    SomeCopies(p, r, o, limits);
    if o.copies > 1 {
      var base := PlanInner(p, r, o.(copies := 1), limits);
      if base.Err? {
        return base;
      }
      OneCopy(Body(p, r, o));
      result := PlanCopies(base.value[1..|base.value| - 1], o.copies, limits);
      return;
    }
    var mediaRejected := MediaRejection(p, r, o);
    if mediaRejected.Some? {
      return Err(mediaRejected.value);
    }
    MediaGiven(p, r, o);
    var body := PlanBody(p, r, o);
    OneCopy(body);
    result := Ok([JobBoundary(Start)] + body + [JobBoundary(End)]);
    JobOf(body);
  }

  lemma MediaGiven(p: Printer, r: Page, o: Options)
    requires MediaRejection(p, r, o).None?
    ensures o.media.Some?
  {
  }

  lemma SomeCopies(p: Printer, r: Page, o: Options, limits: Limits)
    requires r.widthBytes > 0 && RequestRejection(r, o, limits).None?
    ensures o.copies > 0 && RequestRejection(r, o.(copies := 1), limits).None?
    ensures MediaRejection(p, r, o.(copies := 1)) == MediaRejection(p, r, o)
    ensures MediaRejection(p, r, o).None? ==> o.media.Some? && Body(p, r, o.(copies := 1)) == Body(p, r, o)
  {
    hide Body;
    if MediaRejection(p, r, o).None? {
      CopiesIrrelevant(p, r, o);
    }
  }

  method PlanCopies(body: seq<Action>, copies: nat, limits: Limits) returns (result: Planned)
    ensures result == Limited(Ok(Job(Repeated(body, copies))), limits)
  {
    CopiesPredicted(body, copies);
    var actionCount := |body| * copies + 2;
    if actionCount > limits.maxPlanActions {
      return Err(Limit("actions"));
    }
    var bodyBytes := CheckedBytes(body);
    var expandedBytes := bodyBytes * copies;
    if expandedBytes > limits.maxPlanBytes {
      return Err(Limit("owned bytes"));
    }
    var actions := [JobBoundary(Start)];
    for i := 0 to copies
      invariant actions == [JobBoundary(Start)] + Repeated(body, i)
    {
      actions := actions + body;
    }
    return Ok(actions + [JobBoundary(End)]);
  }

  lemma JobOf(body: seq<Action>)
    ensures Job(body) == [JobBoundary(Start)] + body + [JobBoundary(End)]
  {
  }

  lemma OneCopy(body: seq<Action>)
    ensures Repeated(body, 1) == body && |Job(body)| >= 2 && Job(body)[1..|Job(body)| - 1] == body
  {
    assert Repeated(body, 0) + body == body;
  }

  lemma CopiesIrrelevant(p: Printer, r: Page, o: Options)
    requires r.widthBytes > 0 && o.media.Some?
    ensures Body(p, r, o.(copies := 1)) == Body(p, r, o)
  {
  }

  /** The Brother arm of the planner, action by action. */
  method PlanBody(p: Printer, r: Page, o: Options) returns (a: seq<Action>)
    requires r.widthBytes > 0 && o.media.Some?
    ensures a == Body(p, r, o)
  {
    hide Setup, PageActions;
    a := PushSetup(p);
    a := PushPage(a, p, r, o, o.media.value);
  }

  method PushSetup(p: Printer) returns (a: seq<Action>)
    ensures a == Setup(p)
  {
    a := [];
    if p.creditFlow {
      a := a + [SubscribeNotifications];
    }
    a := a + [Cmd("switch to raster mode", [0x1b, 0x69, 0x61, 1])];
    a := a + [Cmd("invalidate", seq(p.invalidateBytes, _ => 0))];
    a := a + [Cmd("ESC @ init", [0x1b, 0x40])];
    a := a + [Cmd("switch to raster mode", [0x1b, 0x69, 0x61, 1])];
    a := a + [Cmd(STATUS_REQUEST, [0x1b, 0x69, 0x53])];
    a := a + [WaitForResponse(3000, 0, BrotherStatus32)];
  }

  method PushPage(before: seq<Action>, p: Printer, r: Page, o: Options, media: Media) returns (a: seq<Action>)
    requires r.widthBytes > 0
    ensures a == before + PageActions(p, r, o, media, o.cut)
  {
    hide Lines, BrotherLines.Framed;
    var info: seq<byte> := [0x1b, 0x69, 0x7a, if o.highQuality then 0xce else 0x8e,
                            if media.continuous then 0x0a else 0x0b, media.widthMm,
                            if media.continuous then 0 else media.lengthMm];
    info := info + LittleEndian(r.height);
    info := info + [0, 0];
    a := before + [Cmd(PRINT_INFORMATION, info)];
    if o.cut {
      a := a + [Cmd(AUTOCUT, [0x1b, 0x69, 0x4d, 0x40])];
      a := a + [Cmd(CUT_EVERY, [0x1b, 0x69, 0x41, o.cutEvery])];
    }
    a := PushTail(a, p, r, o, media);
  }

  method PushTail(before: seq<Action>, p: Printer, r: Page, o: Options, media: Media) returns (a: seq<Action>)
    requires r.widthBytes > 0
    ensures a == before + PageTail(p, r, o, media)
  {
    hide BrotherLines.Framed, BrotherLines.MirroredRows;
    var compress := o.compress && p.compression;
    a := before + [Cmd("ESC i K expanded mode", [0x1b, 0x69, 0x4b, if o.cut then 8 else 0])];
    a := a + [Cmd("ESC i d margins", [0x1b, 0x69, 0x64, media.feedMargin % 0x100, media.feedMargin / 0x100])];
    if compress {
      a := a + [Cmd("M compression", [0x4d, 2])];
    }
    var lines := BrotherRasterLines(r.data, r.widthBytes, compress);
    a := a + [RasterWrite(lines, p.chunkSize, if o.streaming then 0 else p.chunkDelayMs)];
    a := a + [Cmd(PRINT, [0x1a])];
  }

  /** The sizes predicted from the body of one copy are within the limits. */
  predicate SizesFit(p: Printer, r: Page, o: Options, limits: Limits)
    requires r.widthBytes > 0
  {
    o.media.Some? ==>
      && |Body(p, r, o)| * o.copies + 2 <= limits.maxPlanActions
      && OwnedBytes(Body(p, r, o)) * o.copies <= limits.maxPlanBytes
  }

  lemma MediaOf(p: Printer, r: Page, o: Options, limits: Limits)
    requires Rejection(p, r, o, limits).None?
    ensures o.media.Some?
  {
  }

  /** A plan is made exactly when the request is not rejected and the predicted sizes fit. */
  method PlanWithLimits(p: Printer, r: Page, o: Options, limits: Limits) returns (result: Planned)
    requires r.widthBytes > 0
    ensures result == Limited(InnerPlan(p, r, o, limits), limits)
    ensures result.Ok? <==> Rejection(p, r, o, limits).None? && SizesFit(p, r, o, limits)
    ensures result.Ok? ==> |result.value| <= limits.maxPlanActions && OwnedBytes(result.value) <= limits.maxPlanBytes
  {
    hide Body, OwnedBytes, Rejection;
    if Rejection(p, r, o, limits).None? {
      MediaOf(p, r, o, limits);
      CopiesPredicted(Body(p, r, o), o.copies);
    }
    result := PlanInner(p, r, o, limits);
    if result.Ok? {
      var over := EnforcePlanLimits(result.value, limits);
      if over.Some? {
        return Err(over.value);
      }
    }
  }

  /** On the copies path the limits were already enforced on the predicted sizes: enforcing them again on the plan that
      was built changes nothing. */
  lemma CopiesAlreadyLimited(p: Printer, r: Page, o: Options, limits: Limits)
    requires r.widthBytes > 0 && o.copies > 1
    ensures Limited(InnerPlan(p, r, o, limits), limits) == InnerPlan(p, r, o, limits)
  {
    hide Rejection, Body, LimitError;
  }
}
