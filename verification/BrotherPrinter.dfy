/** The printer's side of a Brother job (crates/mb-printer-core/src/protocol.rs): a machine that reads every command by
    its octets, and the pages it prints. */
module BrotherPrinter {
  import opened Bytes
  import opened Plan
  import opened BrotherLines
  import opened BrotherPlan
  import opened BrotherBatch

  /** What `ESC i z` announces about the page that follows. */
  datatype Information = Information(highQuality: bool, continuous: bool, widthMm: nat, lengthMm: nat, rows: nat)

  datatype Printed = Printed(information: Information, autocut: bool, cutEvery: nat, cutAtEnd: bool, margin: nat,
                             rows: seq<seq<byte>>)

  /** `deaf` octets are still swallowed as the rest of an earlier, broken transmission. */
  datatype Machine = Machine(deaf: nat, rasterMode: bool, information: Option<Information>, autocut: bool,
                             cutEvery: nat, cutAtEnd: bool, margin: nat, compressed: bool,
                             rows: Option<seq<seq<byte>>>, statusAsked: nat, pages: seq<Printed>)

  function Bit(flags: byte, weight: nat): (r: bool)
    requires weight > 0
  {
    flags / weight % 2 == 1
  }

  /** Thirteen octets: the prefix, flags that must declare kind, width and length valid, the medium, the number of rows
      with its low octet first, the page and a zero. */
  function ReadInformation(b: seq<byte>): (r: Option<Information>)
    requires |b| == 13
  {
    if !Bit(b[3], 0x02) || !Bit(b[3], 0x04) || !Bit(b[3], 0x08) || !Bit(b[3], 0x80) then None
    else if (b[4] != 0x0a && b[4] != 0x0b) || b[11] != 0 || b[12] != 0 then None
    else
      Some(Information(Bit(b[3], 0x40), b[4] == 0x0a, b[5], b[6],
                       b[7] + b[8] as int * 256 + b[9] as int * 65536 + b[10] as int * 16777216))
  }

  predicate Zeros(b: seq<byte>) {
    forall i :: 0 <= i < |b| ==> b[i] == 0
  }

  /** Resetting forgets everything but what was printed. */
  function Reset(m: Machine): (r: Machine) {
    Machine(0, false, None, false, 1, false, 0, false, None, m.statusAsked, m.pages)
  }

  /** One command; `None` when the machine does not understand it. */
  function Obey(m: Machine, b: seq<byte>): (r: Option<Machine>) {
    if m.deaf > 0 then Some(m.(deaf := if |b| < m.deaf then m.deaf - |b| else 0))
    else if Zeros(b) then Some(m)
    else if b == [0x1b, 0x40] then Some(Reset(m))
    else if b == [0x1a] then
      if m.rasterMode && m.information.Some? && m.rows.Some? then
        Some(m.(information := None, rows := None,
                pages := m.pages + [Printed(m.information.value, m.autocut, m.cutEvery, m.cutAtEnd, m.margin,
                                            m.rows.value)]))
      else None
    else if b == [0x4d, 2] then Some(m.(compressed := true))
    else if |b| < 3 || b[0] != 0x1b || b[1] != 0x69 then None
    else if b == [0x1b, 0x69, 0x53] then Some(m.(statusAsked := m.statusAsked + 1))
    else if b == [0x1b, 0x69, 0x61, 1] then Some(m.(rasterMode := true))
    else if b[2] == 0x7a && |b| == 13 then
      if ReadInformation(b).None? then None else Some(m.(information := ReadInformation(b)))
    else if b[2] == 0x4d && |b| == 4 then Some(m.(autocut := Bit(b[3], 0x40)))
    else if b[2] == 0x41 && |b| == 4 then Some(m.(cutEvery := b[3]))
    else if b[2] == 0x4b && |b| == 4 then Some(m.(cutAtEnd := Bit(b[3], 0x08)))
    else if b[2] == 0x64 && |b| == 5 then Some(m.(margin := b[3] + b[4] as int * 256))
    else None
  }

  function Receive(m: Machine, raster: seq<byte>): (r: Option<Machine>) {
    if m.deaf > 0 || !m.rasterMode || ReadLines(raster, m.compressed).None? then None
    else Some(m.(rows := ReadLines(raster, m.compressed)))
  }

  /** Commands must not be split on their way. */
  function Perform(m: Machine, a: Action): (r: Option<Machine>) {
    match a
    case CommandWrite(_, bytes, atomic) => if atomic then Obey(m, bytes) else None
    case RasterWrite(raster, _, _) => Receive(m, raster)
    case _ => Some(m)
  }

  function Work(m: Machine, actions: seq<Action>): (r: Option<Machine>)
    decreases |actions|
  {
    if actions == [] then Some(m)
    else if Perform(m, actions[0]).None? then None
    else Work(Perform(m, actions[0]).value, actions[1..])
  }

  lemma {:induction false} WorkConcat(m: Machine, a: seq<Action>, b: seq<Action>)
    requires Work(m, a).Some?
    ensures Work(m, a + b) == Work(Work(m, a).value, b)
    decreases |a|
  {
    hide Perform;
    if a == [] {
      assert a + b == b;
    } else {
      assert (a + b)[1..] == a[1..] + b;
      WorkConcat(Perform(m, a[0]).value, a[1..], b);
    }
  }

  lemma WorkOne(m: Machine, a: Action)
    ensures Work(m, [a]) == Perform(m, a)
  {
    hide Perform;
    assert [a][1..] == [];
    assert forall n :: Work(n, []) == Some(n);
  }

  // ----- what should come out -----

  function Announced(r: Page, o: Options, medium: Media): (i: Information) {
    Information(o.highQuality, medium.continuous, medium.widthMm, if medium.continuous then 0 else medium.lengthMm,
                r.height)
  }

  /** The page a raster stands for: announced as it is, on the medium given, cut as asked, its rows from right to left.
      */
  function Expected(r: Page, o: Options, medium: Media): (page: Printed)
    requires r.widthBytes > 0
  {
    Printed(Announced(r, o, medium), o.cut, if o.cut then o.cutEvery else 1, o.cut, medium.feedMargin,
            MirroredRows(Chunks(r.data, r.widthBytes)))
  }

  predicate Readable(p: BrotherPlan.Printer, r: Page, o: Options) {
    0 < r.widthBytes <= WidestRow(Compresses(p, o))
  }

  // ----- command by command -----

  lemma InformationReads(m: Machine, r: Page, o: Options, medium: Media)
    requires m.deaf == 0
    ensures Perform(m, PrintInformation(r, o, medium)) == Some(m.(information := Some(Announced(r, o, medium))))
  {
    hide LittleEndian;
    var b := PrintInformation(r, o, medium).bytes;
    LowFirst(r.height);
    assert b[7..11] == LittleEndian(r.height);
    assert |b| == 13 && b[0] == 0x1b;
    assert ReadInformation(b) == Some(Announced(r, o, medium));
  }

  lemma LowFirst(n: u32)
    ensures var b := LittleEndian(n);
      |b| == 4 && b[0] + b[1] as int * 256 + b[2] as int * 65536 + b[3] as int * 16777216 == n
  {
    assert n / 0x100 == 0x100 * (n / 0x1_0000) + n / 0x100 % 0x100;
    assert n / 0x1_0000 == 0x100 * (n / 0x100_0000) + n / 0x1_0000 % 0x100;
  }

  /** The commands of fixed length, one by one. */
  lemma FixedCommands(m: Machine)
    requires m.deaf == 0
    ensures Obey(m, [0x1b, 0x40]) == Some(Reset(m))
    ensures Obey(m, [0x1b, 0x69, 0x61, 1]) == Some(m.(rasterMode := true))
    ensures Obey(m, [0x1b, 0x69, 0x53]) == Some(m.(statusAsked := m.statusAsked + 1))
    ensures Obey(m, [0x4d, 2]) == Some(m.(compressed := true))
  {
    NotZeros([0x1b, 0x40]);
    NotZeros([0x1b, 0x69, 0x61, 1]);
    NotZeros([0x1b, 0x69, 0x53]);
    NotZeros([0x4d, 2]);
  }

  lemma NotZeros(b: seq<byte>)
    requires b != [] && b[0] != 0
    ensures !Zeros(b)
  {
  }

  lemma Settings(m: Machine, n: byte, margin: u16, expanded: bool)
    requires m.deaf == 0
    ensures Obey(m, [0x1b, 0x69, 0x4d, 0x40]) == Some(m.(autocut := true))
    ensures Obey(m, [0x1b, 0x69, 0x41, n]) == Some(m.(cutEvery := n))
    ensures Obey(m, [0x1b, 0x69, 0x4b, if expanded then 8 else 0]) == Some(m.(cutAtEnd := expanded))
    ensures Obey(m, [0x1b, 0x69, 0x64, margin % 0x100, margin / 0x100]) == Some(m.(margin := margin))
  {
    NotZeros([0x1b, 0x69, 0x4d, 0x40]);
    NotZeros([0x1b, 0x69, 0x41, n]);
    NotZeros([0x1b, 0x69, 0x4b, if expanded then 8 else 0]);
    NotZeros([0x1b, 0x69, 0x64, margin % 0x100, margin / 0x100]);
    assert margin % 0x100 + margin / 0x100 * 0x100 == margin;
  }

  lemma Prints(m: Machine)
    requires m.deaf == 0 && m.rasterMode && m.information.Some? && m.rows.Some?
    ensures Obey(m, [0x1a])
         == Some(m.(information := None, rows := None,
                    pages := m.pages + [Printed(m.information.value, m.autocut, m.cutEvery, m.cutAtEnd, m.margin,
                                                m.rows.value)]))
  {
    NotZeros([0x1a]);
  }

  /** The cutter is set as asked, or left as it was. */
  lemma CutterReads(m: Machine, o: Options)
    requires m.deaf == 0
    ensures Work(m, Cutter(o)) == Some(m.(autocut := true, cutEvery := o.cutEvery))
  {
    hide Work, Obey;
    var c := Cutter(o);
    assert c == [c[0]] + [c[1]];
    WorkOne(m, c[0]);
    Settings(m, o.cutEvery, 0, false);
    Settings(m.(autocut := true), o.cutEvery, 0, false);
    WorkConcat(m, [c[0]], [c[1]]);
    WorkOne(m.(autocut := true), c[1]);
  }

  /** Whatever state the machine was in, and however much of the first octets it swallows, the set-up leaves it reset,
      in raster mode, and asked for its status. */
  lemma SetupReads(m: Machine, p: BrotherPlan.Printer)
    requires m.deaf <= 4 + p.invalidateBytes
    ensures Work(m, Setup(p)) == Some(Reset(m).(rasterMode := true, statusAsked := m.statusAsked + 1))
  {
    hide Work, Obey, Setup, Zeros;
    var mode, init, clear := Cmd("switch to raster mode", [0x1b, 0x69, 0x61, 1]), Cmd("ESC @ init", [0x1b, 0x40]),
                             Cmd("invalidate", seq(p.invalidateBytes, _ => 0));
    var head := (if p.creditFlow then [SubscribeNotifications] else []) + [mode];
    SetupSplits(p);
    AllZero(p.invalidateBytes);
    var one := HeadReads(m, p);
    Woken(one, clear.bytes);
    Follow(m, head, one, clear);
    var two := one.(deaf := 0);
    FixedCommands(two);
    Follow(m, head + [clear], two, init);
    ModeAndStatus(m, head + [clear] + [init], Reset(two));
  }

  lemma SetupSplits(p: BrotherPlan.Printer)
    ensures var mode := Cmd("switch to raster mode", [0x1b, 0x69, 0x61, 1]);
      Setup(p)
      == (if p.creditFlow then [SubscribeNotifications] else []) + [mode]
         + [Cmd("invalidate", seq(p.invalidateBytes, _ => 0))] + [Cmd("ESC @ init", [0x1b, 0x40])] + [mode]
         + [Cmd(STATUS_REQUEST, [0x1b, 0x69, 0x53])] + [WaitForResponse(3000, 0, BrotherStatus32)]
  {
  }

  lemma AllZero(n: nat)
    ensures Zeros(seq(n, _ => 0))
  {
  }

  lemma ModeAndStatus(m: Machine, done: seq<Action>, now: Machine)
    requires Work(m, done) == Some(now) && now.deaf == 0
    ensures Work(m, done + [Cmd("switch to raster mode", [0x1b, 0x69, 0x61, 1])]
                    + [Cmd(STATUS_REQUEST, [0x1b, 0x69, 0x53])] + [WaitForResponse(3000, 0, BrotherStatus32)])
         == Some(now.(rasterMode := true, statusAsked := now.statusAsked + 1))
  {
    hide Work, Obey;
    var mode, ask := Cmd("switch to raster mode", [0x1b, 0x69, 0x61, 1]), Cmd(STATUS_REQUEST, [0x1b, 0x69, 0x53]);
    FixedCommands(now);
    Follow(m, done, now, mode);
    var switched := now.(rasterMode := true);
    FixedCommands(switched);
    Follow(m, done + [mode], switched, ask);
    var asked := switched.(statusAsked := now.statusAsked + 1);
    Follow(m, done + [mode] + [ask], asked, WaitForResponse(3000, 0, BrotherStatus32));
  }

  lemma Follow(m: Machine, done: seq<Action>, now: Machine, next: Action)
    requires Work(m, done) == Some(now)
    ensures Work(m, done + [next]) == Perform(now, next)
  {
    hide Work, Perform;
    WorkConcat(m, done, [next]);
    WorkOne(now, next);
  }

  /** The first mode switch may be lost on a machine that is still deaf. */
  lemma HeadReads(m: Machine, p: BrotherPlan.Printer) returns (one: Machine)
    requires m.deaf <= 4 + p.invalidateBytes
    ensures var first := if p.creditFlow then [SubscribeNotifications] else [];
      Work(m, first + [Cmd("switch to raster mode", [0x1b, 0x69, 0x61, 1])]) == Some(one)
    ensures one.deaf <= p.invalidateBytes && one.statusAsked == m.statusAsked && one.pages == m.pages
  {
    hide Work;
    var mode: seq<byte> := [0x1b, 0x69, 0x61, 1];
    NotZeros(mode);
    one := Obey(m, mode).value;
    if p.creditFlow {
      WorkOne(m, SubscribeNotifications);
      Follow(m, [SubscribeNotifications], m, Cmd("switch to raster mode", mode));
    } else {
      WorkOne(m, Cmd("switch to raster mode", mode));
      assert [] + [Cmd("switch to raster mode", mode)] == [Cmd("switch to raster mode", mode)];
    }
  }

  lemma Woken(m: Machine, zeros: seq<byte>)
    requires m.deaf <= |zeros| && Zeros(zeros)
    ensures Obey(m, zeros) == Some(m.(deaf := 0))
  {
  }

  /** What precedes the transfer of a page. */
  function Opening(p: BrotherPlan.Printer, o: Options, medium: Media): (s: seq<Action>) {
    [Cmd("ESC i K expanded mode", [0x1b, 0x69, 0x4b, if o.cut then 8 else 0]),
     Cmd("ESC i d margins", [0x1b, 0x69, 0x64, medium.feedMargin % 0x100, medium.feedMargin / 0x100])] +
    (if Compresses(p, o) then [Cmd("M compression", [0x4d, 2])] else [])
  }

  lemma OpeningReads(m: Machine, p: BrotherPlan.Printer, o: Options, medium: Media)
    requires m.deaf == 0 && (m.compressed ==> Compresses(p, o))
    ensures Work(m, Opening(p, o, medium))
         == Some(m.(cutAtEnd := o.cut, margin := medium.feedMargin, compressed := Compresses(p, o)))
  {
    hide Work, Obey, Compresses;
    var s := Opening(p, o, medium);
    var expanded, margins := s[0], s[1];
    var one := m.(cutAtEnd := o.cut);
    var two := one.(margin := medium.feedMargin);
    WorkOne(m, expanded);
    Settings(m, 0, medium.feedMargin, o.cut);
    Follow(m, [expanded], one, margins);
    Settings(one, 0, medium.feedMargin, o.cut);
    if Compresses(p, o) {
      assert s == [expanded] + [margins] + [Cmd("M compression", [0x4d, 2])];
      FixedCommands(two);
      Follow(m, [expanded] + [margins], two, Cmd("M compression", [0x4d, 2]));
    } else {
      assert s == [expanded] + [margins];
    }
  }

  lemma TailSplits(p: BrotherPlan.Printer, r: Page, o: Options, medium: Media)
    requires r.widthBytes > 0
    ensures PageTail(p, r, o, medium) == Opening(p, o, medium) + [RasterAction(p, r, o)] + [Cmd(PRINT, [0x1a])]
  {
    hide RasterAction, Compresses;
  }

  /** From the expanded mode on, a page is transferred and printed. */
  lemma TailReads(m: Machine, p: BrotherPlan.Printer, r: Page, o: Options, medium: Media)
    requires Readable(p, r, o) && m.deaf == 0 && m.rasterMode && m.information.Some?
    requires m.compressed ==> Compresses(p, o)
    ensures var page := Printed(m.information.value, m.autocut, m.cutEvery, o.cut, medium.feedMargin,
                                MirroredRows(Chunks(r.data, r.widthBytes)));
      Work(m, PageTail(p, r, o, medium))
      == Some(m.(cutAtEnd := o.cut, margin := medium.feedMargin, compressed := Compresses(p, o), information := None,
                 rows := None, pages := m.pages + [page]))
  {
    hide Work, Lines, MirroredRows, Chunks, ReadLines, Obey, Compresses, Opening, PageTail;
    var raster, print_, opening := RasterAction(p, r, o), Cmd(PRINT, [0x1a]), Opening(p, o, medium);
    TailSplits(p, r, o, medium);
    OpeningReads(m, p, o, medium);
    var three := Work(m, opening).value;
    LinesReadBack(p, r, o);
    var four := three.(rows := Some(MirroredRows(Chunks(r.data, r.widthBytes))));
    Follow(m, opening, three, raster);
    Prints(four);
    Follow(m, opening + [raster], four, print_);
  }

  /** A machine between the pages of a job, with its cutter set as the job asks. */
  predicate Between(m: Machine, p: BrotherPlan.Printer, o: Options) {
    && m.deaf == 0 && m.rasterMode && (m.compressed ==> Compresses(p, o))
  }

  predicate CutterSet(m: Machine, o: Options) {
    m.autocut == o.cut && m.cutEvery == if o.cut then o.cutEvery else 1
  }

  /** A page is printed as expected, with the cutter configured on this page or on an earlier one. */
  lemma PagePrints(m: Machine, p: BrotherPlan.Printer, r: Page, o: Options, medium: Media, cutter: bool)
    requires Readable(p, r, o) && Between(m, p, o)
    requires if cutter then o.cut else CutterSet(m, o)
    ensures var after := Work(m, PageActions(p, r, o, medium, cutter));
      && after.Some? && Between(after.value, p, o) && CutterSet(after.value, o)
      && after.value.pages == m.pages + [Expected(r, o, medium)] && after.value.statusAsked == m.statusAsked
  {
    hide Work, PageTail, Cutter, PrintInformation, MirroredRows, Chunks, Obey;
    var info, cuts := PrintInformation(r, o, medium), if cutter then Cutter(o) else [];
    InformationReads(m, r, o, medium);
    WorkOne(m, info);
    var one := m.(information := Some(Announced(r, o, medium)));
    var two := if cutter then one.(autocut := true, cutEvery := o.cutEvery) else one;
    assert Work(m, [info] + cuts) == Some(two) by {
      if cutter {
        WorkConcat(m, [info], cuts);
        CutterReads(one, o);
      } else {
        assert [info] + cuts == [info];
      }
    }
    WorkConcat(m, [info] + cuts, PageTail(p, r, o, medium));
    TailReads(two, p, r, o, medium);
  }

  lemma SetupLeaves(m: Machine, p: BrotherPlan.Printer, o: Options)
    requires m.deaf <= 4 + p.invalidateBytes
    ensures var ready := Work(m, Setup(p));
      && ready.Some? && Between(ready.value, p, o) && !ready.value.autocut && ready.value.cutEvery == 1
      && ready.value.pages == m.pages && ready.value.statusAsked == m.statusAsked + 1
  {
    hide Work;
    SetupReads(m, p);
  }

  /** The whole body of one copy. */
  lemma BodyPrints(m: Machine, p: BrotherPlan.Printer, r: Page, o: Options)
    requires Readable(p, r, o) && o.media.Some? && m.deaf <= 4 + p.invalidateBytes
    ensures var after := Work(m, Body(p, r, o));
      && after.Some? && after.value.deaf == 0
      && after.value.pages == m.pages + [Expected(r, o, o.media.value)]
      && after.value.statusAsked == m.statusAsked + 1
  {
    hide Work, Setup, PageActions, Expected;
    SetupLeaves(m, p, o);
    var ready := Work(m, Setup(p)).value;
    WorkConcat(m, Setup(p), PageActions(p, r, o, o.media.value, o.cut));
    PagePrints(ready, p, r, o, o.media.value, o.cut);
  }

  lemma {:induction false} CopiesPrint(m: Machine, p: BrotherPlan.Printer, r: Page, o: Options, n: nat)
    requires Readable(p, r, o) && o.media.Some? && m.deaf <= 4 + p.invalidateBytes
    ensures var after := Work(m, Repeated(Body(p, r, o), n));
      && after.Some? && after.value.deaf <= m.deaf
      && after.value.pages == m.pages + seq(n, _ => Expected(r, o, o.media.value))
      && after.value.statusAsked == m.statusAsked + n
  {
    hide Body, Expected;
    if n == 0 {
      assert m.pages + [] == m.pages;
    } else {
      hide Work;
      CopiesPrint(m, p, r, o, n - 1);
      var before := Work(m, Repeated(Body(p, r, o), n - 1)).value;
      WorkConcat(m, Repeated(Body(p, r, o), n - 1), Body(p, r, o));
      BodyPrints(before, p, r, o);
      var page := Expected(r, o, o.media.value);
      assert seq(n, _ => page) == seq(n - 1, _ => page) + [page];
    }
  }

  lemma {:induction false} PagesPrint(m: Machine, p: BrotherPlan.Printer, rasters: seq<Page>, o: Options, medium: Media,
                                      cutter: bool)
    requires forall i :: 0 <= i < |rasters| ==> 0 < rasters[i].widthBytes <= WidestRow(Compresses(p, o))
    requires Between(m, p, o)
    requires rasters != [] && cutter ==> o.cut
    requires !cutter ==> CutterSet(m, o)
    ensures var after := Work(m, Pages(p, rasters, o, medium, cutter));
      && after.Some?
      && after.value.pages == m.pages + seq(|rasters|, i requires 0 <= i < |rasters| => Expected(rasters[i], o, medium))
      && after.value.statusAsked == m.statusAsked
    decreases |rasters|
  {
    hide PageActions, Expected;
    if rasters == [] {
      assert m.pages + [] == m.pages;
    } else {
      hide Work;
      var page := PageActions(p, rasters[0], o, medium, cutter);
      PagePrints(m, p, rasters[0], o, medium, cutter);
      var next := Work(m, page).value;
      WorkConcat(m, page, Pages(p, rasters[1..], o, medium, false));
      PagesPrint(next, p, rasters[1..], o, medium, false);
      assert seq(|rasters|, i requires 0 <= i < |rasters| => Expected(rasters[i], o, medium))
          == [Expected(rasters[0], o, medium)] +
             seq(|rasters[1..]|, i requires 0 <= i < |rasters[1..]| => Expected(rasters[1..][i], o, medium));
    }
  }

  lemma JobWorks(m: Machine, body: seq<Action>)
    requires Work(m, body).Some?
    ensures Work(m, Job(body)) == Work(m, body)
  {
    hide Work;
    WorkOne(m, JobBoundary(Start));
    WorkConcat(m, [JobBoundary(Start)], body);
    WorkConcat(m, [JobBoundary(Start)] + body, [JobBoundary(End)]);
    WorkOne(Work(m, body).value, JobBoundary(End));
  }

  // ----- plans -----

  /** Whatever state the printer was left in, a plan prints its raster as many times as asked: announced with its own
      number of rows, quality and medium, cut as asked, each time with the mirrored rows of the raster; and the printer
      is asked for its status each time. */
  lemma PlanPrints(m: Machine, p: BrotherPlan.Printer, r: Page, o: Options, limits: Limits)
    requires Readable(p, r, o) && m.deaf <= 4 + p.invalidateBytes
    requires Limited(InnerPlan(p, r, o, limits), limits).Ok?
    ensures o.media.Some?
    ensures var after := Work(m, Limited(InnerPlan(p, r, o, limits), limits).value);
      && after.Some?
      && after.value.pages == m.pages + seq(o.copies, _ => Expected(r, o, o.media.value))
      && after.value.statusAsked == m.statusAsked + o.copies
  {
    hide Rejection, Body, Job, Work, Repeated, LimitError, Expected;
    RejectionNone(p, r, o, limits);
    CopiesPrint(m, p, r, o, o.copies);
    JobWorks(m, Repeated(Body(p, r, o), o.copies));
  }

  /** A batch prints every raster once, in order, each announced with its own number of rows and cut as asked although
      the cutter is configured only once; the status is asked for once. */
  lemma BatchPrints(m: Machine, p: BrotherPlan.Printer, rasters: seq<Page>, o: Options, limits: Limits)
    requires forall i :: 0 <= i < |rasters| ==> 0 < rasters[i].widthBytes <= WidestRow(Compresses(p, o))
    requires m.deaf <= 4 + p.invalidateBytes
    requires BatchPlan(p, rasters, o, limits).Ok?
    ensures o.media.Some?
    ensures var after := Work(m, BatchPlan(p, rasters, o, limits).value);
      && after.Some?
      && after.value.pages
         == m.pages + seq(|rasters|, i requires 0 <= i < |rasters| => Expected(rasters[i], o, o.media.value))
      && after.value.statusAsked == m.statusAsked + 1
  {
    hide Rejection, Job, Work, Setup, Pages, LimitError, Expected;
    MediaKnown(p, rasters, o, limits);
    var medium := o.media.value;
    SetupLeaves(m, p, o);
    var ready := Work(m, Setup(p)).value;
    WorkConcat(m, Setup(p), Pages(p, rasters, o, medium, o.cut));
    PagesPrint(ready, p, rasters, o, medium, o.cut);
    JobWorks(m, Setup(p) + Pages(p, rasters, o, medium, o.cut));
  }

  // ----- which requests are planned -----

  /** A page is planned exactly when its data fill its rows, the options are within their ranges, compression is not
      LZO, a medium is given, and the number of rows suits printer and medium. */
  lemma AcceptedExactly(p: BrotherPlan.Printer, r: Page, o: Options, limits: Limits)
    ensures Rejection(p, r, o, limits).None? <==>
      && |r.data| == r.widthBytes * r.height
      && o.density in {1, 2, 3, 4, 5, 6, 7, 8} && 0 < o.copies <= limits.maxCopies
      && !(o.cut && o.cutEvery == 0) && !o.lzo
      && o.media.Some?
      && (o.media.value.continuous ==> r.height >= p.minRows)
      && (p.maxRows == 0 || r.height <= p.maxRows)
  {
  }
}
