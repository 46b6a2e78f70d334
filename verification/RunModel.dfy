/** What one run of a plan comes to (crates/mb-printer-executor/src/executor.rs) in a given environment: which writes it
    issues at which moments, which responses it keeps, and when and why it stops. */
module RunModel {
  import opened Bytes
  import opened Plan

  const MAX_PLAN_ACTIONS := 16384
  const MAX_RETAINED := 16 * 1024 * 1024
  const MAX_FIXED_RESPONSE_READS := 16
  const MAX_MULTIPART_READS := 4096
  const U64_MAX := 0xffff_ffff_ffff_ffff

  datatype TransportErrorKind =
    | Connection | Disconnected | Unsupported | InvalidConfiguration | PermissionDenied | TimedOut | HostCancelled | Io

  datatype TransportError = TransportError(kind: TransportErrorKind, message: string)

  datatype WaitOutcome = Response(bytes: seq<byte>) | Timeout | Unavailable

  /** What the environment does at one effect boundary: whether cancellation has been requested (and so wins the race
      with the operation), and what each kind of operation would do if it completes. */
  datatype Moment = Moment(
    cancelled: bool, timeIsUp: bool, payloadLimit: nat,
    write: Option<TransportError>, subscribe: Option<TransportError>, wait: Result<WaitOutcome, TransportError>)

  /** A write handed to the transport, whether the transport confirmed it, and at which moment that was decided. */
  datatype Write = Write(piece: Piece, acknowledged: bool, at: nat)

  datatype Progress = Progress(
    lastCompletedAction: Option<nat>, bytesWritten: nat, potentiallyAcceptedWrite: bool, responses: seq<seq<byte>>)

  const NO_PROGRESS := Progress(None, 0, false, [])

  datatype ExecuteError =
    | AtomicTooLarge(action: nat, length: nat, limit: nat)
    | InvalidPlan(action: nat, reason: string)
    | Replay(key: string)
    | ReplayStoreFailed(fault: string)
    | Cancelled(progress: Progress)
    | WriteOutcomeUnknown(progress: Progress, ambiguity: Option<TransportError>)
    | TransportFailed(progress: Progress, source: TransportError)
    | ResponseTimeout(progress: Progress)
    | BadResponse(progress: Progress, message: string)
  {
    predicate HasProgress() {
      Cancelled? || WriteOutcomeUnknown? || TransportFailed? || ResponseTimeout? || BadResponse?
    }
  }

  datatype EffectError = EffectCancelled | EffectTransport(source: TransportError) | EffectResponse(message: string)

  function SatAdd(a: nat, b: nat): (r: nat) {
    if a + b > U64_MAX then U64_MAX else a + b
  }

  // ----- what a run wrote -----

  function Issued(log: seq<Write>): (r: seq<Piece>) {
    if log == [] then [] else [log[0].piece] + Issued(log[1..])
  }

  predicate AllAcknowledged(log: seq<Write>) {
    forall i :: 0 <= i < |log| ==> log[i].acknowledged
  }

  function AcknowledgedBytes(log: seq<Write>): (r: nat) {
    if log == [] then 0
    else AcknowledgedBytes(log[..|log| - 1])
         + (if log[|log| - 1].acknowledged then |log[|log| - 1].piece.bytes| else 0)
  }

  /** All writes but possibly the last were confirmed; the last was not exactly when `open` holds. */
  predicate Unconfirmed(log: seq<Write>, open: bool) {
    && (open ==> log != [])
    && forall i :: 0 <= i < |log| ==> (log[i].acknowledged <==> !(open && i == |log| - 1))
  }

  lemma {:induction false} IssuedSnoc(log: seq<Write>, w: Write)
    ensures Issued(log + [w]) == Issued(log) + [w.piece]
  {
    if log == [] {
      assert log + [w] == [w];
    } else {
      assert (log + [w])[1..] == log[1..] + [w];
      IssuedSnoc(log[1..], w);
    }
  }

  lemma LogSnoc(log: seq<Write>, w: Write)
    ensures Issued(log + [w]) == Issued(log) + [w.piece]
    ensures AcknowledgedBytes(log + [w]) == AcknowledgedBytes(log) + (if w.acknowledged then |w.piece.bytes| else 0)
    ensures AllAcknowledged(log) && w.acknowledged ==> AllAcknowledged(log + [w])
  {
    IssuedSnoc(log, w);
    var all := log + [w];
    assert all[..|all| - 1] == log;
  }

  /** The count of confirmed bytes stops at the largest 64-bit number. */
  lemma SaturatesAt(a: nat, b: nat)
    ensures SatAdd(a, b) <= 18446744073709551615 && SatAdd(a, b) <= a + b
    ensures SatAdd(a, b) == a + b || SatAdd(a, b) == 18446744073709551615
  {
  }

  lemma SaturatesOnce(a: nat, b: nat)
    ensures SatAdd(SatAdd(0, a), b) == SatAdd(0, a + b)
  {
  }

  // ----- responses -----

  predicate Contains(haystack: seq<byte>, needle: seq<byte>) {
    exists i | 0 <= i <= |haystack| :: At(haystack, i, needle)
  }

  const OBJBRNET: seq<byte> := [0x4f, 0x42, 0x4a, 0x42, 0x52, 0x4e, 0x45, 0x54]
  const AVAILABLEWLAN: seq<byte> := [0x41, 0x56, 0x41, 0x49, 0x4c, 0x41, 0x42, 0x4c, 0x45, 0x57, 0x4c, 0x41, 0x4e]
  const VAP: seq<byte> := [0x56, 0x41, 0x50, 0x2c]
  const PRINTER_CONFIGURATION: seq<byte> := [
    0x3c, 0x3c, 0x50, 0x52, 0x49, 0x4e, 0x54, 0x45, 0x52, 0x20, 0x43, 0x4f, 0x4e, 0x46, 0x49, 0x47, 0x55, 0x52, 0x41,
    0x54, 0x49, 0x4f, 0x4e, 0x3e, 0x3e]

  predicate Validates(v: ResponseValidation, bytes: seq<byte>) {
    match v
    case AnyNotification => bytes != []
    case PhomemoNotification => |bytes| >= 3 && bytes[0] == 0x1a
    case BrotherStatus32 => |bytes| == 32 && bytes[0] == 0x80 && bytes[1] == 0x20 && bytes[2] == 0x42
    case BrotherObjbrnet => Contains(bytes, OBJBRNET)
    case BrotherWifiScan => Contains(bytes, AVAILABLEWLAN) || Contains(bytes, VAP)
    case BrotherSystemReport => Contains(bytes, PRINTER_CONFIGURATION)
  }

  predicate IsVariableLength(v: ResponseValidation) {
    v.BrotherObjbrnet? || v.BrotherWifiScan? || v.BrotherSystemReport?
  }

  function Expected(v: ResponseValidation): (r: Option<nat>) {
    match v
    case BrotherStatus32 => Some(32)
    case AnyNotification => Some(1)
    case PhomemoNotification => Some(3)
    case _ => None
  }

  function Retained(responses: seq<seq<byte>>): (r: nat) {
    if responses == [] then 0 else Retained(responses[..|responses| - 1]) + |responses[|responses| - 1]|
  }

  /** What a wait at this moment hands over. */
  function Chunk(m: Moment): (r: seq<byte>) {
    if !m.cancelled && m.wait.Ok? && m.wait.value.Response? then m.wait.value.bytes else []
  }

  /** Everything the transport handed over at the moments from `start` on and before `end`, in order. */
  function Delivered(environment: nat -> Moment, start: nat, end: nat): (r: seq<byte>)
    decreases end - start
  {
    if end <= start then [] else Delivered(environment, start, end - 1) + Chunk(environment(end - 1))
  }

  lemma NothingDelivered(environment: nat -> Moment, start: nat)
    ensures Delivered(environment, start, start) == []
  {
  }

  lemma DeliveredNext(environment: nat -> Moment, start: nat, end: nat)
    requires start <= end
    ensures Delivered(environment, start, end + 1) == Delivered(environment, start, end) + Chunk(environment(end))
    ensures Chunk(environment(end)) == [] ==>
      Delivered(environment, start, end + 1) == Delivered(environment, start, end)
  {
  }

  /** What a wait with this validator makes of the bytes handed over: a Phomemo frame is everything from the first 0x1a
      on, any other response is everything. */
  predicate FrameOf(v: ResponseValidation, heard: seq<byte>, bytes: seq<byte>) {
    if v.PhomemoNotification? then
      exists start :: 0 <= start < |heard| && heard[start] == 0x1a && 0x1a !in heard[..start] && bytes == heard[start..]
    else bytes == heard
  }

  // ----- effects -----

  /** Why a run stopped: cancelled, by its host or through the transport; with a write in doubt, and what the transport
      said of it; on a failure of the transport; for want of an answer; with an unusable answer; or without a limit
      under which the raster of an action could be cut. */
  datatype Why =
    | Abandoned | InDoubt(ambiguity: Option<TransportError>) | Broke(source: TransportError) | NoAnswer
    | Unusable(message: string) | NoLimit(action: nat)

  datatype Ending = Finished(end: nat) | Stopped(end: nat, why: Why)

  function Failure(e: TransportError): (r: Why) {
    if e.kind == HostCancelled then Abandoned else Broke(e)
  }

  /** The error a run that stopped reports. */
  function ErrorOf(why: Why, p: Progress): (r: ExecuteError) {
    match why
    case Abandoned => Cancelled(p)
    case InDoubt(ambiguity) => WriteOutcomeUnknown(p, ambiguity)
    case Broke(source) => TransportFailed(p, source)
    case NoAnswer => ResponseTimeout(p)
    case Unusable(message) => BadResponse(p, message)
    case NoLimit(action) => InvalidPlan(action, "zero negotiated transport payload limit")
  }

  function WhyOf(e: EffectError): (r: Why) {
    match e
    case EffectCancelled => Abandoned
    case EffectTransport(source) => Failure(source)
    case EffectResponse(message) => Unusable(message)
  }

  /** An effect that takes exactly one moment: a look at the cancellation, a write, a delay, the subscription, or the
      question for the payload limit in force. */
  datatype Effect = Check | Send(piece: Piece) | Sleep | Join | AskLimit(action: nat)

  /** The transport takes a write at this moment and says so before any cancellation. */
  predicate Confirms(m: Moment) {
    !m.cancelled && m.write.None?
  }

  /** What stops an effect at this moment, if anything does. */
  function Trouble(m: Moment, e: Effect): (r: Option<Why>) {
    match e
    case Check => if m.cancelled then Some(Abandoned) else None
    case Sleep => if m.cancelled then Some(Abandoned) else None
    case Send(_) =>
      if m.cancelled then Some(InDoubt(None)) else if m.write.Some? then Some(InDoubt(m.write)) else None
    case Join =>
      if m.cancelled then Some(Abandoned) else if m.subscribe.Some? then Some(Failure(m.subscribe.value)) else None
    case AskLimit(action) => if m.payloadLimit == 0 then Some(NoLimit(action)) else None
  }

  function Logged(m: Moment, e: Effect, at: nat): (r: seq<Write>) {
    if e.Send? then [Write(e.piece, Confirms(m), at)] else []
  }

  datatype Played = Played(log: seq<Write>, ending: Ending)

  /** A script of effects, one moment each from `t` on, up to the first that is troubled. */
  function Play(environment: nat -> Moment, t: nat, script: seq<Effect>): (r: Played)
    decreases |script|
  {
    if script == [] then Played([], Finished(t))
    else
      var m, e := environment(t), script[0];
      if Trouble(m, e).Some? then Played(Logged(m, e, t), Stopped(t + 1, Trouble(m, e).value))
      else
        var rest := Play(environment, t + 1, script[1..]);
        Played(Logged(m, e, t) + rest.log, rest.ending)
  }

  /** Before each physical write of a raster the cancellation is looked at twice, after it there is a delay. */
  function RasterScript(pieces: seq<Piece>): (r: seq<Effect>) {
    if pieces == [] then [] else [Check, Check, Send(pieces[0]), Sleep] + RasterScript(pieces[1..])
  }

  /** What an action does, apart from waiting for responses, when its first effect takes place at `t`. */
  function ScriptOf(environment: nat -> Moment, a: Action, i: nat, t: nat): (r: seq<Effect>)
    requires a.RasterWrite? ==> a.logicalChunk > 0
  {
    match a
    case SubscribeNotifications => [Join]
    case Delay(_) => [Sleep]
    case CommandWrite(_, bytes, _) => [Check, Send(Piece(Command, bytes))]
    case RasterWrite(_, _, _) =>
      var limit := environment(t).payloadLimit;
      [AskLimit(i)] + if limit > 0 then RasterScript(PiecesOf(a, limit)) else []
    case _ => []
  }

  // ----- listening -----

  function Waited(m: Moment): (r: Result<WaitOutcome, EffectError>) {
    if m.cancelled then Err(EffectCancelled)
    else
      match m.wait
      case Ok(outcome) => Ok(outcome)
      case Err(e) => if e.kind == HostCancelled then Err(EffectCancelled) else Err(EffectTransport(e))
  }

  /** The position of the first 0x1a. */
  function FirstEscape(bytes: seq<byte>): (r: Option<nat>)
    ensures r.None? ==> 0x1a !in bytes
    ensures r.Some? ==> r.value < |bytes| && bytes[r.value] == 0x1a && 0x1a !in bytes[..r.value]
  {
    if bytes == [] then None
    else if bytes[0] == 0x1a then Some(0)
    else
      var rest := FirstEscape(bytes[1..]);
      if rest.None? then None else Some(rest.value + 1)
  }

  /** The response in what was handed over so far, once it is complete. */
  function Frame(v: ResponseValidation, heard: seq<byte>): (r: Option<seq<byte>>) {
    if v.PhomemoNotification? then
      var start := FirstEscape(heard);
      if start.Some? && |heard| - start.value >= Expected(v).value then Some(heard[start.value..]) else None
    else if Expected(v).Some? && |heard| >= Expected(v).value then Some(heard)
    else None
  }

  /** What is made of an incomplete response when nothing more comes. */
  function Leftover(v: ResponseValidation, heard: seq<byte>, otherwise: WaitOutcome): (r: WaitOutcome) {
    if heard == [] || v.PhomemoNotification? then otherwise else Response(heard)
  }

  const TOO_MUCH := "retained response bytes exceed executor limit"
  const BEYOND_MAXIMUM := "response exceeded declared maximum"
  const NOT_IDLE := "response did not become idle before the read limit"
  const MISMATCH := "response did not match declared validator"

  /** How listening ended: at which moment, and with what. */
  datatype Heard = Heard(end: nat, outcome: Result<WaitOutcome, EffectError>)

  /** Listening for one response with at most `left` further reads. */
  function Listen(environment: nat -> Moment, v: ResponseValidation, retained: nat, heard: seq<byte>, t: nat, left: nat)
    : (r: Heard)
    decreases left
  {
    if left == 0 then Heard(t, Ok(if v.PhomemoNotification? then Timeout else Response(heard)))
    else if environment(t).timeIsUp then Heard(t, Ok(Leftover(v, heard, Timeout)))
    else
      var outcome := Waited(environment(t));
      if outcome.Err? then Heard(t + 1, outcome)
      else if !outcome.value.Response? then Heard(t + 1, Ok(Leftover(v, heard, outcome.value)))
      else if retained + |heard| + |outcome.value.bytes| > MAX_RETAINED then Heard(t + 1, Err(EffectResponse(TOO_MUCH)))
      else
        var all := heard + outcome.value.bytes;
        if Frame(v, all).Some? then Heard(t + 1, Ok(Response(Frame(v, all).value)))
        else Listen(environment, v, retained, all, t + 1, left - 1)
  }

  /** Listening until the transport falls silent, with at most `left` further reads. */
  function Gather(environment: nat -> Moment, maximum: nat, heard: seq<byte>, t: nat, left: nat): (r: Heard)
    decreases left
  {
    if left == 0 then
      Heard(t, if heard == [] then Ok(Timeout)
               else if environment(t).timeIsUp then Ok(Response(heard))
               else Err(EffectResponse(NOT_IDLE)))
    else if environment(t).timeIsUp then Heard(t, Ok(if heard == [] then Timeout else Response(heard)))
    else
      var outcome := Waited(environment(t));
      if outcome.Err? then Heard(t + 1, outcome)
      else if outcome.value == Response([]) then Heard(t + 1, Ok(if heard == [] then Timeout else Response(heard)))
      else if !outcome.value.Response? then Heard(t + 1, Ok(if heard == [] then outcome.value else Response(heard)))
      else if |heard| + |outcome.value.bytes| > maximum then Heard(t + 1, Err(EffectResponse(BEYOND_MAXIMUM)))
      else Gather(environment, maximum, heard + outcome.value.bytes, t + 1, left - 1)
  }

  function ListenFor(environment: nat -> Moment, a: Action, retained: nat, t: nat): (r: Heard)
    requires Listens(a)
  {
    if a.WaitForResponse? then Listen(environment, a.validation, retained, [], t, MAX_FIXED_RESPONSE_READS)
    else Gather(environment, a.maximumBytes, [], t, MAX_MULTIPART_READS)
  }

  predicate Listens(a: Action) {
    a.WaitForResponse? || a.CollectResponse?
  }

  function ValidationOf(a: Action): (r: ResponseValidation)
    requires Listens(a)
  {
    if a.WaitForResponse? then a.validation else a.collectValidation
  }

  // ----- actions and runs -----

  datatype Course = Course(log: seq<Write>, responses: seq<seq<byte>>, ending: Ending)

  /** A wait or a collection from `t` on. */
  function ListenCourse(environment: nat -> Moment, a: Action, t: nat, retained: nat): (r: Course)
    requires Listens(a)
  {
    var h := ListenFor(environment, a, retained, t);
    match h.outcome
    case Err(e) => Course([], [], Stopped(h.end, WhyOf(e)))
    case Ok(Response(bytes)) =>
      if Validates(ValidationOf(a), bytes) then Course([], [bytes], Finished(h.end))
      else Course([], [], Stopped(h.end, Unusable(MISMATCH)))
    case Ok(_) =>
      if a.WaitForResponse? && a.fallbackDelayMs > 0 then Course([], [], Play(environment, h.end, [Sleep]).ending)
      else if a.WaitForResponse? && a.validation.BrotherStatus32? then Course([], [], Finished(h.end))
      else Course([], [], Stopped(h.end, NoAnswer))
  }

  /** The effects of action `i` from `t` on. */
  function PerformCourse(environment: nat -> Moment, a: Action, i: nat, t: nat, retained: nat): (r: Course)
    requires a.RasterWrite? ==> a.logicalChunk > 0
  {
    if Listens(a) then ListenCourse(environment, a, t, retained)
    else
      var played := Play(environment, t, ScriptOf(environment, a, i, t));
      Course(played.log, [], played.ending)
  }

  /** Action `i`, reached at `t`: a look at the cancellation, and then its effects. */
  function CourseOf(environment: nat -> Moment, a: Action, i: nat, t: nat, retained: nat): (r: Course)
    requires a.RasterWrite? ==> a.logicalChunk > 0
  {
    if environment(t).cancelled then Course([], [], Stopped(t + 1, Abandoned))
    else PerformCourse(environment, a, i, t + 1, retained)
  }

  /** The last of `n` completed actions. */
  function LastOf(n: nat): (r: Option<nat>) {
    if n == 0 then None else Some(n - 1)
  }

  /** A run: when each action was reached, what was written and kept, and how it ended. */
  datatype Run = Run(starts: seq<nat>, log: seq<Write>, responses: seq<seq<byte>>, ending: Ending)
  {
    function Account(): (r: Progress) {
      var completed := if ending.Finished? || starts == [] then |starts| else |starts| - 1;
      Progress(LastOf(completed), SatAdd(0, AcknowledgedBytes(log)), log != [], responses)
    }

    function Outcome(): (r: Result<Progress, ExecuteError>) {
      if ending.Finished? then Ok(Account()) else Err(ErrorOf(ending.why, Account()))
    }
  }

  /** The run of the first `n` actions from moment `t` on. */
  function RunTo(environment: nat -> Moment, actions: seq<Action>, n: nat, t: nat): (r: Run)
    requires n <= |actions| && Chunked(actions)
    ensures |r.starts| <= n
  {
    if n == 0 then Run([], [], [], Finished(t))
    else
      var before := RunTo(environment, actions, n - 1, t);
      if before.ending.Stopped? then before
      else
        var c := CourseOf(environment, actions[n - 1], n - 1, before.ending.end, Retained(before.responses));
        Run(before.starts + [before.ending.end], before.log + c.log, before.responses + c.responses, c.ending)
  }

  // ----- plays -----

  lemma NoPlay(environment: nat -> Moment, t: nat)
    ensures Play(environment, t, []) == Played([], Finished(t)) && RasterScript([]) == []
  {
  }

  lemma PlayOne(environment: nat -> Moment, t: nat, e: Effect)
    ensures Play(environment, t, [e])
         == Played(Logged(environment(t), e, t), match Trouble(environment(t), e)
                                                 case Some(why) => Stopped(t + 1, why)
                                                 case None => Finished(t + 1))
  {
    assert [e][1..] == [];
  }

  lemma PlayWrite(environment: nat -> Moment, t: nat, piece: Piece)
    ensures Play(environment, t, [Check, Send(piece)])
         == if environment(t).cancelled then Played([], Stopped(t + 1, Abandoned))
            else Play(environment, t + 1, [Send(piece)])
    ensures Play(environment, t + 1, [Send(piece)])
         == Played([Write(piece, Confirms(environment(t + 1)), t + 1)],
                   match Trouble(environment(t + 1), Send(piece))
                   case Some(why) => Stopped(t + 2, why)
                   case None => Finished(t + 2))
  {
    assert [Check, Send(piece)][1..] == [Send(piece)];
    PlayOne(environment, t + 1, Send(piece));
  }

  /** One play after another; the second takes place only if the first finishes. */
  function Then(environment: nat -> Moment, first: Played, script: seq<Effect>): (r: Played) {
    if first.ending.Stopped? then first
    else
      var second := Play(environment, first.ending.end, script);
      Played(first.log + second.log, second.ending)
  }

  lemma {:induction false} PlayConcat(environment: nat -> Moment, t: nat, a: seq<Effect>, b: seq<Effect>)
    ensures Play(environment, t, a + b) == Then(environment, Play(environment, t, a), b)
    decreases |a|
  {
    if a == [] {
      assert a + b == b;
    } else {
      assert (a + b)[1..] == a[1..] + b;
      PlayConcat(environment, t + 1, a[1..], b);
    }
  }

  lemma {:induction false} RasterScriptConcat(a: seq<Piece>, b: seq<Piece>)
    ensures RasterScript(a + b) == RasterScript(a) + RasterScript(b)
  {
    if a == [] {
      assert a + b == b;
    } else {
      assert (a + b)[1..] == a[1..] + b;
      RasterScriptConcat(a[1..], b);
      ConcatAssoc([Check, Check, Send(a[0]), Sleep], RasterScript(a[1..]), RasterScript(b));
    }
  }

  lemma PlayRasterConcat(environment: nat -> Moment, t: nat, a: seq<Piece>, b: seq<Piece>)
    ensures Play(environment, t, RasterScript(a + b))
         == Then(environment, Play(environment, t, RasterScript(a)), RasterScript(b))
  {
    RasterScriptConcat(a, b);
    PlayConcat(environment, t, RasterScript(a), RasterScript(b));
  }

  /** One physical write of a raster with the looks before it and the delay after it. */
  lemma PlayPiece(environment: nat -> Moment, t: nat, piece: Piece)
    ensures RasterScript([piece]) == [Check] + [Check, Send(piece)] + [Sleep]
    ensures Play(environment, t, RasterScript([piece]))
         == if environment(t).cancelled then Played([], Stopped(t + 1, Abandoned))
            else Then(environment, Play(environment, t + 1, [Check, Send(piece)]), [Sleep])
  {
    hide Play;
    assert [piece][1..] == [];
    assert RasterScript([]) == [];
    PlayConcat(environment, t, [Check] + [Check, Send(piece)], [Sleep]);
    PlayConcat(environment, t, [Check], [Check, Send(piece)]);
    PlayOne(environment, t, Check);
  }

  /** When the writes before piece `j` are done, the piece is next; should it stop there, the rest is not played. */
  lemma PlayNextPiece(environment: nat -> Moment, t: nat, pieces: seq<Piece>, j: nat)
    requires j < |pieces|
    ensures var before := Play(environment, t, RasterScript(pieces[..j]));
      var next := Then(environment, before, RasterScript([pieces[j]]));
      && Play(environment, t, RasterScript(pieces[..j + 1])) == next
      && (next.ending.Stopped? ==> Play(environment, t, RasterScript(pieces)) == next)
  {
    hide Play, RasterScript;
    assert pieces[..j + 1] == pieces[..j] + [pieces[j]];
    PlayRasterConcat(environment, t, pieces[..j], [pieces[j]]);
    assert pieces == pieces[..j + 1] + pieces[j + 1..];
    PlayRasterConcat(environment, t, pieces[..j + 1], pieces[j + 1..]);
  }

  // ----- runs -----

  lemma RunStart(environment: nat -> Moment, actions: seq<Action>, t: nat)
    requires Chunked(actions)
    ensures RunTo(environment, actions, 0, t) == Run([], [], [], Finished(t))
  {
  }

  /** An action that is reached adds its course to the run. */
  lemma RunNext(environment: nat -> Moment, actions: seq<Action>, i: nat, t: nat, now: nat)
    requires i < |actions| && Chunked(actions) && RunTo(environment, actions, i, t).ending == Finished(now)
    ensures var run := RunTo(environment, actions, i, t);
      var c := CourseOf(environment, actions[i], i, now, Retained(run.responses));
      RunTo(environment, actions, i + 1, t)
      == Run(run.starts + [now], run.log + c.log, run.responses + c.responses, c.ending)
  {
    hide CourseOf, Retained;
  }

  /** A run that stopped stays as it is. */
  lemma {:induction false} RunStays(environment: nat -> Moment, actions: seq<Action>, i: nat, t: nat)
    requires i <= |actions| && Chunked(actions) && RunTo(environment, actions, i, t).ending.Stopped?
    ensures RunTo(environment, actions, |actions|, t) == RunTo(environment, actions, i, t)
    decreases |actions| - i
  {
    hide CourseOf, Retained;
    if i < |actions| {
      RunStays(environment, actions, i + 1, t);
    }
  }

  /** One more read of a fixed response. */
  lemma ListenNext(environment: nat -> Moment, v: ResponseValidation, retained: nat, heard: seq<byte>, t: nat,
                   left: nat)
    requires left > 0 && !environment(t).timeIsUp && Waited(environment(t)).Ok?
    ensures var outcome := Waited(environment(t)).value;
      outcome.Response? && retained + |heard| + |outcome.bytes| <= MAX_RETAINED ==>
        Listen(environment, v, retained, heard, t, left)
        == match Frame(v, heard + outcome.bytes)
           case Some(frame) => Heard(t + 1, Ok(Response(frame)))
           case None => Listen(environment, v, retained, heard + outcome.bytes, t + 1, left - 1)
  {
    hide Frame;
  }

  /** How listening for a fixed response ends at moment `t`. */
  lemma ListenEnds(environment: nat -> Moment, v: ResponseValidation, retained: nat, heard: seq<byte>, t: nat,
                   left: nat)
    ensures left == 0 ==>
      Listen(environment, v, retained, heard, t, left)
      == Heard(t, Ok(if v.PhomemoNotification? then Timeout else Response(heard)))
    ensures left > 0 && environment(t).timeIsUp ==>
      Listen(environment, v, retained, heard, t, left) == Heard(t, Ok(Leftover(v, heard, Timeout)))
    ensures left > 0 && !environment(t).timeIsUp ==>
      match Waited(environment(t))
      case Err(e) => Listen(environment, v, retained, heard, t, left) == Heard(t + 1, Err(e))
      case Ok(Response(chunk)) =>
        retained + |heard| + |chunk| > MAX_RETAINED ==>
          Listen(environment, v, retained, heard, t, left) == Heard(t + 1, Err(EffectResponse(TOO_MUCH)))
      case Ok(other) =>
        Listen(environment, v, retained, heard, t, left) == Heard(t + 1, Ok(Leftover(v, heard, other)))
  {
    hide Frame;
  }

  /** One more read of a collection. */
  lemma GatherNext(environment: nat -> Moment, maximum: nat, heard: seq<byte>, t: nat, left: nat)
    requires left > 0 && !environment(t).timeIsUp && Waited(environment(t)).Ok?
    ensures var outcome := Waited(environment(t)).value;
      outcome.Response? && outcome.bytes != [] && |heard| + |outcome.bytes| <= maximum ==>
        Gather(environment, maximum, heard, t, left)
        == Gather(environment, maximum, heard + outcome.bytes, t + 1, left - 1)
  {
  }

  /** How a collection ends at moment `t`. */
  lemma GatherEnds(environment: nat -> Moment, maximum: nat, heard: seq<byte>, t: nat, left: nat)
    ensures left == 0 || environment(t).timeIsUp ==>
      Gather(environment, maximum, heard, t, left)
      == Heard(t, if heard == [] then Ok(Timeout)
                  else if environment(t).timeIsUp then Ok(Response(heard))
                  else Err(EffectResponse(NOT_IDLE)))
    ensures left > 0 && !environment(t).timeIsUp ==>
      match Waited(environment(t))
      case Err(e) => Gather(environment, maximum, heard, t, left) == Heard(t + 1, Err(e))
      case Ok(Response(chunk)) =>
        && (chunk == [] ==>
              Gather(environment, maximum, heard, t, left)
              == Heard(t + 1, Ok(if heard == [] then Timeout else Response(heard))))
        && (|heard| + |chunk| > maximum && chunk != [] ==>
              Gather(environment, maximum, heard, t, left) == Heard(t + 1, Err(EffectResponse(BEYOND_MAXIMUM))))
      case Ok(other) =>
        Gather(environment, maximum, heard, t, left) == Heard(t + 1, Ok(if heard == [] then other else Response(heard)))
  {
  }
}
