/** The plan executor (crates/mb-printer-executor/src/executor.rs) against an arbitrary environment: at every effect
    the environment may cancel, fail, time out, answer with any bytes or change the payload limit. */
module Executor {
  import opened Bytes
  import opened Plan
  import opened RunModel

  // ----- what a run may be given -----

  predicate ActionOk(a: Action, commandLimit: nat) {
    match a
    case CommandWrite(_, bytes, atomic) => atomic ==> |bytes| <= commandLimit
    case RasterWrite(_, chunk, _) => chunk > 0
    case WaitForResponse(timeout, _, validation) => timeout > 0 && !IsVariableLength(validation)
    case CollectResponse(timeout, idle, maximum, _) => timeout > 0 && idle > 0 && maximum > 0
    case _ => true
  }

  function CollectMaximum(actions: seq<Action>): (r: nat) {
    if actions == [] then 0
    else CollectMaximum(actions[..|actions| - 1])
         + (if actions[|actions| - 1].CollectResponse? then actions[|actions| - 1].maximumBytes else 0)
  }

  predicate Admissible(actions: seq<Action>, payloadLimit: nat, commandLimit: nat) {
    && payloadLimit > 0 && commandLimit > 0 && |actions| <= MAX_PLAN_ACTIONS
    && (forall i :: 0 <= i < |actions| ==> ActionOk(actions[i], commandLimit))
    && CollectMaximum(actions) <= MAX_RETAINED
  }

  /** The limits in numbers: at most 16384 actions, commands that must not be split within the command limit, positive
      chunks and waits, no wait for a response of variable length, and at most 16 mebibytes to collect. */
  lemma AdmissibleExactly(actions: seq<Action>, payloadLimit: nat, commandLimit: nat)
    ensures Admissible(actions, payloadLimit, commandLimit) <==>
      && payloadLimit != 0 && commandLimit != 0 && |actions| <= 16384 && CollectMaximum(actions) <= 16777216
      && forall a :: a in actions ==>
           match a
           case CommandWrite(_, bytes, atomic) => !atomic || |bytes| <= commandLimit
           case RasterWrite(_, chunk, _) => chunk != 0
           case WaitForResponse(timeout, _, v) =>
             timeout != 0 && v in {AnyNotification, PhomemoNotification, BrotherStatus32}
           case CollectResponse(timeout, idle, maximum, _) => timeout != 0 && idle != 0 && maximum != 0
           case _ => true
  {
    hide CollectMaximum;
    if Admissible(actions, payloadLimit, commandLimit) {
      forall a | a in actions ensures ActionOk(a, commandLimit) {
        var i :| 0 <= i < |actions| && actions[i] == a;
      }
    }
    forall i | 0 <= i < |actions| ensures actions[i] in actions {
    }
  }

  lemma NoActions(actions: seq<Action>)
    requires actions == []
    ensures CollectMaximum(actions) == 0
  {
  }

  lemma {:induction false} CollectMonotone(actions: seq<Action>, i: nat)
    requires i <= |actions|
    ensures CollectMaximum(actions[..i]) <= CollectMaximum(actions)
    decreases |actions| - i
  {
    if i < |actions| {
      assert actions[..i + 1][..i] == actions[..i];
      CollectMonotone(actions, i + 1);
    } else {
      assert actions[..i] == actions;
    }
  }

  /** The error names action `i`, and a command that is too long by its length. */
  predicate Names(a: Action, i: nat, commandLimit: nat, e: ExecuteError) {
    match e
    case InvalidPlan(action, _) => action == i
    case AtomicTooLarge(action, length, limit) =>
      action == i && limit == commandLimit && a.CommandWrite? && length == |a.bytes| > limit
    case _ => false
  }

  /** Action `i` is the first that cannot be admitted. */
  predicate FirstFault(actions: seq<Action>, i: nat, commandLimit: nat) {
    && i < |actions| && (forall j :: 0 <= j < i ==> ActionOk(actions[j], commandLimit))
    && CollectMaximum(actions[..i]) <= MAX_RETAINED
    && (ActionOk(actions[i], commandLimit) ==> CollectMaximum(actions[..i + 1]) > MAX_RETAINED)
  }

  /** Why a plan is rejected: a limit of zero or too many actions, reported for the plan as a whole, or its first fault.
      */
  predicate RejectedFor(actions: seq<Action>, payloadLimit: nat, commandLimit: nat, e: ExecuteError) {
    if payloadLimit == 0 || commandLimit == 0 || |actions| > MAX_PLAN_ACTIONS then e.InvalidPlan? && e.action == 0
    else
      exists i :: 0 <= i < |actions| && FirstFault(actions, i, commandLimit) && Names(actions[i], i, commandLimit, e)
  }

  /** The checks on one action; the retained total is checked by the caller. */
  method CheckAction(a: Action, i: nat, commandLimit: nat) returns (e: Option<ExecuteError>)
    ensures e.None? <==> ActionOk(a, commandLimit)
    ensures e.Some? ==> Names(a, i, commandLimit, e.value)
  {
    e := None;
    match a
    case CommandWrite(_, bytes, atomic) =>
      if atomic && |bytes| > commandLimit {
        return Some(AtomicTooLarge(i, |bytes|, commandLimit));
      }
    case RasterWrite(_, chunk, _) =>
      if chunk == 0 {
        return Some(InvalidPlan(i, "zero logical raster chunk"));
      }
    case WaitForResponse(timeout, _, validation) =>
      if timeout == 0 {
        return Some(InvalidPlan(i, "response timeout must be positive"));
      }
      if IsVariableLength(validation) {
        return Some(InvalidPlan(i, "variable-length validator requires response collection"));
      }
    case CollectResponse(timeout, idle, maximum, _) =>
      if timeout == 0 || idle == 0 || maximum == 0 {
        return Some(InvalidPlan(i, "response collection bounds must be positive"));
      }
    case _ =>
  }

  /** `preflight` rejects a plan exactly when it is not admissible. */
  method Preflight(actions: seq<Action>, payloadLimit: nat, commandLimit: nat) returns (r: Result<(), ExecuteError>)
    ensures r.Ok? <==> Admissible(actions, payloadLimit, commandLimit)
    ensures r.Err? ==> r.error.InvalidPlan? || r.error.AtomicTooLarge?
    ensures r.Err? ==> RejectedFor(actions, payloadLimit, commandLimit, r.error)
  {
    hide CollectMaximum, Waits, ActionOk;
    if payloadLimit == 0 {
      return Err(InvalidPlan(0, "zero transport payload limit"));
    }
    if commandLimit == 0 {
      return Err(InvalidPlan(0, "zero transport command limit"));
    }
    if |actions| > MAX_PLAN_ACTIONS {
      return Err(InvalidPlan(0, "plan action count exceeds executor limit"));
    }
    var retained := 0;
    NoActions(actions[..0]);
    for i := 0 to |actions|
      invariant forall j :: 0 <= j < i ==> ActionOk(actions[j], commandLimit)
      invariant retained == CollectMaximum(actions[..i]) <= MAX_RETAINED
    {
      NextAction(actions, i);
      CollectMonotone(actions, i + 1);
      var e := CheckAction(actions[i], i, commandLimit);
      if e.Some? {
        assert FirstFault(actions, i, commandLimit);
        return Err(e.value);
      }
      if actions[i].CollectResponse? {
        retained := retained + actions[i].maximumBytes;
        if retained > MAX_RETAINED {
          assert FirstFault(actions, i, commandLimit);
          return Err(InvalidPlan(i, "retained response bytes exceed executor limit"));
        }
      }
    }
    assert actions[..|actions|] == actions;
    r := Ok(());
  }

  // ----- responses -----

  predicate Waits(actions: seq<Action>) {
    exists i :: 0 <= i < |actions| && actions[i].WaitForResponse?
  }

  predicate Answers(a: Action, bytes: seq<byte>) {
    || (a.WaitForResponse? && Validates(a.validation, bytes))
    || (a.CollectResponse? && Validates(a.collectValidation, bytes))
  }

  lemma WholeFrame(v: ResponseValidation, heard: seq<byte>)
    ensures !v.PhomemoNotification? ==> FrameOf(v, heard, heard)
  {
  }

  /** A complete frame is one, and a Phomemo frame always validates. */
  lemma CompleteFrame(v: ResponseValidation, heard: seq<byte>)
    requires Frame(v, heard).Some?
    ensures FrameOf(v, heard, Frame(v, heard).value) && |Frame(v, heard).value| <= |heard|
    ensures v.PhomemoNotification? ==> Validates(v, Frame(v, heard).value)
  {
  }

  predicate HeardFor(a: Action, heard: seq<byte>, bytes: seq<byte>) {
    || (a.WaitForResponse? && FrameOf(a.validation, heard, bytes))
    || (a.CollectResponse? && bytes == heard)
  }

  /** For which action a response was retained, and between which moments it was handed over. */
  datatype Origin = Origin(action: nat, start: nat, end: nat)

  predicate Genuine(environment: nat -> Moment, actions: seq<Action>, o: Origin, bytes: seq<byte>) {
    && o.action < |actions| && o.start <= o.end
    && Answers(actions[o.action], bytes)
    && HeardFor(actions[o.action], Delivered(environment, o.start, o.end), bytes)
  }

  /** Response `k` was retained for action `origins[k].action`, satisfies that action's validator and is what the
      transport handed over for it; actions are in plan order and no two responses share a moment. */
  predicate Validated(environment: nat -> Moment, actions: seq<Action>, responses: seq<seq<byte>>,
                      origins: seq<Origin>) {
    && |origins| == |responses|
    && (forall k :: 0 <= k < |origins| ==> Genuine(environment, actions, origins[k], responses[k]))
    && (forall j, k :: 0 <= j < k < |origins| ==>
          origins[j].action < origins[k].action && origins[j].end <= origins[k].start)
  }

  /** The payload limit under which a raster action is cut: the one the transport reports right after the action starts.
      Without a report, or with a report of zero, nothing is written and the limit is immaterial. */
  function LimitAsked(environment: nat -> Moment, a: Action, start: nat): (r: nat)
    ensures r > 0
  {
    if a.RasterWrite? && environment(start + 1).payloadLimit > 0 then environment(start + 1).payloadLimit else 1
  }

  /** The first `n` actions reached got a positive payload limit where they needed one. */
  predicate Served(environment: nat -> Moment, actions: seq<Action>, starts: seq<nat>, n: nat) {
    && n <= |starts| && n <= |actions|
    && forall j :: 0 <= j < n && actions[j].RasterWrite? ==> environment(starts[j] + 1).payloadLimit > 0
  }

  /** `starts[j]` is the moment at which action `j` was reached; its pieces were cut under the limit reported then. */
  predicate Negotiated(environment: nat -> Moment, actions: seq<Action>, limits: seq<nat>, starts: seq<nat>) {
    && |starts| <= |actions| && |starts| <= |limits|
    && (forall j :: 0 <= j < |starts| ==> limits[j] == LimitAsked(environment, actions[j], starts[j]))
    && (forall j, k :: 0 <= j < k < |starts| ==> starts[j] < starts[k])
  }

  class Executor {
    const environment: nat -> Moment
    var now: nat
    var log: seq<Write>
    var progress: Progress
    /** Where the retained responses come from, and when each action was reached. */
    ghost var origins: seq<Origin>
    ghost var starts: seq<nat>

    constructor (environment: nat -> Moment)
      ensures this.environment == environment && Fresh()
    {
      this.environment := environment;
      now, log, progress, origins, starts := 0, [], NO_PROGRESS, [], [];
    }

    /** Nothing has happened yet. */
    ghost predicate Fresh()
      reads this
    {
      log == [] && progress == NO_PROGRESS && origins == [] && starts == []
    }

    /** Progress reports what was written: confirmed bytes, and whether anything may have reached the printer. */
    ghost predicate Accounts()
      reads this
    {
      && progress.bytesWritten == SatAdd(0, AcknowledgedBytes(log))
      && progress.potentiallyAcceptedWrite == (log != [])
    }

    ghost predicate Wrote(done: seq<Piece>)
      reads this
    {
      Accounts() && AllAcknowledged(log) && Issued(log) == done
    }

    /** What happened since `before` was logged is this play of effects, and `r` says how it ended. */
    ghost predicate Plays(before: seq<Write>, p: Played, r: Result<(), ExecuteError>)
      reads this
    {
      log == before + p.log && Reports(p.ending, r)
    }

    /** The clock stands where it ended, and the error says why it stopped. */
    ghost predicate Reports(e: Ending, r: Result<(), ExecuteError>)
      reads this
    {
      now == e.end && r == (if e.Finished? then Ok(()) else Err(ErrorOf(e.why, progress)))
    }

    /** The same for a whole action, which may also have kept responses. */
    ghost predicate Follows(before: seq<Write>, kept: seq<seq<byte>>, c: Course, r: Result<(), ExecuteError>)
      reads this
    {
      log == before + c.log && progress.responses == kept + c.responses && Reports(c.ending, r)
    }

    method Next() returns (m: Moment)
      modifies this`now
      ensures m == environment(old(now)) && now == old(now) + 1
    {
      m := environment(now);
      now := now + 1;
    }

    /** `write_piece`: either the piece is written and confirmed, or nothing is written and the run is cancelled, or the
        piece is written without confirmation. */
    method WritePiece(piece: Piece, ghost done: seq<Piece>) returns (r: Result<(), ExecuteError>)
      requires Wrote(done)
      modifies this`now, this`log, this`progress
      ensures now >= old(now)
      ensures Accounts()
      ensures r.Ok? ==> Wrote(done + [piece]) && AllAcknowledged(log)
      ensures r.Err? ==> r.error.HasProgress() && r.error.progress == progress
      ensures r.Err? ==> || (r.error.Cancelled? && Wrote(done))
                         || (r.error.WriteOutcomeUnknown? && log == old(log) + [Write(piece, false, old(now) + 1)])
      ensures Plays(old(log), Play(environment, old(now), [Check, Send(piece)]), r)
      ensures progress.responses == old(progress).responses
      ensures progress.lastCompletedAction == old(progress).lastCompletedAction
    {
      hide Issued, AcknowledgedBytes, SatAdd, Play;
      PlayWrite(environment, now, piece);
      var before := Next();
      if before.cancelled {
        return Err(Cancelled(progress));
      }
      progress := progress.(potentiallyAcceptedWrite := true);
      var m := Next();
      var acknowledged := !m.cancelled && m.write.None?;
      LogSnoc(log, Write(piece, acknowledged, now - 1));
      SaturatesOnce(AcknowledgedBytes(log), |piece.bytes|);
      log := log + [Write(piece, acknowledged, now - 1)];
      if m.cancelled {
        return Err(WriteOutcomeUnknown(progress, None));
      }
      if m.write.Some? {
        return Err(WriteOutcomeUnknown(progress, m.write));
      }
      progress := progress.(bytesWritten := SatAdd(progress.bytesWritten, |piece.bytes|));
      r := Ok(());
    }

    /** `race(transport.delay(..))`. */
    method Pause() returns (r: Result<(), ExecuteError>)
      modifies this`now
      ensures now >= old(now)
      ensures r.Err? ==> r.error == Cancelled(progress)
      ensures Plays(log, Play(environment, old(now), [Sleep]), r)
    {
      PlayOne(environment, now, Sleep);
      var m := Next();
      r := if m.cancelled then Err(Cancelled(progress)) else Ok(());
    }

    method WaitOnce() returns (r: Result<WaitOutcome, EffectError>)
      modifies this`now
      ensures now == old(now) + 1
      ensures r.Err? ==> !r.error.EffectResponse?
      ensures r == Waited(environment(old(now)))
      ensures Chunk(environment(old(now))) == if r.Ok? && r.value.Response? then r.value.bytes else []
    {
      var m := Next();
      if m.cancelled {
        return Err(EffectCancelled);
      }
      match m.wait
      case Ok(outcome) => r := Ok(outcome);
      case Err(e) => r := if e.kind == HostCancelled then Err(EffectCancelled) else Err(EffectTransport(e));
    }

    /** `collect_response`: a Phomemo frame is what the transport handed over during this call from its first 0x1a on,
        any other response exactly what it handed over. */
    method CollectFixed(v: ResponseValidation, retained: nat) returns (r: Result<WaitOutcome, EffectError>)
      modifies this`now
      ensures now >= old(now)
      ensures r.Ok? && r.value.Response? ==> retained + |r.value.bytes| <= MAX_RETAINED || r.value.bytes == []
      ensures r.Ok? && r.value.Response? ==> FrameOf(v, Delivered(environment, old(now), now), r.value.bytes)
      ensures r.Ok? && r.value.Response? && v.PhomemoNotification? ==> Validates(v, r.value.bytes)
      ensures Heard(now, r) == Listen(environment, v, retained, [], old(now), MAX_FIXED_RESPONSE_READS)
    {
      hide Delivered, FrameOf, Validates, Frame, Chunk, Waited, Listen;
      var bytes: seq<byte> := [];
      NothingDelivered(environment, now);
      for read := 0 to MAX_FIXED_RESPONSE_READS
        invariant now >= old(now) && bytes == Delivered(environment, old(now), now)
        invariant retained + |bytes| <= MAX_RETAINED || bytes == []
        invariant Listen(environment, v, retained, [], old(now), MAX_FIXED_RESPONSE_READS)
               == Listen(environment, v, retained, bytes, now, MAX_FIXED_RESPONSE_READS - read)
      {
        ListenEnds(environment, v, retained, bytes, now, MAX_FIXED_RESPONSE_READS - read);
        WholeFrame(v, bytes);
        if TimeIsUp() {
          return Ok(if bytes == [] || v.PhomemoNotification? then Timeout else Response(bytes));
        }
        DeliveredNext(environment, old(now), now);
        var outcome := WaitOnce();
        if outcome.Err? {
          return Err(outcome.error);
        }
        if !outcome.value.Response? {
          return Ok(if bytes == [] || v.PhomemoNotification? then outcome.value else Response(bytes));
        }
        if retained + |bytes| + |outcome.value.bytes| > MAX_RETAINED {
          return Err(EffectResponse(TOO_MUCH));
        }
        ListenNext(environment, v, retained, bytes, now - 1, MAX_FIXED_RESPONSE_READS - read);
        bytes := bytes + outcome.value.bytes;
        var frame := Frame(v, bytes);
        if frame.Some? {
          CompleteFrame(v, bytes);
          return Ok(Response(frame.value));
        }
      }
      WholeFrame(v, bytes);
      ListenEnds(environment, v, retained, bytes, now, 0);
      r := Ok(if v.PhomemoNotification? then Timeout else Response(bytes));
    }

    /** Whether the time allowed has passed, as the clock read before the next wait tells. */
    predicate TimeIsUp()
      reads this
    {
      environment(now).timeIsUp
    }

    /** `collect_multipart_response`: the response is exactly what the transport handed over during this call. */
    method CollectMultipart(maximum: nat) returns (r: Result<WaitOutcome, EffectError>)
      modifies this`now
      ensures now >= old(now)
      ensures r.Ok? && r.value.Response? ==>
        r.value.bytes == Delivered(environment, old(now), now) && 0 < |r.value.bytes| <= maximum
      ensures Heard(now, r) == Gather(environment, maximum, [], old(now), MAX_MULTIPART_READS)
    {
      hide Delivered, Chunk, Waited, Gather;
      var bytes: seq<byte> := [];
      var becameIdle := false;
      NothingDelivered(environment, now);
      for read := 0 to MAX_MULTIPART_READS
        invariant now >= old(now) && bytes == Delivered(environment, old(now), now) && |bytes| <= maximum
        invariant !becameIdle
        invariant Gather(environment, maximum, [], old(now), MAX_MULTIPART_READS)
               == Gather(environment, maximum, bytes, now, MAX_MULTIPART_READS - read)
      {
        GatherEnds(environment, maximum, bytes, now, MAX_MULTIPART_READS - read);
        if TimeIsUp() {
          break;
        }
        DeliveredNext(environment, old(now), now);
        var outcome := WaitOnce();
        if outcome.Err? {
          return Err(outcome.error);
        }
        match outcome.value
        case Response(chunk) =>
          if chunk == [] {
            becameIdle := true;
            break;
          }
          if |bytes| + |chunk| > maximum {
            return Err(EffectResponse(BEYOND_MAXIMUM));
          }
          GatherNext(environment, maximum, bytes, now - 1, MAX_MULTIPART_READS - read);
          bytes := bytes + chunk;
        case other =>
          return Ok(if bytes == [] then other else Response(bytes));
      }
      GatherEnds(environment, maximum, bytes, now, 0);
      if bytes == [] {
        return Ok(Timeout);
      }
      if !becameIdle && !TimeIsUp() {
        return Err(EffectResponse(NOT_IDLE));
      }
      r := Ok(Response(bytes));
    }

    function EffectFailure(e: EffectError): (r: ExecuteError)
      reads this
      ensures r.HasProgress() && r.progress == progress && !r.WriteOutcomeUnknown?
      ensures r == ErrorOf(WhyOf(e), progress)
    {
      match e
      case EffectCancelled => Cancelled(progress)
      case EffectTransport(source) =>
        if source.kind == HostCancelled then Cancelled(progress) else TransportFailed(progress, source)
      case EffectResponse(message) => BadResponse(progress, message)
    }

    /** Between actions: everything before action `i` was written and confirmed, and every retained response is
        accounted for. */
    ghost predicate Before(actions: seq<Action>, i: nat, limits: seq<nat>)
      requires i <= |actions| && Chunked(actions)
      reads this
    {
      Ready(actions, i, limits) && Reached(actions, i, limits) && Served(environment, actions, starts, i)
    }

    ghost predicate Ready(actions: seq<Action>, i: nat, limits: seq<nat>)
      requires i <= |actions| && Chunked(actions)
      reads this
    {
      && |limits| == i && Positive(limits)
      && Wrote(Flatten(actions[..i], limits))
      && progress.lastCompletedAction == LastOf(i)
      && Answered(actions, i)
    }

    /** Every action before `i` was reached, and cut under the limit in force. */
    ghost predicate Reached(actions: seq<Action>, i: nat, limits: seq<nat>)
      requires i <= |actions|
      reads this
    {
      && |starts| == i == |limits| && Negotiated(environment, actions, limits, starts)
      && (i > 0 ==> starts[i - 1] < now)
    }

    ghost predicate Answered(actions: seq<Action>, i: nat)
      requires i <= |actions|
      reads this
    {
      && Validated(environment, actions[..i], progress.responses, origins)
      && (origins != [] ==> origins[|origins| - 1].end <= now)
      && Retained(progress.responses) <= (if Waits(actions[..i]) then MAX_RETAINED else 0) +
        CollectMaximum(actions[..i])
    }

    /** Where a run that did not complete stopped: inside action `i`, under payload limit `limit`. Only the last write
        may be unconfirmed, and only if the run says so. */
    ghost predicate Halted(actions: seq<Action>, i: nat, limits: seq<nat>, limit: nat, e: ExecuteError)
      requires i < |actions| && Chunked(actions)
      reads this
    {
      && |limits| == i && Positive(limits) && limit > 0
      && Issued(log) <= Flatten(actions[..i], limits) + PiecesOf(actions[i], limit)
      && Flatten(actions[..i], limits) <= Issued(log)
      && Accounts() && Unconfirmed(log, e.WriteOutcomeUnknown?)
      && progress.lastCompletedAction == LastOf(i)
      && Answered(actions, i)
      && (e.HasProgress() ==> e.progress == progress)
    }

    method RunCommand(actions: seq<Action>, i: nat, ghost limits: seq<nat>) returns (r: Result<(), ExecuteError>)
      requires i < |actions| && Chunked(actions) && Ready(actions, i, limits) && actions[i].CommandWrite?
      modifies this`now, this`log, this`progress
      ensures now >= old(now)
      ensures r.Ok? ==> Wrote(Flatten(actions[..i], limits) + PiecesOf(actions[i], 1)) && SameNotes(old(progress))
      ensures r.Ok? ==> Answered(actions, i)
      ensures r.Err? ==> Halted(actions, i, limits, 1, r.error)
      ensures SameNotes(old(progress))
      ensures Plays(old(log), Play(environment, old(now), ScriptOf(environment, actions[i], i, old(now))), r)
    {
      ghost var done := Flatten(actions[..i], limits);
      r := WritePiece(Piece(Command, actions[i].bytes), done);
      if r.Err? && r.error.WriteOutcomeUnknown? {
        IssuedSnoc(old(log), Write(Piece(Command, actions[i].bytes), false, old(now) + 1));
      }
    }

    ghost predicate SameNotes(before: Progress)
      reads this
    {
      progress.responses == before.responses && progress.lastCompletedAction == before.lastCompletedAction
    }

    /** Writing stopped part of the way through `more`, after `done`. */
    ghost predicate Interrupted(done: seq<Piece>, more: seq<Piece>, e: ExecuteError)
      reads this
    {
      && done <= Issued(log) <= done + more
      && Accounts() && Unconfirmed(log, e.WriteOutcomeUnknown?)
      && (e.HasProgress() ==> e.progress == progress)
    }

    /** One physical write of a raster: a look at the cancellation, the write, and the delay after it. */
    method SendPiece(piece: Piece, ghost done: seq<Piece>) returns (r: Result<(), ExecuteError>)
      requires Wrote(done)
      modifies this`now, this`log, this`progress
      ensures now >= old(now)
      ensures SameNotes(old(progress))
      ensures r.Ok? ==> Wrote(done + [piece])
      ensures r.Err? ==> Interrupted(done, [piece], r.error)
      ensures Plays(old(log), Play(environment, old(now), RasterScript([piece])), r)
    {
      hide Issued, AcknowledgedBytes, SatAdd, Play, RasterScript;
      PlayPiece(environment, now, piece);
      AllConfirmed(log);
      var before := Next();
      if before.cancelled {
        return Err(Cancelled(progress));
      }
      IssuedSnoc(log, Write(piece, false, now + 1));
      r := WritePiece(piece, done);
      if r.Err? {
        return;
      }
      r := Pause();
    }

    /** The physical writes of one logical chunk. */
    method WriteChunk(pieces: seq<Piece>, ghost done: seq<Piece>) returns (r: Result<(), ExecuteError>)
      requires Wrote(done)
      modifies this`now, this`log, this`progress
      ensures now >= old(now)
      ensures SameNotes(old(progress))
      ensures r.Ok? ==> Wrote(done + pieces)
      ensures r.Err? ==> Interrupted(done, pieces, r.error)
      ensures Plays(old(log), Play(environment, old(now), RasterScript(pieces)), r)
    {
      hide Issued, AcknowledgedBytes, SatAdd, Play, RasterScript, Unconfirmed, AllAcknowledged;
      NoPlay(environment, now);
      assert done + pieces[..0] == done;
      for j := 0 to |pieces|
        invariant Wrote(done + pieces[..j]) && SameNotes(old(progress)) && now >= old(now)
        invariant Plays(old(log), Play(environment, old(now), RasterScript(pieces[..j])), Ok(()))
      {
        PrefixOfPieces(done, pieces, j);
        PlayNextPiece(environment, old(now), pieces, j);
        r := SendPiece(pieces[j], done + pieces[..j]);
        if r.Err? {
          return;
        }
      }
      assert pieces[..|pieces|] == pieces;
      r := Ok(());
    }

    /** The physical writes of all logical chunks. */
    method WriteLogicals(logicals: seq<seq<byte>>, limit: nat, ghost done: seq<Piece>)
      returns (r: Result<(), ExecuteError>)
      requires Wrote(done) && limit > 0
      modifies this`now, this`log, this`progress
      ensures now >= old(now)
      ensures SameNotes(old(progress))
      ensures r.Ok? ==> Wrote(done + RasterPieces(logicals, limit))
      ensures r.Err? ==> Interrupted(done, RasterPieces(logicals, limit), r.error)
      ensures Plays(old(log), Play(environment, old(now), RasterScript(RasterPieces(logicals, limit))), r)
    {
      hide Issued, AcknowledgedBytes, SatAdd, Chunks, AsPieces, RasterPieces, Play, RasterScript;
      hide AllAcknowledged, Unconfirmed;
      ghost var all, sent: seq<Piece> := RasterPieces(logicals, limit), [];
      assert done + sent == done && logicals[0..] == logicals && all == sent + all;
      NoPlay(environment, now);
      for k := 0 to |logicals|
        invariant Wrote(done + sent) && SameNotes(old(progress)) && now >= old(now)
        invariant all == sent + RasterPieces(logicals[k..], limit)
        invariant Plays(old(log), Play(environment, old(now), RasterScript(sent)), Ok(()))
      {
        var pieces := AsPieces(Chunks(logicals[k], limit));
        ghost var rest := RasterPieces(logicals[k + 1..], limit);
        NextLogical(logicals, limit, k);
        AddedPieces(done, sent, pieces, rest);
        PlayRasterConcat(environment, old(now), sent, pieces);
        PlayRasterConcat(environment, old(now), sent + pieces, rest);
        r := WriteChunk(pieces, done + sent);
        if r.Err? {
          return;
        }
        sent := sent + pieces;
      }
      NoLogicals(logicals, limit);
      assert all == sent;
      r := Ok(());
    }

    method RunRaster(actions: seq<Action>, i: nat, ghost limits: seq<nat>)
      returns (r: Result<(), ExecuteError>, ghost limit: nat)
      requires i < |actions| && Chunked(actions) && Ready(actions, i, limits) && actions[i].RasterWrite?
      modifies this`now, this`log, this`progress
      ensures now >= old(now)
      ensures limit == if environment(old(now)).payloadLimit > 0 then environment(old(now)).payloadLimit else 1
      ensures environment(old(now)).payloadLimit == 0 ==> r.Err? && log == old(log)
      ensures r.Ok? ==> Wrote(Flatten(actions[..i], limits) + PiecesOf(actions[i], limit))
      ensures SameNotes(old(progress)) && (r.Ok? ==> Answered(actions, i))
      ensures r.Err? ==> Halted(actions, i, limits, limit, r.error)
      ensures Plays(old(log), Play(environment, old(now), ScriptOf(environment, actions[i], i, old(now))), r)
    {
      hide Issued, Validated, Waits, Retained, CollectMaximum, Flatten, Chunks, RasterPieces, Play, RasterScript;
      ghost var done := Flatten(actions[..i], limits);
      limit := 1;
      PlayOne(environment, now, AskLimit(i));
      AllConfirmed(log);
      var m := Next();
      var payloadLimit := m.payloadLimit;
      if payloadLimit == 0 {
        assert [AskLimit(i)] + [] == [AskLimit(i)];
        return Err(InvalidPlan(i, "zero negotiated transport payload limit")), 1;
      }
      limit := payloadLimit;
      PlayConcat(environment, old(now), [AskLimit(i)], RasterScript(PiecesOf(actions[i], limit)));
      r := WriteLogicals(Chunks(actions[i].raster, actions[i].logicalChunk), payloadLimit, done);
    }

    method Keep(actions: seq<Action>, i: nat, bytes: seq<byte>, ghost start: nat)
      requires i < |actions| && Answered(actions, i) && Answers(actions[i], bytes)
      requires start <= now && HeardFor(actions[i], Delivered(environment, start, now), bytes)
      requires origins != [] ==> origins[|origins| - 1].end <= start
      requires actions[i].WaitForResponse? ==> Retained(progress.responses) + |bytes| <= MAX_RETAINED || bytes == []
      requires actions[i].CollectResponse? ==> |bytes| <= actions[i].maximumBytes
      modifies this`progress, this`origins
      ensures Answered(actions, i + 1)
      ensures progress == old(progress).(responses := old(progress).responses + [bytes])
    {
      hide Validated, Genuine, Validates, HeardFor, Delivered, Retained, Waits, CollectMaximum;
      var responses := progress.responses + [bytes];
      RetainedSnoc(progress.responses, bytes);
      ghost var o := Origin(i, start, now);
      assert Genuine(environment, actions, o, bytes) by { IsGenuine(environment, actions, o, bytes); }
      ValidatedNext(environment, actions, i, progress.responses, origins, o, bytes);
      NextAction(actions, i);
      progress := progress.(responses := responses);
      origins := origins + [o];
    }

    /** An action that retains no response leaves the retained responses accounted for. */
    ghost predicate Quiet(actions: seq<Action>, i: nat)
      requires i < |actions|
      reads this
    {
      Answered(actions, i) ==> Answered(actions, i + 1)
    }

    lemma Passed(actions: seq<Action>, i: nat)
      requires i < |actions|
      ensures Quiet(actions, i)
    {
      NextAction(actions, i);
      if Answered(actions, i) {
        MoreActions(environment, actions, i, i + 1, progress.responses, origins);
      }
    }

    method RunWait(actions: seq<Action>, i: nat, ghost limits: seq<nat>) returns (r: Result<(), ExecuteError>)
      requires i < |actions| && Chunked(actions) && Ready(actions, i, limits) && actions[i].WaitForResponse?
      modifies this`now, this`progress, this`origins
      ensures now >= old(now)
      ensures r.Ok? ==> Wrote(Flatten(actions[..i], limits)) && Answered(actions, i + 1)
      ensures r.Ok? ==> progress.lastCompletedAction == old(progress).lastCompletedAction
      ensures r.Err? ==> Halted(actions, i, limits, 1, r.error)
      ensures Follows(log, old(progress).responses, ListenCourse(environment, actions[i], old(now),
                                                                 Retained(old(progress).responses)), r)
    {
      hide Issued, Validated, Waits, Retained, CollectMaximum, Flatten, Validates, FrameOf, Delivered, Listen, Play;
      var v := actions[i].validation;
      Passed(actions, i);
      AllConfirmed(log);
      StopHere(actions, i, limits, 1);
      ghost var start := now;
      var outcome := CollectFixed(v, Retained(progress.responses));
      if outcome.Err? {
        return Err(EffectFailure(outcome.error));
      }
      if outcome.value.Response? {
        if !Validates(v, outcome.value.bytes) {
          return Err(BadResponse(progress, MISMATCH));
        }
        Keep(actions, i, outcome.value.bytes, start);
      } else if actions[i].fallbackDelayMs > 0 {
        r := Pause();
        if r.Err? {
          return;
        }
      } else if !v.BrotherStatus32? {
        return Err(ResponseTimeout(progress));
      }
      r := Ok(());
    }

    method RunCollect(actions: seq<Action>, i: nat, ghost limits: seq<nat>) returns (r: Result<(), ExecuteError>)
      requires i < |actions| && Chunked(actions) && Ready(actions, i, limits) && actions[i].CollectResponse?
      modifies this`now, this`progress, this`origins
      ensures now >= old(now)
      ensures r.Ok? ==> Wrote(Flatten(actions[..i], limits)) && Answered(actions, i + 1)
      ensures r.Ok? ==> progress.lastCompletedAction == old(progress).lastCompletedAction
      ensures r.Err? ==> Halted(actions, i, limits, 1, r.error)
      ensures Follows(log, old(progress).responses, ListenCourse(environment, actions[i], old(now),
                                                                 Retained(old(progress).responses)), r)
    {
      hide Issued, Validated, Waits, Retained, CollectMaximum, Flatten, Validates, FrameOf, Delivered, Gather, Play;
      AllConfirmed(log);
      StopHere(actions, i, limits, 1);
      ghost var start := now;
      var outcome := CollectMultipart(actions[i].maximumBytes);
      if outcome.Err? {
        return Err(EffectFailure(outcome.error));
      }
      if !outcome.value.Response? {
        return Err(ResponseTimeout(progress));
      }
      if !Validates(actions[i].collectValidation, outcome.value.bytes) {
        return Err(BadResponse(progress, MISMATCH));
      }
      Keep(actions, i, outcome.value.bytes, start);
      r := Ok(());
    }

    /** The effects of action `i`, under the payload limit `limit` if it is a raster. */
    method Perform(actions: seq<Action>, i: nat, ghost limits: seq<nat>, ghost limit: nat)
      returns (r: Result<(), ExecuteError>)
      requires i < |actions| && Chunked(actions) && Ready(actions, i, limits) && limit > 0
      requires actions[i].RasterWrite? ==>
        limit == if environment(now).payloadLimit > 0 then environment(now).payloadLimit else 1
      modifies this`now, this`log, this`progress, this`origins
      ensures now >= old(now)
      ensures actions[i].RasterWrite? && environment(old(now)).payloadLimit == 0 ==> r.Err? && log == old(log)
      ensures r.Ok? ==> Wrote(Flatten(actions[..i], limits) + PiecesOf(actions[i], limit)) && Answered(actions, i + 1)
      ensures r.Ok? ==> progress.lastCompletedAction == old(progress).lastCompletedAction
      ensures r.Err? ==> Halted(actions, i, limits, limit, r.error)
      ensures Follows(old(log), old(progress).responses,
                      PerformCourse(environment, actions[i], i, old(now), Retained(old(progress).responses)), r)
    {
      hide Issued, Validated, Waits, Retained, CollectMaximum, Flatten, RasterPieces, Chunks, Play, ListenCourse;
      NoPlay(environment, now);
      AllConfirmed(log);
      StopHere(actions, i, limits, limit);
      Passed(actions, i);
      match actions[i] {
        case JobBoundary(_) =>
          r := Ok(());
        case SubscribeNotifications =>
          r := Subscribe();
        case Delay(_) =>
          r := Pause();
        case CommandWrite(_, _, _) =>
          r := RunCommand(actions, i, limits);
        case RasterWrite(_, _, _) =>
          ghost var used;
          r, used := RunRaster(actions, i, limits);
        case WaitForResponse(_, _, _) =>
          r := RunWait(actions, i, limits);
        case CollectResponse(_, _, _, _) =>
          r := RunCollect(actions, i, limits);
      }
      Passed(actions, i);
    }

    /** Notes that action `i` is reached now, and the payload limit it gets. */
    ghost method Reach(actions: seq<Action>, i: nat, limits: seq<nat>) returns (limit: nat)
      requires i < |actions| && Chunked(actions) && Before(actions, i, limits)
      modifies this`starts
      ensures limit > 0 && starts == old(starts) + [now]
      ensures actions[i].RasterWrite? ==>
        limit == if environment(now + 1).payloadLimit > 0 then environment(now + 1).payloadLimit else 1
      ensures Negotiated(environment, actions, limits + [limit], starts)
      ensures Served(environment, actions, starts, i)
      ensures (actions[i].RasterWrite? ==> environment(now + 1).payloadLimit > 0) ==>
        Served(environment, actions, starts, i + 1)
    {
      hide Issued, Validated, Waits, Retained, CollectMaximum, Flatten, Negotiated, Served;
      limit := LimitAsked(environment, actions[i], now);
      ReachNext(environment, actions, limits, starts, now);
      ServedNext(environment, actions, starts, now);
      starts := starts + [now];
    }

    /** One turn of the action loop, up to the point where the action counts as completed. */
    method RunAction(actions: seq<Action>, i: nat, ghost limits: seq<nat>)
      returns (r: Result<(), ExecuteError>, ghost limit: nat)
      requires i < |actions| && Chunked(actions) && Before(actions, i, limits)
      modifies this`now, this`log, this`progress, this`origins, this`starts
      ensures limit > 0
      ensures r.Ok? ==> Before(actions, i + 1, limits + [limit])
      ensures r.Err? ==> Halted(actions, i, limits, limit, r.error) && Reached(actions, i + 1, limits + [limit])
      ensures r.Err? ==> Served(environment, actions, starts, i + 1) ||
                         (Served(environment, actions, starts, i) && Issued(log) == Flatten(actions[..i], limits))
      ensures starts == old(starts) + [old(now)]
      ensures Accounts() && progress.lastCompletedAction == LastOf(if r.Ok? then i + 1 else i)
      ensures Follows(old(log), old(progress).responses,
                      CourseOf(environment, actions[i], i, old(now), Retained(old(progress).responses)), r)
    {
      hide Issued, Validated, Waits, Retained, CollectMaximum, Flatten, PiecesOf, Negotiated, Served, AllAcknowledged;
      hide Unconfirmed, AcknowledgedBytes, PerformCourse, LimitAsked;
      limit := Reach(actions, i, limits);
      AllConfirmed(log);
      StopHere(actions, i, limits, limit);
      var before := Next();
      if before.cancelled {
        return Err(Cancelled(progress)), limit;
      }
      r := Perform(actions, i, limits, limit);
      if r.Ok? {
        Complete(actions, i, limits, limit);
      }
    }

    /** Action `i` counts as completed. */
    method Complete(actions: seq<Action>, i: nat, ghost limits: seq<nat>, ghost limit: nat)
      requires i < |actions| && Chunked(actions) && |limits| == i && Positive(limits) && limit > 0
      requires Wrote(Flatten(actions[..i], limits) + PiecesOf(actions[i], limit)) && Answered(actions, i + 1)
      modifies this`progress
      ensures progress == old(progress).(lastCompletedAction := Some(i))
      ensures Ready(actions, i + 1, limits + [limit])
    {
      hide Issued, Validated, Waits, Retained, CollectMaximum, Flatten, PiecesOf;
      FlattenSnoc(actions, i, limits, limit);
      progress := progress.(lastCompletedAction := Some(i));
    }

    method Subscribe() returns (r: Result<(), ExecuteError>)
      modifies this`now
      ensures now >= old(now)
      ensures r.Err? ==> r.error.HasProgress() && r.error.progress == progress && !r.error.WriteOutcomeUnknown?
      ensures Plays(log, Play(environment, old(now), [Join]), r)
    {
      PlayOne(environment, now, Join);
      var m := Next();
      if m.cancelled {
        return Err(Cancelled(progress));
      }
      match m.subscribe
      case Some(e) => r := Err(EffectFailure(EffectTransport(e)));
      case None => r := Ok(());
    }

    /** `execute_inner`: preflight, then the action loop. Whatever the environment does, the writes issued are a prefix
        of the plan's physical writes, in order and without repetition; all but possibly the last are confirmed; the
        last is unconfirmed exactly when the run ends with an unknown write outcome; and progress accounts for exactly
        what was confirmed and retained. */
    method Execute(actions: seq<Action>, payloadLimit: nat, commandLimit: nat)
      returns (r: Result<Progress, ExecuteError>, ghost limits: seq<nat>)
      requires Fresh()
      modifies this
      ensures !Admissible(actions, payloadLimit, commandLimit) ==>
        && r.Err? && RejectedFor(actions, payloadLimit, commandLimit, r.error) && !r.error.HasProgress()
        && log == [] && now == old(now)
      ensures Admissible(actions, payloadLimit, commandLimit) ==>
        && Chunked(actions) && |limits| == |actions| && Positive(limits)
        && RunOf(actions, limits, r, log, progress) && Validated(environment, actions, progress.responses, origins)
        && Negotiated(environment, actions, limits, starts) && StaysServed(actions, limits, r)
        && Ran(RunTo(environment, actions, |actions|, old(now)), r)
    {
      limits := [];
      var checked := Preflight(actions, payloadLimit, commandLimit);
      if checked.Err? {
        return Err(checked.error), [];
      }
      assert Chunked(actions) by {
        assert forall i :: 0 <= i < |actions| ==> ActionOk(actions[i], commandLimit);
      }
      r, limits := RunActions(actions);
    }

    /** Everything issued belongs to the first `n` actions, which were reached and got the limit they needed; that is
        all of them if the run completed. */
    ghost predicate WithinServed(actions: seq<Action>, limits: seq<nat>, n: nat, r: Result<Progress, ExecuteError>)
      requires |limits| == |actions| && Chunked(actions) && Positive(limits)
      reads this
    {
      && Served(environment, actions, starts, n)
      && Issued(log) <= Flatten(actions[..n], limits[..n])
      && (r.Ok? ==> n == |actions|)
    }

    ghost predicate StaysServed(actions: seq<Action>, limits: seq<nat>, r: Result<Progress, ExecuteError>)
      requires |limits| == |actions| && Chunked(actions) && Positive(limits)
      reads this
    {
      exists n: nat :: WithinServed(actions, limits, n, r)
    }

    method RunActions(actions: seq<Action>) returns (r: Result<Progress, ExecuteError>, ghost limits: seq<nat>)
      requires Fresh()
      requires Chunked(actions) && CollectMaximum(actions) <= MAX_RETAINED
      modifies this
      ensures |limits| == |actions| && Positive(limits)
      ensures RunOf(actions, limits, r, log, progress) && Validated(environment, actions, progress.responses, origins)
      ensures Negotiated(environment, actions, limits, starts) && StaysServed(actions, limits, r)
      ensures Ran(RunTo(environment, actions, |actions|, old(now)), r)
    {
      hide Validated, Waits, Issued, RunOf, Negotiated, Flatten, RunTo, CourseOf, Follows, Retained;
      limits := [];
      StartEmpty(actions);
      RunStart(environment, actions, now);
      Begun(now);
      for i := 0 to |actions|
        invariant Before(actions, i, limits)
        invariant Ran(RunTo(environment, actions, i, old(now)), Ok(progress))
      {
        var done;
        ghost var limit;
        RunNext(environment, actions, i, old(now), now);
        ghost var run := RunTo(environment, actions, i, old(now));
        ghost var c := CourseOf(environment, actions[i], i, now, Retained(run.responses));
        done, limit := RunAction(actions, i, limits);
        Added(run, c, done);
        if done.Err? {
          RunStays(environment, actions, i + 1, old(now));
          Conclude(actions, i, limits, limit, done.error);
          limits := Padded(limits, limit, |actions|);
          return Err(done.error), limits;
        }
        limits := limits + [limit];
      }
      Finish(actions, limits);
      r := Ok(progress);
    }

    /** The state of the executor is what this run comes to, and `r` is its result. */
    ghost predicate Ran(run: Run, r: Result<Progress, ExecuteError>)
      reads this
    {
      && starts == run.starts && log == run.log && now == run.ending.end
      && progress == run.Account() && r == run.Outcome()
    }

    /** An action that was reached has run its course. */
    lemma Added(run: Run, c: Course, done: Result<(), ExecuteError>)
      requires run.ending.Finished? && starts == run.starts + [run.ending.end]
      requires Follows(run.log, run.responses, c, done) && Accounts()
      requires progress.lastCompletedAction == LastOf(if done.Ok? then |starts| else |starts| - 1)
      ensures Ran(Run(run.starts + [run.ending.end], run.log + c.log, run.responses + c.responses, c.ending),
                  if done.Ok? then Ok(progress) else Err(done.error))
    {
      hide AcknowledgedBytes, SatAdd;
    }

    lemma Begun(t: nat)
      requires Fresh() && t == now
      ensures Ran(Run([], [], [], Finished(t)), Ok(progress))
    {
      assert AcknowledgedBytes([]) == 0;
    }

    lemma StartEmpty(actions: seq<Action>)
      requires Fresh() && Chunked(actions)
      ensures Before(actions, 0, [])
    {
    }

    lemma Finish(actions: seq<Action>, limits: seq<nat>)
      requires Chunked(actions) && Before(actions, |actions|, limits)
      ensures RunOf(actions, limits, Ok(progress), log, progress)
      ensures Validated(environment, actions, progress.responses, origins)
      ensures Negotiated(environment, actions, limits, starts) && StaysServed(actions, limits, Ok(progress))
    {
      hide Validated, Waits, Retained, CollectMaximum, Negotiated;
      assert actions[..|actions|] == actions && limits[..|limits|] == limits;
      AllConfirmed(log);
      assert WithinServed(actions, limits, |actions|, Ok(progress));
    }

    lemma Conclude(actions: seq<Action>, i: nat, limits: seq<nat>, limit: nat, e: ExecuteError)
      requires i < |actions| && Chunked(actions) && Halted(actions, i, limits, limit, e)
      requires Reached(actions, i + 1, limits + [limit])
      requires Served(environment, actions, starts, i + 1) ||
               (Served(environment, actions, starts, i) && Issued(log) == Flatten(actions[..i], limits))
      ensures Positive(Padded(limits, limit, |actions|))
      ensures RunOf(actions, Padded(limits, limit, |actions|), Err(e), log, progress)
      ensures Validated(environment, actions, progress.responses, origins)
      ensures Negotiated(environment, actions, Padded(limits, limit, |actions|), starts)
      ensures StaysServed(actions, Padded(limits, limit, |actions|), Err(e))
    {
      hide Issued, Retained, Flatten, CollectMaximum, PiecesOf, Waits, Validated;
      var all := Padded(limits, limit, |actions|);
      PaddedFlatten(actions, i, limits, limit);
      CollectMonotone(actions, i);
      WaitsMonotone(actions, i);
      MoreActions(environment, actions, i, |actions|, progress.responses, origins);
      assert actions[..|actions|] == actions;
      FlattenSnoc(actions, i, limits, limit);
      assert all[..i + 1] == limits + [limit] && all[..i] == limits;
      if Served(environment, actions, starts, i + 1) {
        assert WithinServed(actions, all, i + 1, Err(e));
      } else {
        assert WithinServed(actions, all, i, Err(e));
      }
    }
  }

  lemma AllConfirmed(log: seq<Write>)
    ensures AllAcknowledged(log) ==> Unconfirmed(log, false)
  {
  }

  lemma StopHere(actions: seq<Action>, i: nat, limits: seq<nat>, limit: nat)
    requires i < |actions| && Chunked(actions) && |limits| == i && Positive(limits) && limit > 0
    ensures var done := Flatten(actions[..i], limits);
      done <= done && done <= done + PiecesOf(actions[i], limit)
  {
  }

  lemma FlattenSnoc(actions: seq<Action>, i: nat, limits: seq<nat>, limit: nat)
    requires i < |actions| && Chunked(actions) && |limits| == i && Positive(limits) && limit > 0
    ensures Flatten(actions[..i + 1], limits + [limit]) == Flatten(actions[..i], limits) + PiecesOf(actions[i], limit)
  {
    FlattenConcat(actions[..i], limits, [actions[i]], [limit]);
    assert actions[..i + 1] == actions[..i] + [actions[i]];
    FlattenOne(actions[i], limit);
  }

  lemma FlattenOne(a: Action, limit: nat)
    requires limit > 0 && (a.RasterWrite? ==> a.logicalChunk > 0)
    ensures Flatten([a], [limit]) == PiecesOf(a, limit)
  {
    hide PiecesOf;
    assert [a][1..] == [] && [limit][1..] == [];
  }

  /** The payload limits of a run that stopped early, completed arbitrarily for the actions it did not reach. */
  function Padded(limits: seq<nat>, limit: nat, n: nat): (r: seq<nat>)
    requires |limits| < n
    ensures |r| == n
  {
    limits + [limit] + seq(n - |limits| - 1, _ => 1)
  }

  lemma PaddedFlatten(actions: seq<Action>, i: nat, limits: seq<nat>, limit: nat)
    requires i < |actions| && Chunked(actions) && |limits| == i && Positive(limits) && limit > 0
    ensures var all := Padded(limits, limit, |actions|);
      && Positive(all) && all[..i] == limits
      && Flatten(actions[..i], limits) + PiecesOf(actions[i], limit) <= Flatten(actions, all)
  {
    hide PiecesOf, Flatten;
    var all := Padded(limits, limit, |actions|);
    FlattenSnoc(actions, i, limits, limit);
    assert actions == actions[..i + 1] + actions[i + 1..];
    assert all == (limits + [limit]) + all[i + 1..];
    FlattenConcat(actions[..i + 1], limits + [limit], actions[i + 1..], all[i + 1..]);
  }

  lemma WaitsMonotone(actions: seq<Action>, i: nat)
    requires i <= |actions|
    ensures Waits(actions[..i]) ==> Waits(actions)
  {
    if Waits(actions[..i]) {
      var k :| 0 <= k < i && actions[..i][k].WaitForResponse?;
      assert actions[k].WaitForResponse?;
    }
  }

  /** What the log and the progress of a run say, whatever its result. */
  predicate RunOf(actions: seq<Action>, limits: seq<nat>, r: Result<Progress, ExecuteError>, log: seq<Write>,
                  p: Progress)
    requires |limits| == |actions| && Chunked(actions) && Positive(limits)
  {
    && Issued(log) <= Flatten(actions, limits)
    && Unconfirmed(log, r.Err? && r.error.WriteOutcomeUnknown?)
    && p.bytesWritten == SatAdd(0, AcknowledgedBytes(log)) && p.potentiallyAcceptedWrite == (log != [])
    && (match p.lastCompletedAction
        case None => true
        case Some(k) => k < |actions| && Flatten(actions[..k + 1], limits[..k + 1]) <= Issued(log))
    && Retained(p.responses) <= (if Waits(actions) then MAX_RETAINED else 0) + CollectMaximum(actions)
    && (r.Ok? ==> r.value == p && Issued(log) == Flatten(actions, limits))
    && (r.Ok? && actions != [] ==> p.lastCompletedAction == Some(|actions| - 1))
    && (r.Err? && r.error.HasProgress() ==> r.error.progress == p)
  }

  lemma PrefixOfPieces(done: seq<Piece>, pieces: seq<Piece>, j: nat)
    requires j < |pieces|
    ensures done <= done + pieces[..j] <= done + pieces
    ensures done + pieces[..j] + [pieces[j]] == done + pieces[..j + 1] <= done + pieces
  {
  }

  lemma NextLogical(logicals: seq<seq<byte>>, limit: nat, k: nat)
    requires k < |logicals| && limit > 0
    ensures RasterPieces(logicals[k..], limit)
         == AsPieces(Chunks(logicals[k], limit)) + RasterPieces(logicals[k + 1..], limit)
  {
    hide Chunks, AsPieces;
    assert logicals[k..][1..] == logicals[k + 1..];
  }

  lemma NoLogicals(logicals: seq<seq<byte>>, limit: nat)
    requires limit > 0
    ensures RasterPieces(logicals[|logicals|..], limit) == []
  {
    assert logicals[|logicals|..] == [];
  }

  lemma AddedPieces(done: seq<Piece>, sent: seq<Piece>, pieces: seq<Piece>, rest: seq<Piece>)
    ensures sent + (pieces + rest) == (sent + pieces) + rest
    ensures (done + sent) + pieces == done + (sent + pieces)
    ensures done <= done + sent && (done + sent) + pieces <= done + ((sent + pieces) + rest)
  {
    assert done + ((sent + pieces) + rest) == ((done + sent) + pieces) + rest;
  }

  lemma NextAction(actions: seq<Action>, i: nat)
    requires i < |actions|
    ensures actions[..i + 1] == actions[..i] + [actions[i]]
    ensures CollectMaximum(actions[..i + 1])
         == CollectMaximum(actions[..i]) + (if actions[i].CollectResponse? then actions[i].maximumBytes else 0)
    ensures Waits(actions[..i + 1]) <==> Waits(actions[..i]) || actions[i].WaitForResponse?
  {
    assert actions[..i + 1][..i] == actions[..i];
    if Waits(actions[..i]) {
      var k :| 0 <= k < i && actions[..i][k].WaitForResponse?;
      assert actions[..i + 1][k].WaitForResponse?;
    }
    if actions[i].WaitForResponse? {
      assert actions[..i + 1][i].WaitForResponse?;
    }
  }

  lemma RetainedSnoc(responses: seq<seq<byte>>, bytes: seq<byte>)
    ensures Retained(responses + [bytes]) == Retained(responses) + |bytes|
    ensures bytes == [] ==> |bytes| == 0
  {
    var all := responses + [bytes];
    assert all[..|all| - 1] == responses;
  }

  lemma IsGenuine(environment: nat -> Moment, actions: seq<Action>, o: Origin, bytes: seq<byte>)
    requires o.action < |actions| && o.start <= o.end && Answers(actions[o.action], bytes)
    requires HeardFor(actions[o.action], Delivered(environment, o.start, o.end), bytes)
    ensures Genuine(environment, actions, o, bytes)
  {
  }

  /** Responses stay accounted for when more of the plan is in view. */
  lemma MoreActions(environment: nat -> Moment, actions: seq<Action>, i: nat, n: nat, responses: seq<seq<byte>>,
                    origins: seq<Origin>)
    requires i <= n <= |actions| && Validated(environment, actions[..i], responses, origins)
    ensures Validated(environment, actions[..n], responses, origins)
  {
    hide Answers, HeardFor, Delivered;
    forall k | 0 <= k < |origins| ensures Genuine(environment, actions[..n], origins[k], responses[k]) {
      assert Genuine(environment, actions[..i], origins[k], responses[k]);
      assert actions[..i][origins[k].action] == actions[..n][origins[k].action];
    }
  }

  lemma ValidatedNext(environment: nat -> Moment, actions: seq<Action>, i: nat, responses: seq<seq<byte>>,
                      origins: seq<Origin>, o: Origin, bytes: seq<byte>)
    requires i < |actions| && Validated(environment, actions[..i], responses, origins)
    requires o.action == i && Genuine(environment, actions, o, bytes)
    requires origins != [] ==> origins[|origins| - 1].end <= o.start
    ensures Validated(environment, actions[..i + 1], responses + [bytes], origins + [o])
  {
    hide Answers, HeardFor, Delivered;
    MoreActions(environment, actions, i, i + 1, responses, origins);
    var from, all := origins + [o], responses + [bytes];
    forall k | 0 <= k < |from| ensures Genuine(environment, actions[..i + 1], from[k], all[k]) {
      if k < |origins| {
        assert Genuine(environment, actions[..i + 1], origins[k], responses[k]);
      }
    }
    forall j, k | 0 <= j < k < |from| ensures from[j].action < from[k].action && from[j].end <= from[k].start {
      if k == |origins| {
        assert Genuine(environment, actions[..i], origins[j], responses[j]);
        assert j < |origins| - 1 ==> origins[j].end <= origins[|origins| - 1].start;
        assert Genuine(environment, actions[..i], origins[|origins| - 1], responses[|origins| - 1]);
      }
    }
  }

  lemma ServedNext(environment: nat -> Moment, actions: seq<Action>, starts: seq<nat>, now: nat)
    requires |starts| < |actions| && Served(environment, actions, starts, |starts|)
    ensures Served(environment, actions, starts + [now], |starts|)
    ensures (actions[|starts|].RasterWrite? ==> environment(now + 1).payloadLimit > 0) ==>
            Served(environment, actions, starts + [now], |starts| + 1)
  {
  }

  lemma ReachNext(environment: nat -> Moment, actions: seq<Action>, limits: seq<nat>, starts: seq<nat>, now: nat)
    requires Negotiated(environment, actions, limits, starts) && |starts| == |limits| < |actions|
    requires starts != [] ==> starts[|starts| - 1] < now
    ensures Negotiated(environment, actions, limits + [LimitAsked(environment, actions[|starts|], now)], starts + [now])
  {
    hide LimitAsked;
    var later := starts + [now];
    forall j, k | 0 <= j < k < |later| ensures later[j] < later[k] {
      if k == |starts| && j < |starts| - 1 {
        assert starts[j] < starts[|starts| - 1];
      }
    }
  }
}
