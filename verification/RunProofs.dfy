/** What a run says is so: every confirmation is the transport's, every error has its cause at the moment the run ended,
    and a run that meets no trouble completes. */
module RunProofs {
  import opened Bytes
  import opened Plan
  import opened RunModel

  // ----- the log -----

  /** The writes lie between two moments, one after the other, and each counts as confirmed exactly when the transport
      took it before any cancellation. */
  predicate Truthful(environment: nat -> Moment, log: seq<Write>, start: nat, end: nat) {
    && start <= end
    && (forall k :: 0 <= k < |log| ==>
          start <= log[k].at < end && (log[k].acknowledged <==> Confirms(environment(log[k].at))))
    && (forall j, k :: 0 <= j < k < |log| ==> log[j].at < log[k].at)
  }

  lemma TruthfulConcat(environment: nat -> Moment, a: seq<Write>, b: seq<Write>, start: nat, middle: nat, end: nat)
    requires Truthful(environment, a, start, middle) && Truthful(environment, b, middle, end)
    ensures Truthful(environment, a + b, start, end)
  {
    hide Confirms;
  }

  lemma {:induction false} PlayTruthful(environment: nat -> Moment, t: nat, script: seq<Effect>)
    ensures var p := Play(environment, t, script); Truthful(environment, p.log, t, p.ending.end)
    decreases |script|
  {
    hide Truthful;
    if script == [] {
      assert Truthful(environment, [], t, t) by { NothingWritten(environment, t, t); }
    } else {
      var first := Logged(environment(t), script[0], t);
      OneWrite(environment, t, script[0]);
      if Trouble(environment(t), script[0]).None? {
        PlayTruthful(environment, t + 1, script[1..]);
        var rest := Play(environment, t + 1, script[1..]);
        TruthfulConcat(environment, first, rest.log, t, t + 1, rest.ending.end);
      }
    }
  }

  lemma NothingWritten(environment: nat -> Moment, start: nat, end: nat)
    requires start <= end
    ensures Truthful(environment, [], start, end)
  {
  }

  lemma OneWrite(environment: nat -> Moment, t: nat, e: Effect)
    ensures Truthful(environment, Logged(environment(t), e, t), t, t + 1)
  {
  }

  lemma {:induction false} ListenGoesOn(environment: nat -> Moment, v: ResponseValidation, retained: nat,
                                        heard: seq<byte>, t: nat, left: nat)
    ensures Listen(environment, v, retained, heard, t, left).end >= t
    decreases left
  {
    if left > 0 && Waited(environment(t)).Ok? && Waited(environment(t)).value.Response? {
      ListenGoesOn(environment, v, retained, heard + Waited(environment(t)).value.bytes, t + 1, left - 1);
    }
  }

  lemma {:induction false} GatherGoesOn(environment: nat -> Moment, maximum: nat, heard: seq<byte>, t: nat, left: nat)
    ensures Gather(environment, maximum, heard, t, left).end >= t
    decreases left
  {
    if left > 0 && Waited(environment(t)).Ok? && Waited(environment(t)).value.Response? {
      GatherGoesOn(environment, maximum, heard + Waited(environment(t)).value.bytes, t + 1, left - 1);
    }
  }

  lemma CourseTruthful(environment: nat -> Moment, a: Action, i: nat, t: nat, retained: nat)
    requires a.RasterWrite? ==> a.logicalChunk > 0
    ensures var c := CourseOf(environment, a, i, t, retained);
      Truthful(environment, c.log, t, c.ending.end) && c.ending.end > t
  {
    hide Truthful, ScriptOf, Listen, Gather, Play;
    NothingWritten(environment, t, t + 1);
    if environment(t).cancelled {
    } else if Listens(a) {
      var h := ListenFor(environment, a, retained, t + 1);
      if a.WaitForResponse? {
        ListenGoesOn(environment, a.validation, retained, [], t + 1, MAX_FIXED_RESPONSE_READS);
      } else {
        GatherGoesOn(environment, a.maximumBytes, [], t + 1, MAX_MULTIPART_READS);
      }
      PlayOne(environment, h.end, Sleep);
      NothingWritten(environment, t, CourseOf(environment, a, i, t, retained).ending.end);
    } else {
      var script := ScriptOf(environment, a, i, t + 1);
      PlayTruthful(environment, t + 1, script);
      var p := Play(environment, t + 1, script);
      assert t + 1 <= p.ending.end by { LaterEnd(environment, p, t + 1); }
      TruthfulConcat(environment, [], p.log, t, t + 1, p.ending.end);
      assert [] + p.log == p.log;
    }
  }

  lemma LaterEnd(environment: nat -> Moment, p: Played, start: nat)
    requires Truthful(environment, p.log, start, p.ending.end)
    ensures start <= p.ending.end
  {
  }

  /** Whatever a run's log claims is what the transport did: a write counts as confirmed exactly when the transport took
      it, at its own moment of the run, and the writes follow one another in time. */
  lemma {:induction false} RunIsTruthful(environment: nat -> Moment, actions: seq<Action>, n: nat, t: nat)
    requires n <= |actions| && Chunked(actions)
    ensures var run := RunTo(environment, actions, n, t); Truthful(environment, run.log, t, run.ending.end)
  {
    hide Truthful, CourseOf;
    if n == 0 {
      NothingWritten(environment, t, t);
    } else {
      RunIsTruthful(environment, actions, n - 1, t);
      var before := RunTo(environment, actions, n - 1, t);
      if before.ending.Finished? {
        CourseTruthful(environment, actions[n - 1], n - 1, before.ending.end, Retained(before.responses));
        var c := CourseOf(environment, actions[n - 1], n - 1, before.ending.end, Retained(before.responses));
        TruthfulConcat(environment, before.log, c.log, t, before.ending.end, c.ending.end);
      }
    }
  }

  // ----- why a run stops -----

  /** A script finishes exactly when none of its effects is troubled at its moment, and then takes one moment each;
      otherwise it stops right after the first that is. */
  lemma {:induction false} PlayStopsAtTrouble(environment: nat -> Moment, t: nat, script: seq<Effect>)
    ensures var e := Play(environment, t, script).ending;
      && (e.Finished? <==> forall k :: 0 <= k < |script| ==> Trouble(environment(t + k), script[k]).None?)
      && (e.Finished? ==> e.end == t + |script|)
      && (e.Stopped? ==>
            && t < e.end <= t + |script| && Trouble(environment(e.end - 1), script[e.end - 1 - t]) == Some(e.why)
            && forall k :: 0 <= k < e.end - 1 - t ==> Trouble(environment(t + k), script[k]).None?)
    decreases |script|
  {
    hide Trouble, Logged;
    if script != [] {
      var e := Play(environment, t, script).ending;
      if Trouble(environment(t), script[0]).Some? {
        assert Trouble(environment(t + 0), script[0]).Some?;
      } else {
        PlayStopsAtTrouble(environment, t + 1, script[1..]);
        forall k | 0 <= k < |script| && (e.Finished? || k < e.end - 1 - t)
          ensures Trouble(environment(t + k), script[k]).None?
        {
          if k > 0 {
            assert script[k] == script[1..][k - 1] && t + k == (t + 1) + (k - 1);
          }
        }
        if forall k :: 0 <= k < |script| ==> Trouble(environment(t + k), script[k]).None? {
          forall k | 0 <= k < |script[1..]| ensures Trouble(environment(t + 1 + k), script[1..][k]).None? {
            assert Trouble(environment(t + (k + 1)), script[k + 1]).None?;
          }
        }
      }
    }
  }

  /** A play that stops on an unconfirmed write has that write as the last of its log. */
  lemma {:induction false} InDoubtIsLast(environment: nat -> Moment, t: nat, script: seq<Effect>)
    ensures var p := Play(environment, t, script);
      p.ending.Stopped? && p.ending.why.InDoubt? ==> p.log != [] && p.log[|p.log| - 1].at == p.ending.end - 1
    decreases |script|
  {
    if script != [] && Trouble(environment(t), script[0]).None? {
      InDoubtIsLast(environment, t + 1, script[1..]);
    }
  }

  /** The transport has given up on this wait, or answered it with nothing. */
  predicate GaveUp(m: Moment) {
    !m.cancelled && m.wait.Ok? && Chunk(m) == []
  }

  /** What is heard between two moments is of no use to the action, and there is a reason not to wait any longer: the
      time is up, the transport has given up, or all reads are spent. */
  predicate Silence(environment: nat -> Moment, a: Action, from: nat, end: nat)
    requires Listens(a)
  {
    var heard := Delivered(environment, from, end);
    && from <= end
    && (if a.WaitForResponse? then Frame(a.validation, heard).None? else heard == [])
    && (heard == [] || ValidationOf(a).PhomemoNotification?)
    && (|| environment(end).timeIsUp
        || (end > from && GaveUp(environment(end - 1)))
        || (a.WaitForResponse? && end == from + MAX_FIXED_RESPONSE_READS))
  }

  /** What is heard between two moments cannot be accepted as the answer to the action. */
  predicate Unfit(environment: nat -> Moment, a: Action, retained: nat, from: nat, end: nat, message: string)
    requires Listens(a)
  {
    var heard := Delivered(environment, from, end);
    || (message == MISMATCH && !Validates(ValidationOf(a), heard))
    || (message == TOO_MUCH && a.WaitForResponse? && retained + |heard| > MAX_RETAINED)
    || (message == BEYOND_MAXIMUM && a.CollectResponse? && |heard| > a.maximumBytes)
    || (message == NOT_IDLE && a.CollectResponse? && end == from + MAX_MULTIPART_READS && !environment(end).timeIsUp)
  }

  /** The failure a wait at this moment ends with. */
  predicate WaitFailed(m: Moment, e: EffectError) {
    Waited(m) == Err(e) && !e.EffectResponse?
  }

  /** Listening from `from` to `h.end` ends with an answer in what was heard, in silence, or for a cause. */
  predicate HeardOut(environment: nat -> Moment, a: Action, retained: nat, from: nat, h: Heard)
    requires Listens(a)
  {
    && from <= h.end
    && match h.outcome
       case Ok(Response(bytes)) =>
         Validates(ValidationOf(a), bytes) || bytes == Delivered(environment, from, h.end)
       case Ok(_) => Silence(environment, a, from, h.end)
       case Err(EffectResponse(message)) => from < h.end && Unfit(environment, a, retained, from, h.end, message)
       case Err(e) => from < h.end && WaitFailed(environment(h.end - 1), e)
  }

  lemma NoFrameYet(v: ResponseValidation)
    ensures Frame(v, []).None?
  {
  }

  lemma FramesValidate(v: ResponseValidation, heard: seq<byte>)
    requires Frame(v, heard).Some?
    ensures Validates(v, Frame(v, heard).value) || Frame(v, heard).value == heard
  {
  }

  lemma {:induction false} ListenHeardOut(environment: nat -> Moment, a: Action, retained: nat, from: nat,
                                          heard: seq<byte>, t: nat, left: nat)
    requires a.WaitForResponse? && from <= t && heard == Delivered(environment, from, t)
    requires Frame(a.validation, heard).None? && t + left == from + MAX_FIXED_RESPONSE_READS
    ensures HeardOut(environment, a, retained, from, Listen(environment, a.validation, retained, heard, t, left))
    decreases left
  {
    hide Delivered, Frame, Validates, Expected;
    if left > 0 && !environment(t).timeIsUp {
      DeliveredNext(environment, from, t);
      var outcome := Waited(environment(t));
      if outcome.Ok? && outcome.value.Response? {
        var all := heard + outcome.value.bytes;
        if retained + |all| > MAX_RETAINED {
        } else if Frame(a.validation, all).Some? {
          FramesValidate(a.validation, all);
        } else {
          ListenHeardOut(environment, a, retained, from, all, t + 1, left - 1);
        }
      }
    }
  }

  lemma {:induction false} GatherHeardOut(environment: nat -> Moment, a: Action, retained: nat, from: nat,
                                          heard: seq<byte>, t: nat, left: nat)
    requires a.CollectResponse? && from <= t && heard == Delivered(environment, from, t)
    requires t + left == from + MAX_MULTIPART_READS && (t > from ==> heard != [])
    ensures HeardOut(environment, a, retained, from, Gather(environment, a.maximumBytes, heard, t, left))
    decreases left
  {
    hide Delivered, Validates;
    if left > 0 && !environment(t).timeIsUp {
      DeliveredNext(environment, from, t);
      var outcome := Waited(environment(t));
      if outcome.Ok? && outcome.value.Response? && outcome.value.bytes != [] {
        var all := heard + outcome.value.bytes;
        if |all| <= a.maximumBytes {
          GatherHeardOut(environment, a, retained, from, all, t + 1, left - 1);
        }
      }
    }
  }

  lemma ListensHeardOut(environment: nat -> Moment, a: Action, retained: nat, from: nat)
    requires Listens(a)
    ensures HeardOut(environment, a, retained, from, ListenFor(environment, a, retained, from))
  {
    hide HeardOut, Frame, Listen, Gather;
    NothingDelivered(environment, from);
    if a.WaitForResponse? {
      NoFrameYet(a.validation);
      ListenHeardOut(environment, a, retained, from, [], from, MAX_FIXED_RESPONSE_READS);
    } else {
      GatherHeardOut(environment, a, retained, from, [], from, MAX_MULTIPART_READS);
    }
  }

  /** The operation of action `a` failed at this moment with an error of the transport. */
  predicate FailedWith(m: Moment, a: Action, source: TransportError) {
    && !m.cancelled
    && ((a.SubscribeNotifications? && m.subscribe == Some(source)) || (Listens(a) && m.wait == Err(source)))
  }

  ghost predicate HostCancels(m: Moment, a: Action) {
    exists source :: FailedWith(m, a, source) && source.kind == HostCancelled
  }

  /** Why action `a`, the `i`-th of the plan and reached at `start`, stopped the run: the cause lies at the last moment,
      just before `end`, or in what was heard up to then. */
  ghost predicate Caused(environment: nat -> Moment, a: Action, i: nat, start: nat, retained: nat, log: seq<Write>,
                         end: nat, why: Why) {
    && start < end
    && var last := environment(end - 1);
       match why
       case Abandoned => last.cancelled || HostCancels(last, a)
       case InDoubt(ambiguity) =>
         && log != [] && log[|log| - 1].at == end - 1
         && ambiguity == (if last.cancelled then None else last.write) && !Confirms(last)
       case Broke(source) => FailedWith(last, a, source) && source.kind != HostCancelled
       case NoAnswer =>
         Listens(a) && Silence(environment, a, start + 1, end) && !(a.WaitForResponse? && a.fallbackDelayMs > 0)
       case Unusable(message) => Listens(a) && Unfit(environment, a, retained, start + 1, end, message)
       case NoLimit(action) => action == i && a.RasterWrite? && end == start + 2 && last.payloadLimit == 0
  }

  /** An effect of action `a` that was troubled at the moment before `end` is a cause. */
  lemma TroubleIsCause(environment: nat -> Moment, a: Action, i: nat, start: nat, retained: nat, log: seq<Write>,
                       end: nat, e: Effect, why: Why)
    requires start + 1 < end && Trouble(environment(end - 1), e) == Some(why)
    requires (e.Join? ==> a.SubscribeNotifications?)
          && (e.AskLimit? ==> a.RasterWrite? && end == start + 2 && e.action == i)
    requires why.InDoubt? ==> log != [] && log[|log| - 1].at == end - 1
    ensures Caused(environment, a, i, start, retained, log, end, why)
  {
    hide Silence, Unfit;
    var last := environment(end - 1);
    if e.Join? && !last.cancelled {
      assert FailedWith(last, a, last.subscribe.value);
    }
  }

  lemma ScriptCaused(environment: nat -> Moment, a: Action, i: nat, start: nat, retained: nat)
    requires !Listens(a) && (a.RasterWrite? ==> a.logicalChunk > 0) && !environment(start).cancelled
    requires CourseOf(environment, a, i, start, retained).ending.Stopped?
    ensures var c := CourseOf(environment, a, i, start, retained);
      Caused(environment, a, i, start, retained, c.log, c.ending.end, c.ending.why)
  {
    hide ScriptOf, Play, Trouble, Caused;
    var script := ScriptOf(environment, a, i, start + 1);
    PlayStopsAtTrouble(environment, start + 1, script);
    InDoubtIsLast(environment, start + 1, script);
    var p := Play(environment, start + 1, script);
    ScriptEffects(environment, a, i, start + 1, p.ending.end - 1 - (start + 1));
    TroubleIsCause(environment, a, i, start, retained, p.log, p.ending.end, script[p.ending.end - 1 - (start + 1)],
                   p.ending.why);
  }

  /** Only a subscription subscribes, and only a raster asks for the limit, first of all. */
  lemma ScriptEffects(environment: nat -> Moment, a: Action, i: nat, t: nat, k: nat)
    requires a.RasterWrite? ==> a.logicalChunk > 0
    requires k < |ScriptOf(environment, a, i, t)|
    ensures var e := ScriptOf(environment, a, i, t)[k];
      && (e.Join? ==> a.SubscribeNotifications?)
      && (e.AskLimit? ==> a.RasterWrite? && k == 0 && e.action == i)
  {
    hide RasterScript, PiecesOf;
    if a.RasterWrite? && k > 0 {
      RasterEffects(PiecesOf(a, environment(t).payloadLimit), k - 1);
    }
  }

  lemma {:induction false} RasterEffects(pieces: seq<Piece>, k: nat)
    requires k < |RasterScript(pieces)|
    ensures !RasterScript(pieces)[k].Join? && !RasterScript(pieces)[k].AskLimit?
  {
    if k >= 4 {
      RasterEffects(pieces[1..], k - 4);
    }
  }

  lemma ListenCaused(environment: nat -> Moment, a: Action, i: nat, start: nat, retained: nat)
    requires Listens(a) && !environment(start).cancelled
    requires CourseOf(environment, a, i, start, retained).ending.Stopped?
    ensures var c := CourseOf(environment, a, i, start, retained);
      Caused(environment, a, i, start, retained, c.log, c.ending.end, c.ending.why)
  {
    hide Delivered, Validates, Frame, ListenFor, Silence;
    var h := ListenFor(environment, a, retained, start + 1);
    ListensHeardOut(environment, a, retained, start + 1);
    PlayOne(environment, h.end, Sleep);
    match h.outcome
    case Err(EffectResponse(_)) =>
    case Err(e) =>
      var last := environment(h.end - 1);
      assert WaitFailed(last, e);
      if !last.cancelled {
        assert FailedWith(last, a, last.wait.error);
      }
    case Ok(_) =>
  }

  lemma CourseCaused(environment: nat -> Moment, a: Action, i: nat, start: nat, retained: nat)
    requires a.RasterWrite? ==> a.logicalChunk > 0
    requires CourseOf(environment, a, i, start, retained).ending.Stopped?
    ensures var c := CourseOf(environment, a, i, start, retained);
      Caused(environment, a, i, start, retained, c.log, c.ending.end, c.ending.why) && c.responses == []
  {
    hide ListenFor, Play, ScriptOf;
    if environment(start).cancelled {
    } else if Listens(a) {
      ListenCaused(environment, a, i, start, retained);
    } else {
      ScriptCaused(environment, a, i, start, retained);
    }
  }

  /** A run that stops does so in the last action it reached, and for a cause: a cancellation, a write the transport did
      not confirm, a failure of the transport, silence, an unfit answer or a missing limit, at the moment the run
      ended. */
  lemma {:induction false} RunStopsForCause(environment: nat -> Moment, actions: seq<Action>, n: nat, t: nat)
    requires n <= |actions| && Chunked(actions) && RunTo(environment, actions, n, t).ending.Stopped?
    ensures var run := RunTo(environment, actions, n, t);
      && 0 < |run.starts| <= n
      && var i := |run.starts| - 1;
         && t <= run.starts[i]
         && Caused(environment, actions[i], i, run.starts[i], Retained(run.responses), run.log, run.ending.end,
                   run.ending.why)
  {
    hide CourseOf, Caused, Retained;
    if n > 0 {
      var before := RunTo(environment, actions, n - 1, t);
      if before.ending.Stopped? {
        RunStopsForCause(environment, actions, n - 1, t);
      } else {
        StartsCounted(environment, actions, n - 1, t);
        CourseCaused(environment, actions[n - 1], n - 1, before.ending.end, Retained(before.responses));
        var c := CourseOf(environment, actions[n - 1], n - 1, before.ending.end, Retained(before.responses));
        CauseStays(environment, actions[n - 1], n - 1, before.ending.end, Retained(before.responses), before.log, c);
        assert before.responses + [] == before.responses;
        RunIsTruthful(environment, actions, n - 1, t);
      }
    }
  }

  /** The same in terms of the result of a whole run: success is a run without trouble, and each error tells what
      happened at the last moment of the run. */
  lemma EndsAsReported(environment: nat -> Moment, actions: seq<Action>, t: nat, r: Result<Progress, ExecuteError>)
    requires Chunked(actions) && r == RunTo(environment, actions, |actions|, t).Outcome()
    ensures r.Ok? <==> forall j :: 0 <= j < |actions| ==> Passes(environment, actions, t, j)
    ensures r.Err? ==>
      var run := RunTo(environment, actions, |actions|, t);
      && run.starts != [] && run.ending.end > run.starts[|run.starts| - 1] >= t
      && var i, end := |run.starts| - 1, run.ending.end;
         var a, start, last := actions[i], run.starts[i], environment(end - 1);
         match r.error
         case Cancelled(_) => last.cancelled || HostCancels(last, a)
         case WriteOutcomeUnknown(_, ambiguity) =>
           && run.log != [] && run.log[|run.log| - 1].at == end - 1 && !Confirms(last)
           && ambiguity == (if last.cancelled then None else last.write)
         case TransportFailed(_, source) => FailedWith(last, a, source) && source.kind != HostCancelled
         case ResponseTimeout(_) => Listens(a) && Silence(environment, a, start + 1, end)
         case BadResponse(_, message) =>
           Listens(a) && Unfit(environment, a, Retained(run.responses), start + 1, end, message)
         case InvalidPlan(action, _) => action == i && a.RasterWrite? && last.payloadLimit == 0
         case _ => false
  {
    hide RunTo, Passes, Silence, Unfit, Retained;
    RunCompletesExactly(environment, actions, |actions|, t);
    if r.Err? {
      RunStopsForCause(environment, actions, |actions|, t);
    }
  }

  lemma CauseStays(environment: nat -> Moment, a: Action, i: nat, start: nat, retained: nat, log: seq<Write>, c: Course)
    requires c.ending.Stopped?
    requires Caused(environment, a, i, start, retained, c.log, c.ending.end, c.ending.why)
    ensures Caused(environment, a, i, start, retained, log + c.log, c.ending.end, c.ending.why)
  {
    hide Silence, Unfit;
  }

  lemma {:induction false} StartsCounted(environment: nat -> Moment, actions: seq<Action>, n: nat, t: nat)
    requires n <= |actions| && Chunked(actions) && RunTo(environment, actions, n, t).ending.Finished?
    ensures |RunTo(environment, actions, n, t).starts| == n
  {
    hide CourseOf, Retained;
    if n > 0 {
      StartsCounted(environment, actions, n - 1, t);
    }
  }

  // ----- when a run completes -----

  predicate MayGoWithout(a: Action) {
    a.WaitForResponse? && (a.fallbackDelayMs > 0 || a.validation.BrotherStatus32?)
  }

  /** Action `a`, reached at `start`, meets no trouble: no cancellation at its moments, no failure of the operations it
      asks of the transport, a limit for its raster, and an answer that validates or that it may go without. */
  predicate Untroubled(environment: nat -> Moment, a: Action, i: nat, start: nat, retained: nat)
    requires a.RasterWrite? ==> a.logicalChunk > 0
  {
    && !environment(start).cancelled
    && if Listens(a) then
         var h := ListenFor(environment, a, retained, start + 1);
         && h.outcome.Ok?
         && (if h.outcome.value.Response? then Validates(ValidationOf(a), h.outcome.value.bytes)
             else MayGoWithout(a) && (a.fallbackDelayMs > 0 ==> !environment(h.end).cancelled))
       else
         var script := ScriptOf(environment, a, i, start + 1);
         forall k :: 0 <= k < |script| ==> Trouble(environment(start + 1 + k), script[k]).None?
  }

  lemma CourseFinishes(environment: nat -> Moment, a: Action, i: nat, start: nat, retained: nat)
    requires a.RasterWrite? ==> a.logicalChunk > 0
    ensures CourseOf(environment, a, i, start, retained).ending.Finished?
       <==> Untroubled(environment, a, i, start, retained)
  {
    hide ListenFor, ScriptOf, Play, Validates, Trouble;
    if Listens(a) {
      PlayOne(environment, ListenFor(environment, a, retained, start + 1).end, Sleep);
      assert forall m: Moment :: Trouble(m, Sleep).None? <==> !m.cancelled by { SleepTrouble(); }
    } else {
      PlayStopsAtTrouble(environment, start + 1, ScriptOf(environment, a, i, start + 1));
    }
  }

  lemma SleepTrouble()
    ensures forall m: Moment :: Trouble(m, Sleep).None? <==> !m.cancelled
  {
  }

  /** Action `j`, with the state in which the actions before it leave the run. */
  predicate Passes(environment: nat -> Moment, actions: seq<Action>, t: nat, j: nat)
    requires j < |actions| && Chunked(actions)
  {
    var before := RunTo(environment, actions, j, t);
    Untroubled(environment, actions[j], j, before.ending.end, Retained(before.responses))
  }

  /** A run completes exactly when no action meets trouble. */
  lemma {:induction false} RunCompletesExactly(environment: nat -> Moment, actions: seq<Action>, n: nat, t: nat)
    requires n <= |actions| && Chunked(actions)
    ensures RunTo(environment, actions, n, t).ending.Finished?
       <==> forall j :: 0 <= j < n ==> Passes(environment, actions, t, j)
  {
    hide Untroubled, CourseOf;
    if n > 0 {
      RunCompletesExactly(environment, actions, n - 1, t);
      var before := RunTo(environment, actions, n - 1, t);
      CourseFinishes(environment, actions[n - 1], n - 1, before.ending.end, Retained(before.responses));
      assert before.ending.Finished? ==>
        (RunTo(environment, actions, n, t).ending.Finished? <==> Passes(environment, actions, t, n - 1));
    }
  }

  /** Nothing goes wrong at this moment, whatever is asked. */
  predicate Quiet(m: Moment) {
    !m.cancelled && m.write.None? && m.subscribe.None? && m.wait.Ok?
  }

  /** Listening for action `a` from `from` on yields an answer that validates, or none where the action may do without
      one. */
  predicate AnsweredWell(environment: nat -> Moment, a: Action, from: nat, retained: nat)
    requires Listens(a)
  {
    match ListenFor(environment, a, retained, from).outcome
    case Ok(Response(bytes)) => Validates(ValidationOf(a), bytes)
    case Ok(_) => MayGoWithout(a)
    case Err(e) => !e.EffectResponse?
  }

  lemma QuietCourse(environment: nat -> Moment, a: Action, i: nat, start: nat, retained: nat)
    requires a.RasterWrite? ==> a.logicalChunk > 0 && environment(start + 1).payloadLimit > 0
    requires Listens(a) ==> AnsweredWell(environment, a, start + 1, retained)
    requires forall m ::
      start <= m < CourseOf(environment, a, i, start, retained).ending.end ==> Quiet(environment(m))
    ensures CourseOf(environment, a, i, start, retained).ending.Finished?
  {
    hide ListenFor, Play, ScriptOf, Validates, Silence, Unfit;
    var c := CourseOf(environment, a, i, start, retained);
    if c.ending.Stopped? {
      CourseCaused(environment, a, i, start, retained);
      assert Quiet(environment(c.ending.end - 1));
      if Listens(a) {
        PlayOne(environment, ListenFor(environment, a, retained, start + 1).end, Sleep);
      }
    }
  }

  /** What the environment must grant the `j`-th action reached besides quiet moments: a limit for a raster, a good
      answer where the action listens. */
  predicate Granted(environment: nat -> Moment, actions: seq<Action>, t: nat, starts: seq<nat>, j: nat)
    requires j < |starts| <= |actions| && Chunked(actions)
  {
    && (actions[j].RasterWrite? ==> environment(starts[j] + 1).payloadLimit > 0)
    && (Listens(actions[j]) ==>
          AnsweredWell(environment, actions[j], starts[j] + 1, Retained(RunTo(environment, actions, j, t).responses)))
  }

  /** A run only grows with the number of its actions. */
  lemma RunGrows(environment: nat -> Moment, actions: seq<Action>, n: nat, t: nat)
    requires 0 < n <= |actions| && Chunked(actions)
    ensures var run, before := RunTo(environment, actions, n, t), RunTo(environment, actions, n - 1, t);
      before.starts <= run.starts && t <= before.ending.end <= run.ending.end
  {
    hide CourseOf, Retained;
    var before := RunTo(environment, actions, n - 1, t);
    RunIsTruthful(environment, actions, n - 1, t);
    if before.ending.Finished? {
      CourseTruthful(environment, actions[n - 1], n - 1, before.ending.end, Retained(before.responses));
    }
  }

  /** A run during which nothing is cancelled and nothing fails, whose rasters get a limit and whose waits and
      collections get answers that validate, completes. */
  lemma {:induction false} QuietRunCompletes(environment: nat -> Moment, actions: seq<Action>, n: nat, t: nat)
    requires n <= |actions| && Chunked(actions)
    requires forall m :: t <= m < RunTo(environment, actions, n, t).ending.end ==> Quiet(environment(m))
    requires forall j :: 0 <= j < |RunTo(environment, actions, n, t).starts| ==>
      Granted(environment, actions, t, RunTo(environment, actions, n, t).starts, j)
    ensures RunTo(environment, actions, n, t).ending.Finished?
    ensures |RunTo(environment, actions, n, t).starts| == n
  {
    hide CourseOf, AnsweredWell, Quiet, Retained;
    if n > 0 {
      var run, before := RunTo(environment, actions, n, t), RunTo(environment, actions, n - 1, t);
      RunGrows(environment, actions, n, t);
      forall j | 0 <= j < |before.starts| ensures Granted(environment, actions, t, before.starts, j) {
        assert Granted(environment, actions, t, run.starts, j);
      }
      QuietRunCompletes(environment, actions, n - 1, t);
      assert Granted(environment, actions, t, run.starts, n - 1);
      QuietCourse(environment, actions[n - 1], n - 1, before.ending.end, Retained(before.responses));
    }
  }
}
