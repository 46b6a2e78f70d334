/** Applying a confirmed IPP change to an arbitrary printer (crates/mb-printer-native/src/transports/ipp.rs,
    `plan_change` and `apply_confirmed_change`; section 4 of RFC 3380) and the agent that guards it
    (crates/mb-printer-agent/src/administration_execution.rs). What the printer answers to the n-th exchange of a call
    is given by a function. */
module ConfirmedChange {
  import opened Bytes
  import opened IppModel
  import opened Administration
  import opened SettingValues
  import opened Observations

  datatype Operation = ReadAttributes | ReadSupported | WriteAttribute(setting: Text, value: Value)

  /** A failed exchange may or may not have reached the printer. */
  datatype Reply = Answer(message: Message) | Failed

  datatype Event = Event(op: Operation, reply: Reply)

  type Printer = nat -> Reply

  datatype Outcome =
    | Verified(observation: Message)
    | Rejected(response: Message)
    | ReadBackMismatch(observation: Message)
    | Ambiguous(stage: string)

  datatype ApplyError = Endpoint | PreWriteRead | SupportedValuesInvalid | Stale(error: ChangeError)

  predicate ReadsSupported(setting: Text) {
    EndsWith(setting, Ascii("-supported"))
  }

  lemma ReadsSupportedExact(setting: Text)
    ensures ReadsSupported(setting) <==> exists base :: setting == base + Ascii("-supported")
  {
    hide Ascii, EndsWith;
    EndsWithExact(setting, Ascii("-supported"));
  }

  /** How many exchanges precede the read that licenses the write. */
  function Before(setting: Text): (n: nat) {
    if ReadsSupported(setting) then 1 else 0
  }

  predicate SupportedReadable(setting: Text, printer: Printer) {
    ReadsSupported(setting) ==> printer(0).Answer? && ParseSupported(printer(0).message).Ok?
  }

  function SupportedRead(setting: Text, printer: Printer): (r: Option<SupportedValues>)
    requires SupportedReadable(setting, printer)
  {
    if ReadsSupported(setting) then Some(ParseSupported(printer(0).message).value) else None
  }

  /** Everything read before the write licenses it. */
  predicate Licensed(plan: ChangePlan, binding: Binding, printer: Printer, hash: Attribute -> Digest) {
    && SupportedReadable(plan.setting, printer)
    && printer(Before(plan.setting)).Answer?
    && Confirmed(plan, printer(Before(plan.setting)).message, SupportedRead(plan.setting, printer), binding, hash)
  }

  function Writes(events: seq<Event>): (n: nat) {
    if events == [] then 0
    else Writes(events[..|events| - 1]) + (if events[|events| - 1].op.WriteAttribute? then 1 else 0)
  }

  lemma WritesSnoc(events: seq<Event>, e: Event)
    ensures Writes(events + [e]) == Writes(events) + (if e.op.WriteAttribute? then 1 else 0)
  {
    var all := events + [e];
    assert all[..|all| - 1] == events;
  }

  predicate Exchanged(events: seq<Event>, printer: Printer) {
    forall i :: 0 <= i < |events| ==> events[i].reply == printer(i)
  }

  /** The reply to the write, and what it means. */
  function WriteReply(plan: ChangePlan, printer: Printer): (r: Reply) {
    printer(Before(plan.setting) + 1)
  }

  function VerifyReply(plan: ChangePlan, printer: Printer): (r: Reply) {
    printer(Before(plan.setting) + 2)
  }

  predicate Accepted(r: Reply) {
    r.Answer? && r.message.code < 0x0100
  }

  /** What each outcome says of the replies to the write and to the read that verifies it; exactly one of them fits. */
  predicate Concluded(plan: ChangePlan, printer: Printer, outcome: Outcome) {
    var written, read := WriteReply(plan, printer), VerifyReply(plan, printer);
    match outcome
    case Verified(observation) => Accepted(written) && read == Answer(observation) && Applied(plan, observation)
    case ReadBackMismatch(observation) =>
      Accepted(written) && read == Answer(observation) && !Applied(plan, observation)
    case Rejected(response) => written == Answer(response) && !Accepted(written)
    case Ambiguous(stage) =>
      || (stage == "write" && written.Failed?)
      || (stage == "verification-read" && Accepted(written) && read.Failed?)
  }

  /** Why nothing was written. */
  predicate Prevented(plan: ChangePlan, binding: Binding, endpointValid: bool, printer: Printer,
                      hash: Attribute -> Digest, e: ApplyError) {
    match e
    case Endpoint => !endpointValid
    case PreWriteRead =>
      && endpointValid
      && ((ReadsSupported(plan.setting) && printer(0).Failed?) ||
          (SupportedReadable(plan.setting, printer) && printer(Before(plan.setting)).Failed?))
    case SupportedValuesInvalid =>
      endpointValid && ReadsSupported(plan.setting) && printer(0).Answer? && ParseSupported(printer(0).message).Err?
    case Stale(error) =>
      && endpointValid && SupportedReadable(plan.setting, printer) && printer(Before(plan.setting)).Answer?
      && ValidationError(plan, printer(Before(plan.setting)).message, SupportedRead(plan.setting, printer), binding,
                         hash) == Some(error)
  }

  /** The exchanges of an apply in order: the supported values if the setting needs them, the read that licenses the
      write, the write of exactly the confirmed value, and the read that verifies it. */
  function OperationAt(plan: ChangePlan, i: nat): (op: Operation) {
    if i < Before(plan.setting) then ReadSupported
    else if i == Before(plan.setting) + 1 then WriteAttribute(plan.setting, plan.requestedProtocolValue)
    else ReadAttributes
  }

  /** How an apply ends, and what it exchanged with the printer. */
  predicate ApplyConcludes(plan: ChangePlan, binding: Binding, endpointValid: bool, printer: Printer,
                           hash: Attribute -> Digest, r: Result<Outcome, ApplyError>, events: seq<Event>) {
    && Exchanged(events, printer)
    && (forall i :: 0 <= i < |events| ==> events[i].op == OperationAt(plan, i))
    && (r.Ok? <==> endpointValid && Licensed(plan, binding, printer, hash))
    && (r.Ok? ==> Concluded(plan, printer, r.value))
    && (r.Ok? ==> |events| == Before(plan.setting) + if Accepted(WriteReply(plan, printer)) then 3 else 2)
    && (r.Err? ==> Prevented(plan, binding, endpointValid, printer, hash, r.error))
    && (r.Err? ==> |events| <= Before(plan.setting) + 1)
  }

  /** The exchanges so far are those of an apply, the first `n` of them. */
  predicate Underway(plan: ChangePlan, printer: Printer, events: seq<Event>, n: nat) {
    |events| == n && Exchanged(events, printer) && forall i :: 0 <= i < n ==> events[i].op == OperationAt(plan, i)
  }

  /** The reads before the write, and whether they license it. */
  method ReadLicense(plan: ChangePlan, binding: Binding, endpointValid: bool, printer: Printer,
                     hash: Attribute -> Digest)
    returns (prevented: Option<ApplyError>, events: seq<Event>)
    ensures prevented.None? <==> endpointValid && Licensed(plan, binding, printer, hash)
    ensures prevented.Some? ==> Prevented(plan, binding, endpointValid, printer, hash, prevented.value)
    ensures Underway(plan, printer, events, |events|) && Writes(events) == 0 && |events| <= Before(plan.setting) + 1
    ensures prevented.None? ==> |events| == Before(plan.setting) + 1
  {
    hide ParseSupported, Confirmed, ValidationError, EndsWith, Ascii, Writes;
    NoWrites();
    events := [];
    if !endpointValid {
      return Some(Endpoint), events;
    }
    var supported: Option<SupportedValues> := None;
    if ReadsSupported(plan.setting) {
      events := Exchange(events, ReadSupported, printer);
      var reply := events[0].reply;
      if reply.Failed? {
        return Some(PreWriteRead), events;
      }
      var parsed := ParseSupported(reply.message);
      if parsed.Err? {
        return Some(SupportedValuesInvalid), events;
      }
      supported := Some(parsed.value);
    }
    events := Exchange(events, ReadAttributes, printer);
    var current := events[|events| - 1].reply;
    if current.Failed? {
      return Some(PreWriteRead), events;
    }
    ValidationExact(plan, current.message, supported, binding, hash);
    var stale := ValidationError(plan, current.message, supported, binding, hash);
    if stale.Some? {
      return Some(Stale(stale.value)), events;
    }
    prevented := None;
  }

  /** The write, once it is licensed, and the read that verifies it. */
  method WriteAndVerify(plan: ChangePlan, printer: Printer, before: seq<Event>)
    returns (outcome: Outcome, events: seq<Event>)
    requires Underway(plan, printer, before, Before(plan.setting) + 1)
    ensures Concluded(plan, printer, outcome)
    ensures Underway(plan, printer, events,
                     Before(plan.setting) + if Accepted(WriteReply(plan, printer)) then 3 else 2)
    ensures Writes(events) == Writes(before) + 1
  {
    hide Applied, EndsWith, Ascii, Writes;
    events := Exchange(before, WriteAttribute(plan.setting, plan.requestedProtocolValue), printer);
    var written := events[|events| - 1].reply;
    if written.Failed? {
      return Ambiguous("write"), events;
    }
    if written.message.code >= 0x0100 {
      return Rejected(written.message), events;
    }
    events := Exchange(events, ReadAttributes, printer);
    var verification := events[|events| - 1].reply;
    if verification.Failed? {
      return Ambiguous("verification-read"), events;
    }
    if Applied(plan, verification.message) {
      return Verified(verification.message), events;
    }
    return ReadBackMismatch(verification.message), events;
  }

  /** Re-reads, writes once if everything still matches, and verifies by reading again. */
  method ApplyConfirmedChange(plan: ChangePlan, binding: Binding, endpointValid: bool, printer: Printer,
                              hash: Attribute -> Digest)
    returns (r: Result<Outcome, ApplyError>, events: seq<Event>)
    ensures Exchanged(events, printer) && ApplyConcludes(plan, binding, endpointValid, printer, hash, r, events)
    // an error means nothing was written; otherwise exactly one write was sent
    ensures r.Ok? <==> endpointValid && Licensed(plan, binding, printer, hash)
    ensures Writes(events) == if r.Ok? then 1 else 0
    // the write directly follows the read that licenses it, and is the confirmed one
    ensures r.Ok? ==> |events| >= Before(plan.setting) + 2
    ensures r.Ok? ==> events[Before(plan.setting)].op == ReadAttributes
    ensures r.Ok? ==> events[Before(plan.setting) + 1].op == WriteAttribute(plan.setting, plan.requestedProtocolValue)
    // what each outcome says
    ensures r.Ok? && r.value.Verified? <==>
            r.Ok? && Accepted(WriteReply(plan, printer)) && VerifyReply(plan, printer).Answer? &&
            Applied(plan, VerifyReply(plan, printer).message)
    ensures r.Ok? && Consistent(plan) ==>
            (r.value.Verified? <==>
             Accepted(WriteReply(plan, printer)) && VerifyReply(plan, printer).Answer? &&
             ReadsBack(VerifyReply(plan, printer).message, plan.setting, plan.requestedProtocolValue))
    ensures r.Ok? && r.value.Verified? ==>
            |events| == Before(plan.setting) + 3 &&
              events[|events| - 1] == Event(ReadAttributes, Answer(r.value.observation))
    ensures r.Ok? && r.value.Rejected? <==>
            r.Ok? && WriteReply(plan, printer).Answer? && !Accepted(WriteReply(plan, printer))
    ensures r.Ok? && r.value.Ambiguous? <==>
            r.Ok? && (WriteReply(plan, printer).Failed? ||
                      (Accepted(WriteReply(plan, printer)) && VerifyReply(plan, printer).Failed?))
  {
    hide Licensed, Prevented, Applied, ReadsBack, Consistent, EndsWith, Ascii, Writes, Concluded;
    var prevented;
    prevented, events := ReadLicense(plan, binding, endpointValid, printer, hash);
    if prevented.Some? {
      return Err(prevented.value), events;
    }
    var outcome;
    outcome, events := WriteAndVerify(plan, printer, events);
    VerifiedExactly(plan, printer, outcome);
    r := Ok(outcome);
  }

  /** What was concluded says exactly when the change is verified, rejected or left open. */
  lemma VerifiedExactly(plan: ChangePlan, printer: Printer, outcome: Outcome)
    requires Concluded(plan, printer, outcome)
    ensures var written, read := WriteReply(plan, printer), VerifyReply(plan, printer);
      && (outcome.Verified? <==> Accepted(written) && read.Answer? && Applied(plan, read.message))
      && (outcome.Verified? ==> read == Answer(outcome.observation))
      && (outcome.Rejected? <==> written.Answer? && !Accepted(written))
      && (outcome.Ambiguous? <==> written.Failed? || (Accepted(written) && read.Failed?))
      && (Consistent(plan) ==>
            (outcome.Verified? <==>
             Accepted(written) && read.Answer? &&
             ReadsBack(read.message, plan.setting, plan.requestedProtocolValue)))
  {
    hide Applied, ReadsBack, Consistent;
    if Consistent(plan) && VerifyReply(plan, printer).Answer? {
      AppliedReadsBack(plan, VerifyReply(plan, printer).message);
    }
  }

  lemma NoWrites()
    ensures Writes([]) == 0
  {
  }

  /** One request and its reply. */
  method Exchange(events: seq<Event>, op: Operation, printer: Printer) returns (r: seq<Event>)
    requires Exchanged(events, printer)
    ensures Exchanged(r, printer) && r == events + [Event(op, printer(|events|))]
    ensures Writes(r) == Writes(events) + (if op.WriteAttribute? then 1 else 0)
  {
    var reply := printer(|events|);
    WritesSnoc(events, Event(op, reply));
    r := events + [Event(op, reply)];
  }

  /** The supported values a plan is made with: those of the second answer, if the setting needs them. */
  predicate ReadableForPlan(setting: Text, printer: Printer) {
    && printer(0).Answer?
    && (ReadsSupported(setting) ==> printer(1).Answer? && ParseSupported(printer(1).message).Ok?)
  }

  function SupportedForPlan(setting: Text, printer: Printer): (r: Option<SupportedValues>)
    requires ReadableForPlan(setting, printer)
  {
    if ReadsSupported(setting) then Some(ParseSupported(printer(1).message).value) else None
  }

  /** Why no plan was made. */
  predicate PlanPrevented(request: Request, endpointValid: bool, printer: Printer, hash: Attribute -> Digest,
                          e: ApplyError) {
    match e
    case Endpoint => !endpointValid
    case PreWriteRead =>
      && endpointValid
      && (printer(0).Failed? || (ReadsSupported(request.setting) && printer(0).Answer? && printer(1).Failed?))
    case SupportedValuesInvalid =>
      && endpointValid && ReadsSupported(request.setting) && printer(0).Answer? && printer(1).Answer?
      && ParseSupported(printer(1).message).Err?
    case Stale(error) =>
      && endpointValid && ReadableForPlan(request.setting, printer)
      && PlanChange(printer(0).message, SupportedForPlan(request.setting, printer), request, hash) == Err(error)
  }

  /** How planning ends, and what it exchanged with the printer. */
  predicate PlanConcludes(request: Request, endpointValid: bool, printer: Printer, hash: Attribute -> Digest,
                          r: Result<ChangePlan, ApplyError>, events: seq<Event>) {
    && Exchanged(events, printer) && |events| <= 2
    && (forall i :: 0 <= i < |events| ==> events[i].op == if i == 0 then ReadAttributes else ReadSupported)
    && (r.Ok? ==> |events| == if ReadsSupported(request.setting) then 2 else 1)
    && (r.Ok? ==>
          && endpointValid && ReadableForPlan(request.setting, printer)
          && PlanChange(printer(0).message, SupportedForPlan(request.setting, printer), request, hash) == Ok(r.value))
    && (r.Err? ==> PlanPrevented(request, endpointValid, printer, hash, r.error))
  }

  /** Planning only reads; it succeeds exactly when all reads do and the plan is allowed, and returns that plan. */
  method PlanRemotely(request: Request, endpointValid: bool, printer: Printer, hash: Attribute -> Digest)
    returns (r: Result<ChangePlan, ApplyError>, events: seq<Event>)
    ensures Exchanged(events, printer) && Writes(events) == 0
    ensures PlanConcludes(request, endpointValid, printer, hash, r, events)
    ensures r.Ok? <==>
            && endpointValid && ReadableForPlan(request.setting, printer)
            && PlanChange(printer(0).message, SupportedForPlan(request.setting, printer), request, hash).Ok?
    ensures r.Ok? ==>
      PlanChange(printer(0).message, SupportedForPlan(request.setting, printer), request, hash) == Ok(r.value)
    ensures r.Ok? ==> events != [] && events[0] == Event(ReadAttributes, printer(0))
  {
    hide ParseSupported, PlanChange, EndsWith, Ascii, Writes;
    NoWrites();
    events := [];
    if !endpointValid {
      return Err(Endpoint), events;
    }
    events := Exchange(events, ReadAttributes, printer);
    var observation := events[0].reply;
    if observation.Failed? {
      return Err(PreWriteRead), events;
    }
    var supported: Option<SupportedValues> := None;
    if ReadsSupported(request.setting) {
      events := Exchange(events, ReadSupported, printer);
      var reply := events[1].reply;
      if reply.Failed? {
        return Err(PreWriteRead), events;
      }
      var parsed := ParseSupported(reply.message);
      if parsed.Err? {
        return Err(SupportedValuesInvalid), events;
      }
      supported := Some(parsed.value);
    }
    var planned := PlanChange(observation.message, supported, request, hash);
    if planned.Err? {
      return Err(Stale(planned.error)), events;
    }
    r := Ok(planned.value);
  }

  /** A printer that still answers what it answered while planning licenses the write, for exactly the bindings the plan
      names until it expires. */
  lemma UnchangedPrinterLicenses(m: Message, supported: Option<SupportedValues>, request: Request, binding: Binding,
                                 printer: Printer, hash: Attribute -> Digest)
    requires PlanChange(m, supported, request, hash).Ok?
    requires SupportedReadable(request.setting, printer) && SupportedRead(request.setting, printer) == supported
    requires printer(Before(request.setting)) == Answer(m)
    ensures Licensed(PlanChange(m, supported, request, hash).value, binding, printer, hash)
            <==> binding == Binding(request.printerId, request.generation, request.principal, request.protocol,
                                    binding.now)
                 && binding.now < request.expiresAt
  {
    hide ParseSupported, Confirmed, ValidationError, Find, Advertises, Settable, ConstraintError, Normalized,
      EndsWith, Ascii;
    var plan := PlanChange(m, supported, request, hash).value;
    FreshPlanValidates(m, supported, request, binding, hash);
    ValidationExact(plan, m, supported, binding, hash);
  }
}
