/** The agent's guarded change entry point (crates/mb-printer-agent/src/administration_execution.rs): each request
    identifier is consumed by its first apply, whatever becomes of it. */
module ChangeAgent {
  import opened Bytes
  import opened IppModel
  import opened Administration
  import opened SettingValues
  import opened ConfirmedChange

  /** A confirmation as it arrives; the requested value is absent when its JSON is malformed. */
  datatype Confirmation = Confirmation(protocol: Text, setting: Text, expectedOld: Digest, expectedRequested: Digest,
                                       requested: Option<Value>, planExpiresAt: nat)

  datatype AgentCommand = PlanCommand(planSetting: Text, planProtocol: Text,
                                      planRequested: Option<Value>) | ApplyCommand(confirmation: Confirmation)

  /** `wellFormed` stands for the contract checks made before anything else; `command` and `bounded` for the optional
      operation and limits. */
  datatype AgentRequest = AgentRequest(id: Text, wellFormed: bool, printerId: Text, generation: nat, principal: Text,
                                       expiresAt: nat, command: Option<AgentCommand>, bounded: bool, cancelled: bool)

  datatype Execution =
    | Refused(reason: string)
    | Cancelled
    | InvalidConfirmation
    | PlanFinished(planned: Result<ChangePlan, ApplyError>)
    | ApplyFinished(applied: Result<Outcome, ApplyError>)

  function SettingOf(t: AgentCommand): (s: Text) {
    match t
    case PlanCommand(s, _, _) => s
    case ApplyCommand(c) => c.setting
  }

  function WritesFor(history: seq<(Text, Event)>, id: Text): (n: nat) {
    if history == [] then 0
    else
      var last := history[|history| - 1];
      WritesFor(history[..|history| - 1], id) + (if last.0 == id && last.1.op.WriteAttribute? then 1 else 0)
  }

  function Tagged(id: Text, events: seq<Event>): (r: seq<(Text, Event)>) {
    seq(|events|, i requires 0 <= i < |events| => (id, events[i]))
  }

  lemma {:induction false} WritesAdd(history: seq<(Text, Event)>, owner: Text, events: seq<Event>, id: Text)
    ensures WritesFor(history + Tagged(owner, events), id) == WritesFor(history, id) +
      (if owner == id then Writes(events) else 0)
    decreases |events|
  {
    if events == [] {
      assert history + Tagged(owner, events) == history;
    } else {
      var front := events[..|events| - 1];
      var all := history + Tagged(owner, events);
      assert all[..|all| - 1] == history + Tagged(owner, front);
      WritesAdd(history, owner, front, id);
    }
  }

  class Agent {
    /** Published printers with their endpoint generation. */
    var published: map<Text, nat>
    var consumed: set<Text>
    /** The applies that were admitted and have not exchanged anything yet, under their identifiers; calls may
        interleave arbitrarily. */
    ghost var running: map<Text, AgentRequest>
    /** Every exchange the agent had with a printer, with the request that caused it. */
    ghost var history: seq<(Text, Event)>

    /** No request identifier ever causes more than one write, counting the one a running apply may still make, and none
        before it is consumed. */
    ghost predicate Valid()
      reads this
    {
      forall id :: WritesFor(history, id) + (if id in running then 1 else 0) <= if id in consumed then 1 else 0
    }

    constructor (published: map<Text, nat>)
      ensures Valid() && consumed == {} && history == [] && running == map[] && this.published == published
    {
      this.published := published;
      consumed, running, history := {}, map[], [];
    }

    /** Printers may be published at any time. */
    method Publish(printerId: Text, generation: nat)
      requires Valid()
      modifies this`published
      ensures Valid() && published == old(published)[printerId := generation]
    {
      published := published[printerId := generation];
    }

    ghost predicate Admissible(request: AgentRequest, allowed: set<Text>)
      reads this
    {
      && request.wellFormed && request.printerId in published && published[request.printerId] == request.generation
      && request.command.Some? && SettingOf(request.command.value) in allowed
      && (request.command.value.ApplyCommand? ==> request.id !in consumed)
    }

    /** The checks before anything is sent; an apply consumes its identifier here, atomically. */
    method Admit(request: AgentRequest, allowed: set<Text>) returns (refusal: Option<string>)
      requires Valid()
      modifies this`consumed, this`running
      ensures Valid() && (refusal.None? <==> old(Admissible(request, allowed)))
      ensures refusal.None? ==>
        match request.command.value
        case PlanCommand(setting, _, _) => setting in allowed
        case ApplyCommand(c) => c.setting in allowed
      ensures refusal.None? && request.command.value.ApplyCommand? ==>
        consumed == old(consumed) + {request.id} && running == old(running)[request.id := request]
      ensures refusal.Some? || !request.command.value.ApplyCommand? ==>
        consumed == old(consumed) && running == old(running)
    {
      hide WritesFor;
      if !request.wellFormed {
        return Some("contract");
      }
      if request.printerId !in published {
        return Some("unknown printer");
      }
      if published[request.printerId] != request.generation {
        return Some("stale endpoint generation");
      }
      if request.command.None? {
        return Some("missing operation");
      }
      if SettingOf(request.command.value) !in allowed {
        return Some("unauthorized setting");
      }
      if request.command.value.ApplyCommand? {
        if request.id in consumed {
          return Some("request identifier already consumed");
        }
        assert WritesFor(history, request.id) == 0;
        consumed := consumed + {request.id};
        running := running[request.id := request];
      }
      return None;
    }

    /** What follows admission: at most one write, and only for an apply that was admitted and is licensed. */
    method Perform(request: AgentRequest, now: nat, endpointValid: bool, printer: Printer, hash: Attribute -> Digest,
                   valueHash: Value -> Digest)
      returns (r: Execution)
      requires Valid() && request.command.Some?
      requires request.command.value.ApplyCommand? ==> request.id in running && running[request.id] == request
      modifies this`history, this`running
      ensures Valid()
      ensures running == if request.command.value.ApplyCommand? then old(running) - {request.id} else old(running)
      ensures exists events ::
        && history == old(history) + Tagged(request.id, events)
        && Exchanged(events, printer)
        && (Writes(events) > 0 <==> r.ApplyFinished? && r.applied.Ok?)
        && Performed(request, now, endpointValid, printer, hash, valueHash, r, events)
      ensures r.ApplyFinished? ==> !request.cancelled && request.command.value.ApplyCommand?
    {
      hide Licensed, Confirmed, Normalized, WritesFor, Writes, PlanConcludes, ApplyConcludes, Ascii;
      NoWrites();
      assert history + Tagged(request.id, []) == history;
      if request.command.value.ApplyCommand? {
        running := running - {request.id};
      }
      if request.cancelled {
        return Cancelled;
      }
      if !request.bounded {
        return Refused("limits");
      }
      match request.command.value {
        case PlanCommand(setting, protocol, requested) => {
          if protocol != Ascii("ipp") || requested.None? {
            return InvalidConfirmation;
          }
          var planned, events := PlanRemotely(
            Request(request.printerId, request.generation, setting, requested.value, request.principal, Ascii("ipp"),
                    request.expiresAt),
            endpointValid, printer, hash);
          Record(request.id, events);
          r := PlanFinished(planned);
        }
        case ApplyCommand(c) => {
          if c.protocol != Ascii("ipp") || |c.expectedOld| != 32 || |c.expectedRequested| != 32
             || c.planExpiresAt > request.expiresAt {
            return InvalidConfirmation;
          }
          if c.requested.None? || valueHash(c.requested.value) != c.expectedRequested {
            return InvalidConfirmation;
          }
          var plan := PlanFromWire(request.printerId, request.generation, c.setting, c.expectedOld, c.requested.value,
                                   request.principal, c.planExpiresAt);
          if plan.None? {
            return InvalidConfirmation;
          }
          var applied, events := ApplyConfirmedChange(plan.value, BindingOf(request, now), endpointValid, printer,
                                                      hash);
          Record(request.id, events);
          r := ApplyFinished(applied);
        }
      }
    }

    /** One call from start to end. */
    method ExecuteGuardedChange(request: AgentRequest, now: nat, allowed: set<Text>, endpointValid: bool,
                                printer: Printer, hash: Attribute -> Digest, valueHash: Value -> Digest)
      returns (r: Execution)
      requires Valid()
      modifies this
      ensures Valid() && published == old(published)
      ensures exists events ::
        && history == old(history) + Tagged(request.id, events)
        && Exchanged(events, printer)
        && (Writes(events) > 0 <==> r.ApplyFinished? && r.applied.Ok?)
        && (old(Admissible(request, allowed)) ==>
              Performed(request, now, endpointValid, printer, hash, valueHash, r, events))
      ensures old(Admissible(request, allowed)) ==>
        consumed == if request.command.value.ApplyCommand? then old(consumed) + {request.id} else old(consumed)
      ensures consumed == old(consumed) || consumed == old(consumed) + {request.id}
      ensures r.ApplyFinished? ==> request.id in consumed && request.id !in old(consumed)
      ensures !old(Admissible(request, allowed)) ==> r.Refused? && history == old(history)
    {
      hide Licensed, Confirmed, Normalized, WritesFor, Writes, Valid, Performed;
      NoWrites();
      assert history + Tagged(request.id, []) == history;
      var refusal := Admit(request, allowed);
      if refusal.Some? {
        return Refused(refusal.value);
      }
      r := Perform(request, now, endpointValid, printer, hash, valueHash);
    }

    /** Adds the exchanges of one call to the history; only a call that was admitted may have written, and once. */
    ghost method Record(id: Text, events: seq<Event>)
      requires Writes(events) <= 1
      requires forall i ::
        WritesFor(history, i) + (if i in running then 1 else 0) + (if i == id then Writes(events) else 0)
          <= if i in consumed then 1 else 0
      modifies this`history
      ensures Valid() && history == old(history) + Tagged(id, events)
    {
      hide WritesFor, Writes;
      forall i ensures WritesFor(history + Tagged(id, events), i)
                       == WritesFor(history, i) + (if i == id then Writes(events) else 0)
      {
        WritesAdd(history, id, events, i);
      }
      history := history + Tagged(id, events);
    }
  }

  /** What a plan command asks to have planned. */
  function PlanRequest(request: AgentRequest, setting: Text, requested: Value): (r: Request) {
    Request(request.printerId, request.generation, setting, requested, request.principal, Ascii("ipp"),
            request.expiresAt)
  }

  /** The confirmation is for IPP, not for longer than the request, with digests of the proper length, and its value is
      well formed, is the one whose digest was confirmed, and can be a setting. */
  predicate Confirms(request: AgentRequest, c: Confirmation, valueHash: Value -> Digest) {
    && c.protocol == Ascii("ipp") && |c.expectedOld| == 32 && |c.expectedRequested| == 32
    && c.planExpiresAt <= request.expiresAt
    && c.requested.Some? && valueHash(c.requested.value) == c.expectedRequested
    && Normalized(c.requested.value).Some?
  }

  /** What an admitted request comes to, and what it exchanges with the printer. */
  predicate Performed(request: AgentRequest, now: nat, endpointValid: bool, printer: Printer,
                      hash: Attribute -> Digest, valueHash: Value -> Digest, r: Execution, events: seq<Event>)
    requires request.command.Some?
  {
    if request.cancelled then r == Cancelled && events == []
    else if !request.bounded then r == Refused("limits") && events == []
    else
      match request.command.value
      case PlanCommand(setting, protocol, requested) =>
        if protocol == Ascii("ipp") && requested.Some? then
          && r.PlanFinished?
          && PlanConcludes(PlanRequest(request, setting, requested.value), endpointValid, printer, hash, r.planned,
                           events)
        else r == InvalidConfirmation && events == []
      case ApplyCommand(c) =>
        if Confirms(request, c, valueHash) then
          && r.ApplyFinished?
          && ApplyConcludes(ConfirmedPlan(request, c), BindingOf(request, now), endpointValid, printer, hash, r.applied,
                            events)
        else r == InvalidConfirmation && events == []
  }

  /** A verified apply means that the printer reads back what was confirmed, after it accepted a write of exactly that
      value on a licensing observation. */
  lemma VerifiedReadsBack(request: AgentRequest, now: nat, endpointValid: bool, printer: Printer,
                          hash: Attribute -> Digest, valueHash: Value -> Digest, r: Execution, events: seq<Event>)
    requires request.command.Some? && Performed(request, now, endpointValid, printer, hash, valueHash, r, events)
    requires r.ApplyFinished? && r.applied.Ok? && r.applied.value.Verified?
    ensures request.command.value.ApplyCommand? && Confirms(request, request.command.value.confirmation, valueHash)
    ensures var c := request.command.value.confirmation;
      && ReadsBack(r.applied.value.observation, c.setting, c.requested.value)
      && |events| >= 2 && events[|events| - 2].op == WriteAttribute(c.setting, c.requested.value)
      && events[|events| - 2].reply.Answer? && events[|events| - 1].reply == Answer(r.applied.value.observation)
      && Licensed(ConfirmedPlan(request, c), BindingOf(request, now), printer, hash)
  {
    hide Licensed, Normalized, ReadsBack, Applied, Ascii, EndsWith;
    var plan := ConfirmedPlan(request, request.command.value.confirmation);
    AppliedReadsBack(plan, r.applied.value.observation);
  }

  /** For a confirmation, the licence depends on nothing but its expiry and what the printer answers: the bindings of
      the plan are those of the request itself. */
  lemma LicensedByPrinter(request: AgentRequest, c: Confirmation, now: nat, printer: Printer,
                          hash: Attribute -> Digest)
    requires c.requested.Some? && Normalized(c.requested.value).Some?
    ensures Licensed(ConfirmedPlan(request, c), BindingOf(request, now), printer, hash) <==>
      && now < c.planExpiresAt
      && SupportedReadable(c.setting, printer) && printer(Before(c.setting)).Answer?
      && var m := printer(Before(c.setting)).message;
         && Advertises(m, SET_PRINTER_ATTRIBUTES) && Settable(m).Some? && c.setting in Settable(m).value
         && Find(m, c.setting).Some? && hash(Find(m, c.setting).value) == c.expectedOld
         && WithinConstraints(m, SupportedRead(c.setting, printer), c.setting, c.requested.value)
  {
    hide Find, Advertises, Settable, WithinConstraints, ParseSupported, EndsWith, Ascii, Normalized;
  }

  function BindingOf(request: AgentRequest, now: nat): (b: Binding) {
    Binding(request.printerId, request.generation, request.principal, Ascii("ipp"), now)
  }

  function ConfirmedPlan(request: AgentRequest, c: Confirmation): (p: ChangePlan)
    requires c.requested.Some? && Normalized(c.requested.value).Some?
  {
    ChangePlan(request.printerId, request.generation, c.setting, c.expectedOld, Normalized(c.requested.value).value,
               c.requested.value, request.principal, Ascii("ipp"), c.planExpiresAt)
  }
}
