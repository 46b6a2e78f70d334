/** The credit flow control both Bluetooth transports implement, as one machine over its steps. */
module CreditFlow {
  import opened Bytes

  type Frame = seq<byte>

  datatype Notice = Credit(count: byte) | PayloadLimit(bytes: nat) | Response

  /** What a notification means under credit flow control. */
  function Classify(frame: Frame): (n: Notice) {
    if |frame| == 2 && frame[0] == 1 then Credit(frame[1])
    else if |frame| == 3 && frame[0] == 2 then PayloadLimit(U16Of(frame[2], frame[1]))
    else Response
  }

  /** The control frames are `1, n`, which grants `n` credits, and `2, lo, hi`, which advertises a payload limit; any
      other frame is a response. */
  lemma ClassifyExact(frame: Frame)
    ensures forall n: byte :: Classify(frame) == Credit(n) <==> frame == [1, n]
    ensures forall n: nat ::
      Classify(frame) == PayloadLimit(n) <==> exists lo, hi :: frame == [2, lo, hi] && n == lo + 256 * hi
    ensures Classify(frame) == Response <==>
      (forall n: byte :: frame != [1, n]) && (forall lo: byte, hi: byte :: frame != [2, lo, hi])
  {
    if |frame| == 3 {
      assert frame == [frame[0], frame[1], frame[2]];
    } else if |frame| == 2 {
      assert frame == [frame[0], frame[1]];
    }
  }

  /** Credits by where they went, the advertised payload limit, and the responses received so far. */
  datatype Flow = Flow(held: nat, consumed: nat, discarded: nat, forfeited: nat, limit: Option<nat>,
                       responses: seq<Frame>, delivered: nat, lost: bool)

  const IDLE := Flow(0, 0, 0, 0, None, [], 0, false)

  datatype Step =
    | Observe(frame: Frame) // a notification is processed
    | Consume               // a writer takes a held credit
    | Deliver               // the oldest undelivered response is handed over
    | Discard               // disconnecting forgets credits and limit
    | Lose(lostFrame: Frame) // a response is dropped; the transport is unusable afterwards

  function Min(a: nat, b: nat): (r: nat) {
    if a < b then a else b
  }

  /** One step; `cap` is where the credit counter saturates. `None` when the step is not allowed. */
  function Apply(f: Flow, s: Step, cap: nat): (r: Option<Flow>) {
    if f.lost then None
    else
      match s
      case Observe(frame) =>
        (match Classify(frame)
         case Credit(n) =>
           var held := Min(cap, f.held + n);
           if f.held > cap then None else Some(f.(held := held, forfeited := f.forfeited + (f.held + n - held)))
         case PayloadLimit(n) => Some(if n == 0 then f else f.(limit := Some(n)))
         case Response => Some(f.(responses := f.responses + [frame])))
      case Consume => if f.held == 0 then None else Some(f.(held := f.held - 1, consumed := f.consumed + 1))
      case Deliver => if f.delivered >= |f.responses| then None else Some(f.(delivered := f.delivered + 1))
      case Discard => Some(f.(held := 0, discarded := f.discarded + f.held, limit := None))
      case Lose(frame) => if Classify(frame) != Response then None else Some(f.(lost := true))
  }

  /** The state after a whole run, `None` if some step of it was not allowed. */
  function Run(trace: seq<Step>, cap: nat): (r: Option<Flow>) {
    if trace == [] then Some(IDLE)
    else
      var before := Run(trace[..|trace| - 1], cap);
      if before.None? then None else Apply(before.value, trace[|trace| - 1], cap)
  }

  // ----- what a run did, read off its steps alone -----

  function Grant(s: Step): (n: nat) {
    if s.Observe? && Classify(s.frame).Credit? then Classify(s.frame).count else 0
  }

  function Granted(trace: seq<Step>): (n: nat) {
    if trace == [] then 0 else Granted(trace[..|trace| - 1]) + Grant(trace[|trace| - 1])
  }

  function Count(trace: seq<Step>, s: Step): (n: nat) {
    if trace == [] then 0 else Count(trace[..|trace| - 1], s) + (if trace[|trace| - 1] == s then 1 else 0)
  }

  /** The responses among the notifications, in arrival order. */
  function Arrived(trace: seq<Step>): (r: seq<Frame>) {
    if trace == [] then [] else Arrived(trace[..|trace| - 1]) + ResponseOf(trace[|trace| - 1])
  }

  function ResponseOf(s: Step): (r: seq<Frame>) {
    if s.Observe? && Classify(s.frame).Response? then [s.frame] else []
  }

  // ----- safety of every run -----

  /** Every credit granted is held, was consumed by a write, was discarded by a disconnect, or was forfeited because the
      counter saturated; none is forfeited while no more than `cap` were granted. */
  predicate Balanced(f: Flow, granted: nat, cap: nat) {
    && granted == f.held + f.consumed + f.discarded + f.forfeited
    && f.held <= cap && (granted <= cap ==> f.forfeited == 0)
  }

  lemma StepBalanced(f: Flow, s: Step, granted: nat, cap: nat)
    requires Balanced(f, granted, cap) && Apply(f, s, cap).Some?
    ensures Balanced(Apply(f, s, cap).value, granted + Grant(s), cap)
    ensures Apply(f, s, cap).value.consumed == f.consumed + (if s == Consume then 1 else 0)
  {
    hide Classify;
  }

  lemma {:induction false} CreditsConserved(trace: seq<Step>, cap: nat)
    requires Run(trace, cap).Some?
    ensures Balanced(Run(trace, cap).value, Granted(trace), cap)
    ensures Run(trace, cap).value.consumed == Count(trace, Consume)
  {
    hide Balanced, Grant, Apply;
    if trace != [] {
      var before := trace[..|trace| - 1];
      CreditsConserved(before, cap);
      StepBalanced(Run(before, cap).value, trace[|trace| - 1], Granted(before), cap);
    } else {
      assert Balanced(IDLE, 0, cap) by { NothingYet(cap); }
    }
  }

  lemma NothingYet(cap: nat)
    ensures Balanced(IDLE, 0, cap)
  {
  }

  /** What a state says about delivery. */
  predicate Ordered(f: Flow, arrived: seq<Frame>, delivered: nat) {
    && f.responses == arrived && f.delivered == delivered <= |f.responses|
    && forall i :: 0 <= i < |f.responses| ==> Classify(f.responses[i]) == Response
  }

  lemma StepOrdered(f: Flow, s: Step, arrived: seq<Frame>, delivered: nat, cap: nat)
    requires Ordered(f, arrived, delivered) && Apply(f, s, cap).Some?
    ensures Ordered(Apply(f, s, cap).value, arrived + ResponseOf(s), delivered + (if s == Deliver then 1 else 0))
  {
    hide Classify;
  }

  /** Responses are handed over once each, in arrival order, and none of them is a control frame. */
  lemma {:induction false} ResponsesInOrder(trace: seq<Step>, cap: nat)
    requires Run(trace, cap).Some?
    ensures Ordered(Run(trace, cap).value, Arrived(trace), Count(trace, Deliver))
  {
    hide Ordered, Apply, ResponseOf;
    if trace == [] {
      assert Ordered(IDLE, [], 0) by { NothingArrived(); }
    } else {
      var before := trace[..|trace| - 1];
      ResponsesInOrder(before, cap);
      StepOrdered(Run(before, cap).value, trace[|trace| - 1], Arrived(before), Count(before, Deliver), cap);
    }
  }

  lemma NothingArrived()
    ensures Ordered(IDLE, [], 0)
  {
  }

  /** A response is dropped only by a run that ends with the transport unusable. */
  lemma {:induction false} LossIsFinal(trace: seq<Step>, cap: nat, i: nat)
    requires Run(trace, cap).Some? && i < |trace| && trace[i].Lose?
    ensures i == |trace| - 1 && Run(trace, cap).value.lost
  {
    if i < |trace| - 1 {
      assert trace[..|trace| - 1][i] == trace[i];
      LossIsFinal(trace[..|trace| - 1], cap, i);
    }
  }

  /** A prefix of a run is a run. */
  lemma {:induction false} PrefixRuns(trace: seq<Step>, cap: nat, n: nat)
    requires Run(trace, cap).Some? && n <= |trace|
    ensures Run(trace[..n], cap).Some?
  {
    if n < |trace| {
      assert trace[..|trace| - 1][..n] == trace[..n];
      PrefixRuns(trace[..|trace| - 1], cap, n);
    } else {
      assert trace[..n] == trace;
    }
  }

  /** At no point of a run have more credits been consumed than had been granted. */
  lemma NeverOverdrawn(trace: seq<Step>, cap: nat, n: nat)
    requires Run(trace, cap).Some? && n <= |trace|
    ensures Count(trace[..n], Consume) <= Granted(trace[..n])
  {
    PrefixRuns(trace, cap, n);
    CreditsConserved(trace[..n], cap);
  }

  lemma RunSnoc(trace: seq<Step>, s: Step, cap: nat)
    requires Run(trace, cap).Some?
    ensures Run(trace + [s], cap) == Apply(Run(trace, cap).value, s, cap)
    ensures Count(trace + [s], Consume) == Count(trace, Consume) + (if s == Consume then 1 else 0)
  {
    var t := trace + [s];
    assert t[..|t| - 1] == trace;
  }

  // ----- what a transport keeps of a run -----

  /** The state a run ends in, as a transport keeps it: credits held, payload limit, the responses still queued and
      those handed over, both oldest first, and whether a response was dropped. */
  predicate Reflects(trace: seq<Step>, cap: nat, held: nat, limit: Option<nat>, queue: seq<Frame>, handed: seq<Frame>,
                     lost: bool)
  {
    && Run(trace, cap).Some?
    && var f := Run(trace, cap).value;
    && f.held == held && f.limit == limit && f.delivered <= |f.responses|
    && queue == f.responses[f.delivered..] && handed == f.responses[..f.delivered] && f.lost == lost
  }

  lemma ReflectsNothing(cap: nat)
    ensures Reflects([], cap, 0, None, [], [], false)
  {
  }

  lemma HeldWithinCap(trace: seq<Step>, cap: nat, held: nat, limit: Option<nat>, queue: seq<Frame>, handed: seq<Frame>)
    requires Reflects(trace, cap, held, limit, queue, handed, false)
    ensures held <= cap
  {
    hide Run;
    CreditsConserved(trace, cap);
  }

  lemma CreditArrives(trace: seq<Step>, cap: nat, held: nat, limit: Option<nat>, queue: seq<Frame>, handed: seq<Frame>,
                      frame: Frame)
    requires Reflects(trace, cap, held, limit, queue, handed, false) && Classify(frame).Credit?
    ensures var n := Classify(frame).count; Reflects(trace + [Observe(frame)], cap, Min(cap, held + n), limit, queue,
                                                     handed, false)
    ensures Count(trace + [Observe(frame)], Consume) == Count(trace, Consume)
  {
    hide Classify, Run;
    CreditsConserved(trace, cap);
    RunSnoc(trace, Observe(frame), cap);
  }

  lemma LimitArrives(trace: seq<Step>, cap: nat, held: nat, limit: Option<nat>, queue: seq<Frame>, handed: seq<Frame>,
                     frame: Frame)
    requires Reflects(trace, cap, held, limit, queue, handed, false) && Classify(frame).PayloadLimit?
    ensures var n := Classify(frame).bytes;
            Reflects(trace + [Observe(frame)], cap, held, if n == 0 then limit else Some(n), queue, handed, false)
    ensures Count(trace + [Observe(frame)], Consume) == Count(trace, Consume)
  {
    hide Classify, Run;
    RunSnoc(trace, Observe(frame), cap);
  }

  lemma ResponseArrives(trace: seq<Step>, cap: nat, held: nat, limit: Option<nat>, queue: seq<Frame>,
                        handed: seq<Frame>,
                        frame: Frame)
    requires Reflects(trace, cap, held, limit, queue, handed, false) && Classify(frame) == Response
    ensures Reflects(trace + [Observe(frame)], cap, held, limit, queue + [frame], handed, false)
    ensures Count(trace + [Observe(frame)], Consume) == Count(trace, Consume)
  {
    hide Classify, Run;
    RunSnoc(trace, Observe(frame), cap);
    var f := Run(trace, cap).value;
    assert (f.responses + [frame])[..f.delivered] == f.responses[..f.delivered];
    assert (f.responses + [frame])[f.delivered..] == f.responses[f.delivered..] + [frame];
  }

  lemma CreditTaken(trace: seq<Step>, cap: nat, held: nat, limit: Option<nat>, queue: seq<Frame>, handed: seq<Frame>)
    requires Reflects(trace, cap, held, limit, queue, handed, false) && held > 0
    ensures Reflects(trace + [Consume], cap, held - 1, limit, queue, handed, false)
    ensures Count(trace + [Consume], Consume) == Count(trace, Consume) + 1
  {
    hide Run;
    RunSnoc(trace, Consume, cap);
  }

  lemma ResponseHanded(trace: seq<Step>, cap: nat, held: nat, limit: Option<nat>, queue: seq<Frame>, handed: seq<Frame>)
    requires Reflects(trace, cap, held, limit, queue, handed, false) && queue != []
    ensures Reflects(trace + [Deliver], cap, held, limit, queue[1..], handed + [queue[0]], false)
    ensures Count(trace + [Deliver], Consume) == Count(trace, Consume)
  {
    hide Run;
    RunSnoc(trace, Deliver, cap);
    var f := Run(trace, cap).value;
    assert f.responses[..f.delivered + 1] == f.responses[..f.delivered] + [f.responses[f.delivered]];
    assert f.responses[f.delivered..][1..] == f.responses[f.delivered + 1..];
  }

  lemma CreditsDiscarded(trace: seq<Step>, cap: nat, held: nat, limit: Option<nat>, queue: seq<Frame>,
                         handed: seq<Frame>)
    requires Reflects(trace, cap, held, limit, queue, handed, false)
    ensures Reflects(trace + [Discard], cap, 0, None, queue, handed, false)
    ensures Count(trace + [Discard], Consume) == Count(trace, Consume)
  {
    hide Run;
    RunSnoc(trace, Discard, cap);
  }

  lemma ResponseLost(trace: seq<Step>, cap: nat, held: nat, limit: Option<nat>, queue: seq<Frame>, handed: seq<Frame>,
                     frame: Frame)
    requires Reflects(trace, cap, held, limit, queue, handed, false) && Classify(frame) == Response
    ensures Reflects(trace + [Lose(frame)], cap, held, limit, queue, handed, true)
    ensures Count(trace + [Lose(frame)], Consume) == Count(trace, Consume)
  {
    hide Classify, Run;
    RunSnoc(trace, Lose(frame), cap);
  }

  /** A transport that keeps this state handed over the responses in arrival order, each once, and never a control
      frame. */
  lemma HandedInOrder(trace: seq<Step>, cap: nat, held: nat, limit: Option<nat>, queue: seq<Frame>, handed: seq<Frame>,
                      lost: bool)
    requires Reflects(trace, cap, held, limit, queue, handed, lost)
    ensures Count(trace, Deliver) <= |Arrived(trace)| && handed == Arrived(trace)[..Count(trace, Deliver)]
    ensures queue == Arrived(trace)[Count(trace, Deliver)..]
    ensures forall i :: 0 <= i < |handed| ==> Classify(handed[i]) == Response
  {
    hide Classify, Run;
    ResponsesInOrder(trace, cap);
  }

  // ----- notifications that arrive while a writer waits -----

  predicate GrantsCredit(frame: Frame) {
    Grant(Observe(frame)) > 0
  }

  /** How many of the frames are responses. */
  function Replies(frames: seq<Frame>): (n: nat) {
    if frames == [] then 0
    else Replies(frames[..|frames| - 1]) + (if Classify(frames[|frames| - 1]) == Response then 1 else 0)
  }

  /** The `n`-th frame is the first that grants a credit, and the responses before it fit `room`. */
  predicate CreditAt(frames: seq<Frame>, n: nat, room: nat) {
    && n < |frames| && GrantsCredit(frames[n]) && Replies(frames[..n]) <= room
    && forall i :: 0 <= i < n ==> !GrantsCredit(frames[i])
  }

  /** The `n`-th frame is a response too many, and no credit was granted before it. */
  predicate OverflowAt(frames: seq<Frame>, n: nat, room: nat) {
    && n < |frames| && Classify(frames[n]) == Response && Replies(frames[..n]) == room
    && forall i :: 0 <= i < n ==> !GrantsCredit(frames[i])
  }

  predicate CreditComes(frames: seq<Frame>, room: nat) {
    exists n :: 0 <= n < |frames| && CreditAt(frames, n, room)
  }

  predicate Overflows(frames: seq<Frame>, room: nat) {
    exists n :: 0 <= n < |frames| && OverflowAt(frames, n, room)
  }

  predicate AnyReply(frames: seq<Frame>) {
    exists n :: 0 <= n < |frames| && Classify(frames[n]) == Response
  }

  lemma RepliesNext(frames: seq<Frame>, n: nat)
    requires n < |frames|
    ensures Replies(frames[..n + 1]) == Replies(frames[..n]) + (if Classify(frames[n]) == Response then 1 else 0)
  {
    assert frames[..n + 1][..n] == frames[..n];
  }

  lemma {:induction false} RepliesGrow(frames: seq<Frame>, m: nat, n: nat)
    requires m <= n <= |frames|
    ensures Replies(frames[..m]) <= Replies(frames[..n])
    decreases n
  {
    hide Replies;
    if m < n {
      RepliesNext(frames, n - 1);
      RepliesGrow(frames, m, n - 1);
    }
  }

  /** A writer is served at the first credit, or overwhelmed at the first response too many, whichever comes first. */
  lemma FirstDecides(frames: seq<Frame>, room: nat, n: nat)
    ensures CreditAt(frames, n, room) ==> CreditComes(frames, room) && !Overflows(frames, room)
    ensures OverflowAt(frames, n, room) ==> Overflows(frames, room) && !CreditComes(frames, room)
  {
    hide Replies, Classify, Grant;
    if CreditAt(frames, n, room) && Overflows(frames, room) {
      var m :| 0 <= m < |frames| && OverflowAt(frames, m, room);
      CreditBeforeOverflow(frames, room, n, m);
    }
    if OverflowAt(frames, n, room) && CreditComes(frames, room) {
      var m :| 0 <= m < |frames| && CreditAt(frames, m, room);
      CreditBeforeOverflow(frames, room, m, n);
    }
  }

  lemma CreditBeforeOverflow(frames: seq<Frame>, room: nat, credit: nat, overflow: nat)
    requires CreditAt(frames, credit, room)
    ensures !OverflowAt(frames, overflow, room)
  {
    hide Replies;
    if overflow < credit {
      RepliesNext(frames, overflow);
      RepliesGrow(frames, overflow + 1, credit);
    }
  }

  /** Without a credit and within the room nothing is decided. */
  lemma NothingDecides(frames: seq<Frame>, room: nat)
    requires Replies(frames) <= room && forall i :: 0 <= i < |frames| ==> !GrantsCredit(frames[i])
    ensures !CreditComes(frames, room) && !Overflows(frames, room)
  {
    hide Replies, Grant;
    assert frames[..|frames|] == frames;
    if Overflows(frames, room) {
      var n :| 0 <= n < |frames| && OverflowAt(frames, n, room);
      RepliesNext(frames, n);
      RepliesGrow(frames, n + 1, |frames|);
    }
  }

  /** The steps of processing notifications one after another. */
  function Observed(frames: seq<Frame>): (r: seq<Step>) {
    seq(|frames|, i requires 0 <= i < |frames| => Observe(frames[i]))
  }
}
