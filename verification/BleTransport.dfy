/** The native Bluetooth transport under credit flow control (crates/mb-printer-native/src/transports/ble.rs). The
    notifications a call receives are its `arrivals`; after them the stream has `ended`, or the call times out or is
    dropped. */
module BleTransport {
  import opened Bytes
  import opened CreditFlow

  const QUEUE_CAPACITY := 32
  const CREDIT_CAP := 0xffff_ffff_ffff_ffff

  datatype NotificationState = Available | Subscribed | Disconnected

  datatype CreditOutcome = Taken | Ended | Full | Dropped

  datatype WriteOutcome = Sent | NotSubscribed | TooLong | OverAdvertised | Closed | QueueFull | Abandoned

  datatype WaitOutcome = Unavailable | Reply(bytes: Frame) | Timeout | StreamEnded

  class Transport {
    const payloadLimit: nat
    var state: NotificationState
    var credits: nat
    var maximumPayload: Option<nat>
    var pending: seq<Frame>
    /** Everything the transport did, and the payloads it handed to the radio. */
    ghost var trace: seq<Step>
    ghost var writes: seq<Frame>
    /** The responses handed to callers, oldest first. */
    ghost var handed: seq<Frame>

    /** The fields are what the run that was made leaves behind. */
    ghost predicate Tracks(lost: bool)
      reads this
    {
      && Reflects(trace, CREDIT_CAP, credits, maximumPayload, pending, handed, lost)
      && |pending| <= QUEUE_CAPACITY && |writes| <= Count(trace, Consume)
    }

    ghost predicate Valid()
      reads this
    {
      Tracks(false) || (Tracks(true) && state == Disconnected)
    }

    constructor (payloadLimit: nat)
      ensures Valid() && this.payloadLimit == payloadLimit && state == Available
      ensures trace == [] && writes == [] && handed == []
    {
      this.payloadLimit := payloadLimit;
      state, credits, maximumPayload, pending := Available, 0, None, [];
      trace, writes, handed := [], [], [];
      ReflectsNothing(CREDIT_CAP);
    }

    /** In every reachable state, no more payloads were written than credits were granted. */
    lemma WritesWithinGrants()
      requires Valid()
      ensures |writes| <= Granted(trace)
    {
      hide Run;
      CreditsConserved(trace, CREDIT_CAP);
    }

    /** In every reachable state, what was handed to callers is the responses in arrival order, each once. */
    lemma HandedInArrivalOrder()
      requires Valid()
      ensures Count(trace, Deliver) <= |Arrived(trace)| && handed == Arrived(trace)[..Count(trace, Deliver)]
      ensures forall i :: 0 <= i < |handed| ==> Classify(handed[i]) == Response
    {
      hide Reflects, Classify, Arrived, Count;
      if Tracks(false) {
        HandedInOrder(trace, CREDIT_CAP, credits, maximumPayload, pending, handed, false);
      } else {
        HandedInOrder(trace, CREDIT_CAP, credits, maximumPayload, pending, handed, true);
      }
    }

    /** The smaller of the configured and the advertised limit. */
    function PayloadLimitNow(): (r: nat)
      reads this
      ensures r <= payloadLimit && (maximumPayload.Some? ==> r <= maximumPayload.value)
      ensures r == payloadLimit || maximumPayload == Some(r)
    {
      if maximumPayload.None? then payloadLimit else Min(maximumPayload.value, payloadLimit)
    }

    method Subscribe() returns (subscribed: bool)
      requires Valid()
      modifies this`state
      ensures Valid() && (subscribed <==> old(state) != Disconnected) && (subscribed ==> state == Subscribed)
      ensures !subscribed ==> state == Disconnected
    {
      if state == Disconnected {
        return false;
      }
      state := Subscribed;
      return true;
    }

    /** Processes a control frame; any other frame is left to the caller. */
    method TryObserve(frame: Frame) returns (control: bool)
      requires Tracks(false)
      modifies this`credits, this`maximumPayload, this`trace
      ensures Tracks(false)
      ensures control <==> Classify(frame) != Response
      ensures trace == if control then old(trace) + [Observe(frame)] else old(trace)
      ensures !control ==> credits == old(credits)
      ensures control ==> credits >= old(credits)
      ensures credits != old(credits) ==> |frame| == 2 && frame[0] == 1
      ensures old(credits) == 0 ==> (credits > 0 <==> GrantsCredit(frame))
      ensures |frame| == 2 && frame[0] == 1 ==>
        credits == old(credits) + frame[1] || credits == 18446744073709551615 <= old(credits) + frame[1]
    {
      hide Reflects, Count;
      if |frame| == 2 && frame[0] == 1 {
        CreditArrives(trace, CREDIT_CAP, credits, maximumPayload, pending, handed, frame);
        HeldWithinCap(trace, CREDIT_CAP, credits, maximumPayload, pending, handed);
        credits := Min(CREDIT_CAP, credits + frame[1]);
        trace := trace + [Observe(frame)];
        return true;
      }
      if |frame| == 3 && frame[0] == 2 {
        LimitArrives(trace, CREDIT_CAP, credits, maximumPayload, pending, handed, frame);
        var limit := U16Of(frame[2], frame[1]);
        if limit != 0 {
          maximumPayload := Some(limit);
        }
        trace := trace + [Observe(frame)];
        return true;
      }
      return false;
    }

    /** Queues a response that arrived while waiting for a credit; a full queue loses it. */
    method Enqueue(frame: Frame) returns (queued: bool)
      requires Tracks(false) && Classify(frame) == Response
      modifies this`pending, this`trace
      ensures Tracks(!queued) && (queued <==> |old(pending)| < QUEUE_CAPACITY)
      ensures pending == if queued then old(pending) + [frame] else old(pending)
      ensures trace == old(trace) + [if queued then Observe(frame) else Lose(frame)]
    {
      hide Reflects, Count, Classify;
      if |pending| == QUEUE_CAPACITY {
        ResponseLost(trace, CREDIT_CAP, credits, maximumPayload, pending, handed, frame);
        trace := trace + [Lose(frame)];
        return false;
      }
      ResponseArrives(trace, CREDIT_CAP, credits, maximumPayload, pending, handed, frame);
      pending := pending + [frame];
      trace := trace + [Observe(frame)];
      return true;
    }

    /** Takes in a frame while no credit is held; `kept` fails when it is a response the full queue loses. */
    method Absorb(frame: Frame) returns (kept: bool)
      requires Tracks(false) && credits == 0
      modifies this`credits, this`maximumPayload, this`pending, this`trace
      ensures Tracks(!kept) && trace == old(trace) + [if kept then Observe(frame) else Lose(frame)]
      ensures !kept ==> credits == 0
      ensures credits > 0 ==> |frame| == 2 && frame[0] == 1
      ensures credits > 0 <==> GrantsCredit(frame)
      ensures !kept <==> Classify(frame) == Response && |old(pending)| == QUEUE_CAPACITY
      ensures kept ==> |pending| == |old(pending)| + if Classify(frame) == Response then 1 else 0
    {
      hide Reflects, Count, Classify;
      ReplyGrants(frame);
      kept := TryObserve(frame);
      if !kept {
        kept := Enqueue(frame);
      }
    }

    /** Waits for a credit and takes it; responses arriving meanwhile are queued in order. */
    method ReceiveForCredit(arrivals: seq<Frame>, ended: bool) returns (r: CreditOutcome, used: nat)
      requires Tracks(false)
      modifies this`credits, this`maximumPayload, this`pending, this`trace
      ensures used <= |arrivals| && Tracks(r == Full)
      ensures r == Taken ==> |writes| < Count(trace, Consume)
      ensures r == Taken ==> trace == old(trace) + Observed(arrivals[..used]) + [Consume]
      ensures r == Full ==>
        used > 0 && trace == old(trace) + Observed(arrivals[..used - 1]) + [Lose(arrivals[used - 1])]
      ensures r == Ended || r == Dropped ==>
        used == |arrivals| && (r == Ended <==> ended) && trace == old(trace) + Observed(arrivals)
      ensures used > 0 ==> old(credits) == 0
      ensures r != Taken ==> credits == 0
      ensures r == Taken && used > 0 ==> |arrivals[used - 1]| == 2 && arrivals[used - 1][0] == 1
      ensures r == Taken <==> old(credits) > 0 || CreditComes(arrivals, 32 - |old(pending)|)
      ensures r == Full <==> old(credits) == 0 && Overflows(arrivals, 32 - |old(pending)|)
    {
      hide Reflects, Count, Classify, Grant, Replies, CreditComes, Overflows;
      used := 0;
      ghost var room: nat := QUEUE_CAPACITY - |pending|;
      NoReplies(arrivals);
      assert old(trace) + Observed(arrivals[..0]) == old(trace);
      while credits == 0
        invariant used <= |arrivals| && Tracks(false)
        invariant trace == old(trace) + Observed(arrivals[..used])
        invariant used > 0 ==> old(credits) == 0
        invariant used == 0 ==> credits == old(credits)
        invariant used > 0 && credits > 0 ==> |arrivals[used - 1]| == 2 && arrivals[used - 1][0] == 1
        invariant used > 0 && credits > 0 ==> CreditAt(arrivals, used - 1, room)
        invariant credits == 0 ==> |pending| == |old(pending)| + Replies(arrivals[..used])
        invariant credits == 0 ==> forall i :: 0 <= i < used ==> !GrantsCredit(arrivals[i])
        decreases |arrivals| - used
      {
        if used == |arrivals| {
          assert arrivals[..used] == arrivals;
          NothingDecides(arrivals, room);
          return (if ended then Ended else Dropped), used;
        }
        var frame := arrivals[used];
        used := used + 1;
        ObservedNext(old(trace), arrivals, used - 1);
        RepliesNext(arrivals, used - 1);
        var kept := Absorb(frame);
        if !kept {
          FirstDecides(arrivals, room, used - 1);
          return Full, used;
        }
      }
      if used > 0 {
        FirstDecides(arrivals, room, used - 1);
      }
      CreditTaken(trace, CREDIT_CAP, credits, maximumPayload, pending, handed);
      credits := credits - 1;
      trace := trace + [Consume];
      r := Taken;
    }

    /** Hands a payload to the radio once a credit was taken for it and it fits both limits. */
    method Write(bytes: Frame, arrivals: seq<Frame>, ended: bool) returns (r: WriteOutcome, ghost used: nat)
      requires Valid()
      modifies this
      ensures Valid() && used <= |arrivals|
      ensures writes == if r == Sent then old(writes) + [bytes] else old(writes)
      ensures handed == old(handed)
      ensures r == Sent ==> old(state) == Subscribed && state == Subscribed && |bytes| <= PayloadLimitNow()
      ensures r == Sent || r == OverAdvertised ==> trace == old(trace) + Observed(arrivals[..used]) + [Consume]
      ensures r == QueueFull ==>
        used > 0 && trace == old(trace) + Observed(arrivals[..used - 1]) + [Lose(arrivals[used - 1])]
      ensures r == Abandoned ==> trace == old(trace) + Observed(arrivals)
      ensures r == Closed && old(state) != Disconnected ==> ended && trace == old(trace) + Observed(arrivals)
      ensures r == Abandoned || r == QueueFull || (r == Closed && old(state) != Disconnected) ==> credits == 0
      ensures r == NotSubscribed || r == TooLong ==> trace == old(trace)
      ensures r == NotSubscribed <==> old(state) == Available && |bytes| <= payloadLimit
      ensures old(state) == Subscribed && |bytes| <= payloadLimit ==>
        var room := 32 - |old(pending)|;
        var served := old(credits) > 0 || CreditComes(arrivals, room);
        var full := old(credits) == 0 && Overflows(arrivals, room);
        && (r == Sent || r == OverAdvertised <==> served)
        && (r == Sent <==> served && |bytes| <= PayloadLimitNow())
        && (r == QueueFull <==> full)
        && (r == Closed <==> !served && !full && ended)
        && (r == Abandoned <==> !served && !full && !ended)
      ensures r == TooLong <==> old(state) != Disconnected && |bytes| > payloadLimit
      ensures r == OverAdvertised ==> |bytes| > PayloadLimitNow()
      ensures old(state) == Disconnected ==> r == Closed && trace == old(trace)
      ensures r == Closed || r == QueueFull ==> state == Disconnected
    {
      hide Reflects, Count, Classify, CreditComes, Overflows;
      used := 0;
      if state == Disconnected {
        return Closed, 0;
      }
      if |bytes| > payloadLimit {
        return TooLong, 0;
      }
      if state != Subscribed {
        return NotSubscribed, 0;
      }
      var outcome, n := ReceiveForCredit(arrivals, ended);
      used := n;
      if outcome == Ended || outcome == Full {
        state := Disconnected;
        return (if outcome == Ended then Closed else QueueFull), used;
      }
      if outcome == Dropped {
        return Abandoned, used;
      }
      if maximumPayload.Some? && |bytes| > maximumPayload.value {
        return OverAdvertised, used;
      }
      writes := writes + [bytes];
      r := Sent;
    }

    /** Hands over the oldest response not yet handed over, waiting for one if there is none. */
    method Wait(arrivals: seq<Frame>, ended: bool) returns (r: WaitOutcome)
      requires Valid()
      modifies this`state, this`credits, this`maximumPayload, this`pending, this`trace, this`handed
      ensures Valid()
      ensures handed == if r.Reply? then old(handed) + [r.bytes] else old(handed)
      ensures r == Unavailable <==> old(state) != Subscribed
      ensures r == Unavailable ==> trace == old(trace) && state == old(state)
      ensures r.Reply? ==>
        exists n :: 0 <= n <= |arrivals| && trace == old(trace) + Observed(arrivals[..n]) + [Deliver]
      ensures r.Reply? && old(pending) != [] ==> r.bytes == old(pending)[0]
      ensures r == Timeout || r == StreamEnded ==> old(pending) == [] && trace == old(trace) + Observed(arrivals)
      ensures r == StreamEnded ==> state == Disconnected
      ensures r.Reply? <==> old(state) == Subscribed && (old(pending) != [] || AnyReply(arrivals))
      ensures r == StreamEnded <==> old(state) == Subscribed && old(pending) == [] && !AnyReply(arrivals) && ended
      ensures r == Timeout <==> old(state) == Subscribed && old(pending) == [] && !AnyReply(arrivals) && !ended
      ensures r == Timeout || r == StreamEnded ==> pending == []
    {
      hide Reflects, Count, Classify;
      if state != Subscribed {
        return Unavailable;
      }
      assert old(trace) + Observed(arrivals[..0]) == old(trace);
      if pending != [] {
        var reply := HandOver();
        return Reply(reply);
      }
      for used := 0 to |arrivals|
        invariant Tracks(false) && state == Subscribed && pending == [] && handed == old(handed)
        invariant trace == old(trace) + Observed(arrivals[..used])
        invariant forall i :: 0 <= i < used ==> Classify(arrivals[i]) != Response
      {
        ObservedNext(old(trace), arrivals, used);
        var control := TryObserve(arrivals[used]);
        if !control {
          var _ := Enqueue(arrivals[used]);
          var reply := HandOver();
          return Reply(reply);
        }
      }
      assert arrivals[..|arrivals|] == arrivals;
      if ended {
        state := Disconnected;
        return StreamEnded;
      }
      return Timeout;
    }

    /** Hands over the oldest queued response. */
    method HandOver() returns (reply: Frame)
      requires Tracks(false) && pending != []
      modifies this`pending, this`trace, this`handed
      ensures Tracks(false) && reply == old(pending)[0] && pending == old(pending)[1..]
      ensures handed == old(handed) + [reply] && trace == old(trace) + [Deliver]
    {
      hide Reflects, Count;
      ResponseHanded(trace, CREDIT_CAP, credits, maximumPayload, pending, handed);
      reply := pending[0];
      pending := pending[1..];
      trace, handed := trace + [Deliver], handed + [reply];
    }

    method Disconnect()
      requires Valid()
      modifies this`state
      ensures Valid() && state == Disconnected
    {
      state := Disconnected;
    }
  }

  lemma ObservedNext(before: seq<Step>, arrivals: seq<Frame>, n: nat)
    requires n < |arrivals|
    ensures before + Observed(arrivals[..n + 1]) == before + Observed(arrivals[..n]) + [Observe(arrivals[n])]
  {
    assert Observed(arrivals[..n + 1]) == Observed(arrivals[..n]) + [Observe(arrivals[n])];
  }

  lemma NoReplies(arrivals: seq<Frame>)
    ensures Replies(arrivals[..0]) == 0
  {
  }

  lemma ReplyGrants(frame: Frame)
    ensures Classify(frame) == Response ==> !GrantsCredit(frame)
  {
  }
}
