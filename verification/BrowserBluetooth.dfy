/** The browser Bluetooth transport under credit flow control (crates/mb-printer-wasm/browser-adapters.ts,
    `WebBluetoothTransport`). The event loop runs one handler at a time, so each method here is one handler; pending
    promises are numbered tickets. */
module BrowserBluetooth {
  import opened Bytes
  import opened CreditFlow

  /** `Number.MAX_SAFE_INTEGER`. */
  const CREDIT_CAP := 0x1f_ffff_ffff_ffff

  type Ticket = nat

  datatype Started = Going | Queued | TooLong | NotSubscribed

  datatype Waited = Unavailable | Reply(bytes: Frame) | Waiting

  class Transport {
    const configuredLimit: nat
    var credits: nat
    var negotiatedLimit: Option<nat>
    var subscribed: bool
    var replies: seq<Frame>
    var listeners: seq<Ticket>
    var waiters: seq<Ticket>
    /** Writers that hold a credit and have not written yet; replies handed to listeners, in order. */
    ghost var ready: nat
    ghost var heard: seq<(Ticket, Frame)>
    /** All responses handed over, to listeners and to callers, oldest first. */
    ghost var handed: seq<Frame>
    ghost var trace: seq<Step>
    ghost var writes: seq<Frame>

    /** The fields are what the run that was made leaves behind. */
    ghost predicate Tracks()
      reads this
    {
      && Reflects(trace, CREDIT_CAP, credits, negotiatedLimit, replies, handed, false)
      && |writes| + ready <= Count(trace, Consume)
    }

    /** Held credits and waiting writers never coexist, nor do queued replies and waiting listeners. */
    ghost predicate Valid()
      reads this
    {
      Tracks() && (credits > 0 ==> waiters == []) && (replies != [] ==> listeners == [])
    }

    constructor (configuredLimit: nat)
      requires configuredLimit > 0
      ensures Valid() && this.configuredLimit == configuredLimit && !subscribed
      ensures trace == [] && writes == [] && handed == [] && heard == []
    {
      this.configuredLimit := configuredLimit;
      credits, negotiatedLimit, subscribed := 0, None, false;
      replies, listeners, waiters := [], [], [];
      ready, heard, handed, trace, writes := 0, [], [], [], [];
      ReflectsNothing(CREDIT_CAP);
    }

    lemma WritesWithinGrants()
      requires Valid()
      ensures |writes| + ready <= Granted(trace)
    {
      hide Run;
      CreditsConserved(trace, CREDIT_CAP);
    }

    /** In every reachable state, what was handed over is the responses in arrival order, each once. */
    lemma HandedInArrivalOrder()
      requires Valid()
      ensures Count(trace, Deliver) <= |Arrived(trace)| && handed == Arrived(trace)[..Count(trace, Deliver)]
      ensures forall i :: 0 <= i < |handed| ==> Classify(handed[i]) == Response
    {
      hide Reflects, Classify, Arrived, Count;
      HandedInOrder(trace, CREDIT_CAP, credits, negotiatedLimit, replies, handed, false);
    }

    function PayloadLimitNow(): (r: nat)
      reads this
      ensures r <= configuredLimit && (negotiatedLimit.Some? ==> r <= negotiatedLimit.value)
      ensures r == configuredLimit || negotiatedLimit == Some(r)
    {
      Min(configuredLimit, if negotiatedLimit.Some? then negotiatedLimit.value else configuredLimit)
    }

    /** A credit frame: waiting writers are served first, oldest first; what is left is held. */
    method GrantCredits(frame: Frame)
      requires Valid() && Classify(frame).Credit?
      modifies this`credits, this`waiters, this`ready, this`trace
      ensures Valid()
      ensures var served := Min(frame[1], |old(waiters)|);
              && waiters == old(waiters)[served..] && ready == old(ready) + served
              && credits == Min(9007199254740991, old(credits) + frame[1] - served)
              && trace == old(trace) + [Observe(frame)] + Consumes(served)
    {
      hide Reflects, Count;
      CreditArrives(trace, CREDIT_CAP, credits, negotiatedLimit, replies, handed, frame);
      var count: nat := frame[1];
      ghost var served: nat := 0;
      trace := trace + [Observe(frame)];
      assert trace + Consumes(0) == trace;
      while count > 0 && waiters != []
        invariant served + count == frame[1] && served <= |old(waiters)| && waiters == old(waiters)[served..]
        invariant ready == old(ready) + served && credits == old(credits)
        invariant trace == old(trace) + [Observe(frame)] + Consumes(served)
        invariant Serving(count)
        decreases count
      {
        CreditTaken(trace, CREDIT_CAP, count, negotiatedLimit, replies, handed);
        assert Consumes(served + 1) == Consumes(served) + [Consume];
        count := count - 1;
        waiters := waiters[1..];
        served, ready := served + 1, ready + 1;
        trace := trace + [Consume];
      }
      credits := Min(CREDIT_CAP, credits + count);
    }

    /** Part of the way through serving waiters, `count` credits are still to be given out. */
    ghost predicate Serving(count: nat)
      reads this
    {
      && Reflects(trace, CREDIT_CAP, Min(CREDIT_CAP, credits + count), negotiatedLimit, replies, handed, false)
      && |writes| + ready <= Count(trace, Consume)
    }

    method Subscribe()
      requires Valid()
      modifies this`subscribed
      ensures Valid() && subscribed
    {
      subscribed := true;
    }

    /** One notification: control frames are consumed, a response goes to the oldest listener or is queued. */
    method ReceiveNotification(frame: Frame)
      requires Valid()
      modifies this`credits, this`negotiatedLimit, this`replies, this`listeners, this`waiters, this`ready, this`heard,
               this`handed, this`trace
      ensures Valid()
      ensures Classify(frame) != Response ==>
        heard == old(heard) && handed == old(handed) && replies == old(replies) && listeners == old(listeners)
      ensures Classify(frame) == Response ==> credits == old(credits) && waiters == old(waiters) && ready == old(ready)
      ensures Classify(frame) == Response && old(listeners) == [] ==>
        && heard == old(heard) && handed == old(handed) && replies == old(replies) + [frame] && listeners == []
        && trace == old(trace) + [Observe(frame)]
      ensures Classify(frame) == Response && old(listeners) != [] ==>
        && heard == old(heard) + [(old(listeners)[0], frame)] && handed == old(handed) + [frame] &&
          replies == old(replies)
        && listeners == old(listeners)[1..] && trace == old(trace) + [Observe(frame)] + [Deliver]
      ensures exists rest :: trace == old(trace) + [Observe(frame)] + rest
    {
      hide Reflects, Count;
      if |frame| == 2 && frame[0] == 1 {
        GrantCredits(frame);
        return;
      }
      if |frame| == 3 && frame[0] == 2 {
        LimitArrives(trace, CREDIT_CAP, credits, negotiatedLimit, replies, handed, frame);
        var limit := U16Of(frame[2], frame[1]);
        if limit > 0 {
          negotiatedLimit := Some(limit);
        }
        trace := trace + [Observe(frame)];
        assert trace == old(trace) + [Observe(frame)] + [];
        return;
      }
      Respond(frame);
    }

    /** A response goes to the oldest listener, or to the end of the queue if nobody listens. */
    method Respond(frame: Frame)
      requires Valid() && Classify(frame) == Response
      modifies this`replies, this`listeners, this`heard, this`handed, this`trace
      ensures Valid()
      ensures old(listeners) == [] ==>
        && heard == old(heard) && handed == old(handed) && replies == old(replies) + [frame] && listeners == []
        && trace == old(trace) + [Observe(frame)] + []
      ensures old(listeners) != [] ==>
        && heard == old(heard) + [(old(listeners)[0], frame)] && handed == old(handed) + [frame]
        && replies == old(replies) && listeners == old(listeners)[1..]
        && trace == old(trace) + [Observe(frame)] + [Deliver]
    {
      hide Reflects, Count, Classify;
      ResponseArrives(trace, CREDIT_CAP, credits, negotiatedLimit, replies, handed, frame);
      trace := trace + [Observe(frame)];
      replies := replies + [frame];
      if listeners != [] {
        assert replies == [frame] && replies[1..] == [];
        ResponseHanded(trace, CREDIT_CAP, credits, negotiatedLimit, replies, handed);
        heard := heard + [(listeners[0], frame)];
        listeners := listeners[1..];
        replies := [];
        trace, handed := trace + [Deliver], handed + [frame];
      }
    }

    /** Starts a write: one that is too long or comes before the subscription fails without touching the credits. */
    method BeginWrite(bytes: Frame, ticket: Ticket) returns (r: Started)
      requires Valid() && ticket !in waiters
      modifies this`credits, this`waiters, this`ready, this`trace
      ensures Valid()
      ensures r == TooLong <==> |bytes| > old(PayloadLimitNow())
      ensures r == NotSubscribed <==> |bytes| <= old(PayloadLimitNow()) && !subscribed
      ensures r == TooLong || r == NotSubscribed ==>
        trace == old(trace) && waiters == old(waiters) && ready == old(ready)
      ensures r == Going ==> old(credits) > 0 && trace == old(trace) + [Consume] && ready == old(ready) + 1
      ensures r == Queued ==> old(credits) == 0 && trace == old(trace) && waiters == old(waiters) + [ticket]
    {
      if |bytes| > PayloadLimitNow() {
        return TooLong;
      }
      if !subscribed {
        return NotSubscribed;
      }
      var granted := TakeCredit(ticket);
      r := if granted then Going else Queued;
    }

    /** Takes a held credit at once, or joins the waiting writers. */
    method TakeCredit(ticket: Ticket) returns (granted: bool)
      requires Valid() && ticket !in waiters
      modifies this`credits, this`waiters, this`ready, this`trace
      ensures Valid() && (granted <==> old(credits) > 0)
      ensures granted ==> trace == old(trace) + [Consume] && ready == old(ready) + 1 && waiters == old(waiters)
      ensures !granted ==> trace == old(trace) && ready == old(ready) && waiters == old(waiters) + [ticket]
    {
      hide Reflects, Count;
      if credits > 0 {
        CreditTaken(trace, CREDIT_CAP, credits, negotiatedLimit, replies, handed);
        credits := credits - 1;
        ready := ready + 1;
        trace := trace + [Consume];
        return true;
      }
      waiters := waiters + [ticket];
      return false;
    }

    /** Aborting a waiting writer removes it and touches no credit. */
    method AbortWriter(ticket: Ticket)
      requires Valid()
      modifies this`waiters
      ensures Valid() && waiters == Without(old(waiters), ticket)
    {
      waiters := Without(waiters, ticket);
    }

    /** A writer holding a credit writes its payload unless the limit shrank below it meanwhile. */
    method Proceed(bytes: Frame) returns (sent: bool)
      requires Valid() && ready > 0
      modifies this`ready, this`writes
      ensures Valid() && ready == old(ready) - 1 && (sent <==> |bytes| <= PayloadLimitNow())
      ensures writes == if sent then old(writes) + [bytes] else old(writes)
    {
      hide Reflects, Count;
      ready := ready - 1;
      if |bytes| > PayloadLimitNow() {
        return false;
      }
      writes := writes + [bytes];
      return true;
    }

    /** Starts waiting for a response: the oldest queued reply, or a place among the listeners. */
    method WaitForResponse(ticket: Ticket) returns (r: Waited)
      requires Valid() && ticket !in listeners
      modifies this`replies, this`listeners, this`handed, this`trace
      ensures handed == if r.Reply? then old(handed) + [r.bytes] else old(handed)
      ensures Valid() && (r == Unavailable <==> !subscribed)
      ensures r == Unavailable ==> trace == old(trace) && listeners == old(listeners)
      ensures r.Reply? ==> old(replies) != [] && r.bytes == old(replies)[0] && trace == old(trace) + [Deliver]
      ensures r == Waiting ==> old(replies) == [] && listeners == old(listeners) + [ticket] && trace == old(trace)
    {
      hide Reflects, Count;
      if !subscribed {
        return Unavailable;
      }
      if replies != [] {
        r := Reply(replies[0]);
        ResponseHanded(trace, CREDIT_CAP, credits, negotiatedLimit, replies, handed);
        replies := replies[1..];
        trace, handed := trace + [Deliver], handed + [r.bytes];
        return;
      }
      listeners := listeners + [ticket];
      return Waiting;
    }

    /** A timeout or abort settles a listener that has heard nothing. */
    method Expire(ticket: Ticket)
      requires Valid()
      modifies this`listeners
      ensures Valid() && listeners == Without(old(listeners), ticket)
    {
      listeners := Without(listeners, ticket);
    }

    /** Disconnecting discards the held credits and the advertised limit. */
    method Disconnect()
      requires Valid()
      modifies this`credits, this`negotiatedLimit, this`trace
      ensures Valid() && credits == 0 && negotiatedLimit == None && trace == old(trace) + [Discard]
    {
      hide Reflects, Count;
      CreditsDiscarded(trace, CREDIT_CAP, credits, negotiatedLimit, replies, handed);
      credits, negotiatedLimit := 0, None;
      trace := trace + [Discard];
    }
  }

  function Consumes(n: nat): (r: seq<Step>) {
    seq(n, _ => Consume)
  }

  /** The queue with the first occurrence of a ticket removed, the others in their order. */
  function Without(queue: seq<Ticket>, ticket: Ticket): (r: seq<Ticket>)
    ensures queue == [] ==> r == []
    ensures ticket !in queue ==> r == queue
    ensures ticket in queue ==> exists i :: 0 <= i < |queue| && queue[i] == ticket && r == queue[..i] + queue[i + 1..]
  {
    if queue == [] then []
    else if queue[0] == ticket then
      assert queue[..0] + queue[1..] == queue[1..];
      queue[1..]
    else
      var rest := Without(queue[1..], ticket);
      WithoutLater(queue, ticket, rest);
      [queue[0]] + rest
  }

  lemma WithoutLater(queue: seq<Ticket>, ticket: Ticket, rest: seq<Ticket>)
    requires queue != [] && queue[0] != ticket
    requires ticket in queue[1..] ==>
      exists i :: 0 <= i < |queue[1..]| && queue[1..][i] == ticket && rest == queue[1..][..i] + queue[1..][i + 1..]
    ensures ticket in queue ==>
      exists i :: 0 <= i < |queue| && queue[i] == ticket && [queue[0]] + rest == queue[..i] + queue[i + 1..]
  {
    if ticket in queue {
      var i :| 0 <= i < |queue[1..]| && queue[1..][i] == ticket && rest == queue[1..][..i] + queue[1..][i + 1..];
      assert [queue[0]] + rest == queue[..i + 1] + queue[i + 2..];
      assert queue[i + 1] == ticket;
    }
  }
}
