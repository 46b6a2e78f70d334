/** When a response is complete, and what a printer that answers promptly is understood to have said
    (crates/mb-printer-executor/src/executor.rs, `collect_response` and `collect_multipart_response`). */
module Answers {
  import opened Bytes
  import opened Plan
  import opened RunModel

  // ----- what the validators accept -----

  function Text(s: string): (r: seq<byte>) {
    seq(|s|, i requires 0 <= i < |s| => s[i] as int % 0x100)
  }

  ghost predicate Holds(bytes: seq<byte>, text: string) {
    exists before, after :: bytes == before + Text(text) + after
  }

  lemma ContainsExact(bytes: seq<byte>, needle: seq<byte>)
    ensures Contains(bytes, needle) <==> exists before, after :: bytes == before + needle + after
  {
    if Contains(bytes, needle) {
      var i :| 0 <= i <= |bytes| && At(bytes, i, needle);
      assert bytes == bytes[..i] + needle + bytes[i + |needle|..];
    }
    if exists before, after :: bytes == before + needle + after {
      var before, after :| bytes == before + needle + after;
      assert At(bytes, |before|, needle);
    }
  }

  lemma Needles()
    ensures OBJBRNET == Text("OBJBRNET") && VAP == Text("VAP,")
  {
  }

  lemma WirelessNeedle()
    ensures AVAILABLEWLAN == Text("AVAILABLEWLAN")
  {
  }

  lemma ReportNeedle()
    ensures PRINTER_CONFIGURATION == Text("<<PRINTER CONFIGURATION>>")
  {
  }

  /** A status reply is three fixed octets and 29 more, a Phomemo frame starts with 0x1a and has at least two more, any
      notification is not empty, and the Brother reports contain their text. */
  lemma ValidatesExact(v: ResponseValidation, bytes: seq<byte>)
    ensures match v
      case AnyNotification => Validates(v, bytes) <==> exists b, rest :: bytes == [b] + rest
      case PhomemoNotification => Validates(v, bytes) <==> exists b, c, rest :: bytes == [0x1a, b, c] + rest
      case BrotherStatus32 =>
        Validates(v, bytes) <==> exists rest: seq<byte> :: |rest| == 29 && bytes == [0x80, 0x20, 0x42] + rest
      case BrotherObjbrnet => Validates(v, bytes) <==> Holds(bytes, "OBJBRNET")
      case BrotherWifiScan => Validates(v, bytes) <==> Holds(bytes, "AVAILABLEWLAN") || Holds(bytes, "VAP,")
      case BrotherSystemReport => Validates(v, bytes) <==> Holds(bytes, "<<PRINTER CONFIGURATION>>")
  {
    hide Contains, Text;
    Needles();
    WirelessNeedle();
    ReportNeedle();
    ContainsExact(bytes, OBJBRNET);
    ContainsExact(bytes, AVAILABLEWLAN);
    ContainsExact(bytes, VAP);
    ContainsExact(bytes, PRINTER_CONFIGURATION);
    if Validates(v, bytes) {
      match v
      case AnyNotification => assert bytes == [bytes[0]] + bytes[1..];
      case PhomemoNotification => assert bytes == [0x1a, bytes[1], bytes[2]] + bytes[3..];
      case BrotherStatus32 => assert bytes == [0x80, 0x20, 0x42] + bytes[3..];
      case _ =>
    }
  }

  // ----- when a response is complete -----

  ghost predicate LongEnough(v: ResponseValidation, length: nat) {
    exists answer :: Validates(v, answer) && |answer| <= length
  }

  /** A frame is complete as soon as what was heard is as long as some answer that validates; a Phomemo frame as soon as
      what follows the first 0x1a validates; a response of variable length never. */
  lemma FrameExact(v: ResponseValidation, heard: seq<byte>)
    ensures IsVariableLength(v) ==> Frame(v, heard).None?
    ensures !IsVariableLength(v) && !v.PhomemoNotification? ==>
      Frame(v, heard) == if LongEnough(v, |heard|) then Some(heard) else None
    ensures v.PhomemoNotification? ==>
      forall f :: Frame(v, heard) == Some(f) <==> FrameOf(v, heard, f) && Validates(v, f)
  {
    hide Frame, Validates;
    forall f ensures Frame(PhomemoNotification, heard) == Some(f) <==>
                     FrameOf(PhomemoNotification, heard, f) && Validates(PhomemoNotification, f) {
      PhomemoFrame(heard, f);
    }
    if !v.PhomemoNotification? {
      PlainFrame(v, heard);
    }
  }

  lemma PlainFrame(v: ResponseValidation, heard: seq<byte>)
    requires !v.PhomemoNotification?
    ensures Frame(v, heard) == if !IsVariableLength(v) && LongEnough(v, |heard|) then Some(heard) else None
  {
    hide Validates;
    if v.AnyNotification? {
      ShortNotification(|heard|);
    } else if v.BrotherStatus32? {
      ShortStatus(|heard|);
    }
  }

  lemma ShortNotification(length: nat)
    ensures LongEnough(AnyNotification, length) <==> 1 <= length
  {
    assert Validates(AnyNotification, [0]);
  }

  lemma ShortStatus(length: nat)
    ensures LongEnough(BrotherStatus32, length) <==> 32 <= length
  {
    assert Validates(BrotherStatus32, [0x80, 0x20, 0x42] + seq(29, _ => 0));
  }

  lemma PhomemoFrame(heard: seq<byte>, f: seq<byte>)
    ensures Frame(PhomemoNotification, heard) == Some(f) <==>
      FrameOf(PhomemoNotification, heard, f) && Validates(PhomemoNotification, f)
  {
    if FrameOf(PhomemoNotification, heard, f) {
      var start :| 0 <= start < |heard| && heard[start] == 0x1a && 0x1a !in heard[..start] && f == heard[start..];
      FirstIs(heard, start);
    }
  }

  lemma NotAmong(s: seq<byte>, i: nat)
    requires 0x1a !in s
    ensures i < |s| ==> s[i] != 0x1a
  {
  }

  lemma FirstIs(heard: seq<byte>, start: nat)
    requires start < |heard| && heard[start] == 0x1a && 0x1a !in heard[..start]
    ensures FirstEscape(heard) == Some(start)
  {
    var first := FirstEscape(heard).value;
    NotAmong(heard[..start], first);
    NotAmong(heard[..first], start);
  }

  function Joined(responses: seq<seq<byte>>): (r: seq<byte>) {
    if responses == [] then [] else responses[0] + Joined(responses[1..])
  }

  lemma {:induction false} JoinedSnoc(responses: seq<seq<byte>>, last: seq<byte>)
    ensures Joined(responses + [last]) == Joined(responses) + last
  {
    if responses == [] {
      assert [] + [last] == [last] && [last][1..] == [];
      assert last + [] == last;
    } else {
      assert (responses + [last])[1..] == responses[1..] + [last];
      JoinedSnoc(responses[1..], last);
      ConcatAssoc(responses[0], Joined(responses[1..]), last);
    }
  }

  /** What counts against the limit is the length of all retained responses together. */
  lemma {:induction false} RetainedIsTotal(responses: seq<seq<byte>>)
    ensures Retained(responses) == |Joined(responses)|
  {
    if responses != [] {
      var front, last := responses[..|responses| - 1], responses[|responses| - 1];
      assert responses == front + [last];
      RetainedIsTotal(front);
      JoinedSnoc(front, last);
    }
  }

  // ----- answers that arrive promptly -----

  /** The transport hands over octets at this moment, and time is not up. */
  predicate HandsOver(m: Moment) {
    !m.timeIsUp && !m.cancelled && m.wait.Ok? && m.wait.value.Response?
  }

  /** At the `n` moments from `t` on the transport hands over non-empty parts. */
  predicate Arrives(environment: nat -> Moment, t: nat, n: nat) {
    forall k :: t <= k < t + n ==> HandsOver(environment(k)) && Chunk(environment(k)) != []
  }

  lemma {:induction false} PartsGrow(environment: nat -> Moment, t: nat, k: nat, n: nat)
    requires k <= n && Arrives(environment, t, n)
    ensures Delivered(environment, t, t + k) <= Delivered(environment, t, t + n)
    ensures k < n ==> |Delivered(environment, t, t + k)| < |Delivered(environment, t, t + n)|
    decreases n
  {
    if k < n {
      PartsGrow(environment, t, k, n - 1);
      DeliveredNext(environment, t, t + n - 1);
    }
  }

  /** Reads that complete nothing lead to the next read. */
  lemma {:induction false} ListenReaches(environment: nat -> Moment, v: ResponseValidation, retained: nat, t: nat,
                                         n: nat, left: nat)
    requires n <= left && forall k :: t <= k < t + n ==> HandsOver(environment(k))
    requires forall e :: t < e <= t + n ==>
      Frame(v, Delivered(environment, t, e)).None? && retained + |Delivered(environment, t, e)| <= MAX_RETAINED
    ensures Listen(environment, v, retained, [], t, left)
         == Listen(environment, v, retained, Delivered(environment, t, t + n), t + n, left - n)
  {
    hide Frame, Delivered, Listen;
    if n == 0 {
      NothingDelivered(environment, t);
    } else {
      ListenReaches(environment, v, retained, t, n - 1, left);
      DeliveredNext(environment, t, t + n - 1);
      ListenNext(environment, v, retained, Delivered(environment, t, t + n - 1), t + n - 1, left - n + 1);
    }
  }

  /** Shorter than everything that validates, or not yet a frame. */
  lemma NotYet(v: ResponseValidation, answer: seq<byte>, part: seq<byte>)
    requires !IsVariableLength(v) && Validates(v, answer) && part < answer && !Validates(v, part)
    ensures Frame(v, part).None?
  {
    if v.PhomemoNotification? && part != [] {
      assert part[0] == answer[0];
    }
  }

  lemma Whole(v: ResponseValidation, answer: seq<byte>)
    requires !IsVariableLength(v) && Validates(v, answer)
    ensures Frame(v, answer) == Some(answer)
  {
    assert answer[0..] == answer;
  }

  /** An answer that validates and arrives promptly, in at most 16 parts of which no shorter run validates, is the
      answer to the wait. */
  lemma {:induction false} PromptParts(environment: nat -> Moment, a: Action, t: nat, retained: nat, n: nat)
    requires a.WaitForResponse? && !IsVariableLength(a.validation)
    requires 0 < n <= 16 && Arrives(environment, t, n)
    requires Validates(a.validation, Delivered(environment, t, t + n))
    requires forall e :: t < e < t + n ==> !Validates(a.validation, Delivered(environment, t, e))
    requires retained + |Delivered(environment, t, t + n)| <= 16 * 1024 * 1024
    ensures ListenCourse(environment, a, t, retained)
         == Course([], [Delivered(environment, t, t + n)], Finished(t + n))
  {
    hide Frame, Delivered, Listen, Validates, IsVariableLength;
    var v, answer := a.validation, Delivered(environment, t, t + n);
    forall e | t < e < t + n
      ensures Frame(v, Delivered(environment, t, e)).None? && retained + |Delivered(environment, t, e)| <= MAX_RETAINED
    {
      PartsGrow(environment, t, e - t, n);
      NotYet(v, answer, Delivered(environment, t, e));
    }
    ListenReaches(environment, v, retained, t, n - 1, MAX_FIXED_RESPONSE_READS);
    DeliveredNext(environment, t, t + n - 1);
    var before := Delivered(environment, t, t + n - 1);
    ListenNext(environment, v, retained, before, t + n - 1, MAX_FIXED_RESPONSE_READS - n + 1);
    Whole(v, answer);
  }

  /** After 16 reads without a frame nothing more is read: a Phomemo wait has timed out, any other makes do with what
      was heard. */
  lemma ReadsSpent(environment: nat -> Moment, v: ResponseValidation, retained: nat, t: nat)
    requires forall k :: t <= k < t + 16 ==> HandsOver(environment(k))
    requires forall e :: t < e <= t + 16 ==> Frame(v, Delivered(environment, t, e)).None?
    requires retained + |Delivered(environment, t, t + 16)| <= 16 * 1024 * 1024
    ensures Listen(environment, v, retained, [], t, MAX_FIXED_RESPONSE_READS)
         == Heard(t + 16, Ok(if v.PhomemoNotification? then Timeout else Response(Delivered(environment, t, t + 16))))
  {
    hide Frame, Delivered, Listen;
    forall e | t < e <= t + 16 ensures |Delivered(environment, t, e)| <= |Delivered(environment, t, t + 16)| {
      HeardGrows(environment, t, e, t + 16);
    }
    ListenReaches(environment, v, retained, t, 16, MAX_FIXED_RESPONSE_READS);
    ListenEnds(environment, v, retained, Delivered(environment, t, t + 16), t + 16, 0);
  }

  lemma {:induction false} HeardGrows(environment: nat -> Moment, t: nat, middle: nat, end: nat)
    requires t <= middle <= end
    ensures |Delivered(environment, t, middle)| <= |Delivered(environment, t, end)|
    decreases end
  {
    if middle < end {
      HeardGrows(environment, t, middle, end - 1);
    }
  }

  // ----- collections -----

  lemma {:induction false} GatherReaches(environment: nat -> Moment, maximum: nat, t: nat, n: nat, left: nat)
    requires n <= left && Arrives(environment, t, n) && |Delivered(environment, t, t + n)| <= maximum
    ensures Gather(environment, maximum, [], t, left)
         == Gather(environment, maximum, Delivered(environment, t, t + n), t + n, left - n)
  {
    hide Delivered, Gather;
    if n == 0 {
      NothingDelivered(environment, t);
    } else {
      DeliveredNext(environment, t, t + n - 1);
      GatherReaches(environment, maximum, t, n - 1, left);
      GatherNext(environment, maximum, Delivered(environment, t, t + n - 1), t + n - 1, left - n + 1);
    }
  }

  /** Nothing more comes: the time is up, or the transport answers with nothing, or with a timeout. */
  predicate FallsSilent(m: Moment) {
    m.timeIsUp || (!m.cancelled && m.wait.Ok? && Chunk(m) == [])
  }

  /** Fewer than 4096 parts within the maximum and then silence are collected as the concatenation of the parts. */
  lemma CollectedParts(environment: nat -> Moment, a: Action, t: nat, retained: nat, n: nat)
    requires a.CollectResponse? && 0 < n < 4096 && Arrives(environment, t, n) && FallsSilent(environment(t + n))
    requires |Delivered(environment, t, t + n)| <= a.maximumBytes
    requires Validates(a.collectValidation, Delivered(environment, t, t + n))
    ensures ListenCourse(environment, a, t, retained)
         == Course([], [Delivered(environment, t, t + n)],
                   Finished(if environment(t + n).timeIsUp then t + n else t + n + 1))
  {
    hide Delivered, Gather, Validates;
    GatherReaches(environment, a.maximumBytes, t, n, MAX_MULTIPART_READS);
    PartsGrow(environment, t, 0, n);
    GatherEnds(environment, a.maximumBytes, Delivered(environment, t, t + n), t + n, MAX_MULTIPART_READS - n);
  }

  /** A printer that is still answering after 4096 parts is refused, unless the time is up just then. */
  lemma NeverIdle(environment: nat -> Moment, maximum: nat, t: nat)
    requires Arrives(environment, t, 4096) && |Delivered(environment, t, t + 4096)| <= maximum
    ensures Gather(environment, maximum, [], t, MAX_MULTIPART_READS)
         == Heard(t + 4096, if environment(t + 4096).timeIsUp then Ok(Response(Delivered(environment, t, t + 4096)))
                            else Err(EffectResponse("response did not become idle before the read limit")))
  {
    hide Delivered, Gather;
    GatherReaches(environment, maximum, t, 4096, MAX_MULTIPART_READS);
    PartsGrow(environment, t, 0, 4096);
    GatherEnds(environment, maximum, Delivered(environment, t, t + 4096), t + 4096, 0);
  }
}
