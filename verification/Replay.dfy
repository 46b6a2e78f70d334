/** Consequences of a run for its caller, and the replay guard (crates/mb-printer-executor/src/replay.rs). */
module ReplayProtection {
  import opened Bytes
  import opened Plan
  import opened RunModel
  import opened Executor

  /** Whatever limits were negotiated and wherever a run stopped, the bytes handed to the transport are a prefix of the
      plan's byte stream, and all of it when the run completes. */
  lemma RunSendsPlanStream(actions: seq<Action>, limits: seq<nat>, r: Result<Progress, ExecuteError>, log: seq<Write>,
                           p: Progress)
    requires |limits| == |actions| && Chunked(actions) && Positive(limits) && RunOf(actions, limits, r, log, p)
    ensures Sent(Issued(log)) <= Stream(actions)
    ensures r.Ok? ==> Sent(Issued(log)) == Stream(actions)
  {
    hide Flatten, Issued, Stream;
    var all := Flatten(actions, limits);
    FlattenStream(actions, limits);
    var rest := all[|Issued(log)|..];
    assert all == Issued(log) + rest;
    SentConcat(Issued(log), rest);
  }

  /** Retained responses stay within twice the executor limit, and within the limit itself for a plan that only waits or
      only collects. */
  lemma RetainedWithinLimits(actions: seq<Action>, payloadLimit: nat, commandLimit: nat, limits: seq<nat>,
                             r: Result<Progress, ExecuteError>, log: seq<Write>, p: Progress)
    requires Admissible(actions, payloadLimit, commandLimit)
    requires |limits| == |actions| && Chunked(actions) && Positive(limits) && RunOf(actions, limits, r, log, p)
    ensures Retained(p.responses) <= 2 * MAX_RETAINED
    ensures !Waits(actions) || (forall a :: a in actions ==> !a.CollectResponse?) ==>
      Retained(p.responses) <= MAX_RETAINED
  {
    if forall a :: a in actions ==> !a.CollectResponse? {
      CollectsNothing(actions);
    }
  }

  lemma {:induction false} CollectsNothing(actions: seq<Action>)
    requires forall a :: a in actions ==> !a.CollectResponse?
    ensures CollectMaximum(actions) == 0
  {
    if actions != [] {
      CollectsNothing(actions[..|actions| - 1]);
    }
  }

  /** The progress of a run determines how much of the plan is known to be on the printer: confirmed bytes are exactly
      those of the confirmed writes, and at most one further write is in doubt. */
  lemma {:induction false} ConfirmedBytes(log: seq<Write>, open: bool)
    requires Unconfirmed(log, open)
    ensures |Sent(Issued(log))|
         == AcknowledgedBytes(log) + (if open then |log[|log| - 1].piece.bytes| else 0)
  {
    if log != [] {
      var front, last := log[..|log| - 1], log[|log| - 1];
      assert log == front + [last];
      IssuedSnoc(front, last);
      SentConcat(Issued(front), [last.piece]);
      assert [last.piece][1..] == [];
      ConfirmedBytes(front, false);
    }
  }

  /** In a run, no raster write exceeds the payload limit the transport reported when its action was reached. */
  lemma {:induction false} RasterWithinReportedLimit(environment: nat -> Moment, actions: seq<Action>, limits: seq<nat>,
                                                     starts: seq<nat>, n: nat, p: Piece)
    requires n <= |actions| == |limits| && Chunked(actions) && Positive(limits)
    requires Negotiated(environment, actions, limits, starts) && Served(environment, actions, starts, n)
    requires p in Flatten(actions[..n], limits[..n]) && p.kind == Raster
    ensures exists j :: 0 <= j < n && actions[j].RasterWrite? &&
                        0 < |p.bytes| <= environment(starts[j] + 1).payloadLimit && |p.bytes| <= actions[j].logicalChunk
  {
    hide Flatten, PiecesOf;
    if n == 0 {
      NoPieces(actions[..0], limits[..0]);
    } else {
      assert actions[..n][..n - 1] == actions[..n - 1] && limits[..n] == limits[..n - 1] + [limits[n - 1]];
      FlattenSnoc(actions, n - 1, limits[..n - 1], limits[n - 1]);
      if p in PiecesOf(actions[n - 1], limits[n - 1]) {
        RasterPieceOf(actions[n - 1], limits[n - 1], p);
        RasterPieceSize(actions[n - 1], limits[n - 1]);
        assert limits[n - 1] == LimitAsked(environment, actions[n - 1], starts[n - 1]);
      } else {
        RasterWithinReportedLimit(environment, actions, limits, starts, n - 1, p);
      }
    }
  }

  lemma NoPieces(actions: seq<Action>, limits: seq<nat>)
    requires actions == [] && limits == []
    ensures Chunked(actions) && Positive(limits) && Flatten(actions, limits) == []
  {
  }

  lemma RasterPieceOf(a: Action, limit: nat, p: Piece)
    requires limit > 0 && (a.RasterWrite? ==> a.logicalChunk > 0) && p in PiecesOf(a, limit) && p.kind == Raster
    ensures a.RasterWrite?
  {
  }

  // ----- the guard -----

  /** One claim of a key: the plan it came with, the limits it was cut under, and how its run ended. A plan that did not
      pass the preflight was not run. */
  datatype Attempt = Attempt(actions: seq<Action>, admitted: bool, limits: seq<nat>, result: Result<Progress,
                             ExecuteError>,
                             progress: Progress)
  {
    /** `log` is what the run of this very plan issued. */
    predicate Explains(log: seq<Write>) {
      if admitted then
        && |limits| == |actions| && Chunked(actions) && Positive(limits)
        && RunOf(actions, limits, result, log, progress)
      else log == []
    }
  }

  /** What was issued under a key, over all calls, is one prefix of the pieces of the plan that claimed it. */
  lemma IssuedUnderKey(a: Attempt, log: seq<Write>)
    requires a.Explains(log)
    ensures Sent(Issued(log)) <= Stream(a.actions)
    ensures a.admitted ==> Issued(log) <= Flatten(a.actions, a.limits)
  {
    hide RunOf, Flatten, Stream, Issued;
    if a.admitted {
      RunSendsPlanStream(a.actions, a.limits, a.result, log, a.progress);
      assert Issued(log) <= Flatten(a.actions, a.limits) by { RunPrefix(a, log); }
    } else {
      assert Sent(Issued([])) == [] by { NothingIssued(); }
    }
  }

  lemma RunPrefix(a: Attempt, log: seq<Write>)
    requires a.admitted && a.Explains(log)
    ensures Issued(log) <= Flatten(a.actions, a.limits)
  {
  }

  lemma NothingIssued()
    ensures Sent(Issued([])) == []
  {
  }

  class ReplayGuard {
    var attempted: set<string>
    /** The claim made with each key, and every write issued through this guard under it, over all calls. */
    ghost var claims: map<string, Attempt>
    ghost var issued: map<string, seq<Write>>

    ghost predicate Valid()
      reads this
    {
      Journal(claims, issued).Keeps(attempted) && attempted <= claims.Keys
    }

    constructor ()
      ensures Valid() && attempted == {}
    {
      attempted, claims, issued := {}, map[], map[];
    }

    ghost function IssuedUnder(key: string): (r: seq<Write>)
      reads this
    {
      if key in issued then issued[key] else []
    }

    /** A key is claimed before anything is written and stays claimed by the plan it was claimed with; a second call
        with it writes nothing, whatever plan or transport it comes with. */
    method ExecuteOnce(key: string, actions: seq<Action>, x: Executor, payloadLimit: nat, commandLimit: nat)
      returns (r: Result<Progress, ExecuteError>, ghost limits: seq<nat>)
      requires Valid() && x.Fresh()
      modifies this, x
      ensures Valid() && attempted == old(attempted) + {key}
      ensures key in old(attempted) ==> r == Err(Replay(key)) && x.log == [] && claims == old(claims)
      ensures key !in old(attempted) ==>
        claims == old(claims)[key := Attempt(actions, Admissible(actions, payloadLimit, commandLimit), limits, r,
                                             x.progress)]
      ensures key !in old(attempted) && Admissible(actions, payloadLimit, commandLimit) ==>
        && Chunked(actions) && |limits| == |actions| && Positive(limits) && RunOf(actions, limits, r, x.log, x.progress)
        && x.Ran(RunTo(x.environment, actions, |actions|, old(x.now)), r)
      ensures forall k :: IssuedUnder(k) == old(IssuedUnder(k)) + (if k == key then x.log else [])
    {
      hide RunOf, Admissible, Journal.Keeps, Attempt.Explains;
      limits := [];
      assert issued.Keys == attempted by { JournalKeys(Journal(claims, issued), attempted); }
      if key in attempted {
        assert attempted + {key} == attempted;
        return Err(Replay(key)), [];
      }
      attempted := attempted + {key};
      r, limits := x.Execute(actions, payloadLimit, commandLimit);
      ghost var attempt := Attempt(actions, Admissible(actions, payloadLimit, commandLimit), limits, r, x.progress);
      Explained(attempt, x.log);
      KeepsNext(claims, issued, old(attempted), key, attempt, x.log);
      claims, issued := claims[key := attempt], issued[key := x.log];
    }
  }

  /** What becomes of a claim: the store may fail, before or after it has recorded the key. */
  datatype Fault = NoFault | Fails(message: string, recorded: bool)

  /** A store of execution keys; `faults` says which of its calls fail. The store in memory never does. */
  class ReplayStore {
    const faults: nat -> Fault
    var calls: nat
    var attempted: set<string>

    constructor (faults: nat -> Fault)
      ensures this.faults == faults && calls == 0 && attempted == {}
    {
      this.faults := faults;
      calls, attempted := 0, {};
    }

    ghost predicate InMemory() {
      forall n :: faults(n) == NoFault
    }

    /** Claims a key; the answer says whether it was still free. */
    method Claim(key: string) returns (r: Result<bool, string>)
      modifies this
      ensures r.Ok? ==> attempted == old(attempted) + {key} && (r.value <==> key !in old(attempted))
      ensures r.Err? ==> attempted == old(attempted) || attempted == old(attempted) + {key}
      ensures var fault := faults(old(calls)); if fault.Fails? then r == Err(fault.message) else r.Ok?
      ensures InMemory() ==> r.Ok?
    {
      var fault := faults(calls);
      calls := calls + 1;
      if fault.Fails? {
        attempted := attempted + if fault.recorded then {key} else {};
        return Err(fault.message);
      }
      r := Ok(key !in attempted);
      attempted := attempted + {key};
    }
  }

  /** The claims made with keys and the writes issued under them, over all calls; every key used was attempted. */
  datatype Journal = Journal(claims: map<string, Attempt>, issued: map<string, seq<Write>>) {
    ghost predicate Keeps(attempted: set<string>) {
      claims.Keys == issued.Keys <= attempted && forall key :: key in issued ==> claims[key].Explains(issued[key])
    }
  }

  lemma JournalKeys(j: Journal, attempted: set<string>)
    requires j.Keeps(attempted)
    ensures j.claims.Keys == j.issued.Keys <= attempted
  {
  }

  lemma Explained(a: Attempt, log: seq<Write>)
    requires !a.admitted ==> log == []
    requires a.admitted ==>
      && |a.limits| == |a.actions| && Chunked(a.actions) && Positive(a.limits)
      && RunOf(a.actions, a.limits, a.result, log, a.progress)
    ensures a.Explains(log)
  {
  }

  lemma KeepsNext(claims: map<string, Attempt>, issued: map<string, seq<Write>>, attempted: set<string>, key: string,
                  a: Attempt, log: seq<Write>)
    requires Journal(claims, issued).Keeps(attempted) && a.Explains(log)
    ensures Journal(claims[key := a], issued[key := log]).Keeps(attempted + {key})
  {
    hide Attempt.Explains;
  }

  /** More keys may be claimed than were used. */
  lemma KeepsMore(j: Journal, attempted: set<string>, more: set<string>)
    requires j.Keeps(attempted) && attempted <= more
    ensures j.Keeps(more)
  {
    hide Attempt.Explains;
  }

  /** The same protection through a store that may fail: without a successful claim of a free key nothing is issued, and
      a claimed key stays claimed, used by at most the one run of the plan it came with. */
  method ExecuteOnceWithStore(store: ReplayStore, key: string, actions: seq<Action>, x: Executor, payloadLimit: nat,
                              commandLimit: nat, ghost before: Journal)
    returns (r: Result<Progress, ExecuteError>, ghost limits: seq<nat>, ghost after: Journal)
    requires before.Keeps(store.attempted) && x.Fresh()
    modifies store, x
    ensures after.Keeps(store.attempted) && old(store.attempted) <= store.attempted <= old(store.attempted) + {key}
    ensures var fault := store.faults(old(store.calls));
      fault.Fails? ==> r == Err(ReplayStoreFailed(fault.message)) && x.log == [] && after == before
    ensures store.faults(old(store.calls)).NoFault? ==> key in store.attempted
    ensures store.faults(old(store.calls)).NoFault? && key in old(store.attempted) ==>
      r == Err(Replay(key)) && x.log == [] && after == before
    ensures store.faults(old(store.calls)).NoFault? && key !in old(store.attempted) ==>
      after == Journal(before.claims[key := Attempt(actions, Admissible(actions, payloadLimit, commandLimit), limits,
                                                    r, x.progress)],
                       before.issued[key := x.log])
    ensures (&& store.faults(old(store.calls)).NoFault? && key !in old(store.attempted)
             && Admissible(actions, payloadLimit, commandLimit)) ==>
      && Chunked(actions) && |limits| == |actions| && Positive(limits) && RunOf(actions, limits, r, x.log, x.progress)
      && x.Ran(RunTo(x.environment, actions, |actions|, old(x.now)), r)
  {
    hide RunOf, Admissible, Journal.Keeps, Attempt.Explains;
    limits, after := [], before;
    var claim := store.Claim(key);
    KeepsMore(before, old(store.attempted), store.attempted);
    if claim.Err? {
      return Err(ReplayStoreFailed(claim.error)), [], before;
    }
    if !claim.value {
      return Err(Replay(key)), [], before;
    }
    r, limits := x.Execute(actions, payloadLimit, commandLimit);
    ghost var attempt := Attempt(actions, Admissible(actions, payloadLimit, commandLimit), limits, r, x.progress);
    Explained(attempt, x.log);
    KeepsNext(before.claims, before.issued, old(store.attempted), key, attempt, x.log);
    after := Journal(before.claims[key := attempt], before.issued[key := x.log]);
  }
}
