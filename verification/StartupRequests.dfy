/**
 The latest-intent request machine. It keeps only the newest request and the one
 operation in flight, yet serves an unbounded stream of requests and completions.
 A completion may carry any token: stale, duplicated or made up.

 `Step` is one call, `After` the state reached by a whole history of calls, and the
 theorems below quantify over every history.
 */
module StartupRequests {
  import opened Words

  datatype Kind = Refresh | Desired

  datatype Token = Token(revision: U64, kind: Kind, desired: bool)

  datatype Disposition = Stale | Publish | Superseded

  datatype Event =
    | RequestDesired(desired: bool)
    | RequestRefresh
    | Complete(operation: Token, retain: bool)

  datatype Reply =
    | Requested(revision: U64, accepted: bool, coalesced: bool, start: Option<Token>)
    | Completed(disposition: Disposition, start: Option<Token>)

  datatype State = State(
    revision: U64,
    latest: Option<Token>,
    inFlight: Option<Token>,
    settled: bool,
    exhausted: bool)

  datatype Outcome = Outcome(state: State, reply: Reply)

  const INITIAL := State(0, None, None, false, false)

  function Record(s: State, kind: Kind, desired: bool): Outcome {
    if s.revision == U64_MAX then
      Outcome(State(s.revision, None, None, false, true), Requested(s.revision, false, false, None))
    else
      var token := Token(s.revision + 1, kind, desired);
      if s.inFlight.Some? then
        Outcome(State(token.revision, Some(token), s.inFlight, false, s.exhausted),
                Requested(token.revision, true, false, None))
      else
        Outcome(State(token.revision, Some(token), Some(token), false, s.exhausted),
                Requested(token.revision, true, false, Some(token)))
  }

  function Step(s: State, e: Event): Outcome {
    match e
    case RequestDesired(desired) =>
      if s.exhausted then
        Outcome(s, Requested(s.revision, false, false, None))
      else if s.latest.Some? && s.latest.value.kind == Desired && s.latest.value.desired == desired then
        Outcome(s, Requested(s.latest.value.revision, true, true, None))
      else
        Record(s, Desired, desired)
    case RequestRefresh =>
      if s.exhausted then
        Outcome(s, Requested(s.revision, false, false, None))
      else if !s.settled && s.latest.Some? then
        Outcome(s, Requested(s.latest.value.revision, true, true, None))
      else
        Record(s, Refresh, false)
    case Complete(operation, retain) =>
      if s.exhausted || s.inFlight != Some(operation) then
        Outcome(s, Completed(Stale, None))
      else if s.latest.Some? && s.latest.value.revision == operation.revision then
        Outcome(s.(inFlight := None, settled := retain, latest := if retain then s.latest else None),
                Completed(Publish, None))
      else if s.latest.None? then
        Outcome(s.(inFlight := None), Completed(Stale, None))
      else
        Outcome(s.(inFlight := s.latest), Completed(Superseded, s.latest))
  }

  /** The state after every call of a history, oldest first. */
  function After(es: seq<Event>): State {
    if es == [] then INITIAL else Step(After(es[..|es| - 1]), es[|es| - 1]).state
  }

  /** What call `i` of the history answered. */
  function ReplyAt(es: seq<Event>, i: nat): Reply
    requires i < |es|
  {
    Step(After(es[..i]), es[i]).reply
  }

  /** The object itself: its five fields, and as ghost the history of calls made on it. */
  class LatestStartupTaskRequestState {
    var revision: U64
    var latestRequest: Option<Token>
    var inFlight: Option<Token>
    var latestSettled: bool
    var revisionExhausted: bool
    ghost var history: seq<Event>

    ghost function Model(): State
      reads this
    {
      State(revision, latestRequest, inFlight, latestSettled, revisionExhausted)
    }

    ghost predicate Valid()
      reads this
    {
      Model() == After(history)
    }

    constructor ()
      ensures Valid() && history == []
    {
      revision, latestRequest, inFlight := 0, None, None;
      latestSettled, revisionExhausted := false, false;
      history := [];
    }

    method RequestDesired(desired: bool) returns (r: Reply)
      requires Valid()
      modifies this
      ensures Valid() && history == old(history) + [Event.RequestDesired(desired)]
      ensures r == ReplyAt(history, |old(history)|)
    {
      ghost var e := Event.RequestDesired(desired);
      LastCall(history, e);
      history := history + [e];
      if revisionExhausted {
        r := Requested(revision, false, false, None);
      } else if latestRequest.Some? && latestRequest.value.kind == Desired && latestRequest.value.desired == desired {
        r := Requested(latestRequest.value.revision, true, true, None);
      } else {
        r := RecordRequest(Desired, desired);
      }
    }

    method RequestRefresh() returns (r: Reply)
      requires Valid()
      modifies this
      ensures Valid() && history == old(history) + [Event.RequestRefresh]
      ensures r == ReplyAt(history, |old(history)|)
    {
      LastCall(history, Event.RequestRefresh);
      history := history + [Event.RequestRefresh];
      if revisionExhausted {
        r := Requested(revision, false, false, None);
      } else if !latestSettled && latestRequest.Some? {
        r := Requested(latestRequest.value.revision, true, true, None);
      } else {
        r := RecordRequest(Refresh, false);
      }
    }

    method Complete(operation: Token, retain: bool := true) returns (r: Reply)
      requires Valid()
      modifies this
      ensures Valid() && history == old(history) + [Event.Complete(operation, retain)]
      ensures r == ReplyAt(history, |old(history)|)
    {
      ghost var e := Event.Complete(operation, retain);
      LastCall(history, e);
      history := history + [e];
      if revisionExhausted || inFlight != Some(operation) {
        return Completed(Stale, None);
      }
      inFlight := None;
      if latestRequest.Some? && latestRequest.value.revision == operation.revision {
        latestSettled := retain;
        if !retain {
          latestRequest := None;
        }
        return Completed(Publish, None);
      }
      if latestRequest.None? {
        return Completed(Stale, None);
      }
      inFlight := latestRequest;
      return Completed(Superseded, inFlight);
    }

    method RecordRequest(kind: Kind, desired: bool) returns (r: Reply)
      modifies this`revision, this`latestRequest, this`inFlight, this`latestSettled, this`revisionExhausted
      ensures Outcome(Model(), r) == Record(old(Model()), kind, desired)
    {
      if revision == U64_MAX {
        revisionExhausted, latestSettled := true, false;
        latestRequest, inFlight := None, None;
        return Requested(revision, false, false, None);
      }
      revision := revision + 1;
      var request := Token(revision, kind, desired);
      latestRequest, latestSettled := Some(request), false;
      if inFlight.Some? {
        return Requested(request.revision, true, false, None);
      }
      inFlight := Some(request);
      return Requested(request.revision, true, false, inFlight);
    }
  }

  lemma LastCall(es: seq<Event>, e: Event)
    ensures After(es + [e]) == Step(After(es), e).state
    ensures ReplyAt(es + [e], |es|) == Step(After(es), e).reply
  {
    assert (es + [e])[..|es|] == es;
  }

  lemma OneMore(es: seq<Event>, i: nat)
    requires i < |es|
    ensures After(es[..i + 1]) == Step(After(es[..i]), es[i]).state
  {
    assert es[..i + 1][..i] == es[..i];
  }

  // ---- the invariant of every history

  ghost predicate Inv(s: State) {
    && (s.exhausted ==> s.revision == U64_MAX && s.latest == None && s.inFlight == None && !s.settled)
    && (s.inFlight.Some? <==> s.latest.Some? && !s.settled)
    && (s.settled ==> s.latest.Some?)
    && (s.latest.Some? ==> s.latest.value.revision == s.revision)
    && (s.inFlight.Some? ==> s.inFlight.value.revision <= s.revision)
    && (s.inFlight.Some? && s.inFlight.value.revision == s.revision ==> s.inFlight == s.latest)
  }

  lemma {:induction false} EveryHistoryKeepsInv(es: seq<Event>)
    ensures Inv(After(es))
  {
    if es != [] {
      EveryHistoryKeepsInv(es[..|es| - 1]);
    }
  }

  /** A call starts an operation exactly if the slot takes a new one; the one in flight leaves it only
      by its own completion or when revisions run out. */
  lemma FlightMoves(s: State, e: Event)
    requires Inv(s)
    ensures var o := Step(s, e);
            && o.reply.start == (if o.state.inFlight != s.inFlight then o.state.inFlight else None)
            && (o.reply.start.Some? ==> !s.exhausted && (s.inFlight.Some? ==> EndsFlight(s, e)))
            && (!o.state.exhausted && s.inFlight.Some? ==> (o.state.inFlight != s.inFlight <==> EndsFlight(s, e)))
            && (s.exhausted ==> o.state.exhausted)
  {
  }

  predicate EndsFlight(s: State, e: Event) {
    e.Complete? && s.inFlight == Some(e.operation)
  }

  /** Which call uses up the revisions: a request that would have to be recorded when the counter is at
      its maximum. */
  lemma RunsOutIff(s: State, e: Event)
    requires Inv(s)
    ensures Step(s, e).state.exhausted <==> s.exhausted || (s.revision == U64_MAX && NeedsRecord(s, e))
  {
  }

  predicate NeedsRecord(s: State, e: Event) {
    match e
    case RequestDesired(desired) =>
      !(s.latest.Some? && s.latest.value.kind == Desired && s.latest.value.desired == desired)
    case RequestRefresh => s.inFlight.None?
    case Complete(_, _) => false
  }

  // ---- what the history itself says, read off the calls and their answers

  ghost predicate AcceptedCompletion(es: seq<Event>, i: nat)
    requires i < |es|
  {
    es[i].Complete? && ReplyAt(es, i).disposition != Stale
  }

  ghost predicate Publishes(es: seq<Event>, i: nat)
    requires i < |es|
  {
    es[i].Complete? && ReplyAt(es, i).disposition == Publish
  }

  /** The request that call `i` recorded: accepted and not merged into an earlier one. */
  ghost function RecordedBy(es: seq<Event>, i: nat): Option<Token>
    requires i < |es|
  {
    var r := ReplyAt(es, i);
    if r.Requested? && r.accepted && !r.coalesced then
      Some(Token(r.revision, if es[i].RequestRefresh? then Refresh else Desired,
                 es[i].RequestDesired? && es[i].desired))
    else
      None
  }

  ghost function LastRecorded(es: seq<Event>): Option<Token> {
    if es == [] then None
    else
      var mine := RecordedBy(es, |es| - 1);
      if mine.Some? then mine else LastRecorded(es[..|es| - 1])
  }

  lemma RecordedIsLatest(s: State, e: Event)
    requires !e.Complete?
    ensures var o := Step(s, e);
            o.reply.accepted && !o.reply.coalesced ==>
              o.state.latest == Some(Token(o.reply.revision, if e.RequestRefresh? then Refresh else Desired,
                                           e.RequestDesired? && e.desired))
  {
  }

  lemma LastRecordedStep(es: seq<Event>, e: Event)
    ensures var o := Step(After(es), e);
            LastRecorded(es + [e]) ==
            if !e.Complete? && o.reply.accepted && !o.reply.coalesced then o.state.latest else LastRecorded(es)
  {
    LastCall(es, e);
    assert (es + [e])[..|es|] == es;
    if !e.Complete? {
      RecordedIsLatest(After(es), e);
    }
  }

  ghost function Recordings(es: seq<Event>): nat {
    if es == [] then 0
    else Recordings(es[..|es| - 1]) + if RecordedBy(es, |es| - 1).Some? then 1 else 0
  }

  ghost function Starts(es: seq<Event>): nat {
    if es == [] then 0
    else Starts(es[..|es| - 1]) + if ReplyAt(es, |es| - 1).start.Some? then 1 else 0
  }

  ghost function Acceptances(es: seq<Event>): nat {
    if es == [] then 0
    else Acceptances(es[..|es| - 1]) + if AcceptedCompletion(es, |es| - 1) then 1 else 0
  }

  // ---- single flight

  /** Call `k` is the one for which no revision was left. */
  ghost predicate RunsOutBy(es: seq<Event>, k: nat)
    requires k < |es|
  {
    !After(es[..k]).exhausted && After(es[..k + 1]).exhausted
  }

  /** Operations started minus completions accepted is never more than one, in any history. Until
      revisions run out it is one exactly when the latest request is unsettled; after that it stays
      one exactly if an operation was in flight when they did. */
  lemma SingleFlight(es: seq<Event>)
    ensures Acceptances(es) <= Starts(es) <= Acceptances(es) + 1
    ensures !After(es).exhausted ==>
              (Starts(es) == Acceptances(es) + 1 <==> After(es).latest.Some? && !After(es).settled)
    ensures forall k :: 0 <= k < |es| && RunsOutBy(es, k) ==>
              (Starts(es) == Acceptances(es) + 1 <==> After(es[..k]).inFlight.Some?)
  {
    EveryHistoryKeepsInv(es);
    FlightCount(es);
    forall k | 0 <= k < |es| && RunsOutBy(es, k)
      ensures Starts(es) == Acceptances(es) + 1 <==> After(es[..k]).inFlight.Some?
    {
      CountsWhenRunOut(es, k);
    }
  }

  lemma OneCounted(es: seq<Event>, k: nat)
    requires k < |es|
    ensures Starts(es[..k + 1]) == Starts(es[..k]) + if ReplyAt(es, k).start.Some? then 1 else 0
    ensures Acceptances(es[..k + 1]) == Acceptances(es[..k]) + if AcceptedCompletion(es, k) then 1 else 0
  {
    assert es[..k + 1][..k] == es[..k];
  }

  lemma ExhaustedCountsNothing(es: seq<Event>, k: nat)
    requires k < |es| && After(es[..k]).exhausted
    ensures Starts(es[..k + 1]) == Starts(es[..k]) && Acceptances(es[..k + 1]) == Acceptances(es[..k])
  {
    OneCounted(es, k);
  }

  lemma {:induction false} ExhaustedCounts(es: seq<Event>, i: nat, j: nat)
    requires i <= j <= |es| && forall k :: i <= k <= |es| ==> After(es[..k]).exhausted
    ensures Starts(es[..j]) == Starts(es[..i]) && Acceptances(es[..j]) == Acceptances(es[..i])
    decreases j - i
  {
    if i < j {
      ExhaustedCounts(es, i, j - 1);
      ExhaustedCountsNothing(es, j - 1);
    }
  }

  lemma RunsOutForever(es: seq<Event>, i: nat)
    requires i <= |es| && After(es[..i]).exhausted
    ensures forall k :: i <= k <= |es| ==> After(es[..k]).exhausted
  {
    forall k | i <= k <= |es| ensures After(es[..k]).exhausted {
      EveryHistoryKeepsInv(es[..i]);
      FloorHolds(es, i, k, 0);
    }
  }

  lemma RunningOutCountsNothing(es: seq<Event>, k: nat)
    requires k < |es| && RunsOutBy(es, k)
    ensures Starts(es[..k + 1]) == Starts(es[..k]) && Acceptances(es[..k + 1]) == Acceptances(es[..k])
  {
    OneMore(es, k);
    OneCounted(es, k);
  }

  lemma CountsWhenRunOut(es: seq<Event>, k: nat)
    requires k < |es| && RunsOutBy(es, k)
    ensures Starts(es) == Acceptances(es) + 1 <==> After(es[..k]).inFlight.Some?
  {
    FlightCount(es[..k]);
    RunningOutCountsNothing(es, k);
    RunsOutForever(es, k + 1);
    ExhaustedCounts(es, k + 1, |es|);
    assert es[..|es|] == es;
  }

  lemma {:induction false} FlightCount(es: seq<Event>)
    ensures !After(es).exhausted ==>
              Starts(es) == Acceptances(es) + if After(es).inFlight.Some? then 1 else 0
    ensures Acceptances(es) <= Starts(es) <= Acceptances(es) + 1
  {
    if es != [] {
      EveryHistoryKeepsInv(es[..|es| - 1]);
      FlightCount(es[..|es| - 1]);
    }
  }

  /** The fallthrough for a completion that finds no latest request is never taken. */
  lemma CompletionAlwaysFindsLatest(es: seq<Event>, operation: Token)
    requires !After(es).exhausted && After(es).inFlight == Some(operation)
    ensures After(es).latest.Some?
  {
    EveryHistoryKeepsInv(es);
  }

  // ---- order of revisions

  /** Nothing at or below `floor - 1` can be started or completed any more. */
  ghost predicate Floor(s: State, floor: nat) {
    floor <= s.revision + 1 && (s.inFlight.Some? ==> floor <= s.inFlight.value.revision)
  }

  lemma {:induction false} FloorHolds(es: seq<Event>, i: nat, j: nat, floor: nat)
    requires i <= j <= |es|
    requires Floor(After(es[..i]), floor)
    ensures Floor(After(es[..j]), floor)
    ensures After(es[..i]).revision <= After(es[..j]).revision
    ensures After(es[..i]).exhausted ==> After(es[..j]).exhausted
    decreases j - i
  {
    if i < j {
      FloorHolds(es, i, j - 1, floor);
      EveryHistoryKeepsInv(es[..j - 1]);
      OneMore(es, j - 1);
      FloorStep(After(es[..j - 1]), es[j - 1], floor);
    }
  }

  lemma FloorStep(s: State, e: Event, floor: nat)
    requires Inv(s) && Floor(s, floor)
    ensures Floor(Step(s, e).state, floor) && s.revision <= Step(s, e).state.revision
    ensures s.exhausted ==> Step(s, e).state.exhausted
  {
  }

  /** Started revisions strictly increase over every history. */
  lemma StartsIncrease(es: seq<Event>, i: nat, j: nat)
    requires i < j < |es|
    requires ReplyAt(es, i).start.Some? && ReplyAt(es, j).start.Some?
    ensures ReplyAt(es, i).start.value.revision < ReplyAt(es, j).start.value.revision
  {
    EveryHistoryKeepsInv(es[..i]);
    OneMore(es, i);
    EveryHistoryKeepsInv(es[..i + 1]);
    FloorHolds(es, i + 1, j, ReplyAt(es, i).start.value.revision);
    EveryHistoryKeepsInv(es[..j]);
  }

  /** Published revisions strictly increase, so none is published twice. */
  lemma PublicationsIncrease(es: seq<Event>, i: nat, j: nat)
    requires i < j < |es|
    requires Publishes(es, i) && Publishes(es, j)
    ensures es[i].operation.revision < es[j].operation.revision
  {
    EveryHistoryKeepsInv(es[..i]);
    OneMore(es, i);
    FloorHolds(es, i + 1, j, es[i].operation.revision + 1);
  }

  /** A token accepted as complete is stale for the rest of the history. */
  lemma AcceptedOnce(es: seq<Event>, i: nat, j: nat)
    requires i < j < |es|
    requires AcceptedCompletion(es, i)
    requires es[j].Complete? && es[j].operation == es[i].operation
    ensures ReplyAt(es, j) == Completed(Stale, None)
  {
    EveryHistoryKeepsInv(es[..i]);
    OneMore(es, i);
    FloorHolds(es, i + 1, j, es[i].operation.revision + 1);
  }

  // ---- last intent wins

  /** The last recorded request was published and not kept for coalescing. */
  ghost predicate Forgotten(es: seq<Event>) {
    es != [] && RecordedBy(es, |es| - 1).None?
    && ((Publishes(es, |es| - 1) && !es[|es| - 1].retain) || Forgotten(es[..|es| - 1]))
  }

  /** The latest slot is the last request recorded in the history unless that was forgotten, and
      the revision counter counts the recordings. */
  lemma {:induction false} LatestIsLastRecorded(es: seq<Event>)
    ensures !After(es).exhausted ==> After(es).latest == if Forgotten(es) then None else LastRecorded(es)
    ensures After(es).revision == Recordings(es)
  {
    if es != [] {
      LatestIsLastRecorded(es[..|es| - 1]);
    }
  }

  /** A completion publishes exactly when its operation is in flight and no newer request was
      recorded after it. */
  lemma PublishesLastRecorded(es: seq<Event>, j: nat)
    requires j < |es| && es[j].Complete?
    ensures Publishes(es, j) <==>
            !After(es[..j]).exhausted && After(es[..j]).inFlight == Some(es[j].operation)
            && LastRecorded(es[..j]) == Some(es[j].operation)
  {
    EveryHistoryKeepsInv(es[..j]);
    LatestIsLastRecorded(es[..j]);
  }

  /** Which requests are merged instead of recorded: a refresh exactly while an operation is
      outstanding, and a desired state exactly while the last recorded request asks for the same
      state and is remembered. The answer then names that request. */
  lemma CoalescesExactly(es: seq<Event>, j: nat)
    requires j < |es| && !es[j].Complete? && !After(es[..j]).exhausted
    ensures es[j].RequestRefresh? ==>
              (ReplyAt(es, j).coalesced <==> Starts(es[..j]) == Acceptances(es[..j]) + 1)
    ensures es[j].RequestDesired? ==>
              (ReplyAt(es, j).coalesced <==>
                 !Forgotten(es[..j]) && LastRecorded(es[..j]).Some?
                 && LastRecorded(es[..j]).value.kind == Desired && LastRecorded(es[..j]).value.desired == es[j].desired)
    ensures ReplyAt(es, j).coalesced ==>
              && ReplyAt(es, j).accepted
              && LastRecorded(es[..j]).Some? && ReplyAt(es, j).revision == LastRecorded(es[..j]).value.revision
  {
    LatestIsLastRecorded(es[..j]);
    SingleFlight(es[..j]);
  }

  /** A request is accepted exactly if revisions have not run out with it; the answer names the revision
      of the last recorded request, which is this one unless it was merged. */
  lemma AcceptsExactly(es: seq<Event>, j: nat)
    requires j < |es| && !es[j].Complete?
    ensures ReplyAt(es, j).accepted <==> !After(es[..j + 1]).exhausted
    ensures ReplyAt(es, j).accepted ==>
              && LastRecorded(es[..j + 1]).Some?
              && ReplyAt(es, j).revision == LastRecorded(es[..j + 1]).value.revision
    ensures !ReplyAt(es, j).accepted ==> ReplyAt(es, j) == Requested(U64_MAX, false, false, None)
  {
    EveryHistoryKeepsInv(es[..j]);
    LatestIsLastRecorded(es[..j]);
    OneMore(es, j);
    assert es[..j + 1][..j] == es[..j];
  }

  /** An unsettled desired intent stays the latest request until it is published or the opposite
      state is requested; a refresh never displaces it. */
  lemma {:induction false} IntentIsKept(es: seq<Event>, i: nat, j: nat, t: Token)
    requires i <= j <= |es|
    requires After(es[..i]).latest == Some(t) && !After(es[..i]).settled && t.kind == Desired
    requires forall k :: i <= k < j ==> es[k] != RequestDesired(!t.desired)
    requires forall k :: i <= k < j ==> !(Publishes(es, k) && es[k].operation == t)
    ensures After(es[..j]).latest == Some(t) && !After(es[..j]).settled
    decreases j - i
  {
    EveryHistoryKeepsInv(es[..i]);
    if i < j {
      IntentIsKept(es, i, j - 1, t);
      EveryHistoryKeepsInv(es[..j - 1]);
      OneMore(es, j - 1);
      assert es[j - 1] != RequestDesired(!t.desired) && !(Publishes(es, j - 1) && es[j - 1].operation == t);
      IntentStep(After(es[..j - 1]), es[j - 1], t);
    }
  }

  lemma IntentStep(s: State, e: Event, t: Token)
    requires Inv(s) && s.latest == Some(t) && !s.settled && t.kind == Desired && e != RequestDesired(!t.desired)
    requires !(e.Complete? && e.operation == t && Step(s, e).reply.disposition == Publish)
    ensures Step(s, e).state.latest == Some(t) && !Step(s, e).state.settled
  {
  }

  // ---- convergence

  ghost predicate Idle(s: State) { s.inFlight.None? }

  ghost predicate OnlyCompletions(es: seq<Event>) {
    forall k :: 0 <= k < |es| ==> es[k].Complete?
  }

  /** Completions still needed before the machine is idle. */
  ghost function Remaining(s: State): nat {
    if s.inFlight.None? then 0 else if s.inFlight == s.latest then 1 else 2
  }

  lemma CountDownStep(es: seq<Event>, e: Event)
    requires !After(es).exhausted && e.Complete?
    ensures !After(es + [e]).exhausted && LastRecorded(es + [e]) == LastRecorded(es)
    ensures Acceptances(es + [e]) + Remaining(After(es + [e])) == Acceptances(es) + Remaining(After(es))
  {
    assert (es + [e])[..|es|] == es;
    LastCall(es, e);
    EveryHistoryKeepsInv(es);
  }

  /** Once requests stop, any sequence of completions, stale ones included, is a count-down: at
      most two are accepted, and idle is reached exactly when the count is used up. */
  lemma {:induction false} Converges(es: seq<Event>, done: seq<Event>)
    requires !After(es).exhausted && OnlyCompletions(done)
    ensures !After(es + done).exhausted && LastRecorded(es + done) == LastRecorded(es)
    ensures Acceptances(es + done) + Remaining(After(es + done)) == Acceptances(es) + Remaining(After(es))
    ensures Acceptances(es + done) <= Acceptances(es) + 2
    ensures Idle(After(es + done)) <==> Acceptances(es + done) == Acceptances(es) + Remaining(After(es))
  {
    if done == [] {
      assert es + done == es;
    } else {
      var init := es + done[..|done| - 1];
      assert es + done == init + [done[|done| - 1]];
      Converges(es, done[..|done| - 1]);
      CountDownStep(init, done[|done| - 1]);
    }
  }

  lemma {:induction false} CompletionsRecordNothing(es: seq<Event>, n: nat, k: nat)
    requires n <= k <= |es| && forall i :: n <= i < k ==> es[i].Complete?
    ensures LastRecorded(es[..k]) == LastRecorded(es[..n])
    decreases k - n
  {
    if n < k {
      CompletionsRecordNothing(es, n, k - 1);
      assert es[..k][..k - 1] == es[..k - 1];
    }
  }

  /** Of the completions that follow the last request, only that request is ever published. */
  lemma OnlyLatestIsPublished(es: seq<Event>, n: nat, k: nat)
    requires n <= k < |es| && forall i :: n <= i <= k ==> es[i].Complete?
    requires Publishes(es, k)
    ensures LastRecorded(es[..n]) == Some(es[k].operation)
  {
    PublishesLastRecorded(es, k);
    CompletionsRecordNothing(es, n, k);
  }

  /** The count-down can always be finished: completing what is in flight, at most twice, reaches
      idle, and the last of these completions publishes exactly the latest request. */
  lemma CanFinish(es: seq<Event>, retain: bool) returns (done: seq<Event>)
    requires !After(es).exhausted && After(es).inFlight.Some?
    ensures 1 <= |done| <= 2 && OnlyCompletions(done)
    ensures Idle(After(es + done)) && Publishes(es + done, |es| + |done| - 1)
    ensures After(es).latest == Some(done[|done| - 1].operation) == LastRecorded(es)
  {
    EveryHistoryKeepsInv(es);
    LatestIsLastRecorded(es);
    var first := Complete(After(es).inFlight.value, retain);
    LastCall(es, first);
    done := [first];
    if After(es).inFlight != After(es).latest {
      var second := Complete(After(es).latest.value, retain);
      LastCall(es + [first], second);
      done := [first, second];
      assert es + done == es + [first] + [second];
    }
  }

  // ---- exhaustion

  /** Running out of revisions is final: the counter stays at its maximum without wrapping, and
      every later call is refused or stale. It happens only after 2^64 - 1 recorded requests. */
  lemma ExhaustionIsAbsorbing(es: seq<Event>, i: nat, j: nat)
    requires i <= j < |es| && After(es[..i]).exhausted
    ensures Recordings(es[..i]) == U64_MAX && After(es[..j]).revision == U64_MAX
    ensures ReplyAt(es, j) ==
            if es[j].Complete? then Completed(Stale, None) else Requested(U64_MAX, false, false, None)
  {
    EveryHistoryKeepsInv(es[..i]);
    LatestIsLastRecorded(es[..i]);
    FloorHolds(es, i, j, 0);
    EveryHistoryKeepsInv(es[..j]);
  }
}
