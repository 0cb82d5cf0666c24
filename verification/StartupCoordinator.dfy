/**
 The startup-task coordinator on top of the request machine: what its serial drainer does with one
 request or one finished operation, which operations run, and what the published snapshot says.
 Queries and settings of the operating system are inputs: an operation finishes with a state that is
 known or not, and the state may be any. Shutdown comes from any thread, between two work items or
 inside one.
 */
module StartupCoordinator {
  import opened Words
  import R = StartupRequests

  type Token = R.Token

  datatype Snapshot = Snapshot(publication: U64, revision: U64, enabled: bool, known: bool, busy: bool, failed: bool)

  datatype Coordinator = Coordinator(
    machine: R.State,
    confirmedEnabled: bool,
    confirmedKnown: bool,
    published: Snapshot,
    stopped: bool)

  const INITIAL := Coordinator(R.INITIAL, false, false, Snapshot(0, 0, false, false, false, false), false)

  /** The point of a work item before which shutdown strikes, if it does. */
  datatype StopAt = NoStop | BeforeCommit | BeforePublish | BeforeStart

  datatype Event =
    | Request(desired: Option<bool>, stop: StopAt)
    | Finish(operation: Token, known: bool, actual: bool, stop: StopAt)
    | Shutdown

  /** The new state, the operation that is started and the state that is committed to the settings. */
  datatype Outcome = Outcome(state: Coordinator, start: Option<Token>, commit: Option<bool>)

  /** A stopped coordinator publishes nothing. */
  function AfterPublish(c: Coordinator, snapshot: Snapshot): Coordinator {
    if c.stopped then c
    else c.(published := snapshot.(publication := Incremented(c.published.publication)))
  }

  function Halted(c: Coordinator): Coordinator {
    if c.published.busy then
      c.(stopped := true,
         published := c.published.(busy := false, publication := Incremented(c.published.publication)))
    else c.(stopped := true)
  }

  function HaltedIf(c: Coordinator, now: bool): Coordinator {
    if now then Halted(c) else c
  }

  /** The call that a request makes on the machine. */
  function RequestCall(desired: Option<bool>): R.Event {
    if desired.Some? then R.RequestDesired(desired.value) else R.RequestRefresh
  }

  function Announcement(published: Snapshot, revision: U64, desired: Option<bool>): Snapshot {
    var snapshot := published.(revision := revision, busy := true, failed := false);
    if desired.Some? then snapshot.(enabled := desired.value, known := false) else snapshot
  }

  function AfterRequest(c: Coordinator, desired: Option<bool>, stop: StopAt): Outcome {
    var o := R.Step(c.machine, RequestCall(desired));
    var c1 := c.(machine := o.state);
    if !o.reply.accepted || o.reply.coalesced then Outcome(HaltedIf(c1, !stop.NoStop?), None, None)
    else
      var c2 := AfterPublish(HaltedIf(c1, stop.BeforeCommit? || stop.BeforePublish?),
                             Announcement(c.published, o.reply.revision, desired));
      var c3 := HaltedIf(c2, stop.BeforeStart?);
      Outcome(c3, if c3.stopped then None else o.reply.start, None)
  }

  /** A desired state that was not found is forgotten, so that it can be asked for again. */
  predicate Reached(operation: Token, known: bool, actual: bool) {
    operation.kind != R.Desired || (known && actual == operation.desired)
  }

  /** The operation ended without a known state, or not in the one desired. */
  predicate Failed(operation: Token, known: bool, actual: bool) {
    !known || (operation.kind == R.Desired && actual != operation.desired)
  }

  function FinishCall(operation: Token, known: bool, actual: bool): R.Event {
    R.Complete(operation, Reached(operation, known, actual))
  }

  function Settled(c: Coordinator, operation: Token, known: bool, actual: bool, stop: StopAt): Outcome {
    var c1 := if known then c.(confirmedKnown := true, confirmedEnabled := actual) else c;
    var c2 := HaltedIf(c1, stop.BeforeCommit?);
    var snapshot := c2.published.(revision := operation.revision, known := c2.confirmedKnown,
                                  enabled := c2.confirmedEnabled, busy := false,
                                  failed := Failed(operation, known, actual) || !known);
    var c3 := AfterPublish(HaltedIf(c2, stop.BeforePublish?), snapshot);
    Outcome(HaltedIf(c3, stop.BeforeStart?), None, if known && !c2.stopped then Some(actual) else None)
  }

  function AfterFinish(c: Coordinator, operation: Token, known: bool, actual: bool, stop: StopAt): Outcome {
    var o := R.Step(c.machine, FinishCall(operation, known, actual));
    var c1 := c.(machine := o.state);
    if o.reply.disposition == R.Publish then Settled(c1, operation, known, actual, stop)
    else
      var c2 := HaltedIf(c1, !stop.NoStop?);
      Outcome(c2, if c2.stopped then None else o.reply.start, None)
  }

  /** One work item. A stopped coordinator admits none and passes over those still queued. */
  function Step(c: Coordinator, e: Event): Outcome {
    if c.stopped then Outcome(c, None, None)
    else
      match e
      case Request(desired, stop) => AfterRequest(c, desired, stop)
      case Finish(operation, known, actual, stop) => AfterFinish(c, operation, known, actual, stop)
      case Shutdown => Outcome(Halted(c), None, None)
  }

  function After(es: seq<Event>): Coordinator {
    if es == [] then INITIAL else Step(After(es[..|es| - 1]), es[|es| - 1]).state
  }

  function OutcomeAt(es: seq<Event>, i: nat): Outcome
    requires i < |es|
  {
    Step(After(es[..i]), es[i])
  }

  lemma LastItem(es: seq<Event>, e: Event)
    ensures After(es + [e]) == Step(After(es), e).state && OutcomeAt(es + [e], |es|) == Step(After(es), e)
  {
    assert (es + [e])[..|es|] == es;
  }

  lemma OneMore(es: seq<Event>, i: nat)
    requires i < |es|
    ensures After(es[..i + 1]) == OutcomeAt(es, i).state
  {
    assert es[..i + 1][..i] == es[..i];
  }

  // ---- the machine inside sees the calls of the items that were run

  function Call(e: Event): R.Event
    requires !e.Shutdown?
  {
    match e
    case Request(desired, _) => RequestCall(desired)
    case Finish(operation, known, actual, _) => FinishCall(operation, known, actual)
  }

  function Calls(es: seq<Event>): seq<R.Event> {
    if es == [] then []
    else
      var before, e := es[..|es| - 1], es[|es| - 1];
      if After(before).stopped || e.Shutdown? then Calls(before) else Calls(before) + [Call(e)]
  }

  lemma RequestRunsMachine(c: Coordinator, desired: Option<bool>, stop: StopAt)
    requires !c.stopped
    ensures var o, r := R.Step(c.machine, RequestCall(desired)), AfterRequest(c, desired, stop);
            && r.state.machine == o.state && r.state.stopped == !stop.NoStop?
            && r.start == if stop.NoStop? then o.reply.start else None
  {
  }

  lemma FinishRunsMachine(c: Coordinator, operation: Token, known: bool, actual: bool, stop: StopAt)
    requires !c.stopped
    ensures var o, r := R.Step(c.machine, FinishCall(operation, known, actual)),
                        AfterFinish(c, operation, known, actual, stop);
            && r.state.machine == o.state && r.state.stopped == !stop.NoStop?
            && r.start == if stop.NoStop? then o.reply.start else None
  {
  }

  /** An item is one call on the machine, and it starts what the machine says unless shutdown strikes. */
  lemma ItemRunsMachine(c: Coordinator, e: Event)
    requires !c.stopped && !e.Shutdown?
    ensures var o, r := R.Step(c.machine, Call(e)), Step(c, e);
            && r.state.machine == o.state && r.state.stopped == !e.stop.NoStop?
            && r.start == if e.stop.NoStop? then o.reply.start else None
  {
    match e
    case Request(desired, stop) => RequestRunsMachine(c, desired, stop);
    case Finish(operation, known, actual, stop) => FinishRunsMachine(c, operation, known, actual, stop);
  }

  /** So every theorem about histories of the machine holds of the one inside. */
  lemma {:induction false} MachineFollowsCalls(es: seq<Event>)
    ensures After(es).machine == R.After(Calls(es)) && R.Inv(After(es).machine)
  {
    R.EveryHistoryKeepsInv(Calls(es));
    if es != [] {
      var before, e := es[..|es| - 1], es[|es| - 1];
      MachineFollowsCalls(before);
      if !After(before).stopped && !e.Shutdown? {
        ItemRunsMachine(After(before), e);
        R.LastCall(Calls(before), Call(e));
      }
    }
  }

  // ---- what the snapshot says

  predicate Wants(t: Option<Token>, state: bool) {
    t.Some? && t.value.kind == R.Desired && t.value.desired == state
  }

  /** The snapshot is busy exactly while the machine has an operation in flight. */
  predicate BusyMatches(c: Coordinator) {
    c.published.busy <==> c.machine.inFlight.Some?
  }

  /** What observers may rely on. The snapshot is busy exactly while an operation is in flight; at rest
      it shows the last confirmed state; while a desired state is being brought about it shows that
      state as not yet known; and a desired state is kept for merging later requests only if it was
      confirmed. */
  ghost predicate Coherent(c: Coordinator) {
    && c.published.revision == c.machine.revision
    && (!c.machine.exhausted ==> BusyMatches(c))
    && (!c.published.busy ==> c.published.known == c.confirmedKnown && c.published.enabled == c.confirmedEnabled)
    && (forall state :: Wants(c.machine.latest, state) ==>
                          if c.machine.settled then c.confirmedKnown && c.confirmedEnabled == state
                          else c.published.enabled == state && !c.published.known)
  }

  lemma RequestKeepsCoherent(c: Coordinator, desired: Option<bool>)
    requires R.Inv(c.machine) && Coherent(c) && !c.stopped
    ensures Coherent(AfterRequest(c, desired, NoStop).state)
  {
  }

  lemma FinishKeepsCoherent(c: Coordinator, operation: Token, known: bool, actual: bool)
    requires R.Inv(c.machine) && Coherent(c) && !c.stopped
    ensures Coherent(AfterFinish(c, operation, known, actual, NoStop).state)
  {
  }

  /** An item during which shutdown strikes leaves a stopped coordinator. */
  lemma UnstoppedItem(c: Coordinator, e: Event)
    requires !Step(c, e).state.stopped
    ensures !c.stopped && !e.Shutdown? && e.stop.NoStop?
  {
    if !c.stopped && !e.Shutdown? {
      ItemRunsMachine(c, e);
    }
  }

  lemma {:induction false} EveryHistoryIsCoherent(es: seq<Event>)
    requires !After(es).stopped
    ensures Coherent(After(es))
  {
    if es != [] {
      var before, e := es[..|es| - 1], es[|es| - 1];
      UnstoppedItem(After(before), e);
      EveryHistoryIsCoherent(before);
      MachineFollowsCalls(before);
      match e
      case Request(desired, _) => RequestKeepsCoherent(After(before), desired);
      case Finish(operation, known, actual, _) => FinishKeepsCoherent(After(before), operation, known, actual);
    }
  }

  // ---- shutdown

  lemma StoppedRequestIsNotBusy(c: Coordinator, desired: Option<bool>, stop: StopAt)
    requires !c.stopped && !stop.NoStop?
    ensures !AfterRequest(c, desired, stop).state.published.busy
  {
  }

  lemma StoppedFinishIsNotBusy(c: Coordinator, operation: Token, known: bool, actual: bool, stop: StopAt)
    requires !c.stopped && !stop.NoStop?
    ensures !AfterFinish(c, operation, known, actual, stop).state.published.busy
  {
  }

  lemma StoppedIsNotBusy(c: Coordinator, e: Event)
    requires c.stopped ==> !c.published.busy
    ensures Step(c, e).state.stopped ==> !Step(c, e).state.published.busy
  {
    if !c.stopped && !e.Shutdown? {
      ItemRunsMachine(c, e);
      if !e.stop.NoStop? {
        match e
        case Request(desired, stop) => StoppedRequestIsNotBusy(c, desired, stop);
        case Finish(operation, known, actual, stop) => StoppedFinishIsNotBusy(c, operation, known, actual, stop);
      }
    }
  }

  lemma {:induction false} StoppedAreNotBusy(es: seq<Event>)
    ensures After(es).stopped ==> !After(es).published.busy
  {
    if es != [] {
      StoppedAreNotBusy(es[..|es| - 1]);
      StoppedIsNotBusy(After(es[..|es| - 1]), es[|es| - 1]);
    }
  }

  lemma StoppedDoesNothing(c: Coordinator, e: Event)
    requires c.stopped
    ensures Step(c, e) == Outcome(c, None, None)
  {
  }

  lemma {:induction false} StoppedStays(es: seq<Event>, i: nat, j: nat)
    requires i <= j <= |es| && After(es[..i]).stopped
    ensures After(es[..j]) == After(es[..i])
    decreases j - i
  {
    if i < j {
      StoppedStays(es, i, j - 1);
      OneMore(es, j - 1);
      StoppedDoesNothing(After(es[..j - 1]), es[j - 1]);
    }
  }

  /** Shutdown inside an item, before it publishes, shows as if it had come before the item; after that,
      as if it had come after the item, except that nothing is started. */
  lemma ShutdownInsideItem(c: Coordinator, e: Event)
    requires !c.stopped && !e.Shutdown? && !e.stop.NoStop?
    ensures !e.stop.BeforeStart? ==> Step(c, e).state.published == Halted(c).published
    ensures e.stop.BeforeStart? ==>
              && Step(c, e).state == Halted(Step(c, e.(stop := NoStop)).state)
              && Step(c, e).start == None && Step(c, e).commit == Step(c, e.(stop := NoStop)).commit
  {
    match e
    case Request(desired, stop) => ShutdownInsideRequest(c, desired, stop);
    case Finish(operation, known, actual, stop) => ShutdownInsideFinish(c, operation, known, actual, stop);
  }

  lemma ShutdownInsideRequest(c: Coordinator, desired: Option<bool>, stop: StopAt)
    requires !c.stopped && !stop.NoStop?
    ensures var o := AfterRequest(c, desired, stop);
            if stop.BeforeStart? then o == Outcome(Halted(AfterRequest(c, desired, NoStop).state), None, None)
            else o.state.published == Halted(c).published
  {
  }

  lemma ShutdownInsideFinish(c: Coordinator, operation: Token, known: bool, actual: bool, stop: StopAt)
    requires !c.stopped && !stop.NoStop?
    ensures var o, whole := AfterFinish(c, operation, known, actual, stop),
                            AfterFinish(c, operation, known, actual, NoStop);
            if stop.BeforeStart? then o == Outcome(Halted(whole.state), None, whole.commit)
            else o.state.published == Halted(c).published
  {
  }

  /** Shutdown changes nothing in the snapshot but `busy`, and numbers that change. */
  lemma ShutdownClearsBusy(es: seq<Event>)
    ensures var c, after := After(es).published, After(es + [Shutdown]).published;
            && !after.busy && after.publication == (if c.busy then Incremented(c.publication) else c.publication)
            && after.revision == c.revision && after.enabled == c.enabled
            && after.known == c.known && after.failed == c.failed
  {
    ShutdownHalts(es);
  }

  /** Shutdown is final, wherever it strikes: from then on the snapshot is not busy and never changes,
      and nothing is started or committed. */
  lemma StopIsFinal(es: seq<Event>, i: nat, j: nat)
    requires i <= j < |es| && After(es[..i]).stopped
    ensures After(es[..j + 1]) == After(es[..i]) && !After(es[..i]).published.busy
    ensures OutcomeAt(es, j).start == None && OutcomeAt(es, j).commit == None
  {
    StoppedAreNotBusy(es[..i]);
    StoppedStays(es, i, j);
    StoppedStays(es, i, j + 1);
    StoppedDoesNothing(After(es[..j]), es[j]);
  }

  lemma UnstoppedBefore(es: seq<Event>, i: nat)
    requires i <= |es| && !After(es).stopped
    ensures !After(es[..i]).stopped
  {
    assert es[..|es|] == es;
    if After(es[..i]).stopped {
      StoppedStays(es, i, |es|);
    }
  }

  // ---- the operations that run

  ghost function AsSet(t: Option<Token>): set<Token> {
    if t.Some? then {t.value} else {}
  }

  ghost function Ended(e: Event): set<Token> {
    if e.Finish? then {e.operation} else {}
  }

  /** The operations started and not yet finished, read off the history. */
  ghost function Running(es: seq<Event>): set<Token> {
    if es == [] then {}
    else Running(es[..|es| - 1]) - Ended(es[|es| - 1]) + AsSet(OutcomeAt(es, |es| - 1).start)
  }

  /** An operation is started exactly if the slot for the one in flight takes a new one, unless shutdown
      comes before. */
  lemma StartsExactly(es: seq<Event>, i: nat)
    requires i < |es|
    ensures var before, after := After(es[..i]).machine, OutcomeAt(es, i).state;
            OutcomeAt(es, i).start ==
            if !after.stopped && after.machine.inFlight != before.inFlight then after.machine.inFlight else None
  {
    MachineFollowsCalls(es[..i]);
    StepStartsExactly(After(es[..i]), es[i]);
  }

  lemma StepStartsExactly(c: Coordinator, e: Event)
    requires R.Inv(c.machine)
    ensures var after := Step(c, e).state;
            Step(c, e).start ==
            if !after.stopped && after.machine.inFlight != c.machine.inFlight then after.machine.inFlight else None
  {
    if !c.stopped && !e.Shutdown? {
      ItemRunsMachine(c, e);
      R.FlightMoves(c.machine, Call(e));
    }
  }

  lemma StepMovesFlight(c: Coordinator, e: Event)
    requires R.Inv(c.machine)
    ensures var after := Step(c, e).state;
            && (!after.stopped && !after.machine.exhausted ==>
                  AsSet(after.machine.inFlight) == AsSet(c.machine.inFlight) - Ended(e) + AsSet(Step(c, e).start))
            && (Step(c, e).start.Some? ==> !c.stopped && !c.machine.exhausted && !after.stopped
                                           && AsSet(c.machine.inFlight) <= Ended(e))
            && (c.machine.exhausted ==> after.machine.exhausted)
  {
    if !c.stopped && !e.Shutdown? {
      ItemRunsMachine(c, e);
      R.FlightMoves(c.machine, Call(e));
    }
  }

  /** The operations that run are exactly the one in flight, if any, until shutdown or the end of the
      revisions; and never, not even then, is there more than one. */
  lemma {:induction false} OperationsAreTracked(es: seq<Event>)
    ensures !After(es).stopped && !After(es).machine.exhausted ==> Running(es) == AsSet(After(es).machine.inFlight)
    ensures |Running(es)| <= 1
  {
    if es != [] {
      var before, e := es[..|es| - 1], es[|es| - 1];
      OperationsAreTracked(before);
      MachineFollowsCalls(before);
      StepMovesFlight(After(before), e);
      RunningStaysSmall(Running(before), Ended(e), OutcomeAt(es, |es| - 1).start);
    }
  }

  lemma RunningStaysSmall(running: set<Token>, ended: set<Token>, start: Option<Token>)
    requires |running| <= 1 && (start.Some? ==> running <= ended)
    ensures |running - ended + AsSet(start)| <= 1
  {
    if start.Some? {
      assert running - ended + AsSet(start) == {start.value};
    } else {
      assert running - ended + AsSet(start) <= running;
      SubsetIsSmaller(running - ended + AsSet(start), running);
    }
  }

  lemma SubsetIsSmaller(a: set<Token>, b: set<Token>)
    requires a <= b
    ensures |a| <= |b|
  {
    assert b == a + (b - a);
  }

  // ---- requests

  /** What the coordinator remembers of the last recorded request: it is kept for merging while it is
      being worked on, and at rest unless a desired state was not reached. */
  ghost predicate Remembers(c: Coordinator, last: Option<Token>) {
    && (c.machine.latest.None? || c.machine.latest == last)
    && (c.machine.inFlight.Some? ==> !c.published.failed)
    && (c.machine.inFlight.None? && last.Some? ==>
          (c.machine.latest == last <==> last.value.kind == R.Refresh || !c.published.failed))
    && (last.None? ==> !c.published.failed)
  }

  /** The last recorded request after one more item. */
  ghost function RecordedAfter(c: Coordinator, e: Event, last: Option<Token>): Option<Token>
    requires !e.Shutdown?
  {
    var r := R.Step(c.machine, Call(e));
    if e.Request? && r.reply.accepted && !r.reply.coalesced then r.state.latest else last
  }

  lemma RequestRemembers(c: Coordinator, desired: Option<bool>, last: Option<Token>)
    requires R.Inv(c.machine) && !c.stopped && Remembers(c, last)
    ensures var after := AfterRequest(c, desired, NoStop).state;
            !after.machine.exhausted ==> Remembers(after, RecordedAfter(c, Request(desired, NoStop), last))
  {
  }

  lemma FinishRemembers(c: Coordinator, operation: Token, known: bool, actual: bool, last: Option<Token>)
    requires R.Inv(c.machine) && !c.stopped && Remembers(c, last) && !c.machine.exhausted
    ensures Remembers(AfterFinish(c, operation, known, actual, NoStop).state, last)
  {
  }

  lemma RecordedAfterIsLast(es: seq<Event>, e: Event)
    requires !After(es).stopped && !e.Shutdown? && !Step(After(es), e).state.machine.exhausted
    ensures R.LastRecorded(Calls(es + [e])) == RecordedAfter(After(es), e, R.LastRecorded(Calls(es)))
  {
    NextItem(es, e);
    MachineFollowsCalls(es);
    ItemRunsMachine(After(es), e);
    R.LastRecordedStep(Calls(es), Call(e));
  }

  lemma {:induction false} EveryHistoryRemembers(es: seq<Event>)
    requires !After(es).stopped && !After(es).machine.exhausted
    ensures Remembers(After(es), R.LastRecorded(Calls(es)))
  {
    if es != [] {
      var before, e := es[..|es| - 1], es[|es| - 1];
      var c, last := After(before), R.LastRecorded(Calls(before));
      assert es == before + [e];
      UnstoppedItem(c, e);
      MachineFollowsCalls(before);
      StepMovesFlight(c, e);
      EveryHistoryRemembers(before);
      RecordedAfterIsLast(before, e);
      match e
      case Request(desired, _) => RequestRemembers(c, desired, last);
      case Finish(operation, known, actual, _) => FinishRemembers(c, operation, known, actual, last);
    }
  }

  /** A request changes the snapshot exactly if revisions have not run out and it is not merged: a
      refresh is merged while the snapshot is busy; a desired state is merged while the last recorded
      request asks for it and the snapshot does not say that it failed. */
  lemma RequestIsAnnouncedIff(es: seq<Event>, desired: Option<bool>)
    requires !After(es).stopped
    ensures var c, after := After(es), AfterRequest(After(es), desired, NoStop).state;
            after.published != c.published <==>
            && !after.machine.exhausted
            && if desired.None? then !c.published.busy
               else !Wants(R.LastRecorded(Calls(es)), desired.value) || c.published.failed
  {
    EveryHistoryIsCoherent(es);
    MachineFollowsCalls(es);
    AnnouncedUnlessMerged(After(es), desired);
    if desired.Some? && !After(es).machine.exhausted {
      EveryHistoryRemembers(es);
      WantsIffRemembered(After(es), R.LastRecorded(Calls(es)), desired.value);
    }
  }

  lemma AnnouncedUnlessMerged(c: Coordinator, desired: Option<bool>)
    requires R.Inv(c.machine) && Coherent(c) && !c.stopped
    ensures var after := AfterRequest(c, desired, NoStop).state;
            && (c.machine.exhausted ==> after.machine.exhausted)
            && (after.published != c.published <==>
                  && !after.machine.exhausted
                  && if desired.Some? then !Wants(c.machine.latest, desired.value) else !c.published.busy)
  {
  }

  lemma WantsIffRemembered(c: Coordinator, last: Option<Token>, desired: bool)
    requires R.Inv(c.machine) && Remembers(c, last)
    ensures Wants(c.machine.latest, desired) <==> Wants(last, desired) && !c.published.failed
  {
  }

  /** Then the snapshot carries a new revision and is busy, with the desired state shown as not known. */
  lemma AnnouncementTells(es: seq<Event>, desired: Option<bool>)
    requires !After(es).stopped
    ensures var c, after := After(es).published, AfterRequest(After(es), desired, NoStop).state.published;
            after != c ==>
              && after.revision == c.revision + 1 && after.busy && !after.failed
              && (if desired.Some? then after.enabled == desired.value && !after.known
                  else after.enabled == c.enabled && after.known == c.known)
  {
    EveryHistoryIsCoherent(es);
    MachineFollowsCalls(es);
  }

  /** A desired state is merged only where the snapshot already shows it: as being brought about, or
      at rest and confirmed. */
  lemma MergedStateIsShown(es: seq<Event>, desired: bool)
    requires !After(es).stopped && Wants(After(es).machine.latest, desired)
    ensures var c := After(es);
            && c.published.enabled == desired
            && (if c.published.busy then !c.published.known
                else c.published.known && c.confirmedKnown && c.confirmedEnabled == desired)
  {
    EveryHistoryIsCoherent(es);
    MachineFollowsCalls(es);
  }

  // ---- completions

  /** The operation is the one in flight and its request is the last that was recorded. */
  ghost predicate IsLatest(es: seq<Event>, operation: Token) {
    && !After(es).machine.exhausted
    && After(es).machine.inFlight == Some(operation)
    && R.LastRecorded(Calls(es)) == Some(operation)
  }

  lemma PublishesIffLatest(es: seq<Event>, operation: Token, known: bool, actual: bool)
    ensures R.Step(After(es).machine, FinishCall(operation, known, actual)).reply.disposition == R.Publish
            <==> IsLatest(es, operation)
  {
    MachineFollowsCalls(es);
    R.LatestIsLastRecorded(Calls(es));
  }

  /** The state committed last, read off the history. */
  ghost function LastCommitted(es: seq<Event>): Option<bool> {
    if es == [] then None
    else
      var mine := OutcomeAt(es, |es| - 1).commit;
      if mine.Some? then mine else LastCommitted(es[..|es| - 1])
  }

  /** The two confirmed fields are the last committed state, if any. */
  ghost predicate Confirms(c: Coordinator, committed: Option<bool>) {
    && (c.confirmedKnown <==> committed.Some?)
    && (c.confirmedEnabled <==> committed == Some(true))
  }

  lemma StepConfirms(c: Coordinator, e: Event, committed: Option<bool>)
    requires Confirms(c, committed) && !Step(c, e).state.stopped
    ensures Confirms(Step(c, e).state, if Step(c, e).commit.Some? then Step(c, e).commit else committed)
  {
    UnstoppedItem(c, e);
    match e
    case Request(_, _) =>
    case Finish(_, _, _, _) =>
  }

  /** Until shutdown a state counts as confirmed exactly if it is the one committed last: what a stale
      or superseded operation found never does. */
  lemma {:induction false} ConfirmedIsLastCommitted(es: seq<Event>)
    requires !After(es).stopped
    ensures Confirms(After(es), LastCommitted(es))
  {
    if es != [] {
      var before, e := es[..|es| - 1], es[|es| - 1];
      UnstoppedItem(After(before), e);
      ConfirmedIsLastCommitted(before);
      StepConfirms(After(before), e, LastCommitted(before));
    }
  }

  /** So the snapshot at rest shows the state committed last, and nothing is known before the first. */
  lemma RestShowsLastCommitted(es: seq<Event>)
    requires !After(es).stopped && !After(es).published.busy
    ensures After(es).published.known <==> LastCommitted(es).Some?
    ensures After(es).published.enabled <==> LastCommitted(es) == Some(true)
  {
    EveryHistoryIsCoherent(es);
    ConfirmedIsLastCommitted(es);
  }

  /** A finished operation changes the snapshot exactly if it belongs to the last recorded request. The
      snapshot is then at rest, shows what was found or else what was committed last, and says failed
      exactly if the state could not be queried or is not the desired one. */
  lemma CompletionIsPublishedIff(es: seq<Event>, operation: Token, known: bool, actual: bool)
    requires !After(es).stopped
    ensures var c, after := After(es), AfterFinish(After(es), operation, known, actual, NoStop).state;
            && (after.published != c.published <==> IsLatest(es, operation))
            && (IsLatest(es, operation) ==>
                  && !after.published.busy && after.published.revision == operation.revision
                  && (after.published.failed <==>
                        !known || (operation.kind == R.Desired && actual != operation.desired))
                  && (known ==> after.published.known && after.published.enabled == actual)
                  && (!known ==> (after.published.known <==> LastCommitted(es).Some?)
                                 && (after.published.enabled <==> LastCommitted(es) == Some(true))))
  {
    PublishesIffLatest(es, operation, known, actual);
    ConfirmedIsLastCommitted(es);
  }

  /** Settings are committed exactly when the operation of the last recorded request has found a state
      and shutdown has not come before, and what is committed is the state found. */
  lemma CommitsExactly(es: seq<Event>, e: Event)
    requires !After(es).stopped
    ensures Step(After(es), e).commit ==
            if e.Finish? && IsLatest(es, e.operation) && e.known && !e.stop.BeforeCommit? then Some(e.actual) else None
  {
    if e.Finish? {
      PublishesIffLatest(es, e.operation, e.known, e.actual);
    }
  }

  /** The snapshot is the same, or has one of the next two numbers. */
  ghost predicate Renumbered(before: Snapshot, after: Snapshot) {
    var next := Incremented(before.publication);
    after == before || after.publication == next || after.publication == Incremented(next)
  }

  /** A snapshot is renumbered whenever it changes, so that observers can tell a newer one. */
  lemma ChangesAreNumbered(c: Coordinator, e: Event)
    ensures Renumbered(c.published, Step(c, e).state.published)
  {
    match e
    case Request(desired, stop) => RequestIsNumbered(c, desired, stop);
    case Finish(operation, known, actual, stop) => FinishIsNumbered(c, operation, known, actual, stop);
    case Shutdown =>
  }

  lemma RequestIsNumbered(c: Coordinator, desired: Option<bool>, stop: StopAt)
    ensures Renumbered(c.published, AfterRequest(c, desired, stop).state.published)
  {
  }

  lemma FinishIsNumbered(c: Coordinator, operation: Token, known: bool, actual: bool, stop: StopAt)
    ensures Renumbered(c.published, AfterFinish(c, operation, known, actual, stop).state.published)
  {
  }

  /** From every busy state before shutdown and the end of the revisions, letting the running operation
      finish, and then the one that replaces it, brings the coordinator to rest: nothing runs, the
      snapshot shows what the last request's operation found, and that is committed. */
  lemma CanSettle(es: seq<Event>, known: bool, actual: bool) returns (done: seq<Event>)
    requires !After(es).stopped && !After(es).machine.exhausted && After(es).published.busy
    ensures 1 <= |done| <= 2 && forall k :: 0 <= k < |done| ==> done[k].Finish?
    ensures done[0].operation in Running(es) && IsLatest(es + done[..|done| - 1], done[|done| - 1].operation)
    ensures R.LastRecorded(Calls(es)) == Some(done[|done| - 1].operation)
    ensures Running(es + done) == {} && !After(es + done).stopped && !After(es + done).published.busy
    ensures known ==> After(es + done).published.known && After(es + done).published.enabled == actual
    ensures OutcomeAt(es + done, |es| + |done| - 1).commit == if known then Some(actual) else None
  {
    BusyHasLatest(es);
    var c := After(es);
    var first := Finish(c.machine.inFlight.value, known, actual, NoStop);
    if c.machine.inFlight == c.machine.latest {
      done := [first];
      assert es + done[..0] == es;
      LatestSettles(es, known, actual);
    } else {
      SupersededMovesOn(es, first);
      var second := Finish(c.machine.latest.value, known, actual, NoStop);
      done := [first, second];
      assert done[..1] == [first] && es + done == es + [first] + [second];
      LatestSettles(es + [first], known, actual);
    }
  }

  lemma BusyHasLatest(es: seq<Event>)
    requires !After(es).stopped && !After(es).machine.exhausted && After(es).published.busy
    ensures After(es).machine.inFlight.Some? && After(es).machine.inFlight.value in Running(es)
    ensures After(es).machine.latest.Some? && After(es).machine.latest == R.LastRecorded(Calls(es))
  {
    EveryHistoryIsCoherent(es);
    MachineFollowsCalls(es);
    R.LatestIsLastRecorded(Calls(es));
    OperationsAreTracked(es);
  }

  /** The last step of settling. */
  lemma LatestSettles(es: seq<Event>, known: bool, actual: bool)
    requires !After(es).stopped && !After(es).machine.exhausted && After(es).machine.inFlight.Some?
    requires After(es).machine.inFlight == After(es).machine.latest
    ensures var operation := After(es).machine.inFlight.value;
            var es' := es + [Finish(operation, known, actual, NoStop)];
            && IsLatest(es, operation) && operation in Running(es)
            && Running(es') == {} && !After(es').stopped && !After(es').published.busy
            && (known ==> After(es').published.known && After(es').published.enabled == actual)
            && OutcomeAt(es', |es|).commit == if known then Some(actual) else None
  {
    var operation := After(es).machine.inFlight.value;
    var e := Finish(operation, known, actual, NoStop);
    MachineFollowsCalls(es);
    R.LatestIsLastRecorded(Calls(es));
    OperationsAreTracked(es);
    LastItem(es, e);
    CompletionIsPublishedIff(es, operation, known, actual);
    CommitsExactly(es, e);
    OperationsAreTracked(es + [e]);
  }

  /** The step before it, if a newer request was recorded. */
  lemma SupersededMovesOn(es: seq<Event>, e: Event)
    requires !After(es).stopped && !After(es).machine.exhausted && e.Finish? && e.stop.NoStop?
    requires After(es).machine.inFlight == Some(e.operation) && After(es).machine.latest != Some(e.operation)
    ensures var after := After(es + [e]);
            && !after.stopped && !after.machine.exhausted
            && after.machine.inFlight == after.machine.latest == After(es).machine.latest
            && after.machine.latest.Some?
    ensures R.LastRecorded(Calls(es + [e])) == R.LastRecorded(Calls(es))
  {
    LastItem(es, e);
    MachineFollowsCalls(es);
    MachineFollowsCalls(es + [e]);
    R.LatestIsLastRecorded(Calls(es));
    R.LatestIsLastRecorded(Calls(es + [e]));
    assert (es + [e])[..|es|] == es;
    R.CountDownStep(Calls(es), Call(e));
  }

  // ---- the object

  class StartupTaskCoordinator {
    const requests: R.LatestStartupTaskRequestState
    var confirmedEnabled: bool
    var confirmedKnown: bool
    var published: Snapshot
    var stopped: bool
    ghost var history: seq<Event>

    ghost function Model(): Coordinator
      reads this, requests
    {
      Coordinator(requests.Model(), confirmedEnabled, confirmedKnown, published, stopped)
    }

    ghost predicate Valid()
      reads this, requests
    {
      requests.Valid() && requests.history == Calls(history) && Model() == After(history)
    }

    constructor ()
      ensures Valid() && fresh(requests) && history == []
    {
      requests := new R.LatestStartupTaskRequestState();
      confirmedEnabled, confirmedKnown, stopped := false, false, false;
      published := Snapshot(0, 0, false, false, false, false);
      history := [];
    }

    method Publish(snapshot: Snapshot)
      modifies this`published
      ensures Model() == AfterPublish(old(Model()), snapshot)
    {
      if stopped {
        return;
      }
      published := snapshot.(publication := Incremented(published.publication));
    }

    /** A request to reach a desired state, or without one to refresh. */
    method Request(desired: Option<bool>) returns (start: Option<Token>)
      requires requests.Valid()
      modifies this`published, requests
      ensures requests.Valid() && requests.history == old(requests.history) + [RequestCall(desired)]
      ensures Outcome(Model(), start, None) == AfterRequest(old(Model()), desired, NoStop)
    {
      R.LastCall(requests.history, RequestCall(desired));
      var reply;
      if desired.Some? {
        reply := requests.RequestDesired(desired.value);
      } else {
        reply := requests.RequestRefresh();
      }
      if !reply.accepted || reply.coalesced {
        return None;
      }
      var snapshot := published.(revision := reply.revision, busy := true, failed := false);
      if desired.Some? {
        snapshot := snapshot.(enabled := desired.value, known := false);
      }
      Publish(snapshot);
      start := if stopped then None else reply.start;
    }

    /** An operation has finished: `known` says whether the state could be queried and `actual` what it was. */
    method Complete(operation: Token, known: bool, actual: bool) returns (start: Option<Token>, commit: Option<bool>)
      requires requests.Valid()
      modifies this`confirmedEnabled, this`confirmedKnown, this`published, requests
      ensures requests.Valid() && requests.history == old(requests.history) + [FinishCall(operation, known, actual)]
      ensures Outcome(Model(), start, commit) == AfterFinish(old(Model()), operation, known, actual, NoStop)
    {
      R.LastCall(requests.history, FinishCall(operation, known, actual));
      var failed := !known || (operation.kind == R.Desired && actual != operation.desired);
      var reached := operation.kind != R.Desired || (known && actual == operation.desired);
      var reply := requests.Complete(operation, reached);
      start, commit := None, None;
      if reply.disposition == R.Publish {
        if known {
          confirmedKnown, confirmedEnabled := true, actual;
          commit := if stopped then None else Some(actual);
        }
        Publish(published.(revision := operation.revision, known := confirmedKnown, enabled := confirmedEnabled,
                           busy := false, failed := failed || !known));
      }
      start := if stopped then None else reply.start;
    }

    /** The drainer runs a queued request. */
    method RunRequest(desired: Option<bool>) returns (start: Option<Token>)
      requires Valid()
      modifies this`published, this`history, requests
      ensures Valid() && history == old(history) + [Event.Request(desired, NoStop)]
      ensures start == OutcomeAt(history, |old(history)|).start
    {
      start := None;
      if !stopped {
        start := Request(desired);
      }
      NextItem(history, Event.Request(desired, NoStop));
      history := history + [Event.Request(desired, NoStop)];
    }

    /** The drainer runs a queued completion. */
    method RunCompletion(operation: Token, known: bool, actual: bool)
      returns (start: Option<Token>, commit: Option<bool>)
      requires Valid()
      modifies this`confirmedEnabled, this`confirmedKnown, this`published, this`history, requests
      ensures Valid() && history == old(history) + [Finish(operation, known, actual, NoStop)]
      ensures start == OutcomeAt(history, |old(history)|).start
      ensures commit == OutcomeAt(history, |old(history)|).commit
    {
      start, commit := None, None;
      if !stopped {
        start, commit := Complete(operation, known, actual);
      }
      NextItem(history, Finish(operation, known, actual, NoStop));
      history := history + [Finish(operation, known, actual, NoStop)];
    }

    method Stop()
      requires Valid()
      modifies this`stopped, this`published, this`history
      ensures Valid() && history == old(history) + [Shutdown]
    {
      ShutdownHalts(history);
      history := history + [Shutdown];
      stopped := true;
      if published.busy {
        published := published.(busy := false, publication := Incremented(published.publication));
      }
    }
  }

  lemma NextItem(es: seq<Event>, e: Event)
    ensures After(es + [e]) == Step(After(es), e).state && OutcomeAt(es + [e], |es|) == Step(After(es), e)
    ensures Calls(es + [e]) == if After(es).stopped || e.Shutdown? then Calls(es) else Calls(es) + [Call(e)]
    ensures After(es).stopped ==> Step(After(es), e) == Outcome(After(es), None, None)
  {
    LastItem(es, e);
    assert (es + [e])[..|es|] == es;
  }

  lemma ShutdownHalts(es: seq<Event>)
    ensures After(es + [Shutdown]) == Halted(After(es)) && Calls(es + [Shutdown]) == Calls(es)
  {
    NextItem(es, Shutdown);
    StoppedAreNotBusy(es);
  }
}
