/**
 The snapshot's `busy` when revisions run out. The request that finds none left is refused, the machine
 gives up the operation in flight, and nothing is published any more: if an operation was running, the
 snapshot stays busy after it has finished. Here is exactly when, with a history that shows it.
 */
module StartupExhaustion {
  import opened Words
  import opened StartupCoordinator
  import R = StartupRequests

  // ---- the request that spoils it

  /** It needs a revision and there is none left, while an
      operation is in flight. */
  predicate Breaks(c: Coordinator, e: Event) {
    && !c.stopped && e.Request? && e.stop.NoStop?
    && c.machine.revision == U64_MAX && !c.machine.exhausted && c.machine.inFlight.Some?
    && e.desired.Some? && !Wants(c.machine.latest, e.desired.value)
  }

  lemma BreaksIff(c: Coordinator, e: Event)
    requires R.Inv(c.machine) && Coherent(c) && !Step(c, e).state.stopped && BusyMatches(c)
    ensures !BusyMatches(Step(c, e).state) <==> Breaks(c, e)
  {
    UnstoppedItem(c, e);
    ItemRunsMachine(c, e);
    R.RunsOutIff(c.machine, Call(e));
    match e
    case Request(desired, _) => RequestKeepsCoherent(c, desired);
    case Finish(operation, known, actual, _) => FinishKeepsCoherent(c, operation, known, actual);
  }

  lemma HistoryBreaksIff(es: seq<Event>, k: nat)
    requires k < |es| && !After(es).stopped && BusyMatches(After(es[..k]))
    ensures BusyMatches(After(es[..k + 1])) <==> !Breaks(After(es[..k]), es[k])
  {
    UnstoppedBefore(es, k);
    UnstoppedBefore(es, k + 1);
    OneMore(es, k);
    EveryHistoryIsCoherent(es[..k]);
    MachineFollowsCalls(es[..k]);
    BreaksIff(After(es[..k]), es[k]);
  }

  lemma ExhaustedStep(c: Coordinator, e: Event)
    requires R.Inv(c.machine) && c.machine.exhausted && !Step(c, e).state.stopped
    ensures Step(c, e) == Outcome(c, None, None)
  {
    UnstoppedItem(c, e);
  }

  lemma ExhaustedItem(es: seq<Event>, j: nat)
    requires j < |es| && !After(es).stopped && After(es[..j]).machine.exhausted
    ensures After(es[..j + 1]) == After(es[..j])
    ensures OutcomeAt(es, j).start == None && OutcomeAt(es, j).commit == None
  {
    UnstoppedBefore(es, j + 1);
    OneMore(es, j);
    MachineFollowsCalls(es[..j]);
    ExhaustedStep(After(es[..j]), es[j]);
  }

  ghost predicate StaysExhausted(before: Coordinator, after: Coordinator) {
    before.machine.exhausted ==> after == before
  }

  lemma {:induction false} AllStay(cs: seq<Coordinator>, i: nat, j: nat)
    requires i <= j < |cs| && cs[i].machine.exhausted
    requires forall k :: 0 <= k < |cs| - 1 ==> StaysExhausted(cs[k], cs[k + 1])
    ensures cs[j] == cs[i]
  {
    if i < j {
      AllStay(cs, i, j - 1);
      assert StaysExhausted(cs[j - 1], cs[j - 1 + 1]);
    }
  }

  lemma ExhaustedStays(es: seq<Event>, i: nat, j: nat)
    requires i <= j <= |es| && !After(es).stopped && After(es[..i]).machine.exhausted
    ensures After(es[..j]) == After(es[..i])
  {
    var cs := seq(|es| + 1, k requires 0 <= k <= |es| => After(es[..k]));
    forall k | 0 <= k < |es| ensures StaysExhausted(cs[k], cs[k + 1]) {
      if After(es[..k]).machine.exhausted {
        ExhaustedItem(es, k);
      }
    }
    AllStay(cs, i, j);
  }

  /** Once revisions have run out nothing changes any more until shutdown, and nothing is started or
      committed; so a snapshot that is busy then stays so. */
  lemma StuckUntilStopped(es: seq<Event>, i: nat, j: nat)
    requires i <= j < |es| && !After(es).stopped && After(es[..i]).machine.exhausted
    ensures After(es[..j + 1]) == After(es[..i])
    ensures OutcomeAt(es, j).start == None && OutcomeAt(es, j).commit == None
  {
    ExhaustedStays(es, i, j);
    ExhaustedStays(es, i, j + 1);
    ExhaustedItem(es, j);
  }

  lemma BreakingStep(c: Coordinator, e: Event)
    requires R.Inv(c.machine) && Coherent(c) && Breaks(c, e)
    ensures var o := Step(c, e);
            && o.state.machine.exhausted && o.state.machine.inFlight == None && o.start == None
            && o.state.published == c.published && c.published.busy
  {
  }

  lemma BreakingItem(es: seq<Event>, k: nat)
    requires k < |es| && !After(es).stopped && Breaks(After(es[..k]), es[k])
    ensures var c := After(es[..k + 1]);
            && c.machine.exhausted && c.machine.inFlight == None
            && c.published == After(es[..k]).published && c.published.busy
    ensures OutcomeAt(es, k).start == None
  {
    UnstoppedBefore(es, k);
    EveryHistoryIsCoherent(es[..k]);
    MachineFollowsCalls(es[..k]);
    BreakingStep(After(es[..k]), es[k]);
    OneMore(es, k);
  }

  /** The request leaves the snapshot as it was, so it stays busy with nothing in flight. */
  lemma BreakingLeavesBusy(es: seq<Event>, k: nat)
    requires k < |es| && !After(es).stopped && Breaks(After(es[..k]), es[k])
    ensures After(es[..k + 1]).machine.exhausted && After(es) == After(es[..k + 1])
    ensures After(es).published == After(es[..k]).published && After(es).published.busy
    ensures After(es).machine.inFlight == None
  {
    BreakingItem(es, k);
    ExhaustedStays(es, k + 1, |es|);
    assert es[..|es|] == es;
  }

  ghost predicate BrokenBy(es: seq<Event>, k: nat)
    requires k < |es|
  {
    Breaks(After(es[..k]), es[k])
  }

  /** Until shutdown the snapshot is busy exactly while an operation is in flight if and only if no such
      request was made. */
  lemma {:induction false} BusyMatchesIff(es: seq<Event>)
    requires !After(es).stopped
    ensures BusyMatches(After(es)) <==> forall k :: 0 <= k < |es| ==> !BrokenBy(es, k)
  {
    if k :| 0 <= k < |es| && BrokenBy(es, k) {
      BreakingLeavesBusy(es, k);
    } else {
      UnbrokenMatches(es, |es|);
      assert es[..|es|] == es;
    }
  }

  lemma {:induction false} UnbrokenMatches(es: seq<Event>, j: nat)
    requires j <= |es| && !After(es).stopped && forall k :: 0 <= k < |es| ==> !BrokenBy(es, k)
    ensures BusyMatches(After(es[..j]))
  {
    if j > 0 {
      UnbrokenMatches(es, j - 1);
      HistoryBreaksIff(es, j - 1);
      assert !BrokenBy(es, j - 1);
    }
  }

  /** The operation finished somewhere in the history from `i` up to `j`. */
  ghost predicate FinishedIn(es: seq<Event>, i: nat, j: nat, t: Token)
    requires i <= j <= |es|
  {
    exists m :: i <= m < j && es[m].Finish? && es[m].operation == t
  }

  lemma LastRuns(es: seq<Event>, j: nat)
    requires j < |es|
    ensures Running(es[..j + 1]) == Running(es[..j]) - Ended(es[j]) + AsSet(OutcomeAt(es, j).start)
  {
    assert es[..j + 1][..j] == es[..j];
  }

  lemma ExhaustedOnlyEnds(es: seq<Event>, j: nat)
    requires j < |es| && !After(es).stopped && After(es[..j]).machine.exhausted
    ensures Running(es[..j + 1]) == Running(es[..j]) - Ended(es[j])
  {
    ExhaustedItem(es, j);
    LastRuns(es, j);
  }

  lemma {:induction false} AllOnlyEnd(es: seq<Event>, running: seq<set<Token>>, i: nat, j: nat, t: Token)
    requires i <= j <= |es| < |running|
    requires forall k :: i <= k < |es| ==> running[k + 1] == running[k] - Ended(es[k])
    ensures t in running[j] <==> t in running[i] && !FinishedIn(es, i, j, t)
    decreases j - i
  {
    if i < j {
      AllOnlyEnd(es, running, i, j - 1, t);
      assert running[j - 1 + 1] == running[j - 1] - Ended(es[j - 1]);
      assert FinishedIn(es, i, j, t) <==> FinishedIn(es, i, j - 1, t) || t in Ended(es[j - 1]);
    }
  }

  lemma ExhaustedOnlyFinishes(es: seq<Event>, i: nat, j: nat, t: Token)
    requires i <= j <= |es| && !After(es).stopped && After(es[..i]).machine.exhausted
    ensures t in Running(es[..j]) <==> t in Running(es[..i]) && !FinishedIn(es, i, j, t)
  {
    var running := seq(|es| + 1, k requires 0 <= k <= |es| => Running(es[..k]));
    forall k | i <= k < |es| ensures running[k + 1] == running[k] - Ended(es[k]) {
      ExhaustedStays(es, i, k);
      ExhaustedOnlyEnds(es, k);
    }
    AllOnlyEnd(es, running, i, j, t);
  }

  /** The request that spoils the snapshot was made at `k` and the operation then running has ended. */
  ghost predicate Misleading(es: seq<Event>, k: nat)
    requires k < |es|
  {
    BrokenBy(es, k) && FinishedIn(es, k + 1, |es|, After(es[..k]).machine.inFlight.value)
  }

  lemma BreakingEndsNothing(es: seq<Event>, k: nat)
    requires k < |es| && !After(es).stopped && BrokenBy(es, k)
    ensures Running(es[..k + 1]) == AsSet(After(es[..k]).machine.inFlight)
  {
    OperationsAreTracked(es[..k]);
    BreakingItem(es, k);
    LastRuns(es, k);
  }

  lemma RunningAfterBreak(es: seq<Event>, k: nat, t: Token)
    requires k < |es| && !After(es).stopped && BrokenBy(es, k)
    ensures t in Running(es) <==> After(es[..k]).machine.inFlight == Some(t) && !FinishedIn(es, k + 1, |es|, t)
  {
    BreakingItem(es, k);
    BreakingEndsNothing(es, k);
    ExhaustedOnlyFinishes(es, k + 1, |es|, t);
    assert es[..|es|] == es;
  }

  lemma {:induction false} RunsOutAt(es: seq<Event>, j: nat) returns (k: nat)
    requires j <= |es| && After(es[..j]).machine.exhausted
    ensures k < j && !After(es[..k]).machine.exhausted && After(es[..k + 1]).machine.exhausted
  {
    assert j > 0;
    if After(es[..j - 1]).machine.exhausted {
      k := RunsOutAt(es, j - 1);
    } else {
      k := j - 1;
    }
  }

  /** If revisions run out and no request spoiled the snapshot, nothing was in flight. */
  lemma RunsOutAtRest(es: seq<Event>, k: nat)
    requires k < |es| && !After(es).stopped && !BrokenBy(es, k)
    requires !After(es[..k]).machine.exhausted && After(es[..k + 1]).machine.exhausted
    ensures Running(es[..k + 1]) == {}
  {
    var c, e := After(es[..k]), es[k];
    UnstoppedBefore(es, k);
    UnstoppedBefore(es, k + 1);
    OneMore(es, k);
    MachineFollowsCalls(es[..k]);
    MachineFollowsCalls(es[..k + 1]);
    UnstoppedItem(c, e);
    ItemRunsMachine(c, e);
    R.RunsOutIff(c.machine, Call(e));
    OperationsAreTracked(es[..k]);
    StepStartsExactly(c, e);
    LastRuns(es, k);
  }

  lemma ExhaustedAtRest(es: seq<Event>)
    requires !After(es).stopped && After(es).machine.exhausted
    requires forall k :: 0 <= k < |es| ==> !BrokenBy(es, k)
    ensures Running(es) == {}
  {
    assert es[..|es|] == es;
    var k := RunsOutAt(es, |es|);
    RunsOutAtRest(es, k);
    forall t ensures t !in Running(es) {
      ExhaustedOnlyFinishes(es, k + 1, |es|, t);
    }
  }

  lemma UnbrokenTellsTheTruth(es: seq<Event>)
    requires !After(es).stopped && forall k :: 0 <= k < |es| ==> !BrokenBy(es, k)
    ensures After(es).published.busy <==> Running(es) != {}
  {
    BusyMatchesIff(es);
    MachineFollowsCalls(es);
    OperationsAreTracked(es);
    if After(es).machine.exhausted {
      ExhaustedAtRest(es);
    }
  }

  lemma BrokenTellsTheTruthIff(es: seq<Event>, k: nat)
    requires k < |es| && !After(es).stopped && BrokenBy(es, k)
    ensures Running(es) != {} <==> forall k :: 0 <= k < |es| ==> !Misleading(es, k)
  {
    var operation := After(es[..k]).machine.inFlight.value;
    forall t ensures t in Running(es) <==> t == operation && !Misleading(es, k) {
      RunningAfterBreak(es, k, t);
    }
    if !Misleading(es, k) {
      assert operation in Running(es);
      forall k' | 0 <= k' < |es| ensures !Misleading(es, k') {
        if BrokenBy(es, k') {
          RunningAfterBreak(es, k', operation);
        }
      }
    }
  }

  /** The exact condition for the snapshot to tell the truth: until shutdown it is busy exactly while an
      operation is running, if and only if it is not the case that a request spoiled it and the operation
      running then has finished. */
  lemma BusyTellsTheTruthIff(es: seq<Event>)
    requires !After(es).stopped
    ensures (After(es).published.busy <==> Running(es) != {}) <==> forall k :: 0 <= k < |es| ==> !Misleading(es, k)
  {
    if k :| 0 <= k < |es| && BrokenBy(es, k) {
      BreakingLeavesBusy(es, k);
      BrokenTellsTheTruthIff(es, k);
    } else {
      UnbrokenTellsTheTruth(es);
    }
  }

  /** Requests for the opposite state, one after the other. */
  function Alternating(n: nat): seq<Event> {
    if n == 0 then [] else Alternating(n - 1) + [Request(Some(n % 2 == 1), NoStop)]
  }

  function AfterAlternating(n: U64): Coordinator {
    var latest := R.Token(n, R.Desired, n % 2 == 1);
    Coordinator(R.State(n, Some(latest), Some(R.Token(1, R.Desired, true)), false, false), false, false,
                Snapshot(n, n, latest.desired, false, true, false), false)
  }

  lemma OneMoreAlternates(n: U64)
    requires n > 0
    ensures Step(if n == 1 then INITIAL else AfterAlternating(n - 1), Request(Some(n % 2 == 1), NoStop)).state ==
            AfterAlternating(n)
  {
  }

  lemma {:induction false} AlternatingUsesRevisions(n: U64)
    requires n > 0
    ensures After(Alternating(n)) == AfterAlternating(n)
  {
    if n > 1 {
      AlternatingUsesRevisions(n - 1);
    }
    OneMoreAlternates(n);
    LastItem(Alternating(n - 1), Request(Some(n % 2 == 1), NoStop));
  }

  lemma OneRequestTooMany(n: U64, known: bool, actual: bool) returns (es: seq<Event>)
    requires n == U64_MAX
    ensures |es| > 0 && !After(es).stopped && After(es).published.busy && Running(es) == {}
    ensures After(es).machine.exhausted && exists k :: 0 <= k < |es| && Misleading(es, k)
  {
    var before := Alternating(n);
    var e := Request(Some(n % 2 == 0), NoStop);
    var finish := Finish(R.Token(1, R.Desired, true), known, actual, NoStop);
    AlternatingUsesRevisions(n);
    es := before + [e] + [finish];
    var k := |before|;
    assert es[..k] == before && es[k] == e && es[k + 1] == finish;
    LastItem(before, e);
    LastItem(before + [e], finish);
    LastOneBreaks(n, finish);
    assert Misleading(es, k);
    BreakingLeavesBusy(es, k);
    BusyTellsTheTruthIff(es);
  }

  lemma LastOneBreaks(n: U64, finish: Event)
    requires n == U64_MAX && finish.Finish? && finish.stop.NoStop?
    ensures var c, e := AfterAlternating(n), Request(Some(n % 2 == 0), NoStop);
            Breaks(c, e) && !Step(c, e).state.stopped && !Step(Step(c, e).state, finish).state.stopped
  {
    var c, e := AfterAlternating(n), Request(Some(n % 2 == 0), NoStop);
    ItemRunsMachine(c, e);
    ItemRunsMachine(Step(c, e).state, finish);
  }

  /** The history that shows it: 2^64 - 1 requests use up the revisions while the first operation runs,
      one more is refused, and when the operation has finished the snapshot is still busy. */
  lemma ExhaustionLeavesBusy(known: bool, actual: bool) returns (es: seq<Event>)
    ensures !After(es).stopped && After(es).published.busy && Running(es) == {}
    ensures R.After(Calls(es)).exhausted && exists k :: 0 <= k < |es| && Misleading(es, k)
  {
    es := OneRequestTooMany(U64_MAX, known, actual);
    MachineFollowsCalls(es);
  }
}
