/**
 The UI action gate: one action races cancellation over two atomic cells, the phase and the
 success flag. Steps are single atomic operations, because neither completing nor
 classifying is atomic as a whole: completion stores the flag and then the phase, and
 classification loads the phase and then, if it read `Completed`, the flag.

 Any number of activities take part. The client rule is the source's: only the activity that
 moved the gate from pending to running completes it, and it does so once.
 */
module UiActionGate {
  import opened Words

  datatype Phase = Pending | Running | Cancelled | Completed

  datatype Result = Failed | Succeeded | Indeterminate

  /** Where an activity stands between its atomic operations. */
  datatype Activity = Free | Claimed | Publishing(value: bool) | SawCompleted

  datatype Gate = Gate(phase: Phase, succeeded: bool, activities: map<nat, Activity>)

  const START := Gate(Pending, false, map[])

  datatype Event =
    | TryBegin(who: nat)
    | StoreSucceeded(who: nat, value: bool)
    | StoreCompleted(who: nat)
    | CancelExchange(who: nat)
    | LoadPhase(who: nat)
    | LoadSucceeded(who: nat)

  function At(g: Gate, who: nat): Activity {
    if who in g.activities then g.activities[who] else Free
  }

  predicate Enabled(g: Gate, e: Event) {
    match e
    case StoreSucceeded(who, _) => At(g, who) == Claimed
    case StoreCompleted(who) => At(g, who).Publishing?
    case LoadSucceeded(who) => At(g, who) == SawCompleted
    case _ => At(g, e.who) == Free
  }

  function Step(g: Gate, e: Event): Gate {
    match e
    case TryBegin(who) =>
      if g.phase == Pending then Gate(Running, g.succeeded, g.activities[who := Claimed]) else g
    case StoreSucceeded(who, value) => Gate(g.phase, value, g.activities[who := Publishing(value)])
    case StoreCompleted(who) => Gate(Completed, g.succeeded, g.activities[who := Free])
    case CancelExchange(who) =>
      if g.phase == Pending then g.(phase := Cancelled)
      else if g.phase == Completed then g.(activities := g.activities[who := SawCompleted])
      else g
    case LoadPhase(who) =>
      if g.phase == Completed then g.(activities := g.activities[who := SawCompleted]) else g
    case LoadSucceeded(who) => g.(activities := g.activities[who := Free])
  }

  /** The classification that an atomic operation settles; none while the flag must still be read. */
  function Answer(g: Gate, e: Event): Option<Result> {
    match e
    case CancelExchange(_) =>
      if g.phase == Completed then None else Some(if g.phase == Running then Indeterminate else Failed)
    case LoadPhase(_) =>
      if g.phase == Completed then None else Some(if g.phase == Running then Indeterminate else Failed)
    case LoadSucceeded(_) => Some(if g.succeeded then Succeeded else Failed)
    case _ => None
  }

  /** An interleaving: the operations in the order they took effect, and the gate before, between
      and after them. */
  datatype Run = Run(es: seq<Event>, gs: seq<Gate>)

  ghost predicate IsRun(r: Run) {
    && |r.gs| == |r.es| + 1
    && r.gs[0] == START
    && forall i :: 0 <= i < |r.es| ==> Enabled(r.gs[i], r.es[i]) && r.gs[i + 1] == Step(r.gs[i], r.es[i])
  }

  ghost function Last(r: Run): Gate
    requires IsRun(r)
  {
    r.gs[|r.es|]
  }

  ghost function Extended(r: Run, e: Event): (r': Run)
    requires IsRun(r) && Enabled(Last(r), e)
    ensures IsRun(r')
  {
    Run(r.es + [e], r.gs + [Step(Last(r), e)])
  }

  ghost predicate Continues(r: Run, r': Run) {
    IsRun(r') && r.es <= r'.es && r.gs <= r'.gs
  }

  ghost function AnswerAt(r: Run, i: nat): Option<Result>
    requires IsRun(r) && i < |r.es|
  {
    Answer(r.gs[i], r.es[i])
  }

  /** Operation `i` claims the action. */
  ghost predicate Wins(r: Run, i: nat)
    requires IsRun(r) && i < |r.es|
  {
    r.es[i].TryBegin? && r.gs[i].phase == Pending
  }

  /** Operation `i` cancels the action before anyone claimed it. */
  ghost predicate CancelWins(r: Run, i: nat)
    requires IsRun(r) && i < |r.es|
  {
    r.es[i].CancelExchange? && r.gs[i].phase == Pending
  }

  /** The gate with its methods called one at a time. `who` names the calling activity; each method
      appends its atomic operations to the run. */
  class ControlUiActionGate {
    var phase: Phase
    var succeeded: bool
    ghost var activities: map<nat, Activity>
    ghost var run: Run

    ghost function Model(): Gate
      reads this
    {
      Gate(phase, succeeded, activities)
    }

    ghost predicate Valid()
      reads this
    {
      IsRun(run) && Model() == Last(run)
    }

    constructor ()
      ensures Valid() && run == Run([], [START])
    {
      phase, succeeded, activities, run := Pending, false, map[], Run([], [START]);
    }

    method TryBegin(ghost who: nat) returns (won: bool)
      requires Valid() && At(Model(), who) == Free
      modifies this
      ensures Valid() && run == Extended(old(run), Event.TryBegin(who))
      ensures won == Wins(run, |old(run).es|)
      ensures won ==> At(Model(), who) == Claimed
    {
      run := Extended(run, Event.TryBegin(who));
      won := phase == Pending;
      if won {
        phase := Running;
        activities := activities[who := Claimed];
      }
    }

    method Complete(ghost who: nat, value: bool)
      requires Valid() && At(Model(), who) == Claimed
      modifies this
      ensures Valid() && Continues(old(run), run)
      ensures run.es == old(run).es + [StoreSucceeded(who, value), StoreCompleted(who)]
    {
      run := Extended(run, StoreSucceeded(who, value));
      succeeded := value;
      activities := activities[who := Publishing(value)];
      run := Extended(run, StoreCompleted(who));
      phase := Completed;
      activities := activities[who := Free];
    }

    method CancelOrClassify(ghost who: nat) returns (r: Result)
      requires Valid() && At(Model(), who) == Free
      modifies this
      ensures Valid() && Continues(old(run), run)
      ensures old(run).es < run.es && run.es[|old(run).es|] == CancelExchange(who)
      ensures Some(r) == AnswerAt(run, |run.es| - 1)
    {
      run := Extended(run, CancelExchange(who));
      if phase == Pending {
        phase := Cancelled;
        return Failed;
      }
      if phase == Completed {
        activities := activities[who := SawCompleted];
      }
      r := Classify(who, phase);
    }

    method CurrentResult(ghost who: nat) returns (r: Result)
      requires Valid() && At(Model(), who) == Free
      modifies this`activities, this`run
      ensures Valid() && Continues(old(run), run)
      ensures old(run).es < run.es && run.es[|old(run).es|] == LoadPhase(who)
      ensures Some(r) == AnswerAt(run, |run.es| - 1)
    {
      run := Extended(run, LoadPhase(who));
      if phase == Completed {
        activities := activities[who := SawCompleted];
      }
      r := Classify(who, phase);
    }

    /** Classifies the phase that the last operation of the run has loaded. */
    method Classify(ghost who: nat, loaded: Phase) returns (r: Result)
      requires Valid() && |run.es| > 0 && loaded == phase
      requires if loaded == Completed then At(Model(), who) == SawCompleted
               else AnswerAt(run, |run.es| - 1) == Some(if loaded == Running then Indeterminate else Failed)
      modifies this`activities, this`run
      ensures Valid() && Continues(old(run), run)
      ensures |run.es| > 0 && Some(r) == AnswerAt(run, |run.es| - 1)
    {
      if loaded == Completed {
        run := Extended(run, LoadSucceeded(who));
        activities := activities[who := Free];
        return if succeeded then Succeeded else Failed;
      }
      return if loaded == Running then Indeterminate else Failed;
    }
  }

  // ---- the invariant of every interleaving

  ghost predicate Busy(g: Gate, who: nat) {
    At(g, who) == Claimed || At(g, who).Publishing?
  }

  /** The claimant has stored its flag. */
  ghost predicate Stored(g: Gate) {
    g.phase == Completed || exists who :: At(g, who).Publishing?
  }

  ghost predicate Inv(g: Gate) {
    && (forall who :: Busy(g, who) ==> g.phase == Running)
    && (forall who, other :: Busy(g, who) && Busy(g, other) ==> who == other)
    && (forall who :: At(g, who).Publishing? ==> g.succeeded == At(g, who).value)
    && (forall who :: At(g, who) == SawCompleted ==> g.phase == Completed)
  }

  lemma StepKeepsInv(g: Gate, e: Event)
    requires Inv(g) && Enabled(g, e)
    ensures Inv(Step(g, e))
  {
    var h := Step(g, e);
    assert forall who :: who != e.who ==> At(h, who) == At(g, who) && Busy(h, who) == Busy(g, who);
    assert e.StoreSucceeded? || e.StoreCompleted? ==> Busy(g, e.who);
    assert forall who :: At(g, who).Publishing? ==> Busy(g, who);
    assert forall who :: Busy(h, who) ==> Busy(g, who) || (e.TryBegin? && g.phase == Pending && who == e.who);
  }

  lemma {:induction false} EveryRunKeepsInv(r: Run, j: nat)
    requires IsRun(r) && j <= |r.es|
    ensures Inv(r.gs[j])
  {
    if j > 0 {
      EveryRunKeepsInv(r, j - 1);
      StepKeepsInv(r.gs[j - 1], r.es[j - 1]);
    }
  }

  lemma StepAdvances(g: Gate, e: Event)
    requires Inv(g) && Enabled(g, e)
    ensures var h := Step(g, e);
            && (g.phase == h.phase || g.phase == Pending || (g.phase == Running && h.phase == Completed))
            && (g.phase == Completed ==> h.succeeded == g.succeeded)
            && (Stored(g) ==> Stored(h))
  {
    assert e.StoreSucceeded? || e.StoreCompleted? ==> Busy(g, e.who);
    if g.phase != Completed && Stored(g) {
      var who :| At(g, who).Publishing?;
      assert Busy(g, who);
      assert Step(g, e).phase == Completed || At(Step(g, e), who).Publishing?;
    }
  }

  /** What any later moment of a run still knows of an earlier one. */
  lemma {:induction false} Advances(r: Run, i: nat, j: nat)
    requires IsRun(r) && i <= j <= |r.es|
    ensures var g, h := r.gs[i], r.gs[j];
            && (g.phase == h.phase || g.phase == Pending || (g.phase == Running && h.phase == Completed))
            && (g.phase == Completed ==> h.succeeded == g.succeeded)
            && (Stored(g) ==> Stored(h))
    decreases j - i
  {
    if i < j {
      Advances(r, i, j - 1);
      EveryRunKeepsInv(r, j - 1);
      StepAdvances(r.gs[j - 1], r.es[j - 1]);
    }
  }

  // ---- at most one winner

  /** The race has one winner: of all claims and cancellations in a run, at most one succeeds. */
  lemma OneWinner(r: Run, i: nat, j: nat)
    requires IsRun(r) && i < j < |r.es|
    requires Wins(r, i) || CancelWins(r, i)
    ensures !Wins(r, j) && !CancelWins(r, j)
  {
    Advances(r, i + 1, j);
  }

  /** The phase sums up the run so far: who won, and whether the winner has finished. */
  lemma {:induction false} PhaseTells(r: Run, j: nat)
    requires IsRun(r) && j <= |r.es|
    ensures r.gs[j].phase == Cancelled <==> exists i :: 0 <= i < j && CancelWins(r, i)
    ensures r.gs[j].phase in {Running, Completed} <==> exists i :: 0 <= i < j && Wins(r, i)
    ensures r.gs[j].phase == Completed <==> exists i :: 0 <= i < j && r.es[i].StoreCompleted?
  {
    if j > 0 {
      PhaseTells(r, j - 1);
      EveryRunKeepsInv(r, j - 1);
      var g, e := r.gs[j - 1], r.es[j - 1];
      StepAdvances(g, e);
      assert e.StoreCompleted? ==> Busy(g, e.who);
      assert Wins(r, j - 1) <==> g.phase == Pending && e.TryBegin?;
      assert CancelWins(r, j - 1) <==> g.phase == Pending && e.CancelExchange?;
    }
  }

  // ---- what the answers mean

  /** `Failed` answered by the exchange itself means that the action is never claimed: not before,
      and not later in the run, however long it goes on. */
  lemma CancelFailedMeansNeverRuns(r: Run, j: nat, k: nat)
    requires IsRun(r) && j < |r.es| && k < |r.es|
    requires r.es[j].CancelExchange? && AnswerAt(r, j) == Some(Failed)
    ensures !Wins(r, k)
  {
    if k < j {
      Advances(r, k + 1, j);
    } else if j < k {
      Advances(r, j + 1, k);
    }
  }

  /** `Indeterminate` means that the action was claimed and not yet completed at that operation. */
  lemma IndeterminateMeansRunning(r: Run, j: nat)
    requires IsRun(r) && j < |r.es| && AnswerAt(r, j) == Some(Indeterminate)
    ensures exists i :: 0 <= i < j && Wins(r, i)
    ensures forall i :: 0 <= i < j ==> !r.es[i].StoreCompleted?
  {
    PhaseTells(r, j);
  }

  /** The flag is stored at most once in a run. */
  lemma StoredOnce(r: Run, i: nat, j: nat)
    requires IsRun(r) && i < j < |r.es| && r.es[i].StoreSucceeded?
    ensures !r.es[j].StoreSucceeded?
  {
    assert At(r.gs[i + 1], r.es[i].who).Publishing?;
    Advances(r, i + 1, j);
    EveryRunKeepsInv(r, j);
    if r.es[j].StoreSucceeded? {
      assert Busy(r.gs[j], r.es[j].who);
      var who :| At(r.gs[j], who).Publishing?;
      assert Busy(r.gs[j], who);
    }
  }

  /** Only the winner of the race is ever busy. */
  lemma {:induction false} BusyWon(r: Run, j: nat, who: nat) returns (i: nat)
    requires IsRun(r) && j <= |r.es| && Busy(r.gs[j], who)
    ensures i < j && Wins(r, i) && r.es[i].who == who
  {
    if j > 0 {
      if Busy(r.gs[j - 1], who) {
        i := BusyWon(r, j - 1, who);
      } else {
        i := j - 1;
      }
    }
  }

  /** A flag that counts was stored by the winner, after it won. */
  lemma {:induction false} FlagIsWinners(r: Run, j: nat) returns (w: nat, i: nat)
    requires IsRun(r) && j <= |r.es| && Stored(r.gs[j])
    ensures w < i < j && Wins(r, w) && r.es[i] == StoreSucceeded(r.es[w].who, r.gs[j].succeeded)
  {
    if j > 0 {
      var g, e := r.gs[j - 1], r.es[j - 1];
      if e.StoreSucceeded? {
        assert Busy(g, e.who);
        w := BusyWon(r, j - 1, e.who);
        i := j - 1;
      } else {
        StoredWasStored(g, e);
        w, i := FlagIsWinners(r, j - 1);
      }
    }
  }

  lemma StoredWasStored(g: Gate, e: Event)
    requires Enabled(g, e) && !e.StoreSucceeded? && Stored(Step(g, e))
    ensures Stored(g)
  {
    if Step(g, e).phase != Completed {
      var who :| At(Step(g, e), who).Publishing?;
      assert At(g, who).Publishing?;
    } else if e.StoreCompleted? {
      assert At(g, e.who).Publishing?;
    }
  }

  /** An answer read from the flag is the value that the winner itself stored before, and no other
      value is stored in the whole run. */
  lemma ReadsWinnersValue(r: Run, j: nat) returns (w: nat, i: nat)
    requires IsRun(r) && j < |r.es| && r.es[j].LoadSucceeded?
    ensures w < i < j && Wins(r, w) && r.es[i].StoreSucceeded? && r.es[i].who == r.es[w].who
    ensures AnswerAt(r, j) == Some(if r.es[i].value then Succeeded else Failed)
    ensures forall k :: 0 <= k < |r.es| && r.es[k].StoreSucceeded? ==> k == i
  {
    EveryRunKeepsInv(r, j);
    assert At(r.gs[j], r.es[j].who) == SawCompleted;
    w, i := FlagIsWinners(r, j);
    forall k | 0 <= k < |r.es| && r.es[k].StoreSucceeded? ensures k == i {
      if k < i {
        StoredOnce(r, k, i);
      } else if i < k {
        StoredOnce(r, i, k);
      }
    }
  }

  // ---- every answer, read off the operations alone

  predicate Contends(e: Event) {
    e.TryBegin? || e.CancelExchange?
  }

  /** Operation `i` is the first claim or cancellation: the winner of the race. */
  ghost predicate First(es: seq<Event>, i: nat) {
    i < |es| && Contends(es[i]) && forall k :: 0 <= k < i ==> !Contends(es[k])
  }

  ghost predicate ClaimedBefore(es: seq<Event>, j: nat) {
    exists i :: 0 <= i < j && First(es, i) && es[i].TryBegin?
  }

  ghost predicate CancelledBefore(es: seq<Event>, j: nat) {
    exists i :: 0 <= i < j && First(es, i) && es[i].CancelExchange?
  }

  ghost predicate CompletedBefore(es: seq<Event>, j: nat)
    requires j <= |es|
  {
    exists i :: 0 <= i < j && es[i].StoreCompleted?
  }

  /** The winner is a claim, and whoever made it has stored the value. */
  ghost predicate WinnerStored(es: seq<Event>, j: nat, value: bool)
    requires j <= |es|
  {
    exists w, i :: 0 <= w < i < j && First(es, w) && es[w].TryBegin? && es[i] == StoreSucceeded(es[w].who, value)
  }

  lemma {:induction false} PendingUntilContended(r: Run, j: nat)
    requires IsRun(r) && j <= |r.es|
    ensures r.gs[j].phase == Pending <==> forall k :: 0 <= k < j ==> !Contends(r.es[k])
  {
    if j > 0 {
      PendingUntilContended(r, j - 1);
      EveryRunKeepsInv(r, j - 1);
      var g, e := r.gs[j - 1], r.es[j - 1];
      assert e.StoreCompleted? ==> Busy(g, e.who);
    }
  }

  lemma WinnerIsFirst(r: Run, i: nat)
    requires IsRun(r) && i < |r.es|
    ensures Wins(r, i) <==> First(r.es, i) && r.es[i].TryBegin?
    ensures CancelWins(r, i) <==> First(r.es, i) && r.es[i].CancelExchange?
  {
    PendingUntilContended(r, i);
  }

  lemma PhaseIsHistory(r: Run, j: nat)
    requires IsRun(r) && j <= |r.es|
    ensures r.gs[j].phase == Cancelled <==> CancelledBefore(r.es, j)
    ensures r.gs[j].phase in {Running, Completed} <==> ClaimedBefore(r.es, j)
    ensures r.gs[j].phase == Completed <==> CompletedBefore(r.es, j)
  {
    PhaseTells(r, j);
    forall i | 0 <= i < j
      ensures Wins(r, i) <==> First(r.es, i) && r.es[i].TryBegin?
      ensures CancelWins(r, i) <==> First(r.es, i) && r.es[i].CancelExchange?
    {
      WinnerIsFirst(r, i);
    }
  }

  /** When an answer is settled: by the load of the flag, or at once unless the action had completed. */
  lemma AnswerIsSettledIff(r: Run, j: nat)
    requires IsRun(r) && j < |r.es|
    ensures AnswerAt(r, j).Some? <==>
            r.es[j].LoadSucceeded?
            || ((r.es[j].CancelExchange? || r.es[j].LoadPhase?) && !CompletedBefore(r.es, j))
  {
    PhaseIsHistory(r, j);
  }

  lemma FlagIsHistory(r: Run, j: nat, value: bool)
    requires IsRun(r) && j < |r.es| && r.es[j].LoadSucceeded?
    ensures AnswerAt(r, j) == Some(if value then Succeeded else Failed) <==> WinnerStored(r.es, j, value)
    ensures CompletedBefore(r.es, j)
  {
    EveryRunKeepsInv(r, j);
    assert At(r.gs[j], r.es[j].who) == SawCompleted;
    PhaseIsHistory(r, j);
    var w, i := ReadsWinnersValue(r, j);
    WinnerIsFirst(r, w);
    assert r.es[i] == StoreSucceeded(r.es[w].who, r.es[i].value);
    assert WinnerStored(r.es, j, r.es[i].value);
  }

  /** What each answer means. `Succeeded`: the winner stored true and completed before. `Indeterminate`:
      an action had been claimed and not completed. `Failed`: nobody had won, the cancellation had won,
      or the winner stored false and completed. */
  lemma AnswersTell(r: Run, j: nat)
    requires IsRun(r) && j < |r.es| && AnswerAt(r, j).Some?
    ensures AnswerAt(r, j) == Some(Succeeded) <==> CompletedBefore(r.es, j) && WinnerStored(r.es, j, true)
    ensures AnswerAt(r, j) == Some(Indeterminate) <==> ClaimedBefore(r.es, j) && !CompletedBefore(r.es, j)
    ensures AnswerAt(r, j) == Some(Failed) <==>
            || (!ClaimedBefore(r.es, j) && !CancelledBefore(r.es, j))
            || CancelledBefore(r.es, j)
            || (CompletedBefore(r.es, j) && WinnerStored(r.es, j, false))
  {
    AnswerIsSettledIff(r, j);
    PhaseIsHistory(r, j);
    if r.es[j].LoadSucceeded? {
      FlagIsHistory(r, j, true);
      FlagIsHistory(r, j, false);
    }
  }

  /** `Succeeded` is permanent: every answer settled later in the run is `Succeeded` too. */
  lemma SucceededIsPermanent(r: Run, j: nat, k: nat)
    requires IsRun(r) && j <= k < |r.es| && AnswerAt(r, j) == Some(Succeeded)
    ensures AnswerAt(r, k) in {None, Some(Succeeded)}
  {
    EveryRunKeepsInv(r, j);
    assert At(r.gs[j], r.es[j].who) == SawCompleted;
    Advances(r, j, k);
  }

  // ---- polling is weaker than cancelling

  ghost predicate NeverWon(r: Run)
    requires IsRun(r)
  {
    forall k :: 0 <= k < |r.es| ==> !Wins(r, k)
  }

  /** A poll that settles on `Failed` rules the action out for good exactly when the phase it
      loads is not `Pending`. */
  lemma PollFailedIsFinalIff(r: Run, who: nat)
    requires IsRun(r) && Enabled(Last(r), LoadPhase(who)) && Answer(Last(r), LoadPhase(who)) == Some(Failed)
    ensures Last(r).phase != Pending <==> forall r' :: Continues(r, r') ==> NeverWon(r')
  {
    if Last(r).phase == Pending {
      var r' := Extended(r, TryBegin(who));
      assert Continues(r, r') && Wins(r', |r.es|);
    } else {
      PhaseTells(r, |r.es|);
      var c :| 0 <= c < |r.es| && CancelWins(r, c);
      forall r' | Continues(r, r') ensures NeverWon(r') {
        assert r'.es[c] == r.es[c] && r'.gs[c] == r.gs[c];
        forall k | 0 <= k < |r'.es| ensures !Wins(r', k) {
          CancelFailedMeansNeverRuns(r', c, k);
        }
      }
    }
  }

  /** So a poll may answer `Failed` and a later one `Succeeded`. */
  lemma PollMayFailThenSucceed() returns (r: Run)
    ensures IsRun(r) && |r.es| == 6
    ensures AnswerAt(r, 0) == Some(Failed) && AnswerAt(r, 5) == Some(Succeeded)
  {
    r := Run([], [START]);
    r := Extended(r, LoadPhase(0));
    r := Extended(r, TryBegin(1));
    r := Extended(r, StoreSucceeded(1, true));
    r := Extended(r, StoreCompleted(1));
    r := Extended(r, LoadPhase(0));
    r := Extended(r, LoadSucceeded(0));
  }
}
