/**
 How work moves on: which ticket is the published one and which task it lets in, what makes a thread
 queue, and that a failed rendering is retried through the timer.
 */
module RefreshTickets {
  import opened Words
  import opened RefreshScheduler
  import C = RefreshCoalescer

  type Flags = C.Flags

  // ---- tickets

  /** The step puts an end to the publication of ticket `t`: another one takes its place, the thread that
      failed to dispatch it or the task that wins it withdraws it, or shutdown does. */
  predicate EndsTicket(e: Event, t: U64) {
    e.Store? || e == Clear(t) || e == RunTask(t) || e.StopTicket?
  }

  /** Step `i` publishes ticket `t` and no step since has put an end to that. */
  ghost predicate PublishedBy(r: Run, i: nat, j: nat, t: U64)
    requires j <= |r.es|
  {
    i < j && r.es[i] == Store(t) && forall k :: i < k < j ==> !EndsTicket(r.es[k], t)
  }

  ghost predicate IsPublished(r: Run, j: nat, t: U64)
    requires j <= |r.es|
  {
    exists i :: 0 <= i < j && PublishedBy(r, i, j, t)
  }

  lemma PublishedStep(r: Run, k: nat, t: U64)
    requires k < |r.es|
    ensures IsPublished(r, k + 1, t) <==>
            r.es[k] == Store(t) || (IsPublished(r, k, t) && !EndsTicket(r.es[k], t))
  {
    if r.es[k] == Store(t) {
      assert PublishedBy(r, k, k + 1, t);
    } else if IsPublished(r, k, t) && !EndsTicket(r.es[k], t) {
      var i :| 0 <= i < k && PublishedBy(r, i, k, t);
      assert PublishedBy(r, i, k + 1, t);
    }
    if IsPublished(r, k + 1, t) {
      var i :| 0 <= i < k + 1 && PublishedBy(r, i, k + 1, t);
      assert i < k ==> PublishedBy(r, i, k, t);
    }
  }

  lemma TicketStep(queuedTicket: U64, e: Event, t: U64)
    requires t != 0
    ensures TicketAfter(queuedTicket, e) == t <==> e == Store(t) || (queuedTicket == t && !EndsTicket(e, t))
  {
  }

  lemma TicketAt(r: Run, retryMask: Flags, k: nat, t: U64)
    requires IsRun(r, retryMask) && k < |r.es| && t != 0
    ensures r.ss[k + 1].w.queuedTicket == t <==>
            r.es[k] == Store(t) || (r.ss[k].w.queuedTicket == t && !EndsTicket(r.es[k], t))
  {
    assert StepAt(r, retryMask, k);
    TicketStep(r.ss[k].w.queuedTicket, r.es[k], t);
  }

  /** A ticket other than zero is the queued one exactly from its publication until one of these steps;
      no thread withdraws the ticket of another. */
  lemma {:induction false} TicketExactly(r: Run, retryMask: Flags, j: nat, t: U64)
    requires IsRun(r, retryMask) && j <= |r.es| && t != 0
    ensures r.ss[j].w.queuedTicket == t <==> IsPublished(r, j, t)
  {
    if j > 0 {
      TicketExactly(r, retryMask, j - 1, t);
      TicketAt(r, retryMask, j - 1, t);
      PublishedStep(r, j - 1, t);
    }
  }

  lemma AdmissionStep(s: Scheduler, t: U64)
    requires t in s.w.tasks
    ensures WorkAfter(s, RunTask(t)).actors[Admitted] ==
            s.w.actors[Admitted] + if s.w.queuedTicket == t && !s.stopped then 1 else 0
  {
    AdmittedCount(s.w.actors, None, Successor(s, RunTask(t)));
  }

  /** A queued task is let in exactly if its ticket is still the published one and nothing was stopped. */
  lemma TaskIsAdmittedIff(r: Run, retryMask: Flags, j: nat, t: U64)
    requires IsRun(r, retryMask) && j < |r.es| && r.es[j] == RunTask(t) && t != 0
    ensures r.ss[j + 1].w.actors[Admitted] ==
            r.ss[j].w.actors[Admitted] + if IsPublished(r, j, t) && !r.ss[j].stopped then 1 else 0
  {
    assert StepAt(r, retryMask, j);
    TicketExactly(r, retryMask, j, t);
    AdmissionStep(r.ss[j], t);
  }

  /** So a publication admits at most one task: a second one needs the ticket to be published again. */
  lemma TicketAdmitsOnce(r: Run, retryMask: Flags, i: nat, j: nat, t: U64)
    requires IsRun(r, retryMask) && i < j < |r.es| && t != 0
    requires r.es[i] == RunTask(t) && r.es[j] == RunTask(t)
    requires forall k :: i < k < j ==> r.es[k] != Store(t)
    ensures r.ss[j + 1].w.actors[Admitted] == r.ss[j].w.actors[Admitted]
  {
    TaskIsAdmittedIff(r, retryMask, j, t);
    if IsPublished(r, j, t) {
      var p :| 0 <= p < j && PublishedBy(r, p, j, t);
      assert p < i;
      assert EndsTicket(r.es[i], t);
    }
  }

  ghost function Draws(r: Run, j: nat): nat
    requires j <= |r.es| < |r.ss|
  {
    if j == 0 then 0 else Draws(r, j - 1) + if r.es[j - 1].Enter? && !r.ss[j - 1].stopped then 1 else 0
  }

  lemma DrawStep(s: Scheduler, e: Event, retryMask: Flags, draws: nat)
    requires s.nextTicket == draws % U64_COUNT
    ensures Step(s, e, retryMask).nextTicket == (if e.Enter? && !s.stopped then draws + 1 else draws) % U64_COUNT
  {
    IncrementIsModular(draws);
  }

  lemma {:induction false} TicketCounts(r: Run, retryMask: Flags, j: nat)
    requires IsRun(r, retryMask) && j <= |r.es|
    ensures r.ss[j].nextTicket == Draws(r, j) % U64_COUNT
  {
    if j > 0 {
      TicketCounts(r, retryMask, j - 1);
      assert StepAt(r, retryMask, j - 1);
      DrawStep(r.ss[j - 1], r.es[j - 1], retryMask, Draws(r, j - 1));
    }
  }

  /** Tickets are numbered in the order drawn, modulo 2^64. */
  lemma TicketsAreNumbered(r: Run, retryMask: Flags, j: nat)
    requires IsRun(r, retryMask) && j < |r.es| && r.es[j].Enter? && !r.ss[j].stopped
    ensures Ticketed((Draws(r, j) + 1) % U64_COUNT) in r.ss[j + 1].w.actors
  {
    TicketCounts(r, retryMask, j);
    IncrementIsModular(Draws(r, j));
    assert StepAt(r, retryMask, j);
    JoinerIsThere(r.ss[j].w.actors, ActorOf(Enter), Successor(r.ss[j], Enter));
  }

  // ---- what makes a thread queue

  /** The step sends a thread to the queue: a request that reserves the drain, the timer, or a successful
      rendering that leaves flags to show. */
  ghost predicate SendsToQueue(s: Scheduler, e: Event) {
    match e
    case Request(flags) => !s.c.cancelled && !s.c.scheduled && flags != {}
    case Fire(ready) => ready
    case Close(ok) => ok && !s.c.cancelled && s.c.pending != {}
    case _ => false
  }

  ghost function SentToQueue(r: Run, j: nat): nat
    requires j <= |r.es| < |r.ss|
  {
    if j == 0 then 0 else SentToQueue(r, j - 1) + if SendsToQueue(r.ss[j - 1], r.es[j - 1]) then 1 else 0
  }

  ghost function Entered(r: Run, j: nat): nat
    requires j <= |r.es|
  {
    if j == 0 then 0 else Entered(r, j - 1) + if r.es[j - 1].Enter? then 1 else 0
  }

  lemma QueueingCount(actors: multiset<Actor>, leaves: Option<Actor>, joins: Option<Actor>)
    requires leaves.Some? ==> leaves.value in actors
    ensures Replaced(actors, leaves, joins)[Queueing] + (if leaves == Some(Queueing) then 1 else 0) ==
            actors[Queueing] + if joins == Some(Queueing) then 1 else 0
  {
  }

  lemma WhoQueues(s: Scheduler, e: Event)
    ensures Successor(s, e) == Some(Queueing) <==> SendsToQueue(s, e)
    ensures ActorOf(e) == Some(Queueing) <==> e.Enter?
  {
    match e
    case Request(_) =>
    case Close(_) =>
    case _ =>
  }

  lemma QueueingStep(s: Scheduler, e: Event)
    requires Enabled(s, e)
    ensures Replaced(s.w.actors, ActorOf(e), Successor(s, e))[Queueing] + (if e.Enter? then 1 else 0) ==
            s.w.actors[Queueing] + if SendsToQueue(s, e) then 1 else 0
  {
    WhoQueues(s, e);
    QueueingCount(s.w.actors, ActorOf(e), Successor(s, e));
  }

  /** Every entry into the queue has its own cause, in every run and also after shutdown: a failed
      rendering is none, so what it leaves is queued again only by the timer. */
  lemma {:induction false} EntriesAreCaused(r: Run, retryMask: Flags, j: nat)
    requires IsRun(r, retryMask) && j <= |r.es|
    ensures Entered(r, j) + r.ss[j].w.actors[Queueing] == SentToQueue(r, j)
  {
    if j > 0 {
      assert StepAt(r, retryMask, j - 1);
      EntriesAreCaused(r, retryMask, j - 1);
      QueueingStep(r.ss[j - 1], r.es[j - 1]);
    }
  }

  // ---- a failure waits for the timer

  /** The only carrier is the timer, a thread about to arm it, or one that still has to close the pass
      that failed. */
  ghost predicate WaitsForTimer(w: Work) {
    && w.tasks == multiset{}
    && if w.armed then w.actors == multiset{}
       else w.actors == multiset{Arming} || w.actors == multiset{Closing(false)}
  }

  lemma WaitingAllows(s: Scheduler, e: Event)
    requires Enabled(s, e) && !s.stopped && WaitsForTimer(s.w)
    ensures e.Request? || e.Stop? || e.Arm? || e == Close(false) || e.Fire?
    ensures e.Arm? || e == Close(false) || e.Fire? ==> s.w.actors == One(ActorOf(e))
  {
    assert ActorOf(e).Some? ==> ActorOf(e).value == Arming || ActorOf(e).value == Closing(false);
  }

  lemma WaitingStep(s: Scheduler, e: Event, retryMask: Flags)
    requires Enabled(s, e) && !s.stopped && s.c.scheduled && !s.c.cancelled && WaitsForTimer(s.w)
    ensures !e.Enter?
    ensures WaitsForTimer(WorkAfter(s, e)) || e == Fire(true) || !CoalescerAfter(s, e, retryMask).scheduled
  {
    WaitingAllows(s, e);
    if e.Request? || e.Stop? {
      NothingMoves(s, e);
    } else {
      WaitingMoves(s, e, retryMask);
    }
  }

  lemma NothingMoves(s: Scheduler, e: Event)
    requires s.c.scheduled && (e.Request? || e.Stop?)
    ensures WorkAfter(s, e) == s.w
  {
  }

  lemma WaitingMoves(s: Scheduler, e: Event, retryMask: Flags)
    requires !s.stopped && s.c.scheduled && !s.c.cancelled && (e.Arm? || e == Close(false) || e.Fire?)
    requires WaitsForTimer(s.w) && s.w.actors == One(ActorOf(e))
    ensures WaitsForTimer(WorkAfter(s, e)) || e == Fire(true) || !CoalescerAfter(s, e, retryMask).scheduled
  {
    AloneActs(s, e);
    AfterWaiting(s, e, retryMask);
    assert s.w.armed ==> One(ActorOf(e)) == multiset{};
    assert WorkAfter(s, e).tasks == multiset{};
  }

  lemma AfterWaiting(s: Scheduler, e: Event, retryMask: Flags)
    requires !s.stopped && s.c.scheduled && !s.c.cancelled && (e.Arm? || e == Close(false) || e.Fire?)
    ensures ArmedAfter(s, e) == (e.Arm? || (s.w.armed && e.Close?))
    ensures e.Arm? ==> Successor(s, e) == None
    ensures e == Fire(false) ==> Successor(s, e) == Some(Arming)
    ensures e.Close? ==> if CoalescerAfter(s, e, retryMask).scheduled then Successor(s, e) == Some(Arming)
                         else Successor(s, e) == None
  {
  }

  lemma FailureStartsWaiting(s: Scheduler, flags: Flags, pass: nat)
    requires Exact(s) && Enabled(s, Render(flags, pass, false)) && !s.stopped
    ensures WaitsForTimer(WorkAfter(s, Render(flags, pass, false)))
  {
    OnlyOne(s, Rendering(flags, pass));
    assert Successor(s, Render(flags, pass, false)) == Some(Closing(false));
  }

  /** The timer has fired, and found its thread ready, between steps `i` and `j`. */
  ghost predicate FiredBetween(r: Run, i: nat, j: nat)
    requires j <= |r.es|
  {
    exists k :: i < k < j && r.es[k] == Fire(true)
  }

  lemma WaitingAt(r: Run, retryMask: Flags, k: nat)
    requires IsRun(r, retryMask) && WellBehaved(r.es) && k < |r.es| && !r.ss[k].stopped && WaitsForTimer(r.ss[k].w)
    requires r.ss[k].c.scheduled
    ensures !r.es[k].Enter?
    ensures WaitsForTimer(r.ss[k + 1].w) || r.es[k] == Fire(true) || !r.ss[k + 1].c.scheduled
  {
    assert StepAt(r, retryMask, k);
    EveryRunKeepsExact(r, retryMask, k);
    WaitingStep(r.ss[k], r.es[k], retryMask);
  }

  lemma {:induction false} WaitsUntilFired(r: Run, retryMask: Flags, i: nat, j: nat)
    requires IsRun(r, retryMask) && WellBehaved(r.es) && i < j <= |r.es| && !r.ss[j].stopped
    requires WaitsForTimer(r.ss[i + 1].w) && forall k :: i < k <= j ==> r.ss[k].c.scheduled
    ensures WaitsForTimer(r.ss[j].w) || FiredBetween(r, i, j)
    decreases j - i
  {
    if i + 1 < j {
      StoppedStays(r, retryMask, j - 1, j);
      WaitsUntilFired(r, retryMask, i, j - 1);
      if !FiredBetween(r, i, j - 1) {
        WaitingAt(r, retryMask, j - 1);
      }
    }
  }

  /** As long as the drain stays reserved, nobody queues again after a failed rendering before the timer
      has fired: a failure is retried with a delay and never at once. */
  lemma FailureWaitsForTimer(r: Run, retryMask: Flags, i: nat, j: nat)
    requires IsRun(r, retryMask) && WellBehaved(r.es) && i < j < |r.es| && !r.ss[j].stopped
    requires r.es[i].Render? && !r.es[i].succeeded && r.es[j].Enter?
    requires forall k :: i < k <= j ==> r.ss[k].c.scheduled
    ensures FiredBetween(r, i, j)
  {
    StoppedStays(r, retryMask, i, j);
    EveryRunKeepsExact(r, retryMask, i);
    assert StepAt(r, retryMask, i);
    FailureStartsWaiting(r.ss[i], r.es[i].flags, r.es[i].pass);
    WaitsUntilFired(r, retryMask, i, j);
    if WaitsForTimer(r.ss[j].w) {
      WaitingAt(r, retryMask, j);
    }
  }
}
