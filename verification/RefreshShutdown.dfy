/**
 What shutdown achieves, in whatever order its four steps fall between those of the threads still
 inside the scheduler.
 */
module RefreshShutdown {
  import opened Words
  import opened RefreshScheduler
  import C = RefreshCoalescer

  type Flags = C.Flags

  /** Once stopped, no ticket is drawn and no queued task is let in, so no further pass can arise: the
      passes still to begin are at most those already admitted. */
  lemma {:induction false} NothingStartsOnceStopped(r: Run, retryMask: Flags, i: nat, j: nat)
    requires IsRun(r, retryMask) && i <= j <= |r.es| && r.ss[i].stopped
    ensures r.ss[j].stopped && r.ss[j].nextTicket == r.ss[i].nextTicket
    ensures r.ss[j].passes + r.ss[j].w.actors[Admitted] == r.ss[i].passes + r.ss[i].w.actors[Admitted]
    decreases j - i
  {
    if i < j {
      assert StepAt(r, retryMask, j - 1);
      NothingStartsOnceStopped(r, retryMask, i, j - 1);
      StoppedStep(r.ss[j - 1], r.es[j - 1], retryMask);
    }
  }

  lemma StoppedAdmitsNobody(s: Scheduler, e: Event)
    requires s.stopped
    ensures Successor(s, e) != Some(Admitted) && (ActorOf(e) == Some(Admitted) <==> e.Begin?)
  {
  }

  lemma StoppedStep(s: Scheduler, e: Event, retryMask: Flags)
    requires s.stopped && Enabled(s, e)
    ensures var t := Step(s, e, retryMask);
            && t.stopped && t.nextTicket == s.nextTicket
            && t.passes + t.w.actors[Admitted] == s.passes + s.w.actors[Admitted]
  {
    var leaves, joins := ActorOf(e), Successor(s, e);
    StoppedAdmitsNobody(s, e);
    AdmittedCount(s.w.actors, leaves, joins);
    assert Step(s, e, retryMask).w.actors == Replaced(s.w.actors, leaves, joins);
  }

  /** The steps of shutdown are taken when stopped, and so is every later one. */
  lemma StoppingRuns(r: Run, retryMask: Flags, i: nat, k: nat)
    requires IsRun(r, retryMask) && i <= k < |r.es| && (r.es[i].StopTicket? || r.es[i].StopTimer?)
    ensures r.ss[k].stopped && Enabled(r.ss[k], r.es[k]) && r.ss[k + 1].w == WorkAfter(r.ss[k], r.es[k])
  {
    assert StepAt(r, retryMask, i);
    NothingStartsOnceStopped(r, retryMask, i, k);
    assert StepAt(r, retryMask, k);
  }

  /** A rendering that ends after shutdown is the end of its thread: nobody comes to close a pass any
      more. */
  lemma {:induction false} NoPassIsClosedAnew(r: Run, retryMask: Flags, i: nat, j: nat, ok: bool)
    requires IsRun(r, retryMask) && i <= j <= |r.es| && r.ss[i].stopped
    ensures r.ss[j].w.actors[Closing(ok)] <= r.ss[i].w.actors[Closing(ok)]
    decreases j - i
  {
    if i < j {
      NoPassIsClosedAnew(r, retryMask, i, j - 1, ok);
      NothingStartsOnceStopped(r, retryMask, i, j - 1);
      assert StepAt(r, retryMask, j - 1);
      StoppedClosesNothing(r.ss[j - 1], r.es[j - 1], ok);
    }
  }

  lemma StoppedClosesNothing(s: Scheduler, e: Event, ok: bool)
    requires s.stopped
    ensures WorkAfter(s, e).actors[Closing(ok)] <= s.w.actors[Closing(ok)]
  {
    assert Successor(s, e) != Some(Closing(ok));
    OthersDoNotGrow(s.w.actors, ActorOf(e), Successor(s, e), Closing(ok));
  }

  lemma OthersDoNotGrow(actors: multiset<Actor>, leaves: Option<Actor>, joins: Option<Actor>, x: Actor)
    requires joins != Some(x)
    ensures Replaced(actors, leaves, joins)[x] <= actors[x]
  {
  }

  lemma StoppedGivesNoTicket(s: Scheduler, e: Event, t: U64)
    requires s.stopped
    ensures Successor(s, e) != Some(Ticketed(t))
  {
    match e
    case Enter =>
    case _ =>
  }

  lemma NoNewTicketHolder(s: Scheduler, e: Event, t: U64)
    requires s.stopped && Ticketed(t) in WorkAfter(s, e).actors
    ensures Ticketed(t) in s.w.actors
  {
    StoppedGivesNoTicket(s, e, t);
    OnlyJoinerIsNew(s.w.actors, ActorOf(e), Successor(s, e), Ticketed(t));
  }

  /** The published ticket, and every ticket about to be published, had been drawn by one of `earlier`. */
  ghost predicate OnlyOldTickets(w: Work, earlier: multiset<Actor>) {
    && (w.queuedTicket == 0 || Ticketed(w.queuedTicket) in earlier)
    && (forall t :: Ticketed(t) in w.actors ==> Ticketed(t) in earlier)
  }

  lemma StoppedDrawsNoTicket(s: Scheduler, e: Event, earlier: multiset<Actor>)
    requires s.stopped && Enabled(s, e) && (OnlyOldTickets(s.w, earlier) || (e.StopTicket? && s.w.actors == earlier))
    ensures OnlyOldTickets(WorkAfter(s, e), earlier)
  {
    forall t | Ticketed(t) in WorkAfter(s, e).actors ensures Ticketed(t) in earlier {
      NoNewTicketHolder(s, e, t);
    }
  }

  /** Shutdown withdraws the published ticket, so that no task can win it; only a thread that drew its
      ticket before may still publish it. */
  lemma {:induction false} TicketIsWithdrawn(r: Run, retryMask: Flags, i: nat, j: nat)
    requires IsRun(r, retryMask) && i < j <= |r.es| && r.es[i].StopTicket?
    ensures OnlyOldTickets(r.ss[j].w, r.ss[i].w.actors)
    decreases j - i
  {
    if i + 1 < j {
      TicketIsWithdrawn(r, retryMask, i, j - 1);
    }
    OldTicketsStay(r, retryMask, i, j - 1);
  }

  lemma OldTicketsStay(r: Run, retryMask: Flags, i: nat, k: nat)
    requires IsRun(r, retryMask) && i <= k < |r.es| && r.es[i].StopTicket?
    requires k == i || OnlyOldTickets(r.ss[k].w, r.ss[i].w.actors)
    ensures OnlyOldTickets(r.ss[k + 1].w, r.ss[i].w.actors)
  {
    StoppingRuns(r, retryMask, i, k);
    StoppedDrawsNoTicket(r.ss[k], r.es[k], r.ss[i].w.actors);
  }

  lemma StoppedArmsNothing(s: Scheduler, e: Event)
    requires s.stopped && (!s.w.armed || e.StopTimer?)
    ensures !WorkAfter(s, e).armed
  {
  }

  /** After its disposal the timer is never armed again. */
  lemma {:induction false} TimerStaysOff(r: Run, retryMask: Flags, i: nat, j: nat)
    requires IsRun(r, retryMask) && i < j <= |r.es| && r.es[i].StopTimer?
    ensures !r.ss[j].w.armed
    decreases j - i
  {
    StoppingRuns(r, retryMask, i, j - 1);
    if i + 1 < j {
      TimerStaysOff(r, retryMask, i, j - 1);
    }
    StoppedArmsNothing(r.ss[j - 1], r.es[j - 1]);
  }

  /** After cancellation nothing becomes pending and nobody is asked to drain, so a pass that still
      begins takes no flags and no request is answered with a new chain. */
  lemma {:induction false} CancelIsFinal(r: Run, retryMask: Flags, i: nat, j: nat)
    requires IsRun(r, retryMask) && i < j <= |r.es| && r.es[i].StopCancel?
    ensures r.ss[j].c == C.Coalescer({}, false, true)
    ensures Successor(r.ss[j], Event.Begin) == Some(Rendering({}, r.ss[j].passes))
    ensures forall e: Event :: e.Request? || e.Close? ==> Successor(r.ss[j], e).None?
    decreases j - i
  {
    assert StepAt(r, retryMask, j - 1);
    if i + 1 < j {
      CancelIsFinal(r, retryMask, i, j - 1);
      CancelledStays(r.ss[j - 1], r.es[j - 1], retryMask);
    }
    CancelledGivesNothing(r.ss[j]);
  }

  lemma CancelledStays(s: Scheduler, e: Event, retryMask: Flags)
    requires s.c == C.Coalescer({}, false, true)
    ensures CoalescerAfter(s, e, retryMask) == s.c
  {
  }

  lemma CancelledGivesNothing(s: Scheduler)
    requires s.c == C.Coalescer({}, false, true)
    ensures Successor(s, Event.Begin) == Some(Rendering({}, s.passes))
    ensures forall e: Event :: e.Request? || e.Close? ==> Successor(s, e).None?
  {
  }
}
