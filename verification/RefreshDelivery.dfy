/**
 What the scheduler is for: every request is shown. Of each single request the theorems say what has
 become of it at every later moment, that coming to rest means it was shown, and that until shutdown
 it can always still be shown. A rendering counts for a request only if its pass began afterwards.
 */
module RefreshDelivery {
  import opened Words
  import opened RefreshScheduler
  import C = RefreshCoalescer

  type Bit = C.Bit
  type Flags = C.Flags

  // ---- every request is accounted for

  ghost predicate RequestedBy(e: Event, bit: Bit) {
    e.Request? && bit in e.flags
  }

  /** The bit is in the hands of a pass numbered `since` or later. */
  ghost predicate Holds(a: Actor, since: nat, bit: Bit) {
    a.Rendering? && bit in a.flags && a.pass >= since
  }

  ghost predicate InHand(actors: multiset<Actor>, since: nat, bit: Bit) {
    exists a :: a in actors && Holds(a, since, bit)
  }

  /** Step `m` ends the rendering of the bit by a pass numbered `since` or later. */
  ghost predicate Ends(r: Run, m: nat, since: nat, bit: Bit)
    requires m < |r.es| < |r.ss|
  {
    r.es[m].Render? && !r.ss[m].stopped && bit in r.es[m].flags && r.es[m].pass >= since
  }

  /** After step `i` and before `j` the bit was shown by a pass that began after step `i`. */
  ghost predicate ShownSince(r: Run, i: nat, j: nat, bit: Bit)
    requires i <= j <= |r.es| < |r.ss|
  {
    exists m :: i < m < j && Ends(r, m, r.ss[i].passes, bit) && r.es[m].succeeded
  }

  /** Such a pass failed, and the bit is not one to be retried. */
  ghost predicate DroppedSince(r: Run, retryMask: Flags, i: nat, j: nat, bit: Bit)
    requires i <= j <= |r.es| < |r.ss|
  {
    bit !in retryMask && exists m :: i < m < j && Ends(r, m, r.ss[i].passes, bit) && !r.es[m].succeeded
  }

  /** What has become, at `j`, of a bit requested by step `i`. */
  ghost predicate Accounted(r: Run, retryMask: Flags, i: nat, j: nat, bit: Bit)
    requires i <= j <= |r.es| < |r.ss|
  {
    || bit in r.ss[j].c.pending
    || InHand(r.ss[j].w.actors, r.ss[i].passes, bit)
    || ShownSince(r, i, j, bit)
    || DroppedSince(r, retryMask, i, j, bit)
  }

  lemma RequestAddsFlags(c: C.Coalescer, flags: Flags)
    requires !c.cancelled
    ensures C.AfterRequest(c, flags).0.pending == c.pending + flags
    ensures !C.AfterRequest(c, flags).0.cancelled
  {
  }

  /** A pass takes the pending bit in hand, and no other step removes one from the pending. */
  lemma PendingMoves(s: Scheduler, e: Event, retryMask: Flags, since: nat, bit: Bit)
    requires Enabled(s, e) && !s.stopped && !s.c.cancelled && bit in s.c.pending && since <= s.passes
    ensures bit in CoalescerAfter(s, e, retryMask).pending || InHand(WorkAfter(s, e).actors, since, bit)
  {
    if e.Begin? {
      JoinerIsThere(s.w.actors, ActorOf(e), Successor(s, e));
      assert Holds(Successor(s, e).value, since, bit);
    } else {
      PendingStays(s, e, retryMask);
    }
  }

  lemma PendingStays(s: Scheduler, e: Event, retryMask: Flags)
    requires Enabled(s, e) && !s.stopped && !s.c.cancelled && !e.Begin?
    ensures s.c.pending <= CoalescerAfter(s, e, retryMask).pending
  {
    match e
    case Request(flags) => RequestAddsFlags(s.c, flags);
    case Render(flags, _, _) => RequestAddsFlags(s.c, flags * retryMask);
    case _ =>
  }

  /** A bit leaves a hand only when its rendering ends, and then goes back if it is to be retried. */
  lemma HandMoves(s: Scheduler, e: Event, retryMask: Flags, since: nat, bit: Bit)
    requires Enabled(s, e) && !s.stopped && !s.c.cancelled && InHand(s.w.actors, since, bit)
    ensures || InHand(WorkAfter(s, e).actors, since, bit)
            || (e.Render? && bit in e.flags && e.pass >= since
                && (e.succeeded || bit !in retryMask || bit in CoalescerAfter(s, e, retryMask).pending))
  {
    var a :| a in s.w.actors && Holds(a, since, bit);
    if ActorOf(e) == Some(a) {
      RequestAddsFlags(s.c, a.flags * retryMask);
    } else {
      OthersStay(s.w.actors, ActorOf(e), Successor(s, e), a);
    }
  }

  /** A bit stays shown or dropped as the run goes on. */
  lemma SettledStays(r: Run, retryMask: Flags, i: nat, j: nat, bit: Bit)
    requires i <= j < |r.es| < |r.ss|
    ensures ShownSince(r, i, j, bit) ==> ShownSince(r, i, j + 1, bit)
    ensures DroppedSince(r, retryMask, i, j, bit) ==> DroppedSince(r, retryMask, i, j + 1, bit)
  {
    if ShownSince(r, i, j, bit) {
      var m :| i < m < j && Ends(r, m, r.ss[i].passes, bit) && r.es[m].succeeded;
      assert i < m < j + 1;
    }
    if DroppedSince(r, retryMask, i, j, bit) {
      var m :| i < m < j && Ends(r, m, r.ss[i].passes, bit) && !r.es[m].succeeded;
      assert i < m < j + 1;
    }
  }

  lemma {:induction false} PassesGrow(r: Run, retryMask: Flags, i: nat, j: nat)
    requires IsRun(r, retryMask) && i <= j <= |r.es|
    ensures r.ss[i].passes <= r.ss[j].passes
    decreases j - i
  {
    if i < j {
      assert StepAt(r, retryMask, j - 1);
      PassesGrow(r, retryMask, i, j - 1);
    }
  }

  lemma StepKeepsAccount(r: Run, retryMask: Flags, i: nat, j: nat, bit: Bit)
    requires IsRun(r, retryMask) && i < j < |r.es| && !r.ss[j + 1].stopped && Accounted(r, retryMask, i, j, bit)
    ensures Accounted(r, retryMask, i, j + 1, bit)
  {
    var s, e, since := r.ss[j], r.es[j], r.ss[i].passes;
    assert StepAt(r, retryMask, j);
    EveryRunKeepsInv(r, retryMask, j);
    SettledStays(r, retryMask, i, j, bit);
    if bit in s.c.pending {
      PassesGrow(r, retryMask, i, j);
      PendingMoves(s, e, retryMask, since, bit);
    } else if InHand(s.w.actors, since, bit) {
      HandMoves(s, e, retryMask, since, bit);
      assert e.Render? && bit in e.flags && e.pass >= since ==> Ends(r, j, since, bit);
    }
  }

  lemma {:induction false} AccountIsKept(r: Run, retryMask: Flags, i: nat, j: nat, bit: Bit)
    requires IsRun(r, retryMask) && i < j <= |r.es| && !r.ss[j].stopped && bit in r.ss[i + 1].c.pending
    ensures Accounted(r, retryMask, i, j, bit)
    decreases j - i
  {
    if i + 1 < j {
      StoppedStays(r, retryMask, j - 1, j);
      AccountIsKept(r, retryMask, i, j - 1, bit);
      StepKeepsAccount(r, retryMask, i, j - 1, bit);
    }
  }

  /** A bit requested by any step is, at every later moment until shutdown, still pending, in the hands
      of a pass begun after the request, shown by such a pass, or dropped when such a pass failed and
      the bit is not one to be retried. Earlier passes never count. */
  lemma EveryFlagIsAccountedFor(r: Run, retryMask: Flags, i: nat, j: nat, bit: Bit)
    requires IsRun(r, retryMask) && i < j <= |r.es| && !r.ss[j].stopped
    requires RequestedBy(r.es[i], bit)
    ensures Accounted(r, retryMask, i, j, bit)
  {
    StoppedStays(r, retryMask, i + 1, j);
    RequestBecomesPending(r, retryMask, i);
    AccountIsKept(r, retryMask, i, j, bit);
  }

  lemma RequestBecomesPending(r: Run, retryMask: Flags, i: nat)
    requires IsRun(r, retryMask) && i < |r.es| && r.es[i].Request? && !r.ss[i + 1].stopped
    ensures r.es[i].flags <= r.ss[i + 1].c.pending
  {
    assert StepAt(r, retryMask, i);
    EveryRunKeepsInv(r, retryMask, i);
    RequestAddsFlags(r.ss[i].c, r.es[i].flags);
  }

  lemma NewRenderingBegins(s: Scheduler, e: Event, flags: Flags, pass: nat)
    requires Rendering(flags, pass) in WorkAfter(s, e).actors && Rendering(flags, pass) !in s.w.actors
    ensures e.Begin? && flags == s.c.pending && pass == s.passes
  {
    OnlyJoinerIsNew(s.w.actors, ActorOf(e), Successor(s, e), Rendering(flags, pass));
    OnlyBeginRenders(s, e);
  }

  lemma OnlyBeginRenders(s: Scheduler, e: Event)
    ensures Successor(s, e).Some? && Successor(s, e).value.Rendering? ==>
              e.Begin? && Successor(s, e).value == Rendering(s.c.pending, s.passes)
  {
  }

  /** What "begun after" means: the pass numbered `pass` was begun by one step only, which took the
      flags pending there; and a pass whose number is not below that of step `i` began at or after it. */
  lemma {:induction false} PassBegan(r: Run, retryMask: Flags, i: nat, j: nat, flags: Flags, pass: nat)
    returns (k: nat)
    requires IsRun(r, retryMask) && i <= |r.es| && j <= |r.es| && Rendering(flags, pass) in r.ss[j].w.actors
    ensures k < j && r.es[k].Begin? && r.ss[k].passes == pass && r.ss[k].c.pending == flags
    ensures r.ss[i].passes <= pass <==> i <= k
    decreases j
  {
    assert j > 0;
    if Rendering(flags, pass) in r.ss[j - 1].w.actors {
      k := PassBegan(r, retryMask, i, j - 1, flags, pass);
    } else {
      k := j - 1;
      assert StepAt(r, retryMask, k);
      NewRenderingBegins(r.ss[k], r.es[k], flags, pass);
      if i <= k {
        PassesGrow(r, retryMask, i, k);
      } else {
        PassesGrow(r, retryMask, k + 1, i);
      }
    }
  }

  ghost predicate RequestedBefore(r: Run, j: nat, bit: Bit)
    requires j <= |r.es|
  {
    exists i :: 0 <= i < j && RequestedBy(r.es[i], bit)
  }

  lemma PendingWasAsked(s: Scheduler, e: Event, retryMask: Flags, bit: Bit)
    requires Enabled(s, e) && bit in CoalescerAfter(s, e, retryMask).pending
    ensures bit in s.c.pending || RequestedBy(e, bit) || InHand(s.w.actors, 0, bit)
  {
    if e.Render? {
      assert ActorOf(e).value in s.w.actors;
      assert bit in e.flags ==> Holds(ActorOf(e).value, 0, bit);
    }
  }

  lemma HandWasPending(s: Scheduler, e: Event, bit: Bit)
    requires InHand(WorkAfter(s, e).actors, 0, bit)
    ensures bit in s.c.pending || InHand(s.w.actors, 0, bit)
  {
    var a :| a in WorkAfter(s, e).actors && Holds(a, 0, bit);
    if a !in s.w.actors {
      NewRenderingBegins(s, e, a.flags, a.pass);
    }
  }

  /** Nothing is rendered unasked: what is pending or in hand was requested before. */
  lemma {:induction false} OnlyRequestedIsShown(r: Run, retryMask: Flags, j: nat, bit: Bit)
    requires IsRun(r, retryMask) && j <= |r.es|
    requires bit in r.ss[j].c.pending || InHand(r.ss[j].w.actors, 0, bit)
    ensures RequestedBefore(r, j, bit)
  {
    assert j > 0 && StepAt(r, retryMask, j - 1);
    var s, e := r.ss[j - 1], r.es[j - 1];
    if bit in r.ss[j].c.pending {
      PendingWasAsked(s, e, retryMask, bit);
    } else {
      HandWasPending(s, e, bit);
    }
    if bit in s.c.pending || InHand(s.w.actors, 0, bit) {
      OnlyRequestedIsShown(r, retryMask, j - 1, bit);
    } else {
      assert RequestedBy(e, bit);
    }
  }

  // ---- what is pending, exactly

  /** The step asks for the bit: a request does, and so does a failed rendering of it, unless it ends
      after shutdown, if the bit is one to be retried. */
  ghost predicate AsksFor(stopped: bool, e: Event, retryMask: Flags, bit: Bit) {
    RequestedBy(e, bit) || (e.Render? && !stopped && !e.succeeded && bit in e.flags && bit in retryMask)
  }

  /** Step `i` asks for the bit and no pass has begun since. */
  ghost predicate AskedSincePass(r: Run, retryMask: Flags, i: nat, j: nat, bit: Bit)
    requires j <= |r.es| < |r.ss|
  {
    i < j && AsksFor(r.ss[i].stopped, r.es[i], retryMask, bit) && forall k :: i < k < j ==> !r.es[k].Begin?
  }

  ghost predicate AskedSinceLastPass(r: Run, retryMask: Flags, j: nat, bit: Bit)
    requires j <= |r.es| < |r.ss|
  {
    exists i :: 0 <= i < j && AskedSincePass(r, retryMask, i, j, bit)
  }

  lemma StepMovesPending(s: Scheduler, e: Event, retryMask: Flags, bit: Bit)
    requires !s.c.cancelled && !CoalescerAfter(s, e, retryMask).cancelled
    ensures bit in CoalescerAfter(s, e, retryMask).pending <==>
            AsksFor(s.stopped, e, retryMask, bit) || (bit in s.c.pending && !e.Begin?)
  {
    match e
    case Request(flags) => RequestAddsFlags(s.c, flags);
    case Render(flags, _, _) => RequestAddsFlags(s.c, flags * retryMask);
    case _ =>
  }

  lemma CancelledStaysSo(r: Run, retryMask: Flags, k: nat)
    requires IsRun(r, retryMask) && k < |r.es| && !r.ss[k + 1].c.cancelled
    ensures !r.ss[k].c.cancelled
  {
    assert StepAt(r, retryMask, k);
  }

  /** Until it is cancelled a bit is pending exactly if it was asked for since the last pass began, by a request
      or by the failure of a rendering of it; the latter only if it is one to be retried. */
  lemma {:induction false} PendingExactly(r: Run, retryMask: Flags, j: nat, bit: Bit)
    requires IsRun(r, retryMask) && j <= |r.es| && !r.ss[j].c.cancelled
    ensures bit in r.ss[j].c.pending <==> AskedSinceLastPass(r, retryMask, j, bit)
  {
    if j > 0 {
      CancelledStaysSo(r, retryMask, j - 1);
      PendingExactly(r, retryMask, j - 1, bit);
      PendingAt(r, retryMask, j - 1, bit);
      AskedStep(r, retryMask, j - 1, bit);
    }
  }

  lemma PendingAt(r: Run, retryMask: Flags, k: nat, bit: Bit)
    requires IsRun(r, retryMask) && k < |r.es| && !r.ss[k].c.cancelled && !r.ss[k + 1].c.cancelled
    ensures bit in r.ss[k + 1].c.pending <==>
            AsksFor(r.ss[k].stopped, r.es[k], retryMask, bit) || (bit in r.ss[k].c.pending && !r.es[k].Begin?)
  {
    assert StepAt(r, retryMask, k);
    StepMovesPending(r.ss[k], r.es[k], retryMask, bit);
  }

  lemma AskedStep(r: Run, retryMask: Flags, k: nat, bit: Bit)
    requires k < |r.es| < |r.ss|
    ensures AskedSinceLastPass(r, retryMask, k + 1, bit) <==>
            || AsksFor(r.ss[k].stopped, r.es[k], retryMask, bit)
            || (!r.es[k].Begin? && AskedSinceLastPass(r, retryMask, k, bit))
  {
    if AsksFor(r.ss[k].stopped, r.es[k], retryMask, bit) {
      assert AskedSincePass(r, retryMask, k, k + 1, bit);
    } else if !r.es[k].Begin? && AskedSinceLastPass(r, retryMask, k, bit) {
      var i :| 0 <= i < k && AskedSincePass(r, retryMask, i, k, bit);
      assert AskedSincePass(r, retryMask, i, k + 1, bit);
    }
    if AskedSinceLastPass(r, retryMask, k + 1, bit) {
      var i :| 0 <= i < k + 1 && AskedSincePass(r, retryMask, i, k + 1, bit);
      assert i < k ==> AskedSincePass(r, retryMask, i, k, bit);
    }
  }

  /** So a bit that is not to be retried is in the hands of a pass only if somebody requested it after
      every earlier pass had begun: no failure ever brings it back. */
  lemma OutsideMaskIsAskedAnew(r: Run, retryMask: Flags, j: nat, flags: Flags, pass: nat, bit: Bit)
    returns (i: nat, k: nat)
    requires IsRun(r, retryMask) && j <= |r.es| && !r.ss[j].stopped
    requires Rendering(flags, pass) in r.ss[j].w.actors && bit in flags && bit !in retryMask
    ensures i < k < j && RequestedBy(r.es[i], bit) && r.es[k].Begin? && r.ss[k].passes == pass
    ensures forall m :: i < m < k ==> !r.es[m].Begin?
  {
    k := PassBegan(r, retryMask, 0, j, flags, pass);
    StoppedStays(r, retryMask, k, j);
    EveryRunKeepsInv(r, retryMask, k);
    PendingExactly(r, retryMask, k, bit);
    i :| 0 <= i < k && AskedSincePass(r, retryMask, i, k, bit);
  }

  // ---- rest

  lemma HandCarries(w: Work, since: nat, bit: Bit)
    ensures InHand(w.actors, since, bit) ==> HasCarrier(w)
  {
    if InHand(w.actors, since, bit) {
      var a :| a in w.actors && Holds(a, since, bit);
      assert Carries(a, w.queuedTicket);
    }
  }

  /** Rest means success: if nobody is left to drain, every bit that is to be retried has been shown
      by a pass that began after its request, whichever request it is. */
  lemma RestMeansShown(r: Run, retryMask: Flags, i: nat, j: nat, bit: Bit)
    requires IsRun(r, retryMask) && i < j <= |r.es| && !r.ss[j].stopped && !HasCarrier(r.ss[j].w)
    requires RequestedBy(r.es[i], bit) && bit in retryMask
    ensures ShownSince(r, i, j, bit)
  {
    EveryRunKeepsInv(r, retryMask, j);
    EveryFlagIsAccountedFor(r, retryMask, i, j, bit);
    HandCarries(r.ss[j].w, r.ss[i].passes, bit);
  }

  // ---- whoever carries the work can finish it

  /** The run `r` can be continued to `r'`, in at most `n` steps and ending with a successful rendering
      of everything that was pending, by a pass begun after `r`. */
  ghost predicate Drains(r: Run, r': Run, retryMask: Flags, n: nat)
    requires |r.ss| > 0
  {
    && IsRun(r', retryMask) && r.es <= r'.es && r.ss <= r'.ss && |r.es| < |r'.es| <= |r.es| + n
    && !r'.ss[|r'.es| - 1].stopped
    && var e := r'.es[|r'.es| - 1];
    && e.Render? && e.succeeded && e.pass >= Last(r).passes && Last(r).c.pending <= e.flags
  }

  /** The run can go on and still has everything to show. */
  ghost predicate Live(r: Run, retryMask: Flags) {
    IsRun(r, retryMask) && !Last(r).stopped && !Last(r).c.cancelled && Last(r).c.pending != {}
  }

  /** One step on the way: it leaves the pending flags alone, and its actor's successor is there. */
  lemma Approach(r: Run, e: Event, retryMask: Flags) returns (r': Run)
    requires Live(r, retryMask) && Enabled(Last(r), e)
    requires !e.Request? && !e.Begin? && !e.Stop? && !e.StopCancel? && (e.Render? ==> e.succeeded)
    ensures r' == Extended(r, e, retryMask) && Live(r', retryMask)
    ensures Last(r') == Step(Last(r), e, retryMask)
    ensures Last(r').c.pending == Last(r).c.pending && Last(r').passes == Last(r).passes
    ensures Successor(Last(r), e).Some? ==> Successor(Last(r), e).value in Last(r').w.actors
  {
    ExtendedIsRun(r, e, retryMask);
    r' := Extended(r, e, retryMask);
    if Successor(Last(r), e).Some? {
      JoinerIsThere(Last(r).w.actors, ActorOf(e), Successor(Last(r), e));
    }
  }

  lemma OneStepEarlier(r: Run, e: Event, r': Run, retryMask: Flags, n: nat)
    requires |r.ss| > 0 && Drains(Extended(r, e, retryMask), r', retryMask, n)
    requires Last(Extended(r, e, retryMask)).c.pending == Last(r).c.pending
    requires Last(Extended(r, e, retryMask)).passes == Last(r).passes
    ensures Drains(r, r', retryMask, n + 1)
  {
  }

  lemma PassBegins(r: Run, retryMask: Flags) returns (r': Run)
    requires Live(r, retryMask) && Admitted in Last(r).w.actors
    ensures r' == Extended(r, Begin, retryMask) && IsRun(r', retryMask) && !Last(r').stopped
    ensures Enabled(Last(r'), Render(Last(r).c.pending, Last(r).passes, true))
  {
    ExtendedIsRun(r, Begin, retryMask);
    JoinerIsThere(Last(r).w.actors, ActorOf(Begin), Successor(Last(r), Begin));
    r' := Extended(r, Begin, retryMask);
  }

  lemma FromAdmitted(r: Run, retryMask: Flags) returns (r': Run)
    requires Live(r, retryMask) && Admitted in Last(r).w.actors
    ensures Drains(r, r', retryMask, 2)
  {
    var r1 := PassBegins(r, retryMask);
    var show := Render(Last(r).c.pending, Last(r).passes, true);
    ExtendedIsRun(r1, show, retryMask);
    r' := Extended(r1, show, retryMask);
  }

  lemma FromTask(r: Run, retryMask: Flags) returns (r': Run)
    requires Live(r, retryMask) && Last(r).w.queuedTicket in Last(r).w.tasks
    ensures Drains(r, r', retryMask, 3)
  {
    var e := RunTask(Last(r).w.queuedTicket);
    var r1 := Approach(r, e, retryMask);
    r' := FromAdmitted(r1, retryMask);
    OneStepEarlier(r, e, r', retryMask, 2);
  }

  lemma FromStored(r: Run, retryMask: Flags) returns (r': Run)
    requires Live(r, retryMask) && Stored(Last(r).w.queuedTicket) in Last(r).w.actors
    ensures Drains(r, r', retryMask, 4)
  {
    var e := Post(Last(r).w.queuedTicket, Posted);
    var r1 := Approach(r, e, retryMask);
    r' := FromTask(r1, retryMask);
    OneStepEarlier(r, e, r', retryMask, 3);
  }

  lemma FromTicketed(r: Run, retryMask: Flags, t: U64) returns (r': Run)
    requires Live(r, retryMask) && Ticketed(t) in Last(r).w.actors
    ensures Drains(r, r', retryMask, 5)
  {
    var r1 := Approach(r, Store(t), retryMask);
    r' := FromStored(r1, retryMask);
    OneStepEarlier(r, Store(t), r', retryMask, 4);
  }

  lemma FromQueueing(r: Run, retryMask: Flags) returns (r': Run)
    requires Live(r, retryMask) && Queueing in Last(r).w.actors
    ensures Drains(r, r', retryMask, 6)
  {
    var r1 := Approach(r, Enter, retryMask);
    r' := FromTicketed(r1, retryMask, Incremented(Last(r).nextTicket));
    OneStepEarlier(r, Enter, r', retryMask, 5);
  }

  lemma FromTimer(r: Run, retryMask: Flags) returns (r': Run)
    requires Live(r, retryMask) && Last(r).w.armed
    ensures Drains(r, r', retryMask, 7)
  {
    var r1 := Approach(r, Fire(true), retryMask);
    r' := FromQueueing(r1, retryMask);
    OneStepEarlier(r, Fire(true), r', retryMask, 6);
  }

  lemma FromArming(r: Run, retryMask: Flags) returns (r': Run)
    requires Live(r, retryMask) && Arming in Last(r).w.actors
    ensures Drains(r, r', retryMask, 8)
  {
    var r1 := Approach(r, Arm, retryMask);
    r' := FromTimer(r1, retryMask);
    OneStepEarlier(r, Arm, r', retryMask, 7);
  }

  lemma FromRefused(r: Run, retryMask: Flags, t: U64) returns (r': Run)
    requires Live(r, retryMask) && Refused(t) in Last(r).w.actors
    ensures Drains(r, r', retryMask, 9)
  {
    var r1 := Approach(r, Clear(t), retryMask);
    r' := FromArming(r1, retryMask);
    OneStepEarlier(r, Clear(t), r', retryMask, 8);
  }

  lemma FromClosing(r: Run, retryMask: Flags, ok: bool) returns (r': Run)
    requires Live(r, retryMask) && Closing(ok) in Last(r).w.actors
    ensures Drains(r, r', retryMask, if ok then 7 else 9)
  {
    var r1 := Approach(r, Close(ok), retryMask);
    if ok {
      r' := FromQueueing(r1, retryMask);
      OneStepEarlier(r, Close(ok), r', retryMask, 6);
    } else {
      r' := FromArming(r1, retryMask);
      OneStepEarlier(r, Close(ok), r', retryMask, 8);
    }
  }

  lemma FromRendering(r: Run, retryMask: Flags, flags: Flags, pass: nat) returns (r': Run)
    requires Live(r, retryMask) && Rendering(flags, pass) in Last(r).w.actors
    ensures Drains(r, r', retryMask, 8)
  {
    var e := Render(flags, pass, true);
    var r1 := Approach(r, e, retryMask);
    r' := FromClosing(r1, retryMask, true);
    OneStepEarlier(r, e, r', retryMask, 7);
  }

  lemma FromActor(r: Run, retryMask: Flags, a: Actor) returns (r': Run)
    requires Live(r, retryMask) && a in Last(r).w.actors && Carries(a, Last(r).w.queuedTicket)
    ensures Drains(r, r', retryMask, 9)
  {
    match a
    case Queueing => r' := FromQueueing(r, retryMask);
    case Ticketed(t) => r' := FromTicketed(r, retryMask, t);
    case Stored(_) => r' := FromStored(r, retryMask);
    case Refused(t) => r' := FromRefused(r, retryMask, t);
    case Arming => r' := FromArming(r, retryMask);
    case Admitted => r' := FromAdmitted(r, retryMask);
    case Rendering(flags, pass) => r' := FromRendering(r, retryMask, flags, pass);
    case Closing(ok) => r' := FromClosing(r, retryMask, ok);
  }

  /** From every state of every run that is not stopped, pending flags can be shown: at most nine more
      steps, with no further request, end in a successful rendering of all of them by a new pass. */
  lemma PendingCanBeShown(r: Run, retryMask: Flags) returns (r': Run)
    requires IsRun(r, retryMask) && !Last(r).stopped && Last(r).c.pending != {}
    ensures Drains(r, r', retryMask, 9)
  {
    EveryRunKeepsInv(r, retryMask, |r.es|);
    var w := Last(r).w;
    if w.armed {
      r' := FromTimer(r, retryMask);
    } else if w.queuedTicket in w.tasks {
      r' := FromTask(r, retryMask);
    } else {
      var a :| a in w.actors && Carries(a, w.queuedTicket);
      r' := FromActor(r, retryMask, a);
    }
  }

  /** So every single request can still be served: the run can be continued until the bit was shown by
      a pass begun after that request, unless such a pass already failed and the bit is not retried. */
  lemma RequestCanBeShown(r: Run, retryMask: Flags, i: nat, bit: Bit) returns (r': Run)
    requires IsRun(r, retryMask) && !Last(r).stopped && i < |r.es|
    requires RequestedBy(r.es[i], bit)
    ensures IsRun(r', retryMask) && r.es <= r'.es && |r'.es| <= |r.es| + 9
    ensures DroppedSince(r, retryMask, i, |r.es|, bit) || ShownSince(r', i, |r'.es|, bit)
  {
    var j, since := |r.es|, r.ss[i].passes;
    EveryFlagIsAccountedFor(r, retryMask, i, j, bit);
    if bit in Last(r).c.pending {
      r' := PendingCanBeShown(r, retryMask);
      PassesGrow(r, retryMask, i, j);
      assert r'.ss[i] == r.ss[i];
      assert Ends(r', |r'.es| - 1, since, bit);
    } else if InHand(Last(r).w.actors, since, bit) {
      var a :| a in Last(r).w.actors && Holds(a, since, bit);
      var e := Render(a.flags, a.pass, true);
      ExtendedIsRun(r, e, retryMask);
      r' := Extended(r, e, retryMask);
      assert Ends(r', j, since, bit);
    } else {
      r' := r;
    }
  }
}
