/**
 The scheduler around the coalescer: requesters, a dispatcher that may refuse or throw, a retry
 timer, queued tasks fenced by tickets, rendering that may fail, and shutdown. This is the real
 client of the coalescer, so the client rule assumed there is here derived from the code.

 Actors are the threads inside the scheduler, each standing between two of its atomic
 operations; they are a multiset because nothing depends on which thread is which.
 */
module RefreshScheduler {
  import opened Words
  import opened RefreshCoalescer

  datatype Actor =
    | Queueing                     // about to enter Queue
    | Ticketed(ticket: U64)        // has drawn a ticket
    | Stored(ticket: U64)          // has published it and is about to dispatch
    | Refused(ticket: U64)         // the dispatch failed
    | Arming                       // about to arm the timer
    | Admitted                     // the queued task has won its ticket
    | Rendering(flags: Flags, pass: nat) // has taken the pending flags
    | Closing(succeeded: bool)     // has rendered, and put flags back if that failed

  /** Everything through which the work can go on. */
  datatype Work = Work(queuedTicket: U64, armed: bool, tasks: multiset<U64>, actors: multiset<Actor>)

  /** `passes` is history: it numbers the passes in the order in which they begin. */
  datatype Scheduler = Scheduler(c: Coalescer, stopped: bool, nextTicket: U64, passes: nat, w: Work)

  const START := Scheduler(IDLE, false, 0, 0, Work(0, false, multiset{}, multiset{}))

  /** How a dispatch may end. The last one posts the task and throws all the same. */
  datatype Dispatch = Posted | NotPosted | PostedAndThrew

  datatype Event =
    | Request(flags: Flags)
    | Enter
    | Store(ticket: U64)
    | Post(ticket: U64, outcome: Dispatch)
    | Clear(ticket: U64)
    | Arm
    | Fire(ready: bool)
    | RunTask(ticket: U64)
    | Begin
    | Render(flags: Flags, pass: nat, succeeded: bool)
    | Close(succeeded: bool)
    | Stop
    | StopTicket
    | StopCancel
    | StopTimer

  /** The actor that takes a step, if one does. */
  function ActorOf(e: Event): Option<Actor> {
    match e
    case Enter => Some(Queueing)
    case Store(t) => Some(Ticketed(t))
    case Post(t, _) => Some(Stored(t))
    case Clear(t) => Some(Refused(t))
    case Arm => Some(Arming)
    case Begin => Some(Admitted)
    case Render(flags, pass, _) => Some(Rendering(flags, pass))
    case Close(ok) => Some(Closing(ok))
    case _ => None
  }

  predicate Enabled(s: Scheduler, e: Event) {
    && (ActorOf(e).Some? ==> ActorOf(e).value in s.w.actors)
    && (e.Fire? ==> s.w.armed)
    && (e.RunTask? ==> e.ticket in s.w.tasks)
    && (e.StopTicket? || e.StopCancel? || e.StopTimer? ==> s.stopped)
  }

  /** The actor that a step leaves behind, if one: what its actor becomes, or who joins. */
  function Successor(s: Scheduler, e: Event): Option<Actor> {
    match e
    case Request(flags) => if AfterRequest(s.c, flags).1 then Some(Queueing) else None
    case Enter => if s.stopped then None else Some(Ticketed(Incremented(s.nextTicket)))
    case Store(t) => Some(Stored(t))
    case Post(t, outcome) => if outcome.Posted? then None else Some(Refused(t))
    case Clear(_) => Some(Arming)
    case Fire(ready) => Some(if ready then Queueing else Arming)
    case RunTask(t) => if s.w.queuedTicket == t && !s.stopped then Some(Admitted) else None
    case Begin => Some(Rendering(s.c.pending, s.passes))
    case Render(_, _, ok) => if s.stopped then None else Some(Closing(ok))
    case Close(ok) => if AfterComplete(s.c).1 then Some(if ok then Queueing else Arming) else None
    case _ => None
  }

  function One(a: Option<Actor>): multiset<Actor> {
    if a.Some? then multiset{a.value} else multiset{}
  }

  function Replaced(actors: multiset<Actor>, leaves: Option<Actor>, joins: Option<Actor>): multiset<Actor> {
    actors - One(leaves) + One(joins)
  }

  function TasksAfter(tasks: multiset<U64>, e: Event): multiset<U64> {
    if e.Post? && !e.outcome.NotPosted? then tasks + multiset{e.ticket}
    else if e.RunTask? then tasks - multiset{e.ticket}
    else tasks
  }

  /** The published ticket: stored, and withdrawn by the task that wins it, by a failed dispatch
      that still owns it, and by shutdown. */
  function TicketAfter(queuedTicket: U64, e: Event): U64 {
    match e
    case Store(t) => t
    case Clear(t) => if queuedTicket == t then 0 else queuedTicket
    case RunTask(t) => if queuedTicket == t then 0 else queuedTicket
    case StopTicket => 0
    case _ => queuedTicket
  }

  function ArmedAfter(s: Scheduler, e: Event): bool {
    match e
    case Arm => s.w.armed || !s.stopped
    case Fire(_) => false
    case StopTimer => false
    case _ => s.w.armed
  }

  function CoalescerAfter(s: Scheduler, e: Event, retryMask: Flags): Coalescer {
    match e
    case Request(flags) => AfterRequest(s.c, flags).0
    case Begin => s.c.(pending := {})
    // The answer of this request, made by a failed rendering, is thrown away.
    case Render(flags, _, ok) => if s.stopped || ok then s.c else AfterRequest(s.c, flags * retryMask).0
    case Close(_) => AfterComplete(s.c).0
    case StopCancel => Coalescer({}, false, true)
    case _ => s.c
  }

  function WorkAfter(s: Scheduler, e: Event): Work {
    Work(TicketAfter(s.w.queuedTicket, e), ArmedAfter(s, e), TasksAfter(s.w.tasks, e),
         Replaced(s.w.actors, ActorOf(e), Successor(s, e)))
  }

  function Step(s: Scheduler, e: Event, retryMask: Flags): Scheduler {
    Scheduler(CoalescerAfter(s, e, retryMask), s.stopped || e.Stop?,
              if e.Enter? && !s.stopped then Incremented(s.nextTicket) else s.nextTicket,
              if e.Begin? then s.passes + 1 else s.passes,
              WorkAfter(s, e))
  }

  datatype Run = Run(es: seq<Event>, ss: seq<Scheduler>)

  ghost predicate IsRun(r: Run, retryMask: Flags) {
    && |r.ss| == |r.es| + 1
    && r.ss[0] == START
    && forall i :: 0 <= i < |r.es| ==> StepAt(r, retryMask, i)
  }

  ghost predicate StepAt(r: Run, retryMask: Flags, i: nat)
    requires i < |r.es| < |r.ss|
  {
    Enabled(r.ss[i], r.es[i]) && r.ss[i + 1] == Step(r.ss[i], r.es[i], retryMask)
  }

  ghost function Last(r: Run): Scheduler
    requires |r.ss| > 0
  {
    r.ss[|r.ss| - 1]
  }

  ghost function Extended(r: Run, e: Event, retryMask: Flags): Run
    requires |r.ss| > 0
  {
    Run(r.es + [e], r.ss + [Step(Last(r), e, retryMask)])
  }

  lemma ExtendedIsRun(r: Run, e: Event, retryMask: Flags)
    requires IsRun(r, retryMask) && Enabled(Last(r), e)
    ensures IsRun(Extended(r, e, retryMask), retryMask)
    ensures Last(Extended(r, e, retryMask)) == Step(Last(r), e, retryMask)
  {
    var r' := Extended(r, e, retryMask);
    forall i | 0 <= i < |r'.es| ensures StepAt(r', retryMask, i) {
      assert i < |r.es| ==> StepAt(r, retryMask, i);
    }
  }

  // ---- no refresh is lost, whatever the dispatcher does

  /** An actor that will carry the work on. One that has published a ticket which somebody else has
      since replaced will not: its task is going to be ignored. */
  ghost predicate Carries(a: Actor, queuedTicket: U64) {
    a.Stored? ==> a.ticket == queuedTicket
  }

  /** Someone is still going to drain. */
  ghost predicate HasCarrier(w: Work) {
    w.armed || w.queuedTicket in w.tasks || exists a :: a in w.actors && Carries(a, w.queuedTicket)
  }

  ghost predicate Inv(s: Scheduler) {
    && (s.c.cancelled ==> s.stopped)
    && (!s.stopped && s.c.scheduled ==> HasCarrier(s.w))
    && (s.c.pending != {} ==> s.c.scheduled)
  }

  lemma OthersStay(actors: multiset<Actor>, leaves: Option<Actor>, joins: Option<Actor>, x: Actor)
    requires x in actors && Some(x) != leaves
    ensures x in Replaced(actors, leaves, joins)
  {
  }

  lemma JoinerIsThere(actors: multiset<Actor>, leaves: Option<Actor>, joins: Option<Actor>)
    requires joins.Some?
    ensures joins.value in Replaced(actors, leaves, joins)
  {
  }

  /** Replacing an actor brings in nobody but its successor. */
  lemma OnlyJoinerIsNew(actors: multiset<Actor>, leaves: Option<Actor>, joins: Option<Actor>, x: Actor)
    requires x in Replaced(actors, leaves, joins)
    ensures x in actors || Some(x) == joins
  {
  }

  lemma AdmittedCount(actors: multiset<Actor>, leaves: Option<Actor>, joins: Option<Actor>)
    requires leaves.Some? ==> leaves.value in actors
    ensures Replaced(actors, leaves, joins)[Admitted] + (if leaves == Some(Admitted) then 1 else 0) ==
            actors[Admitted] + if joins == Some(Admitted) then 1 else 0
  {
  }

  lemma SuccessorOwnsTicket(s: Scheduler, e: Event)
    requires Successor(s, e).Some?
    ensures Carries(Successor(s, e).value, TicketAfter(s.w.queuedTicket, e))
  {
    match e
    case Store(_) =>
    case _ =>
  }

  lemma SuccessorCarries(s: Scheduler, e: Event)
    requires Successor(s, e).Some?
    ensures HasCarrier(WorkAfter(s, e))
  {
    JoinerIsThere(s.w.actors, ActorOf(e), Successor(s, e));
    SuccessorOwnsTicket(s, e);
  }

  /** Where nobody is left behind and the ticket stays, the carrier must be somebody else. */
  lemma CarrierStays(w: Work, w': Work, leaves: Option<Actor>)
    requires HasCarrier(w) && w'.queuedTicket == w.queuedTicket && w'.armed == w.armed
    requires w.queuedTicket in w.tasks ==> w.queuedTicket in w'.tasks
    requires w'.actors == Replaced(w.actors, leaves, None)
    requires leaves.Some? ==> !Carries(leaves.value, w.queuedTicket)
    ensures HasCarrier(w')
  {
    if !w.armed && w.queuedTicket !in w.tasks {
      var x :| x in w.actors && Carries(x, w.queuedTicket);
      OthersStay(w.actors, leaves, None, x);
    }
  }

  /** The steps that leave nobody behind although the work goes on. */
  lemma LastSeen(s: Scheduler, e: Event, retryMask: Flags)
    requires Inv(s) && Enabled(s, e) && !s.stopped && !e.Stop? && CoalescerAfter(s, e, retryMask).scheduled
    requires Successor(s, e).None?
    ensures s.c.scheduled
    ensures e.Arm? || (e.Post? && e.outcome.Posted?) || e.Request? || e.RunTask?
  {
  }

  lemma StepKeepsCarrier(s: Scheduler, e: Event, retryMask: Flags)
    requires Inv(s) && Enabled(s, e) && !s.stopped && !e.Stop? && CoalescerAfter(s, e, retryMask).scheduled
    ensures HasCarrier(WorkAfter(s, e))
  {
    if Successor(s, e).Some? {
      SuccessorCarries(s, e);
    } else {
      LastSeen(s, e, retryMask);
      if e.Post? && e.ticket == s.w.queuedTicket {
        assert s.w.queuedTicket in TasksAfter(s.w.tasks, e);
      } else if !e.Arm? {
        CarrierStays(s.w, WorkAfter(s, e), ActorOf(e));
      }
    }
  }

  lemma StepKeepsReservation(s: Scheduler, e: Event, retryMask: Flags)
    requires Inv(s) && Enabled(s, e)
    ensures var c := CoalescerAfter(s, e, retryMask);
            (c.cancelled ==> s.stopped) && (c.pending != {} ==> c.scheduled)
  {
  }

  lemma StepKeepsInv(s: Scheduler, e: Event, retryMask: Flags)
    requires Inv(s) && Enabled(s, e)
    ensures Inv(Step(s, e, retryMask))
  {
    StepKeepsReservation(s, e, retryMask);
    if !s.stopped && !e.Stop? && CoalescerAfter(s, e, retryMask).scheduled {
      StepKeepsCarrier(s, e, retryMask);
    }
  }

  lemma {:induction false} EveryRunKeepsInv(r: Run, retryMask: Flags, j: nat)
    requires IsRun(r, retryMask) && j <= |r.es|
    ensures Inv(r.ss[j])
  {
    if j > 0 {
      assert StepAt(r, retryMask, j - 1);
      EveryRunKeepsInv(r, retryMask, j - 1);
      StepKeepsInv(r.ss[j - 1], r.es[j - 1], retryMask);
    }
  }

  /** In every run, with any mix of refused, throwing and accepted dispatches and failed renderings:
      until it is stopped, pending flags always have a timer, a task with the current ticket or
      an actor on its way to drain them. */
  lemma NoRefreshIsLost(r: Run, retryMask: Flags, j: nat)
    requires IsRun(r, retryMask) && j <= |r.es| && !r.ss[j].stopped && r.ss[j].c.pending != {}
    ensures HasCarrier(r.ss[j].w)
  {
    EveryRunKeepsInv(r, retryMask, j);
  }

  // ---- exactly one carrier, if a throwing dispatch has not posted

  predicate ThrowsAfterPosting(e: Event) {
    e.Post? && e.outcome.PostedAndThrew?
  }

  /** The dispatcher keeps to "no task unless accepted". */
  ghost predicate WellBehaved(es: seq<Event>) {
    forall i :: 0 <= i < |es| ==> !ThrowsAfterPosting(es[i])
  }

  ghost function Carriers(w: Work): nat {
    |w.actors| + |w.tasks| + if w.armed then 1 else 0
  }

  ghost predicate TicketsMatch(w: Work) {
    (forall a :: a in w.actors ==> Carries(a, w.queuedTicket)) && (forall t :: t in w.tasks ==> t == w.queuedTicket)
  }

  /** Except while it is being rendered, a reserved drain has something to drain. */
  ghost predicate HasWork(c: Coalescer, actors: multiset<Actor>) {
    c.scheduled && (forall a :: a in actors ==> !a.Rendering? && !a.Closing?) ==> c.pending != {}
  }

  ghost predicate OneCarrier(s: Scheduler) {
    Carriers(s.w) == if s.c.scheduled then 1 else 0
  }

  ghost predicate Exact(s: Scheduler) {
    && !s.c.cancelled
    && (s.c.pending != {} ==> s.c.scheduled)
    && OneCarrier(s)
    && TicketsMatch(s.w)
    && HasWork(s.c, s.w.actors)
  }

  lemma OnlyOne(s: Scheduler, a: Actor)
    requires Exact(s) && a in s.w.actors
    ensures s.w.actors == multiset{a} && s.w.tasks == multiset{} && !s.w.armed && s.c.scheduled
  {
    assert |s.w.actors - multiset{a}| == |s.w.actors| - 1;
    assert s.w.actors == multiset{a} + (s.w.actors - multiset{a});
  }

  lemma OnlyTask(s: Scheduler, t: U64)
    requires Exact(s) && t in s.w.tasks
    ensures s.w.tasks == multiset{t} && s.w.actors == multiset{} && !s.w.armed && s.c.scheduled
  {
    assert |s.w.tasks - multiset{t}| == |s.w.tasks| - 1;
    assert s.w.tasks == multiset{t} + (s.w.tasks - multiset{t});
  }

  /** The steps that move the work from one carrier to the next. */
  predicate MovesWork(s: Scheduler, e: Event) {
    ActorOf(e).Some? || e.RunTask? || e.Fire? || (e.Request? && !s.c.scheduled && e.flags != {})
  }

  /** Whoever takes such a step was the only carrier, and what the step leaves behind is all there is. */
  lemma MoveLeavesOne(s: Scheduler, e: Event)
    requires Exact(s) && Enabled(s, e) && MovesWork(s, e)
    ensures Replaced(s.w.actors, ActorOf(e), Successor(s, e)) == One(Successor(s, e))
    ensures TasksAfter(s.w.tasks, e) == if e.Post? && !e.outcome.NotPosted? then multiset{e.ticket} else multiset{}
    ensures Movable(s, e)
  {
    if ActorOf(e).Some? {
      OnlyOne(s, ActorOf(e).value);
    } else if e.RunTask? {
      OnlyTask(s, e.ticket);
    }
  }

  /** What that says about the plain fields. */
  predicate Movable(s: Scheduler, e: Event) {
    && !s.c.cancelled
    && (s.c.pending != {} ==> s.c.scheduled)
    && MovesWork(s, e)
    && (!s.w.armed || e.Fire?)
    && (s.c.scheduled || e.Request?)
    && (e.RunTask? ==> e.ticket == s.w.queuedTicket)
  }

  /** The drain stays reserved exactly as long as the work has somewhere to go. */
  lemma MoveKeepsReservation(s: Scheduler, e: Event, retryMask: Flags)
    requires Movable(s, e) && !s.stopped
    ensures var c := CoalescerAfter(s, e, retryMask);
            && !c.cancelled
            && (c.pending != {} ==> c.scheduled)
            && (c.scheduled <==> Successor(s, e).Some? || (e.Post? && e.outcome.Posted?) || e.Arm?)
    ensures ArmedAfter(s, e) == e.Arm?
    ensures e.Arm? || (e.Post? && e.outcome.Posted?) ==> Successor(s, e).None?
  {
    match e
    case Request(_) =>
    case Render(_, _, _) =>
    case Close(_) =>
    case _ =>
  }

  lemma CountOfOne(a: Option<Actor>, tasks: multiset<U64>, t: U64, posted: bool)
    requires tasks == if posted then multiset{t} else multiset{}
    ensures |One(a)| == (if a.Some? then 1 else 0) && |tasks| == if posted then 1 else 0
  {
  }

  lemma MoveKeepsCount(s: Scheduler, e: Event, retryMask: Flags)
    requires Exact(s) && Enabled(s, e) && !s.stopped && MovesWork(s, e) && !ThrowsAfterPosting(e)
    ensures Carriers(WorkAfter(s, e)) == if CoalescerAfter(s, e, retryMask).scheduled then 1 else 0
  {
    MoveLeavesOne(s, e);
    MoveKeepsReservation(s, e, retryMask);
    var posted := e.Post? && e.outcome.Posted?;
    CountOfOne(Successor(s, e), TasksAfter(s.w.tasks, e), if e.Post? then e.ticket else 0, posted);
  }

  lemma MoveKeepsTickets(s: Scheduler, e: Event)
    requires Exact(s) && Enabled(s, e) && MovesWork(s, e) && !ThrowsAfterPosting(e)
    ensures TicketsMatch(WorkAfter(s, e))
  {
    MoveLeavesOne(s, e);
    if Successor(s, e).Some? {
      SuccessorOwnsTicket(s, e);
      assert forall a :: a in One(Successor(s, e)) ==> a == Successor(s, e).value;
    }
    if e.Post? {
      assert Carries(Stored(e.ticket), s.w.queuedTicket);
      assert TicketAfter(s.w.queuedTicket, e) == e.ticket;
    }
  }

  /** Whoever moves the work on before it is rendered has something to render. */
  lemma WorkBeforeMove(s: Scheduler, e: Event)
    requires Exact(s) && Enabled(s, e) && MovesWork(s, e) && !e.Render? && !e.Close? && !e.Request?
    ensures s.c.pending != {}
  {
    if ActorOf(e).Some? {
      var a := ActorOf(e).value;
      OnlyOne(s, a);
      assert forall x :: x in s.w.actors ==> x == a;
      assert !a.Rendering? && !a.Closing?;
    } else if e.RunTask? {
      OnlyTask(s, e.ticket);
    } else {
      assert |s.w.actors| == 0;
    }
  }

  lemma RenderingIsWork(c: Coalescer, actors: multiset<Actor>, leaves: Option<Actor>, joins: Option<Actor>)
    requires joins.Some? && (joins.value.Rendering? || joins.value.Closing?)
    ensures HasWork(c, Replaced(actors, leaves, joins))
  {
    JoinerIsThere(actors, leaves, joins);
  }

  lemma MoveLeavesPending(s: Scheduler, e: Event, retryMask: Flags)
    requires Exact(s) && Enabled(s, e) && !s.stopped && MovesWork(s, e) && !e.Begin? && !e.Render?
    ensures CoalescerAfter(s, e, retryMask).scheduled ==> CoalescerAfter(s, e, retryMask).pending != {}
  {
    MoveLeavesOne(s, e);
    if !e.Close? && !e.Request? {
      WorkBeforeMove(s, e);
    }
    MoveLeavesWork(s, e, retryMask);
  }

  lemma MoveKeepsWork(s: Scheduler, e: Event, retryMask: Flags)
    requires Exact(s) && Enabled(s, e) && !s.stopped && MovesWork(s, e)
    ensures HasWork(CoalescerAfter(s, e, retryMask), Replaced(s.w.actors, ActorOf(e), Successor(s, e)))
  {
    if e.Begin? || e.Render? {
      RenderingIsWork(CoalescerAfter(s, e, retryMask), s.w.actors, ActorOf(e), Successor(s, e));
    } else {
      MoveLeavesPending(s, e, retryMask);
    }
  }

  lemma MoveLeavesWork(s: Scheduler, e: Event, retryMask: Flags)
    requires Movable(s, e) && !s.stopped && !e.Begin? && !e.Render?
    requires e.Close? || e.Request? || s.c.pending != {}
    ensures var c := CoalescerAfter(s, e, retryMask); c.scheduled ==> c.pending != {}
  {
  }

  /** The remaining steps of an unstopped run: a request while the drain is reserved, or an empty one. */
  lemma OtherKeepsExact(s: Scheduler, e: Event, retryMask: Flags)
    requires Exact(s) && Enabled(s, e) && !s.stopped && !e.Stop? && !MovesWork(s, e)
    ensures Exact(Step(s, e, retryMask))
  {
    assert e.Request? && Successor(s, e).None?;
    assert WorkAfter(s, e) == s.w;
  }

  lemma StepKeepsExact(s: Scheduler, e: Event, retryMask: Flags)
    requires Exact(s) && Enabled(s, e) && !s.stopped && !e.Stop? && !ThrowsAfterPosting(e)
    ensures Exact(Step(s, e, retryMask))
  {
    if MovesWork(s, e) {
      MoveLeavesOne(s, e);
      MoveKeepsCount(s, e, retryMask);
      MoveKeepsTickets(s, e);
      MoveKeepsWork(s, e, retryMask);
      MoveKeepsReservation(s, e, retryMask);
    } else {
      OtherKeepsExact(s, e, retryMask);
    }
  }

  lemma {:induction false} EveryRunKeepsExact(r: Run, retryMask: Flags, j: nat)
    requires IsRun(r, retryMask) && WellBehaved(r.es) && j <= |r.es| && !r.ss[j].stopped
    ensures Exact(r.ss[j])
  {
    if j > 0 {
      assert StepAt(r, retryMask, j - 1);
      EveryRunKeepsExact(r, retryMask, j - 1);
      StepKeepsExact(r.ss[j - 1], r.es[j - 1], retryMask);
    }
  }

  /** With a well-behaved dispatcher there is exactly one carrier while a drain is reserved and none
      otherwise, and no pass renders nothing. */
  lemma ExactlyOneCarrier(r: Run, retryMask: Flags, j: nat)
    requires IsRun(r, retryMask) && WellBehaved(r.es) && j <= |r.es| && !r.ss[j].stopped
    ensures OneCarrier(r.ss[j])
    ensures Admitted in r.ss[j].w.actors ==> r.ss[j].c.pending != {}
  {
    EveryRunKeepsExact(r, retryMask, j);
    if Admitted in r.ss[j].w.actors {
      OnlyOne(r.ss[j], Admitted);
    }
  }

  lemma {:induction false} StoppedStays(r: Run, retryMask: Flags, i: nat, j: nat)
    requires IsRun(r, retryMask) && i <= j <= |r.es| && !r.ss[j].stopped
    ensures !r.ss[i].stopped
    decreases j - i
  {
    if i < j {
      assert StepAt(r, retryMask, j - 1);
      StoppedStays(r, retryMask, i, j - 1);
    }
  }

  /** The condition is exact: in a run that has not been stopped, there is one carrier at every
      moment if and only if no dispatch posted its task and threw. */
  lemma OneCarrierIffWellBehaved(r: Run, retryMask: Flags)
    requires IsRun(r, retryMask) && !r.ss[|r.es|].stopped
    ensures (forall j :: 0 <= j <= |r.es| ==> OneCarrier(r.ss[j])) <==> WellBehaved(r.es)
  {
    if WellBehaved(r.es) {
      forall j | 0 <= j <= |r.es| ensures OneCarrier(r.ss[j]) {
        StoppedStays(r, retryMask, j, |r.es|);
        ExactlyOneCarrier(r, retryMask, j);
      }
    } else {
      var i :| 0 <= i < |r.es| && ThrowsAfterPosting(r.es[i]);
      assert StepAt(r, retryMask, i);
      ThrowingPostDoubles(r.ss[i], r.es[i], retryMask);
      assert !OneCarrier(r.ss[i + 1]);
    }
  }

  lemma ThrowingPostDoubles(s: Scheduler, e: Event, retryMask: Flags)
    requires Enabled(s, e) && ThrowsAfterPosting(e)
    ensures Carriers(WorkAfter(s, e)) >= 2 && !OneCarrier(Step(s, e, retryMask))
  {
    var w := WorkAfter(s, e);
    assert w.tasks == s.w.tasks + multiset{e.ticket};
    assert w.actors == (s.w.actors - One(ActorOf(e))) + multiset{Refused(e.ticket)};
    AddingTwo(s.w.tasks, e.ticket, s.w.actors - One(ActorOf(e)), Refused(e.ticket));
  }

  lemma AddingTwo(tasks: multiset<U64>, t: U64, actors: multiset<Actor>, a: Actor)
    ensures |tasks + multiset{t}| + |actors + multiset{a}| >= 2
  {
  }

  /** A run with two carriers: one request whose dispatch posts the task and throws all the same. Both
      the task and the thread on its way to the retry timer will drain. */
  lemma ThrowingDispatchDoubles(flags: Flags, retryMask: Flags) returns (r: Run)
    requires flags != {}
    ensures IsRun(r, retryMask) && r.es == [Event.Request(flags), Enter, Store(1), Post(1, PostedAndThrew)]
    ensures !Last(r).stopped && Carriers(Last(r).w) == 2 && !OneCarrier(Last(r))
    ensures 1 == Last(r).w.queuedTicket && 1 in Last(r).w.tasks && Refused(1) in Last(r).w.actors
  {
    var before := DispatchComesUp(flags, retryMask);
    var post := Post(1, PostedAndThrew);
    ExtendedIsRun(before, post, retryMask);
    AloneActs(Last(before), post);
    r := Extended(before, post, retryMask);
    assert Last(r).w == Work(1, false, multiset{1}, multiset{Refused(1)});
  }

  /** One actor and nothing else on the way. */
  ghost function Alone(flags: Flags, queuedTicket: U64, nextTicket: U64, a: Actor): Scheduler {
    Scheduler(Coalescer(flags, true, false), false, nextTicket, 0, Work(queuedTicket, false, multiset{}, multiset{a}))
  }

  lemma AloneActs(s: Scheduler, e: Event)
    requires s.w.actors == One(ActorOf(e))
    ensures WorkAfter(s, e).actors == One(Successor(s, e))
  {
  }

  lemma AloneComesUp(flags: Flags, retryMask: Flags)
    requires flags != {}
    ensures Step(START, Event.Request(flags), retryMask) == Alone(flags, 0, 0, Queueing)
    ensures Step(Alone(flags, 0, 0, Queueing), Enter, retryMask) == Alone(flags, 0, 1, Ticketed(1))
    ensures Step(Alone(flags, 0, 1, Ticketed(1)), Store(1), retryMask) == Alone(flags, 1, 1, Stored(1))
  {
    AloneActs(START, Event.Request(flags));
    AloneActs(Alone(flags, 0, 0, Queueing), Enter);
    AloneActs(Alone(flags, 0, 1, Ticketed(1)), Store(1));
  }

  lemma DispatchComesUp(flags: Flags, retryMask: Flags) returns (r: Run)
    requires flags != {}
    ensures IsRun(r, retryMask) && r.es == [Event.Request(flags), Enter, Store(1)]
    ensures Last(r) == Alone(flags, 1, 1, Stored(1))
  {
    AloneComesUp(flags, retryMask);
    r := Run([], [START]);
    ExtendedIsRun(r, Event.Request(flags), retryMask);
    r := Extended(r, Event.Request(flags), retryMask);
    ExtendedIsRun(r, Enter, retryMask);
    r := Extended(r, Enter, retryMask);
    ExtendedIsRun(r, Store(1), retryMask);
    r := Extended(r, Store(1), retryMask);
  }
}
