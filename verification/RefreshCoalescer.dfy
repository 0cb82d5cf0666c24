/**
 The refresh coalescer: any number of requesters, drain chains and a canceller meet in four
 short locked methods. Each method is one atomic step.

 The client rule is the scheduler's: whoever is answered `true` by `Request` owes a drain
 chain, which alternates `BeginDrain` and `CompleteDrain` until the latter answers `false`.
 Between the two, a chain whose rendering failed may put flags back with a `Request` whose
 answer the scheduler throws away.
 */
module RefreshCoalescer {
  /** A 32-bit mask, as the set of its bit positions: `|` is union and zero is the empty set. */
  type Bit = n: nat | n < 32
  type Flags = set<Bit>

  datatype Coalescer = Coalescer(pending: Flags, scheduled: bool, cancelled: bool)

  const IDLE := Coalescer({}, false, false)

  function AfterRequest(c: Coalescer, flags: Flags): (Coalescer, bool) {
    if c.cancelled || flags == {} then (c, false)
    else (Coalescer(c.pending + flags, true, false), !c.scheduled)
  }

  function AfterComplete(c: Coalescer): (Coalescer, bool) {
    if c.cancelled then (c, false)
    else if c.pending != {} then (c, true)
    else (c.(scheduled := false), false)
  }

  class UiRefreshCoalescer {
    var pendingFlags: Flags
    var drainScheduled: bool
    var cancelled: bool

    ghost function Model(): Coalescer
      reads this
    {
      Coalescer(pendingFlags, drainScheduled, cancelled)
    }

    constructor ()
      ensures Model() == IDLE
    {
      pendingFlags, drainScheduled, cancelled := {}, false, false;
    }

    method Request(flags: Flags) returns (schedule: bool)
      modifies this
      ensures (Model(), schedule) == AfterRequest(old(Model()), flags)
    {
      if cancelled || flags == {} {
        return false;
      }
      pendingFlags := pendingFlags + flags;
      if drainScheduled {
        return false;
      }
      drainScheduled := true;
      return true;
    }

    method BeginDrain() returns (flags: Flags)
      modifies this`pendingFlags
      ensures flags == old(pendingFlags) && Model() == old(Model()).(pending := {})
    {
      flags := pendingFlags;
      pendingFlags := {};
    }

    method CompleteDrain() returns (again: bool)
      modifies this`drainScheduled
      ensures (Model(), again) == AfterComplete(old(Model()))
    {
      if cancelled {
        return false;
      }
      if pendingFlags != {} {
        return true;
      }
      drainScheduled := false;
      return false;
    }

    method Cancel()
      modifies this
      ensures Model() == Coalescer({}, false, true)
    {
      cancelled, pendingFlags, drainScheduled := true, {}, false;
    }
  }

  // ---- the protocol: requesters, chains and a canceller in any interleaving

  /** A chain is about to drain, or draining. Where the scheduler is on its way to the next drain
      (queued, waiting for a timer, dispatching) makes no difference to the coalescer. */
  datatype Phase = Scheduled | Draining

  datatype System = System(c: Coalescer, chains: seq<Phase>)

  datatype Event =
    | Request(flags: Flags)
    | Begin(chain: nat)
    | PutBack(chain: nat, flags: Flags)
    | End(chain: nat)
    | Cancel

  const START := System(IDLE, [])

  predicate Enabled(s: System, e: Event) {
    match e
    case Request(_) => true
    case Begin(k) => k < |s.chains| && s.chains[k] == Scheduled
    case PutBack(k, _) => k < |s.chains| && s.chains[k] == Draining
    case End(k) => k < |s.chains| && s.chains[k] == Draining
    case Cancel => true
  }

  function Step(s: System, e: Event): System
    requires Enabled(s, e)
  {
    match e
    case Request(flags) =>
      var (c, schedule) := AfterRequest(s.c, flags);
      System(c, if schedule then s.chains + [Scheduled] else s.chains)
    case Begin(k) => System(s.c.(pending := {}), s.chains[k := Draining])
    case PutBack(_, flags) => System(AfterRequest(s.c, flags).0, s.chains)
    case End(k) =>
      var (c, again) := AfterComplete(s.c);
      System(c, if again then s.chains[k := Scheduled] else s.chains[..k] + s.chains[k + 1..])
    case Cancel => System(Coalescer({}, false, true), s.chains)
  }

  /** A history of atomic steps in which every client keeps to its rule. */
  ghost predicate IsRun(es: seq<Event>) {
    es == [] || (IsRun(es[..|es| - 1]) && Enabled(After(es[..|es| - 1]), es[|es| - 1]))
  }

  ghost function After(es: seq<Event>): System {
    if es == [] then START
    else
      var before := After(es[..|es| - 1]);
      if Enabled(before, es[|es| - 1]) then Step(before, es[|es| - 1]) else before
  }

  /** Flags that step `j` handed to a drain pass. */
  ghost function DrainedBy(es: seq<Event>, j: nat): Flags
    requires j < |es|
  {
    if es[j].Begin? then After(es[..j]).c.pending else {}
  }

  // ---- one chain at a time

  ghost predicate Inv(s: System) {
    && |s.chains| <= 1
    && (!s.c.cancelled ==> (s.c.scheduled <==> |s.chains| == 1))
    && (s.c.pending != {} ==> s.c.scheduled)
    && (s.c.cancelled ==> s.c.pending == {} && !s.c.scheduled)
    && (!s.c.cancelled && |s.chains| == 1 && s.chains[0] == Scheduled ==> s.c.pending != {})
  }

  lemma StepKeepsInv(s: System, e: Event)
    requires Inv(s) && Enabled(s, e)
    ensures Inv(Step(s, e))
  {
  }

  lemma {:induction false} EveryRunKeepsInv(es: seq<Event>)
    requires IsRun(es)
    ensures Inv(After(es))
  {
    if es != [] {
      EveryRunKeepsInv(es[..|es| - 1]);
      StepKeepsInv(After(es[..|es| - 1]), es[|es| - 1]);
    }
  }

  /** No refresh is lost: there is never more than one chain, and pending flags always have one. */
  lemma PendingHasOneChain(es: seq<Event>)
    requires IsRun(es)
    ensures |After(es).chains| <= 1
    ensures After(es).c.pending != {} ==> |After(es).chains| == 1
  {
    EveryRunKeepsInv(es);
  }

  /** A chain ends only when nothing is pending, and it goes on only to a pass that has work;
      so, short of cancellation, no pass is empty. */
  lemma ChainEndsOnlyWhenDone(es: seq<Event>, k: nat)
    requires IsRun(es) && Enabled(After(es), End(k))
    ensures var s, t := After(es), After(es + [End(k)]);
            if t.chains == [] then s.c.pending == {} && (s.c.cancelled || !t.c.scheduled)
            else t == System(s.c, [Scheduled]) && t.c.pending != {}
  {
    EveryRunKeepsInv(es);
    assert (es + [End(k)])[..|es|] == es;
  }

  lemma EveryPassHasWork(es: seq<Event>, k: nat)
    requires IsRun(es) && Enabled(After(es), Begin(k)) && Cancel !in es
    ensures After(es).c.pending != {}
  {
    EveryRunKeepsInv(es);
    CancelledIff(es);
  }

  /** The answer that the scheduler throws away when it puts flags back is always `false`: the
      running chain already owes the next pass, so nothing is lost by ignoring it. */
  lemma PutBackNeverSchedules(es: seq<Event>, k: nat, flags: Flags)
    requires IsRun(es) && Enabled(After(es), PutBack(k, flags))
    ensures !AfterRequest(After(es).c, flags).1
  {
    EveryRunKeepsInv(es);
  }

  // ---- conservation of flags

  lemma {:induction false} CancelledIff(es: seq<Event>)
    requires IsRun(es)
    ensures After(es).c.cancelled <==> Cancel in es
  {
    if es != [] {
      var init := es[..|es| - 1];
      CancelledIff(init);
      assert es == init + [es[|es| - 1]];
    }
  }

  ghost function AskedBy(e: Event): Flags {
    if e.Request? || e.PutBack? then e.flags else {}
  }

  /** Union of everything asked for since the last drain pass began. */
  ghost function AskedSinceBegin(es: seq<Event>): Flags {
    if es == [] || es[|es| - 1].Begin? then {}
    else AskedSinceBegin(es[..|es| - 1]) + AskedBy(es[|es| - 1])
  }

  ghost function Asked(es: seq<Event>): Flags {
    if es == [] then {} else Asked(es[..|es| - 1]) + AskedBy(es[|es| - 1])
  }

  ghost function Drained(es: seq<Event>): Flags {
    if es == [] then {} else Drained(es[..|es| - 1]) + DrainedBy(es, |es| - 1)
  }

  lemma {:induction false} PendingIsAskedSinceBegin(es: seq<Event>)
    requires IsRun(es)
    ensures After(es).c.pending == if Cancel in es then {} else AskedSinceBegin(es)
  {
    if es != [] {
      var init, last := es[..|es| - 1], es[|es| - 1];
      assert es == init + [last];
      PendingIsAskedSinceBegin(init);
      CancelledIff(init);
      CancelledIff(es);
      if Cancel in es {
        EveryRunKeepsInv(es);
      }
    }
  }

  /** A drain pass receives exactly the union of the requests made since the previous pass, or
      nothing once the coalescer was cancelled. */
  lemma PassReceivesWhatWasAsked(es: seq<Event>, j: nat)
    requires IsRun(es) && j < |es| && es[j].Begin?
    ensures DrainedBy(es, j) == if Cancel in es[..j] then {} else AskedSinceBegin(es[..j])
  {
    PrefixIsRun(es, j);
    PendingIsAskedSinceBegin(es[..j]);
  }

  lemma {:induction false} PrefixIsRun(es: seq<Event>, j: nat)
    requires IsRun(es) && j <= |es|
    ensures IsRun(es[..j])
    decreases |es|
  {
    if j < |es| {
      PrefixIsRun(es[..|es| - 1], j);
      assert es[..|es| - 1][..j] == es[..j];
    } else {
      assert es[..j] == es;
    }
  }

  lemma {:induction false} UnionsBalance(es: seq<Event>)
    requires IsRun(es) && Cancel !in es
    ensures Asked(es) == Drained(es) + After(es).c.pending
  {
    if es != [] {
      var init, last := es[..|es| - 1], es[|es| - 1];
      assert es == init + [last];
      UnionsBalance(init);
      CancelledIff(init);
    }
  }

  ghost predicate DrainedSince(es: seq<Event>, i: nat, bit: Bit)
    requires i <= |es|
  {
    exists k :: i < k < |es| && bit in DrainedBy(es, k)
  }

  /** Each request counts for itself: a bit asked for at `i` is pending or was handed to a pass that
      began after `i`; an earlier pass does not count. */
  lemma {:induction false} RequestReachesPass(es: seq<Event>, i: nat, bit: Bit)
    requires IsRun(es) && Cancel !in es && i < |es| && bit in AskedBy(es[i])
    ensures bit in After(es).c.pending || DrainedSince(es, i, bit)
  {
    var init, last := es[..|es| - 1], es[|es| - 1];
    assert es == init + [last];
    CancelledIff(init);
    if i < |init| {
      RequestReachesPass(init, i, bit);
      if DrainedSince(init, i, bit) {
        var k :| i < k < |init| && bit in DrainedBy(init, k);
        assert init[..k] == es[..k];
        assert bit in DrainedBy(es, k);
      } else {
        assert bit in After(init).c.pending;
        assert last.Begin? ==> bit in DrainedBy(es, |init|);
      }
    }
  }

  /** Nothing vanishes and nothing appears: until cancellation, what was asked for is what was drained
      together with what is pending, and this holds of every single request with the passes after it. */
  lemma FlagsAreConserved(es: seq<Event>)
    requires IsRun(es) && Cancel !in es
    ensures Asked(es) == Drained(es) + After(es).c.pending
    ensures forall i, bit :: 0 <= i < |es| && bit in AskedBy(es[i]) ==>
                               bit in After(es).c.pending || DrainedSince(es, i, bit)
  {
    UnionsBalance(es);
    forall i, bit | 0 <= i < |es| && bit in AskedBy(es[i])
      ensures bit in After(es).c.pending || DrainedSince(es, i, bit)
    {
      RequestReachesPass(es, i, bit);
    }
  }

  /** When no chain is live, everything ever asked for has been drained, and every single request by a
      pass that began after it. */
  lemma IdleMeansDelivered(es: seq<Event>)
    requires IsRun(es) && Cancel !in es && After(es).chains == []
    ensures Drained(es) == Asked(es)
    ensures forall i, bit :: 0 <= i < |es| && bit in AskedBy(es[i]) ==> DrainedSince(es, i, bit)
  {
    EveryRunKeepsInv(es);
    CancelledIff(es);
    FlagsAreConserved(es);
  }

  /** After cancellation nothing is accepted, scheduled or drained, for the rest of the run. */
  lemma NothingAfterCancel(es: seq<Event>, j: nat)
    requires IsRun(es) && j < |es| && Cancel in es[..j]
    ensures DrainedBy(es, j) == {}
    ensures After(es[..j + 1]).c == Coalescer({}, false, true)
    ensures |After(es[..j + 1]).chains| <= |After(es[..j]).chains|
  {
    PrefixIsRun(es, j);
    EveryRunKeepsInv(es[..j]);
    CancelledIff(es[..j]);
    PrefixIsRun(es, j + 1);
    assert es[..j + 1][..j] == es[..j];
  }
}
