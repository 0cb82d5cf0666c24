/**
 The versioned wakeup: one waiter, any number of notifiers, a condition variable and a
 64-bit version that wraps. A notifier bumps the version under the lock and calls
 `notify_all` after releasing it, so the two are separate steps and anything may happen
 between them. A wait may also be held up at a gate before it looks at the version.

 Each step below is one stretch of code run under the mutex, one `notify_all`, or one wake of
 the condition variable, including a spurious one. Time is a value that `Advance` moves.
 */
module SettingsWakeup {
  import opened Words

  datatype Call = Call(version: U64, deadline: Option<int>)

  datatype Waiter = Outside | AtGate(call: Call) | Parked(call: Call) | Woken(call: Call)

  datatype Wakeup = Wakeup(
    now: int,
    version: U64,
    waiting: bool,
    waitVersion: U64,
    deadline: Option<int>,
    gateSet: bool,
    waiter: Waiter,
    notifying: set<nat>)

  const START := Wakeup(0, 0, false, 0, None, false, Outside, {})

  datatype Event =
    | Bump(who: nat, amount: int)     // the locked part of Notify (amount 0) or Advance
    | NotifyAll(who: nat)
    | BlockNextWait
    | EnterWait(call: Call)
    | PassGate
    | Wake
    | Recheck

  predicate Ready(w: Wakeup, call: Call) {
    w.version != call.version || (call.deadline.Some? && w.now >= call.deadline.value)
  }

  /** The locked part of a wait after the gate: return, or record the wait and park. */
  function Check(w: Wakeup, call: Call): Wakeup {
    if Ready(w, call) then w.(waiter := Outside)
    else w.(waiter := Parked(call), waiting := true, waitVersion := call.version, deadline := call.deadline)
  }

  predicate Enabled(w: Wakeup, e: Event) {
    match e
    case Bump(who, _) => who !in w.notifying
    case NotifyAll(who) => who in w.notifying
    case BlockNextWait => true
    case EnterWait(_) => w.waiter.Outside?
    case PassGate => w.waiter.AtGate?
    case Wake => w.waiter.Parked?
    case Recheck => w.waiter.Woken?
  }

  function Awakened(w: Waiter): Waiter {
    if w.Parked? then Woken(w.call) else w
  }

  function Step(w: Wakeup, e: Event): Wakeup
    requires Enabled(w, e)
  {
    match e
    case Bump(who, amount) =>
      w.(now := w.now + amount, version := Incremented(w.version), notifying := w.notifying + {who})
    case NotifyAll(who) => w.(waiter := Awakened(w.waiter), notifying := w.notifying - {who})
    case BlockNextWait => w.(gateSet := true)
    case EnterWait(call) => if w.gateSet then w.(gateSet := false, waiter := AtGate(call)) else Check(w, call)
    case PassGate => Check(w, w.waiter.call)
    case Wake => w.(waiter := Awakened(w.waiter))
    case Recheck =>
      if Ready(w, w.waiter.call) then w.(waiter := Outside, waiting := false)
      else w.(waiter := Parked(w.waiter.call))
  }

  datatype Run = Run(es: seq<Event>, ws: seq<Wakeup>)

  ghost predicate IsRun(r: Run) {
    && |r.ws| == |r.es| + 1
    && r.ws[0] == START
    && forall i :: 0 <= i < |r.es| ==> Enabled(r.ws[i], r.es[i]) && r.ws[i + 1] == Step(r.ws[i], r.es[i])
  }

  ghost function Last(r: Run): Wakeup
    requires IsRun(r)
  {
    r.ws[|r.es|]
  }

  ghost function Extended(r: Run, e: Event): (r': Run)
    requires IsRun(r) && Enabled(Last(r), e)
    ensures IsRun(r') && Last(r') == Step(Last(r), e)
  {
    Run(r.es + [e], r.ws + [Step(Last(r), e)])
  }

  /** The wait that step `i` is about to decide: it returns or parks, under the lock. */
  ghost function Deciding(r: Run, i: nat): Option<Call>
    requires IsRun(r) && i < |r.es|
  {
    match r.es[i]
    case EnterWait(call) => if r.ws[i].gateSet then None else Some(call)
    case PassGate => Some(r.ws[i].waiter.call)
    case Recheck => Some(r.ws[i].waiter.call)
    case _ => None
  }

  /** The object, one method per stretch of code under its mutex. `Wait` is its three stretches:
      entry, resumption after the gate, and the recheck after each wake. */
  class ManualSettingsWakeup {
    var now: int
    var version: U64
    var waiting: bool
    var waitVersion: U64
    var deadline: Option<int>
    var gateSet: bool
    ghost var waiter: Waiter
    ghost var notifying: set<nat>
    ghost var run: Run

    ghost function Model(): Wakeup
      reads this
    {
      Wakeup(now, version, waiting, waitVersion, deadline, gateSet, waiter, notifying)
    }

    ghost predicate Valid()
      reads this
    {
      IsRun(run) && Model() == Last(run)
    }

    constructor ()
      ensures Valid() && run == Run([], [START])
    {
      now, version, waiting, waitVersion, deadline, gateSet := 0, 0, false, 0, None, false;
      waiter, notifying, run := Outside, {}, Run([], [START]);
    }

    method Notify(ghost who: nat)
      requires Valid() && who !in notifying
      modifies this
      ensures Valid() && run == Extended(Extended(old(run), Bump(who, 0)), NotifyAll(who))
      ensures now == old(now) && version == (old(version) + 1) % U64_COUNT
    {
      var _ := Advance(who, 0);
    }

    method Advance(ghost who: nat, amount: int) returns (v: U64)
      requires Valid() && who !in notifying
      modifies this
      ensures Valid() && run == Extended(Extended(old(run), Bump(who, amount)), NotifyAll(who))
      ensures now == old(now) + amount && v == version == (old(version) + 1) % U64_COUNT
    {
      run := Extended(run, Bump(who, amount));
      now := now + amount;
      version := Incremented(version);
      notifying := notifying + {who};
      v := version;
      run := Extended(run, NotifyAll(who));
      waiter := Awakened(waiter);
      notifying := notifying - {who};
    }

    method BlockNextWait()
      requires Valid()
      modifies this
      ensures Valid() && run == Extended(old(run), Event.BlockNextWait)
    {
      run := Extended(run, Event.BlockNextWait);
      gateSet := true;
    }

    method EnterWait(call: Call) returns (gated: bool, done: bool)
      requires Valid() && waiter.Outside?
      modifies this
      ensures Valid() && run == Extended(old(run), Event.EnterWait(call))
      ensures gated == waiter.AtGate? && done == waiter.Outside?
    {
      run := Extended(run, Event.EnterWait(call));
      if gateSet {
        gateSet := false;
        waiter := AtGate(call);
        return true, false;
      }
      done := Decide(call);
      gated := false;
    }

    method PassGate(call: Call) returns (done: bool)
      requires Valid() && waiter == AtGate(call)
      modifies this
      ensures Valid() && run == Extended(old(run), Event.PassGate)
      ensures done == waiter.Outside?
    {
      run := Extended(run, Event.PassGate);
      done := Decide(call);
    }

    method Decide(call: Call) returns (done: bool)
      modifies this`waiting, this`waitVersion, this`deadline, this`waiter
      ensures Model() == Check(old(Model()), call)
      ensures done == waiter.Outside?
    {
      if version != call.version || (call.deadline.Some? && now >= call.deadline.value) {
        waiter := Outside;
        return true;
      }
      waiting, waitVersion, deadline := true, call.version, call.deadline;
      waiter := Parked(call);
      return false;
    }

    method Recheck(call: Call) returns (done: bool)
      requires Valid() && waiter == Woken(call)
      modifies this
      ensures Valid() && run == Extended(old(run), Event.Recheck)
      ensures done == waiter.Outside?
    {
      run := Extended(run, Event.Recheck);
      if version != call.version || (call.deadline.Some? && now >= call.deadline.value) {
        waiting, waiter := false, Outside;
        return true;
      }
      waiter := Parked(call);
      return false;
    }

    /** What the test control's wait for a parked waiter evaluates. */
    method SeesParked(atLeast: U64, due: Option<int>) returns (b: bool)
      requires Valid()
      ensures b <==> (waiter.Parked? || waiter.Woken?) && waiter.call.version >= atLeast && waiter.call.deadline == due
    {
      WaitIsRecorded(run, |run.es|);
      b := waiting && waitVersion >= atLeast && deadline == due;
    }
  }

  // ---- the recorded wait

  /** The flag and the two fields describe the parked or woken wait exactly. */
  lemma {:induction false} WaitIsRecorded(r: Run, j: nat)
    requires IsRun(r) && j <= |r.es|
    ensures var w := r.ws[j];
            && (w.waiting <==> w.waiter.Parked? || w.waiter.Woken?)
            && (w.waiting ==> w.waiter.call == Call(w.waitVersion, w.deadline))
  {
    if j > 0 {
      WaitIsRecorded(r, j - 1);
    }
  }

  /** The gate was set at step `i` and no wait has entered since. */
  ghost predicate GateLeftFrom(r: Run, i: nat, j: nat)
    requires j <= |r.es|
  {
    i < j && r.es[i].BlockNextWait? && forall k :: i < k < j ==> !r.es[k].EnterWait?
  }

  /** A gate holds up exactly one wait: the first to enter after it was set. */
  lemma {:induction false} GateHoldsOneWait(r: Run, j: nat)
    requires IsRun(r) && j <= |r.es|
    ensures r.ws[j].gateSet <==> exists i :: 0 <= i < j && GateLeftFrom(r, i, j)
    ensures j < |r.es| && r.es[j].EnterWait? ==> (r.ws[j + 1].waiter.AtGate? <==> r.ws[j].gateSet)
  {
    if j > 0 {
      GateHoldsOneWait(r, j - 1);
      if r.es[j - 1].BlockNextWait? {
        assert GateLeftFrom(r, j - 1, j);
      } else if !r.es[j - 1].EnterWait? {
        if r.ws[j - 1].gateSet {
          var i :| 0 <= i < j - 1 && GateLeftFrom(r, i, j - 1);
          assert GateLeftFrom(r, i, j);
        }
        assert forall i :: 0 <= i < j && GateLeftFrom(r, i, j) ==> GateLeftFrom(r, i, j - 1);
      }
    }
  }

  // ---- no lost wakeup

  /** A parked waiter whose condition already holds always has a `notify_all` still to come. */
  lemma {:induction false} ReadyHasNotifier(r: Run, j: nat)
    requires IsRun(r) && j <= |r.es|
    requires r.ws[j].waiter.Parked? && Ready(r.ws[j], r.ws[j].waiter.call)
    ensures r.ws[j].notifying != {}
  {
    if j > 0 {
      var w, e := r.ws[j - 1], r.es[j - 1];
      if e.Bump? {
        assert e.who in r.ws[j].notifying;
      } else if w.waiter.Parked? {
        ReadyHasNotifier(r, j - 1);
      }
    }
  }

  /** Once every notifier has finished, a parked waiter is rightly asleep: the version is the one
      it waits on and its deadline has not come. */
  lemma QuietMeansRightlyAsleep(r: Run, j: nat)
    requires IsRun(r) && j <= |r.es|
    requires r.ws[j].waiter.Parked? && r.ws[j].notifying == {}
    ensures !Ready(r.ws[j], r.ws[j].waiter.call)
  {
    if Ready(r.ws[j], r.ws[j].waiter.call) {
      ReadyHasNotifier(r, j);
    }
  }

  /** The pending `notify_all` suffices: it and one recheck make a ready waiter return. */
  lemma ReadyWaiterCanReturn(r: Run) returns (r': Run)
    requires IsRun(r) && Last(r).waiter.Parked? && Ready(Last(r), Last(r).waiter.call)
    ensures IsRun(r') && r.es < r'.es && |r'.es| == |r.es| + 2
    ensures r'.es[|r.es|].NotifyAll? && Last(r').waiter.Outside?
  {
    ReadyHasNotifier(r, |r.es|);
    var who :| who in Last(r).notifying;
    r' := Extended(Extended(r, NotifyAll(who)), Recheck);
  }

  // ---- notifications between reading the version and the wait's decision

  /** How many bumps steps `i` to `j - 1` contain. */
  ghost function Bumps(r: Run, i: nat, j: nat): nat
    requires i <= j <= |r.es|
    decreases j - i
  {
    if i == j then 0 else Bumps(r, i, j - 1) + if r.es[j - 1].Bump? then 1 else 0
  }

  /** By how much steps `i` to `j - 1` move the clock. */
  ghost function Elapsed(r: Run, i: nat, j: nat): int
    requires i <= j <= |r.es|
    decreases j - i
  {
    if i == j then 0 else Elapsed(r, i, j - 1) + if r.es[j - 1].Bump? then r.es[j - 1].amount else 0
  }

  /** The clock is moved by what is advanced, and by nothing else; it starts at zero. */
  lemma {:induction false} ClockCountsAmounts(r: Run, i: nat, j: nat)
    requires IsRun(r) && i <= j <= |r.es|
    ensures r.ws[j].now == r.ws[i].now + Elapsed(r, i, j)
    ensures i == 0 ==> r.ws[j].now == Elapsed(r, i, j)
    decreases j - i
  {
    if i < j {
      ClockCountsAmounts(r, i, j - 1);
    }
  }

  lemma {:induction false} VersionCountsBumps(r: Run, i: nat, j: nat)
    requires IsRun(r) && i <= j <= |r.es|
    ensures r.ws[j].version == (r.ws[i].version + Bumps(r, i, j)) % U64_COUNT
    decreases j - i
  {
    if i < j {
      VersionCountsBumps(r, i, j - 1);
      IncrementIsModular(r.ws[i].version + Bumps(r, i, j - 1));
      VersionStep(r.ws[j - 1], r.es[j - 1]);
    }
  }

  lemma VersionStep(w: Wakeup, e: Event)
    requires Enabled(w, e)
    ensures Step(w, e).version == if e.Bump? then Incremented(w.version) else w.version
  {
  }

  lemma SameResidue(v: U64, n: nat)
    ensures (v + n) % U64_COUNT == v <==> n % U64_COUNT == 0
  {
    var q, m := n / U64_COUNT, n % U64_COUNT;
    assert v + n == q * U64_COUNT + (v + m);
    if v + m < U64_COUNT {
      assert (v + n) % U64_COUNT == v + m;
    } else {
      assert v + n == (q + 1) * U64_COUNT + (v + m - U64_COUNT);
      assert (v + n) % U64_COUNT == v + m - U64_COUNT;
    }
  }

  /** The version is read at moment `i` and the wait on it is decided by step `j`, on entry, after
      the gate or after a wake. It returns exactly if all that was advanced so far reaches the deadline
      or the number of notifications since the read is not a multiple of 2^64; otherwise it parks. */
  lemma DecidedByNotifications(r: Run, i: nat, j: nat)
    requires IsRun(r) && i <= j < |r.es|
    requires Deciding(r, j).Some? && Deciding(r, j).value.version == r.ws[i].version
    ensures var due := Deciding(r, j).value.deadline;
            && (r.ws[j + 1].waiter.Outside? <==>
                  Bumps(r, i, j) % U64_COUNT != 0 || (due.Some? && Elapsed(r, 0, j) >= due.value))
            && (!r.ws[j + 1].waiter.Outside? ==> r.ws[j + 1].waiter == Parked(Deciding(r, j).value))
  {
    VersionCountsBumps(r, i, j);
    ClockCountsAmounts(r, 0, j);
    SameResidue(r.ws[i].version, Bumps(r, i, j));
  }

  /** So a notification after the read is retained: with at least one and fewer than 2^64 of them,
      no decision parks, and a waiter already parked has a `notify_all` on its way. */
  lemma NotificationIsRetained(r: Run, i: nat, j: nat)
    requires IsRun(r) && i <= j <= |r.es| && 0 < Bumps(r, i, j) < U64_COUNT
    ensures j < |r.es| && Deciding(r, j).Some? && Deciding(r, j).value.version == r.ws[i].version ==>
              r.ws[j + 1].waiter.Outside?
    ensures r.ws[j].waiter.Parked? && r.ws[j].waiter.call.version == r.ws[i].version ==>
              r.ws[j].notifying != {}
  {
    assert Bumps(r, i, j) % U64_COUNT != 0;
    if j < |r.es| && Deciding(r, j).Some? && Deciding(r, j).value.version == r.ws[i].version {
      DecidedByNotifications(r, i, j);
    }
    if r.ws[j].waiter.Parked? && r.ws[j].waiter.call.version == r.ws[i].version {
      VersionCountsBumps(r, i, j);
      SameResidue(r.ws[i].version, Bumps(r, i, j));
      ReadyHasNotifier(r, j);
    }
  }

  /** `n` complete notifications, one after the other. */
  lemma {:induction false} NotifyTimes(n: nat) returns (r: Run)
    ensures IsRun(r) && |r.es| == 2 * n && Bumps(r, 0, |r.es|) == n
    ensures Last(r) == START.(version := n % U64_COUNT)
  {
    if n == 0 {
      r := Run([], [START]);
    } else {
      var before := NotifyTimes(n - 1);
      var middle := Extended(before, Bump(0, 0));
      r := Extended(middle, NotifyAll(0));
      IncrementIsModular(n - 1);
      SameBumps(before, middle, |before.es|);
      SameBumps(middle, r, |middle.es|);
      assert {0} - {0} == {};
    }
  }

  lemma {:induction false} SameBumps(r: Run, r': Run, j: nat)
    requires r.es <= r'.es && j <= |r.es|
    ensures Bumps(r, 0, j) == Bumps(r', 0, j)
  {
    if j > 0 {
      SameBumps(r, r', j - 1);
    }
  }

  /** At exactly 2^64 notifications the version is back where it was: the wait parks with nobody
      left to wake it, and every one of those notifications is lost. */
  lemma WrapLosesNotifications() returns (r: Run)
    ensures IsRun(r) && |r.es| > 0 && r.es[|r.es| - 1] == EnterWait(Call(0, None))
    ensures Bumps(r, 0, |r.es| - 1) == U64_COUNT
    ensures Last(r).waiter.Parked? && Last(r).notifying == {}
  {
    var before := NotifyTimes(U64_COUNT);
    r := Extended(before, EnterWait(Call(0, None)));
    SameBumps(before, r, |before.es|);
  }
}
