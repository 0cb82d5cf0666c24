/**
 The scan of the lock audit: lists the calls made while a scoped lock is held, following explicit unlocks
 and relocks. Call lists and block spans come from the parser, and whether a call unlocks or relocks
 a given lock from regular expressions; all three are input.
 */
module HeldLocks {
  import opened Words

  datatype Call = Call(name: string, target: string, line: int, start: int, end: int)

  datatype Lock = Lock(name: string, line: int, offset: int)

  datatype Block = Block(begin: int, end: int)

  datatype Toggle = NoToggle | Unlocks | Relocks

  datatype Report = Report(lockName: string, lockLine: int, callName: string, target: string, callLine: int)

  // ---- the innermost block around a lock

  predicate Encloses(b: Block, offset: int) {
    b.begin <= offset < b.end
  }

  function Length(b: Block): int {
    b.end - b.begin
  }

  /** The first shortest block around the offset. */
  function Innermost(blocks: seq<Block>, offset: int): (r: Option<Block>)
    ensures r.None? <==> forall b :: b in blocks ==> !(b.begin <= offset < b.end)
    ensures r.Some? ==> r.value in blocks && r.value.begin <= offset < r.value.end
    ensures r.Some? ==> forall b :: b in blocks && b.begin <= offset < b.end ==>
                                      r.value.end - r.value.begin <= b.end - b.begin
  {
    if blocks == [] then None
    else
      assert blocks == [blocks[0]] + blocks[1..];
      var rest := Innermost(blocks[1..], offset);
      if Encloses(blocks[0], offset) && (rest.None? || Length(blocks[0]) <= Length(rest.value)) then Some(blocks[0])
      else rest
  }

  /** Among equally short blocks it is the first one listed. */
  lemma {:induction false} InnermostIsFirst(blocks: seq<Block>, offset: int) returns (i: nat)
    requires Innermost(blocks, offset).Some?
    ensures i < |blocks| && Innermost(blocks, offset) == Some(blocks[i])
    ensures forall j :: 0 <= j < i && Encloses(blocks[j], offset) ==> Length(blocks[i]) < Length(blocks[j])
  {
    if Innermost(blocks, offset) == Some(blocks[0]) {
      i := 0;
    } else {
      i := InnermostIsFirst(blocks[1..], offset);
      i := i + 1;
    }
  }

  // ---- calls in source order

  function Insert(c: Call, sorted: seq<Call>): seq<Call> {
    if sorted == [] || c.start <= sorted[0].start then [c] + sorted
    else [sorted[0]] + Insert(c, sorted[1..])
  }

  /** A stable sort by start offset. */
  function SortByStart(calls: seq<Call>): seq<Call> {
    if calls == [] then [] else Insert(calls[0], SortByStart(calls[1..]))
  }

  ghost predicate InOrder(calls: seq<Call>) {
    forall i, j :: 0 <= i < j < |calls| ==> calls[i].start <= calls[j].start
  }

  /** The calls that start at a given offset, in the order listed. */
  ghost function StartingAt(calls: seq<Call>, offset: int): seq<Call> {
    if calls == [] then []
    else (if calls[0].start == offset then [calls[0]] else []) + StartingAt(calls[1..], offset)
  }

  lemma {:induction false} InsertKeepsOrder(c: Call, sorted: seq<Call>)
    requires InOrder(sorted)
    ensures InOrder(Insert(c, sorted)) && |Insert(c, sorted)| == |sorted| + 1
    ensures forall j :: 0 <= j <= |sorted| ==> Insert(c, sorted)[j] == c || Insert(c, sorted)[j] in sorted
  {
    if sorted != [] && sorted[0].start < c.start {
      InsertKeepsOrder(c, sorted[1..]);
      var rest := Insert(c, sorted[1..]);
      forall j | 0 <= j < |rest| ensures sorted[0].start <= rest[j].start {
        assert rest[j] == c || rest[j] in sorted[1..];
      }
    }
  }

  lemma {:induction false} InsertIsStable(c: Call, sorted: seq<Call>, offset: int)
    requires InOrder(sorted)
    ensures StartingAt(Insert(c, sorted), offset) == StartingAt([c] + sorted, offset)
  {
    assert ([c] + sorted)[1..] == sorted;
    if sorted != [] && sorted[0].start < c.start {
      InsertIsStable(c, sorted[1..], offset);
      var rest := Insert(c, sorted[1..]);
      assert ([sorted[0]] + rest)[1..] == rest;
      assert ([c] + sorted[1..])[1..] == sorted[1..];
    }
  }

  /** Sorting orders the calls and, for each offset, keeps the calls there and their order. */
  lemma {:induction false} SortIsStable(calls: seq<Call>, offset: int)
    ensures InOrder(SortByStart(calls)) && |SortByStart(calls)| == |calls|
    ensures StartingAt(SortByStart(calls), offset) == StartingAt(calls, offset)
  {
    if calls != [] {
      SortIsStable(calls[1..], offset);
      var sorted := SortByStart(calls[1..]);
      InsertKeepsOrder(calls[0], sorted);
      InsertIsStable(calls[0], sorted, offset);
      assert ([calls[0]] + sorted)[1..] == sorted;
    }
  }

  // ---- what is held

  predicate InScope(c: Call, lock: Lock, scopeEnd: int) {
    lock.offset < c.start < scopeEnd
  }

  /** The lock is held just before call `k`: every unlock of it so far was followed by a relock. */
  ghost predicate HeldBefore(calls: seq<Call>, k: nat, lock: Lock, scopeEnd: int, toggle: (string, Call) -> Toggle)
    requires k <= |calls|
  {
    forall u :: 0 <= u < k && InScope(calls[u], lock, scopeEnd) && toggle(lock.name, calls[u]) == Unlocks ==>
                  exists l :: u < l < k && InScope(calls[l], lock, scopeEnd) && toggle(lock.name, calls[l]) == Relocks
  }

  ghost predicate Reported(calls: seq<Call>, k: nat, lock: Lock, scopeEnd: int, toggle: (string, Call) -> Toggle)
    requires k < |calls|
  {
    InScope(calls[k], lock, scopeEnd) && toggle(lock.name, calls[k]) == NoToggle
    && HeldBefore(calls, k, lock, scopeEnd, toggle)
  }

  function ReportOf(lock: Lock, c: Call): Report {
    Report(lock.name, lock.line, c.name, c.target, c.line)
  }

  /** The reports for one lock among the first `k` calls. */
  ghost function ReportsUpTo(calls: seq<Call>, k: nat, lock: Lock, scopeEnd: int, toggle: (string, Call) -> Toggle)
    : seq<Report>
    requires k <= |calls|
  {
    if k == 0 then []
    else
      ReportsUpTo(calls, k - 1, lock, scopeEnd, toggle)
      + if Reported(calls, k - 1, lock, scopeEnd, toggle) then [ReportOf(lock, calls[k - 1])] else []
  }

  /** All reports for one lock: none if no block encloses it. */
  ghost function ReportsFor(lock: Lock, blocks: seq<Block>, calls: seq<Call>, toggle: (string, Call) -> Toggle)
    : seq<Report>
  {
    var scope := Innermost(blocks, lock.offset);
    var sorted := SortByStart(calls);
    if scope.None? then [] else ReportsUpTo(sorted, |sorted|, lock, scope.value.end, toggle)
  }

  ghost function ReportsForAll(locks: seq<Lock>, blocks: seq<Block>, calls: seq<Call>, toggle: (string, Call) -> Toggle)
    : seq<Report>
  {
    if locks == [] then []
    else ReportsForAll(locks[..|locks| - 1], blocks, calls, toggle)
         + ReportsFor(locks[|locks| - 1], blocks, calls, toggle)
  }

  // ---- the scan

  /** The flag that the scan carries through the calls of one scope. */
  method ScanScope(sorted: seq<Call>, lock: Lock, scopeEnd: int, toggle: (string, Call) -> Toggle)
    returns (reports: seq<Report>)
    ensures reports == ReportsUpTo(sorted, |sorted|, lock, scopeEnd, toggle)
  {
    reports := [];
    var held := true;
    for k := 0 to |sorted|
      invariant held <==> HeldBefore(sorted, k, lock, scopeEnd, toggle)
      invariant reports == ReportsUpTo(sorted, k, lock, scopeEnd, toggle)
    {
      HeldStep(sorted, k, lock, scopeEnd, toggle);
      var c := sorted[k];
      if !(lock.offset < c.start < scopeEnd) {
        continue;
      }
      if toggle(lock.name, c) == Unlocks {
        held := false;
      } else if toggle(lock.name, c) == Relocks {
        held := true;
      } else if held {
        reports := reports + [ReportOf(lock, c)];
      }
    }
  }

  lemma HeldStep(calls: seq<Call>, k: nat, lock: Lock, scopeEnd: int, toggle: (string, Call) -> Toggle)
    requires k < |calls|
    ensures HeldBefore(calls, k + 1, lock, scopeEnd, toggle) <==>
            if !InScope(calls[k], lock, scopeEnd) || toggle(lock.name, calls[k]) == NoToggle
            then HeldBefore(calls, k, lock, scopeEnd, toggle)
            else toggle(lock.name, calls[k]) == Relocks
  {
    var here := InScope(calls[k], lock, scopeEnd);
    var t := toggle(lock.name, calls[k]);
    if here && t == Relocks {
      assert HeldBefore(calls, k + 1, lock, scopeEnd, toggle);
    } else if !(here && t == Unlocks) && HeldBefore(calls, k + 1, lock, scopeEnd, toggle) {
      forall u | 0 <= u < k && InScope(calls[u], lock, scopeEnd) && toggle(lock.name, calls[u]) == Unlocks
        ensures exists l :: u < l < k && InScope(calls[l], lock, scopeEnd) && toggle(lock.name, calls[l]) == Relocks
      {
        var l :| u < l < k + 1 && InScope(calls[l], lock, scopeEnd) && toggle(lock.name, calls[l]) == Relocks;
        assert l != k;
      }
    }
  }

  /** The guarded calls of one function. The result is the concatenation, lock by lock, of what each
      lock reports on its own, so no lock influences another. */
  method GuardedCalls(locks: seq<Lock>, blocks: seq<Block>, calls: seq<Call>, toggle: (string, Call) -> Toggle)
    returns (guarded: seq<Report>)
    ensures guarded == ReportsForAll(locks, blocks, calls, toggle)
  {
    guarded := [];
    for i := 0 to |locks|
      invariant guarded == ReportsForAll(locks[..i], blocks, calls, toggle)
    {
      assert locks[..i + 1][..i] == locks[..i];
      var scope := Innermost(blocks, locks[i].offset);
      if scope.None? {
        continue;
      }
      var reports := ScanScope(SortByStart(calls), locks[i], scope.value.end, toggle);
      guarded := guarded + reports;
    }
    assert locks[..|locks|] == locks;
  }

  /** The positions of the calls reported for one lock. */
  ghost function ReportedAt(calls: seq<Call>, k: nat, lock: Lock, scopeEnd: int, toggle: (string, Call) -> Toggle)
    : seq<nat>
    requires k <= |calls|
  {
    if k == 0 then []
    else
      ReportedAt(calls, k - 1, lock, scopeEnd, toggle)
      + if Reported(calls, k - 1, lock, scopeEnd, toggle) then [k - 1] else []
  }

  /** They are exactly the reported calls, each once and in source order. */
  lemma {:induction false} ReportedAtIsExact(
    calls: seq<Call>, k: nat, lock: Lock, scopeEnd: int, toggle: (string, Call) -> Toggle, n: nat)
    requires k <= |calls|
    ensures n in ReportedAt(calls, k, lock, scopeEnd, toggle) <==>
            n < k && Reported(calls, n, lock, scopeEnd, toggle)
  {
    if k > 0 {
      ReportedAtIsExact(calls, k - 1, lock, scopeEnd, toggle, n);
    }
  }

  lemma {:induction false} ReportedAtAscends(
    calls: seq<Call>, k: nat, lock: Lock, scopeEnd: int, toggle: (string, Call) -> Toggle, i: nat)
    requires k <= |calls| && i < |ReportedAt(calls, k, lock, scopeEnd, toggle)|
    ensures var at := ReportedAt(calls, k, lock, scopeEnd, toggle);
            at[i] < k && (i + 1 < |at| ==> at[i] < at[i + 1])
  {
    if i < |ReportedAt(calls, k - 1, lock, scopeEnd, toggle)| {
      ReportedAtAscends(calls, k - 1, lock, scopeEnd, toggle, i);
    }
  }

  /** And the reports are theirs, in that order. */
  lemma {:induction false} ReportsAreReportedCalls(
    calls: seq<Call>, k: nat, lock: Lock, scopeEnd: int, toggle: (string, Call) -> Toggle, i: nat)
    requires k <= |calls|
    ensures |ReportsUpTo(calls, k, lock, scopeEnd, toggle)| == |ReportedAt(calls, k, lock, scopeEnd, toggle)|
    ensures i < |ReportedAt(calls, k, lock, scopeEnd, toggle)| ==>
              var n := ReportedAt(calls, k, lock, scopeEnd, toggle)[i];
              n < |calls| && ReportsUpTo(calls, k, lock, scopeEnd, toggle)[i] == ReportOf(lock, calls[n])
  {
    if k > 0 {
      ReportsAreReportedCalls(calls, k - 1, lock, scopeEnd, toggle, i);
    }
  }

  /** What holding a lock means step by step: the last unlock or relock in scope decides. */
  lemma {:induction false} LastToggleDecides(
    calls: seq<Call>, k: nat, last: nat, lock: Lock, scopeEnd: int, toggle: (string, Call) -> Toggle)
    requires last < k <= |calls| && InScope(calls[last], lock, scopeEnd) && toggle(lock.name, calls[last]) != NoToggle
    requires forall n :: last < n < k && InScope(calls[n], lock, scopeEnd) ==> toggle(lock.name, calls[n]) == NoToggle
    ensures HeldBefore(calls, k, lock, scopeEnd, toggle) <==> toggle(lock.name, calls[last]) == Relocks
  {
    HeldStep(calls, k - 1, lock, scopeEnd, toggle);
    if last < k - 1 {
      LastToggleDecides(calls, k - 1, last, lock, scopeEnd, toggle);
    }
  }

  // ---- the reports in terms of the calls as listed

  /** Source order of the listed calls: by offset, and at one offset as listed. */
  ghost predicate Before(calls: seq<Call>, a: nat, b: nat) {
    && a < |calls| && b < |calls|
    && (calls[a].start < calls[b].start || (calls[a].start == calls[b].start && a < b))
  }

  /** `p` lists the positions of the calls in source order, and `sorted` the calls themselves. */
  ghost predicate Arranges(p: seq<nat>, sorted: seq<Call>, calls: seq<Call>) {
    && |p| == |sorted| == |calls|
    && (forall k :: 0 <= k < |p| ==> p[k] < |calls| && sorted[k] == calls[p[k]])
    && (forall k, l :: 0 <= k < l < |p| ==> Before(calls, p[k], p[l]))
    && (forall n: nat :: n < |calls| ==> n in p)
  }

  lemma {:induction false} InsertPlaces(c: Call, sorted: seq<Call>) returns (t: nat)
    requires InOrder(sorted)
    ensures t <= |sorted| && Insert(c, sorted) == sorted[..t] + [c] + sorted[t..]
    ensures forall k :: 0 <= k < t ==> sorted[k].start < c.start
    ensures forall k :: t <= k < |sorted| ==> c.start <= sorted[k].start
  {
    if sorted == [] || c.start <= sorted[0].start {
      t := 0;
    } else {
      var u := InsertPlaces(c, sorted[1..]);
      t := u + 1;
      assert sorted[1..][..u] == sorted[1..t] && sorted[1..][u..] == sorted[t..];
      assert sorted[..t] == [sorted[0]] + sorted[1..t];
      forall k | 0 <= k < t ensures sorted[k].start < c.start {
        if k > 0 {
          assert sorted[1..][k - 1] == sorted[k];
        }
      }
      forall k | t <= k < |sorted| ensures c.start <= sorted[k].start {
        assert sorted[1..][k - 1] == sorted[k];
      }
    }
  }

  /** The arrangement of one more call, listed first and put at place `t`. */
  ghost function Placed(p: seq<nat>, t: nat): seq<nat>
    requires t <= |p|
  {
    seq(|p| + 1, k requires 0 <= k <= |p| => if k < t then p[k] + 1 else if k == t then 0 else p[k - 1] + 1)
  }

  lemma PlacedListsAll(p: seq<nat>, t: nat, count: nat)
    requires t <= |p| && forall n: nat :: n < count ==> n in p
    ensures forall n: nat :: n < count + 1 ==> n in Placed(p, t)
  {
    forall n: nat | n < count + 1 ensures n in Placed(p, t) {
      if n == 0 {
        assert Placed(p, t)[t] == 0;
      } else {
        assert n - 1 in p;
        var k :| 0 <= k < |p| && p[k] == n - 1;
        assert Placed(p, t)[if k < t then k else k + 1] == n;
      }
    }
  }

  lemma PlacedKeepsOrder(p: seq<nat>, t: nat, sorted: seq<Call>, calls: seq<Call>)
    requires calls != [] && Arranges(p, sorted, calls[1..]) && t <= |p|
    requires forall k :: 0 <= k < t ==> sorted[k].start < calls[0].start
    requires forall k :: t <= k < |sorted| ==> calls[0].start <= sorted[k].start
    ensures forall k, l :: 0 <= k < l <= |p| ==> Before(calls, Placed(p, t)[k], Placed(p, t)[l])
  {
    assert forall k :: 0 <= k < |p| ==> calls[1..][p[k]] == calls[p[k] + 1] == sorted[k];
    forall k, l | 0 <= k < l <= |p| ensures Before(calls, Placed(p, t)[k], Placed(p, t)[l]) {
      if k != t && l != t {
        assert Before(calls[1..], p[if k < t then k else k - 1], p[if l < t then l else l - 1]);
      }
    }
  }

  lemma {:induction false} SortArranges(calls: seq<Call>) returns (p: seq<nat>)
    ensures Arranges(p, SortByStart(calls), calls)
  {
    if calls == [] {
      p := [];
    } else {
      var sorted := SortByStart(calls[1..]);
      var rest := SortArranges(calls[1..]);
      SortIsStable(calls[1..], 0);
      var t := InsertPlaces(calls[0], sorted);
      p := Placed(rest, t);
      PlacedListsAll(rest, t, |calls| - 1);
      PlacedKeepsOrder(rest, t, sorted, calls);
      PlacedMatches(rest, t, sorted, calls);
    }
  }

  lemma PlacedMatches(p: seq<nat>, t: nat, sorted: seq<Call>, calls: seq<Call>)
    requires calls != [] && Arranges(p, sorted, calls[1..]) && t <= |p|
    ensures forall k :: 0 <= k <= |p| ==> Placed(p, t)[k] < |calls|
                                          && (sorted[..t] + [calls[0]] + sorted[t..])[k] == calls[Placed(p, t)[k]]
  {
    assert forall k :: 0 <= k < |p| ==> calls[1..][p[k]] == calls[p[k] + 1] == sorted[k];
  }

  /** The call is made in scope with the lock held: it is no toggle, and every unlock before it was
      followed by a relock before it. */
  ghost predicate HeldCall(calls: seq<Call>, n: nat, lock: Lock, scopeEnd: int, toggle: (string, Call) -> Toggle) {
    && n < |calls| && lock.offset < calls[n].start < scopeEnd && toggle(lock.name, calls[n]) == NoToggle
    && forall u: nat ::
         (Before(calls, u, n) && InScope(calls[u], lock, scopeEnd) && toggle(lock.name, calls[u]) == Unlocks) ==>
           RelockedBetween(calls, u, n, lock, scopeEnd, toggle)
  }

  ghost predicate RelockedBetween(
    calls: seq<Call>, u: nat, n: nat, lock: Lock, scopeEnd: int, toggle: (string, Call) -> Toggle)
  {
    exists l: nat :: Before(calls, u, l) && Before(calls, l, n)
                     && InScope(calls[l], lock, scopeEnd) && toggle(lock.name, calls[l]) == Relocks
  }

  lemma ArrangedOrder(p: seq<nat>, sorted: seq<Call>, calls: seq<Call>, k: nat, l: nat)
    requires Arranges(p, sorted, calls) && k < |p| && l < |p|
    ensures Before(calls, p[k], p[l]) <==> k < l
  {
    if l < k {
      assert Before(calls, p[l], p[k]);
    }
  }

  lemma RelockedIff(p: seq<nat>, sorted: seq<Call>, calls: seq<Call>, u: nat, k: nat, lock: Lock, scopeEnd: int,
                    toggle: (string, Call) -> Toggle)
    requires Arranges(p, sorted, calls) && u < k < |p|
    ensures RelockedBetween(calls, p[u], p[k], lock, scopeEnd, toggle) <==>
            exists l :: u < l < k && InScope(sorted[l], lock, scopeEnd) && toggle(lock.name, sorted[l]) == Relocks
  {
    if RelockedBetween(calls, p[u], p[k], lock, scopeEnd, toggle) {
      var n: nat :| Before(calls, p[u], n) && Before(calls, n, p[k])
                    && InScope(calls[n], lock, scopeEnd) && toggle(lock.name, calls[n]) == Relocks;
      assert n in p;
      var l :| 0 <= l < |p| && p[l] == n;
      ArrangedOrder(p, sorted, calls, u, l);
      ArrangedOrder(p, sorted, calls, l, k);
    }
    if l :| u < l < k && InScope(sorted[l], lock, scopeEnd) && toggle(lock.name, sorted[l]) == Relocks {
      ArrangedOrder(p, sorted, calls, u, l);
      ArrangedOrder(p, sorted, calls, l, k);
    }
  }

  lemma ReportedIffHeld(p: seq<nat>, sorted: seq<Call>, calls: seq<Call>, k: nat, lock: Lock, scopeEnd: int,
                        toggle: (string, Call) -> Toggle)
    requires Arranges(p, sorted, calls) && k < |p|
    ensures Reported(sorted, k, lock, scopeEnd, toggle) <==> HeldCall(calls, p[k], lock, scopeEnd, toggle)
  {
    if Reported(sorted, k, lock, scopeEnd, toggle) {
      forall n: nat | Before(calls, n, p[k]) && InScope(calls[n], lock, scopeEnd)
                      && toggle(lock.name, calls[n]) == Unlocks
        ensures RelockedBetween(calls, n, p[k], lock, scopeEnd, toggle)
      {
        assert n in p;
        var u :| 0 <= u < |p| && p[u] == n;
        ArrangedOrder(p, sorted, calls, u, k);
        RelockedIff(p, sorted, calls, u, k, lock, scopeEnd, toggle);
      }
    }
    if HeldCall(calls, p[k], lock, scopeEnd, toggle) {
      forall u | 0 <= u < k && InScope(sorted[u], lock, scopeEnd) && toggle(lock.name, sorted[u]) == Unlocks
        ensures exists l :: u < l < k && InScope(sorted[l], lock, scopeEnd) && toggle(lock.name, sorted[l]) == Relocks
      {
        ArrangedOrder(p, sorted, calls, u, k);
        RelockedIff(p, sorted, calls, u, k, lock, scopeEnd, toggle);
      }
    }
  }

  /** What is reported for one lock, in terms of the calls as listed: exactly the calls made in its innermost
      block with the lock held, in source order, each with the fields of the lock and of the call. */
  ghost predicate ReportsThese(
    reports: seq<Report>, at: seq<nat>, calls: seq<Call>, lock: Lock, scope: Option<Block>,
    toggle: (string, Call) -> Toggle)
  {
    && |reports| == |at|
    && (forall i :: 0 <= i < |at| ==> at[i] < |calls| && reports[i].lockName == lock.name
                                      && reports[i].lockLine == lock.line && reports[i].callName == calls[at[i]].name
                                      && reports[i].target == calls[at[i]].target
                                      && reports[i].callLine == calls[at[i]].line)
    && (forall i, j :: 0 <= i < j < |at| ==> Before(calls, at[i], at[j]))
    && (forall n: nat :: n in at <==> scope.Some? && HeldCall(calls, n, lock, scope.value.end, toggle))
  }

  lemma {:induction false} AscendsThroughout(
    calls: seq<Call>, lock: Lock, scopeEnd: int, toggle: (string, Call) -> Toggle, i: nat, j: nat)
    requires i < j < |ReportedAt(calls, |calls|, lock, scopeEnd, toggle)|
    ensures var at := ReportedAt(calls, |calls|, lock, scopeEnd, toggle); at[i] < at[j]
    decreases j - i
  {
    ReportedAtAscends(calls, |calls|, lock, scopeEnd, toggle, i);
    if i + 1 < j {
      AscendsThroughout(calls, lock, scopeEnd, toggle, i + 1, j);
    }
  }

  /** Positions in the arrangement, as positions of the calls listed. */
  ghost function Through(p: seq<nat>, ks: seq<nat>): seq<nat>
    requires forall i :: 0 <= i < |ks| ==> ks[i] < |p|
  {
    seq(|ks|, i requires 0 <= i < |ks| => p[ks[i]])
  }

  lemma InThrough(p: seq<nat>, sorted: seq<Call>, calls: seq<Call>, lock: Lock, scopeEnd: int,
                  toggle: (string, Call) -> Toggle, ks: seq<nat>, n: nat)
    requires Arranges(p, sorted, calls) && ks == ReportedAt(sorted, |sorted|, lock, scopeEnd, toggle)
    requires forall i :: 0 <= i < |ks| ==> ks[i] < |p|
    ensures n in Through(p, ks) <==> HeldCall(calls, n, lock, scopeEnd, toggle)
  {
    if n in Through(p, ks) {
      var i :| 0 <= i < |ks| && Through(p, ks)[i] == n;
      assert ks[i] in ks;
      ReportedAtIsExact(sorted, |sorted|, lock, scopeEnd, toggle, ks[i]);
      ReportedIffHeld(p, sorted, calls, ks[i], lock, scopeEnd, toggle);
    }
    if HeldCall(calls, n, lock, scopeEnd, toggle) {
      assert n in p;
      var k :| 0 <= k < |p| && p[k] == n;
      ReportedIffHeld(p, sorted, calls, k, lock, scopeEnd, toggle);
      ReportedAtIsExact(sorted, |sorted|, lock, scopeEnd, toggle, k);
      var i :| 0 <= i < |ks| && ks[i] == k;
      assert Through(p, ks)[i] == n;
    }
  }

  /** The reports for a lock are exactly those of the calls made while it is held. */
  lemma ReportsAreExact(lock: Lock, blocks: seq<Block>, calls: seq<Call>, toggle: (string, Call) -> Toggle)
    returns (at: seq<nat>)
    ensures ReportsThese(ReportsFor(lock, blocks, calls, toggle), at, calls, lock, Innermost(blocks, lock.offset),
                         toggle)
  {
    var scope := Innermost(blocks, lock.offset);
    at := [];
    if scope.Some? {
      var end, sorted := scope.value.end, SortByStart(calls);
      var p := SortArranges(calls);
      var ks := ReportedAt(sorted, |sorted|, lock, end, toggle);
      forall i | 0 <= i < |ks| ensures ks[i] < |sorted| {
        ReportedAtAscends(sorted, |sorted|, lock, end, toggle, i);
      }
      at := Through(p, ks);
      ReportsAreReportedCalls(sorted, |sorted|, lock, end, toggle, 0);
      forall i | 0 <= i < |at|
        ensures ReportsFor(lock, blocks, calls, toggle)[i] == ReportOf(lock, calls[at[i]])
      {
        ReportsAreReportedCalls(sorted, |sorted|, lock, end, toggle, i);
      }
      forall i, j | 0 <= i < j < |at| ensures Before(calls, at[i], at[j]) {
        AscendsThroughout(sorted, lock, end, toggle, i, j);
        ArrangedOrder(p, sorted, calls, ks[i], ks[j]);
      }
      forall n: nat ensures n in at <==> HeldCall(calls, n, lock, end, toggle) {
        InThrough(p, sorted, calls, lock, end, toggle, ks, n);
      }
    }
  }

  lemma OneLockMore(locks: seq<Lock>, lock: Lock, blocks: seq<Block>, calls: seq<Call>,
                    toggle: (string, Call) -> Toggle)
    ensures ReportsForAll(locks + [lock], blocks, calls, toggle) ==
            ReportsForAll(locks, blocks, calls, toggle) + ReportsFor(lock, blocks, calls, toggle)
  {
    assert (locks + [lock])[..|locks|] == locks;
  }

  /** Locks are independent: the reports for two lists of locks are those for the one followed by those
      for the other. */
  lemma {:induction false} LocksAreIndependent(
    a: seq<Lock>, b: seq<Lock>, blocks: seq<Block>, calls: seq<Call>, toggle: (string, Call) -> Toggle)
    ensures ReportsForAll(a + b, blocks, calls, toggle) ==
            ReportsForAll(a, blocks, calls, toggle) + ReportsForAll(b, blocks, calls, toggle)
    decreases |b|
  {
    if b == [] {
      assert a + b == a;
    } else {
      var init, last := b[..|b| - 1], b[|b| - 1];
      assert a + b == a + init + [last] && b == init + [last];
      calc {
        ReportsForAll(a + b, blocks, calls, toggle);
        { OneLockMore(a + init, last, blocks, calls, toggle); }
        ReportsForAll(a + init, blocks, calls, toggle) + ReportsFor(last, blocks, calls, toggle);
        { LocksAreIndependent(a, init, blocks, calls, toggle); }
        ReportsForAll(a, blocks, calls, toggle) + ReportsForAll(init, blocks, calls, toggle)
        + ReportsFor(last, blocks, calls, toggle);
        { Associates(ReportsForAll(a, blocks, calls, toggle), ReportsForAll(init, blocks, calls, toggle),
                     ReportsFor(last, blocks, calls, toggle)); }
        ReportsForAll(a, blocks, calls, toggle)
        + (ReportsForAll(init, blocks, calls, toggle) + ReportsFor(last, blocks, calls, toggle));
        { OneLockMore(init, last, blocks, calls, toggle); }
        ReportsForAll(a, blocks, calls, toggle) + ReportsForAll(b, blocks, calls, toggle);
      }
    }
  }

  /** A single lock's reports are its own. */
  lemma SingleLock(lock: Lock, blocks: seq<Block>, calls: seq<Call>, toggle: (string, Call) -> Toggle)
    ensures ReportsForAll([lock], blocks, calls, toggle) == ReportsFor(lock, blocks, calls, toggle)
  {
    assert [] + [lock] == [lock];
    OneLockMore([], lock, blocks, calls, toggle);
  }
}
