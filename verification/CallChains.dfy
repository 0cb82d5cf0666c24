/**
 The search of the lock audit: lists the call chains from a call to a sink, bounded in length and never
 through the same function twice. The call lists of the definitions, and whether a name is a sink,
 come from the parser and are input.
 */
module CallChains {

  type Usr = string

  datatype Call = Call(target: Usr, name: string)

  type Definitions = map<Usr, seq<Call>>

  /** A chain of calls and the call sites that lead from each to the next. */
  datatype Chain = Chain(sites: seq<nat>, calls: seq<Call>)

  ghost predicate Follows(defs: Definitions, c: Chain, k: nat)
    requires |c.calls| == |c.sites| + 1 && k < |c.sites|
  {
    && c.calls[k].target in defs
    && c.sites[k] < |defs[c.calls[k].target]|
    && c.calls[k + 1] == defs[c.calls[k].target][c.sites[k]]
  }

  /** From `start`, through defined functions, all different and none in `seen`, to a callee
      without a definition whose name is a sink. */
  ghost predicate IsAcyclicChain(defs: Definitions, sink: string -> bool, start: Call, seen: set<Usr>, c: Chain) {
    && |c.calls| == |c.sites| + 1
    && c.calls[0] == start
    && (forall k :: 0 <= k < |c.sites| ==> Follows(defs, c, k))
    && (forall k :: 0 <= k < |c.calls| ==> c.calls[k].target !in seen)
    && (forall i, k :: 0 <= i < k < |c.calls| ==> c.calls[i].target != c.calls[k].target)
    && c.calls[|c.sites|].target !in defs
    && sink(c.calls[|c.sites|].name)
  }

  /** As above, with at most `depth` calls. */
  ghost predicate IsChain(defs: Definitions, sink: string -> bool, start: Call, seen: set<Usr>, depth: nat, c: Chain) {
    IsAcyclicChain(defs, sink, start, seen, c) && |c.calls| <= depth
  }

  function Prefixed(start: Call, site: nat, c: Chain): Chain {
    Chain([site] + c.sites, [start] + c.calls)
  }

  function AllPrefixed(start: Call, site: nat, cs: seq<Chain>): (r: seq<Chain>)
    ensures |r| == |cs| && forall i :: 0 <= i < |cs| ==> r[i] == Prefixed(start, site, cs[i])
  {
    seq(|cs|, i requires 0 <= i < |cs| => Prefixed(start, site, cs[i]))
  }

  /** The chains in the order in which the search meets them. */
  function Chains(defs: Definitions, sink: string -> bool, start: Call, seen: set<Usr>, depth: nat): seq<Chain>
    decreases depth, 1, 0
  {
    if depth == 0 || start.target in seen then []
    else if start.target !in defs then if sink(start.name) then [Chain([], [start])] else []
    else ChainsFromSite(defs, sink, start, seen, depth, 0)
  }

  function ChainsFromSite(defs: Definitions, sink: string -> bool, start: Call, seen: set<Usr>, depth: nat, site: nat)
    : seq<Chain>
    requires depth > 0 && start.target in defs && site <= |defs[start.target]|
    decreases depth, 0, |defs[start.target]| - site
  {
    if site == |defs[start.target]| then []
    else
      AllPrefixed(start, site, Chains(defs, sink, defs[start.target][site], seen + {start.target}, depth - 1))
      + ChainsFromSite(defs, sink, start, seen, depth, site + 1)
  }

  function Names(c: Chain): seq<string> {
    seq(|c.calls|, i requires 0 <= i < |c.calls| => c.calls[i].name)
  }

  function AllNames(cs: seq<Chain>): (r: seq<seq<string>>)
    ensures |r| == |cs| && forall i :: 0 <= i < |cs| ==> r[i] == Names(cs[i])
  {
    seq(|cs|, i requires 0 <= i < |cs| => Names(cs[i]))
  }

  /** The recursive search. Its result is the names along the chains, one entry per chain. */
  method FindPaths(defs: Definitions, sink: string -> bool, target: Usr, name: string, seen: set<Usr>, depth: nat)
    returns (result: seq<seq<string>>)
    ensures result == AllNames(Chains(defs, sink, Call(target, name), seen, depth))
    decreases depth
  {
    if depth == 0 || target in seen {
      return [];
    }
    if target !in defs {
      assert Names(Chain([], [Call(target, name)])) == [name];
      return if sink(name) then [[name]] else [];
    }
    result := [];
    ghost var start := Call(target, name);
    for site := 0 to |defs[target]|
      invariant result + AllNames(ChainsFromSite(defs, sink, start, seen, depth, site))
             == AllNames(ChainsFromSite(defs, sink, start, seen, depth, 0))
    {
      var next := defs[target][site];
      var suffixes := FindPaths(defs, sink, next.target, next.name, seen + {target}, depth - 1);
      var found := Prepend(name, suffixes);
      NamesFromSite(defs, sink, start, seen, depth, site);
      result := result + found;
    }
  }

  function Prepended(name: string, suffixes: seq<seq<string>>): (r: seq<seq<string>>)
    ensures |r| == |suffixes|
  {
    seq(|suffixes|, i requires 0 <= i < |suffixes| => [name] + suffixes[i])
  }

  method Prepend(name: string, suffixes: seq<seq<string>>) returns (result: seq<seq<string>>)
    ensures result == Prepended(name, suffixes)
  {
    result := [];
    for i := 0 to |suffixes|
      invariant |result| == i && forall k :: 0 <= k < i ==> result[k] == [name] + suffixes[k]
    {
      result := result + [[name] + suffixes[i]];
    }
  }

  lemma NamesOfPrefixed(start: Call, site: nat, cs: seq<Chain>)
    ensures AllNames(AllPrefixed(start, site, cs)) == Prepended(start.name, AllNames(cs))
  {
    forall i | 0 <= i < |cs| ensures Names(Prefixed(start, site, cs[i])) == [start.name] + Names(cs[i]) {
    }
  }

  /** An entry of the result gives the name of each call along its chain. */
  lemma NamesAlong(cs: seq<Chain>, i: nat, k: nat)
    requires i < |cs| && k < |cs[i].calls|
    ensures |AllNames(cs)[i]| == |cs[i].calls| && AllNames(cs)[i][k] == cs[i].calls[k].name
  {
  }

  lemma NamesConcatenate(cs: seq<Chain>, ds: seq<Chain>)
    ensures AllNames(cs + ds) == AllNames(cs) + AllNames(ds)
  {
  }

  lemma NamesFromSite(defs: Definitions, sink: string -> bool, start: Call, seen: set<Usr>, depth: nat, site: nat)
    requires depth > 0 && start.target in defs && site < |defs[start.target]|
    ensures AllNames(ChainsFromSite(defs, sink, start, seen, depth, site)) ==
            Prepended(start.name,
                      AllNames(Chains(defs, sink, defs[start.target][site], seen + {start.target}, depth - 1)))
            + AllNames(ChainsFromSite(defs, sink, start, seen, depth, site + 1))
  {
    var found := Chains(defs, sink, defs[start.target][site], seen + {start.target}, depth - 1);
    NamesOfPrefixed(start, site, found);
    NamesConcatenate(AllPrefixed(start, site, found), ChainsFromSite(defs, sink, start, seen, depth, site + 1));
  }

  // ---- exactly the chains

  lemma ChainExtends(defs: Definitions, sink: string -> bool, start: Call, seen: set<Usr>, depth: nat, site: nat,
                     c: Chain)
    requires depth > 0 && start.target in defs && start.target !in seen && site < |defs[start.target]|
    requires IsChain(defs, sink, defs[start.target][site], seen + {start.target}, depth - 1, c)
    ensures IsChain(defs, sink, start, seen, depth, Prefixed(start, site, c))
  {
    var p := Prefixed(start, site, c);
    assert forall k :: 0 < k < |p.calls| ==> p.calls[k] == c.calls[k - 1];
    forall k | 0 <= k < |p.sites| ensures Follows(defs, p, k) {
      if k > 0 {
        assert Follows(defs, c, k - 1);
      }
    }
    forall k | 0 < k < |p.calls| ensures p.calls[k].target !in seen && p.calls[k].target != start.target {
      assert c.calls[k - 1].target !in seen + {start.target};
    }
  }

  lemma ChainShortens(defs: Definitions, sink: string -> bool, start: Call, seen: set<Usr>, depth: nat, site: nat,
                      c: Chain)
    requires depth > 0 && start.target in defs && start.target !in seen && site < |defs[start.target]|
    requires IsChain(defs, sink, start, seen, depth, Prefixed(start, site, c))
    ensures IsChain(defs, sink, defs[start.target][site], seen + {start.target}, depth - 1, c)
  {
    var p := Prefixed(start, site, c);
    assert Follows(defs, p, 0);
    forall k | 0 <= k < |c.sites| ensures Follows(defs, c, k) {
      assert Follows(defs, p, k + 1);
    }
    TailTargets(start, seen, p.calls, c.calls);
  }

  lemma TailTargets(start: Call, seen: set<Usr>, whole: seq<Call>, tail: seq<Call>)
    requires whole == [start] + tail
    requires forall k :: 0 <= k < |whole| ==> whole[k].target !in seen
    requires forall i, k :: 0 <= i < k < |whole| ==> whole[i].target != whole[k].target
    ensures forall k :: 0 <= k < |tail| ==> tail[k].target !in seen + {start.target}
    ensures forall i, k :: 0 <= i < k < |tail| ==> tail[i].target != tail[k].target
  {
    forall k | 0 <= k < |tail| ensures tail[k].target !in seen + {start.target} {
      assert whole[k + 1] == tail[k];
      assert whole[0].target != whole[k + 1].target;
    }
    forall i, k | 0 <= i < k < |tail| ensures tail[i].target != tail[k].target {
      assert whole[i + 1] == tail[i] && whole[k + 1] == tail[k];
    }
  }

  /** The search lists exactly the chains. */
  lemma {:induction false} ListsExactlyTheChains(
    defs: Definitions, sink: string -> bool, start: Call, seen: set<Usr>, depth: nat, c: Chain)
    ensures c in Chains(defs, sink, start, seen, depth) <==> IsChain(defs, sink, start, seen, depth, c)
    decreases depth, 1, 0
  {
    if depth > 0 && start.target !in seen {
      if start.target in defs {
        ListsFromSite(defs, sink, start, seen, depth, 0, c);
        if IsChain(defs, sink, start, seen, depth, c) {
          assert c.sites != [];
          assert Follows(defs, c, 0);
        }
      } else if IsChain(defs, sink, start, seen, depth, c) {
        assert c.sites != [] ==> Follows(defs, c, 0);
        assert c == Chain([], [start]);
      }
    }
  }

  lemma {:induction false} ListsFromSite(
    defs: Definitions, sink: string -> bool, start: Call, seen: set<Usr>, depth: nat, site: nat, c: Chain)
    requires depth > 0 && start.target in defs && start.target !in seen && site <= |defs[start.target]|
    ensures c in ChainsFromSite(defs, sink, start, seen, depth, site) <==>
            IsChain(defs, sink, start, seen, depth, c) && c.sites != [] && site <= c.sites[0] < |defs[start.target]|
    decreases depth, 0, |defs[start.target]| - site
  {
    if site < |defs[start.target]| {
      var next, seen' := defs[start.target][site], seen + {start.target};
      var found := Chains(defs, sink, next, seen', depth - 1);
      ListsFromSite(defs, sink, start, seen, depth, site + 1, c);
      if c in AllPrefixed(start, site, found) {
        var i :| 0 <= i < |found| && c == Prefixed(start, site, found[i]);
        ListsExactlyTheChains(defs, sink, next, seen', depth - 1, found[i]);
        ChainExtends(defs, sink, start, seen, depth, site, found[i]);
      }
      if IsChain(defs, sink, start, seen, depth, c) && c.sites != [] && c.sites[0] == site {
        var rest := Chain(c.sites[1..], c.calls[1..]);
        assert c == Prefixed(start, site, rest);
        ChainShortens(defs, sink, start, seen, depth, site, rest);
        ListsExactlyTheChains(defs, sink, next, seen', depth - 1, rest);
        var i :| 0 <= i < |found| && found[i] == rest;
        assert AllPrefixed(start, site, found)[i] == c;
      }
    }
  }

  /** The first call site at which the two part comes earlier in the first. */
  ghost predicate Earlier(a: seq<nat>, b: seq<nat>) {
    exists n :: 0 <= n < |a| && n < |b| && a[..n] == b[..n] && a[n] < b[n]
  }

  ghost predicate InSiteOrder(cs: seq<Chain>) {
    forall i, j :: 0 <= i < j < |cs| ==> Earlier(cs[i].sites, cs[j].sites)
  }

  lemma EarlierPrefixed(site: nat, a: seq<nat>, b: seq<nat>)
    requires Earlier(a, b)
    ensures Earlier([site] + a, [site] + b)
  {
    var n :| 0 <= n < |a| && n < |b| && a[..n] == b[..n] && a[n] < b[n];
    assert ([site] + a)[..n + 1] == [site] + a[..n];
    assert ([site] + b)[..n + 1] == [site] + b[..n];
    assert ([site] + a)[n + 1] < ([site] + b)[n + 1];
  }

  lemma EarlierAtOnce(a: seq<nat>, b: seq<nat>)
    requires a != [] && b != [] && a[0] < b[0]
    ensures Earlier(a, b)
  {
    assert a[..0] == b[..0];
  }

  /** Chains are listed in the order of their call sites, as a depth-first search meets them. */
  lemma {:induction false} ListsInOrder(
    defs: Definitions, sink: string -> bool, start: Call, seen: set<Usr>, depth: nat)
    ensures InSiteOrder(Chains(defs, sink, start, seen, depth))
    decreases depth, 1, 0
  {
    if depth > 0 && start.target !in seen && start.target in defs {
      ListsInOrderFromSite(defs, sink, start, seen, depth, 0);
    }
  }

  lemma {:induction false} ListsInOrderFromSite(
    defs: Definitions, sink: string -> bool, start: Call, seen: set<Usr>, depth: nat, site: nat)
    requires depth > 0 && start.target in defs && start.target !in seen && site <= |defs[start.target]|
    ensures InSiteOrder(ChainsFromSite(defs, sink, start, seen, depth, site))
    decreases depth, 0, |defs[start.target]| - site
  {
    if site < |defs[start.target]| {
      var found := Chains(defs, sink, defs[start.target][site], seen + {start.target}, depth - 1);
      ListsInOrder(defs, sink, defs[start.target][site], seen + {start.target}, depth - 1);
      ListsInOrderFromSite(defs, sink, start, seen, depth, site + 1);
      var here, later := AllPrefixed(start, site, found), ChainsFromSite(defs, sink, start, seen, depth, site + 1);
      forall i, j | 0 <= i < j < |here| ensures Earlier(here[i].sites, here[j].sites) {
        EarlierPrefixed(site, found[i].sites, found[j].sites);
      }
      forall i, j | 0 <= i < |here| && 0 <= j < |later| ensures Earlier(here[i].sites, later[j].sites) {
        ListsFromSite(defs, sink, start, seen, depth, site + 1, later[j]);
        EarlierAtOnce(here[i].sites, later[j].sites);
      }
    }
  }

  /** So no chain is listed twice. */
  lemma ListsOnce(defs: Definitions, sink: string -> bool, start: Call, seen: set<Usr>, depth: nat, i: nat, j: nat)
    requires i < j < |Chains(defs, sink, start, seen, depth)|
    ensures Chains(defs, sink, start, seen, depth)[i] != Chains(defs, sink, start, seen, depth)[j]
  {
    ListsInOrder(defs, sink, start, seen, depth);
  }

  /** Which call sites are taken determines the chain. */
  lemma {:induction false} SitesDetermineChain(defs: Definitions, start: Call, c: Chain, d: Chain, k: nat)
    requires |c.calls| == |c.sites| + 1 && |d.calls| == |d.sites| + 1 && c.sites == d.sites
    requires c.calls[0] == start == d.calls[0]
    requires forall j :: 0 <= j < |c.sites| ==> Follows(defs, c, j) && Follows(defs, d, j)
    requires k < |c.calls|
    ensures c.calls[k] == d.calls[k]
  {
    if k > 0 {
      SitesDetermineChain(defs, start, c, d, k - 1);
      assert Follows(defs, c, k - 1) && Follows(defs, d, k - 1);
    }
  }

  // ---- a deep enough search is complete

  ghost function TargetsOf(c: Chain, n: nat): set<Usr>
    requires n <= |c.calls|
  {
    set k | 0 <= k < n :: c.calls[k].target
  }

  lemma {:induction false} DistinctTargets(defs: Definitions, c: Chain, n: nat)
    requires |c.calls| == |c.sites| + 1 && n <= |c.sites|
    requires forall k :: 0 <= k < |c.sites| ==> Follows(defs, c, k)
    requires forall i, k :: 0 <= i < k < |c.calls| ==> c.calls[i].target != c.calls[k].target
    ensures |TargetsOf(c, n)| == n && TargetsOf(c, n) <= defs.Keys
  {
    if n > 0 {
      DistinctTargets(defs, c, n - 1);
      assert Follows(defs, c, n - 1);
      var last := c.calls[n - 1].target;
      assert last !in TargetsOf(c, n - 1);
      assert TargetsOf(c, n) == TargetsOf(c, n - 1) + {last};
    } else {
      assert TargetsOf(c, n) == {};
    }
  }

  lemma SubsetIsNoLarger<T>(a: set<T>, b: set<T>)
    requires a <= b
    ensures |a| <= |b|
  {
    assert |b| == |a| + |b - a| by {
      assert b == a + (b - a);
    }
  }

  /** With a depth above the number of definitions, the bound cuts nothing off: every acyclic chain
      is listed, also on a call graph with cycles. */
  lemma DeepSearchIsComplete(defs: Definitions, sink: string -> bool, start: Call, seen: set<Usr>, depth: nat, c: Chain)
    requires depth > |defs|
    ensures c in Chains(defs, sink, start, seen, depth) <==> IsAcyclicChain(defs, sink, start, seen, c)
  {
    ListsExactlyTheChains(defs, sink, start, seen, depth, c);
    if IsAcyclicChain(defs, sink, start, seen, c) {
      DistinctTargets(defs, c, |c.sites|);
      SubsetIsNoLarger(TargetsOf(c, |c.sites|), defs.Keys);
    }
  }
}
