/**
 The ranked target matcher: up to four passes over the candidates, each for a weaker kind of
 match, stopping at the first pass that finds any. It is measured against a declarative
 specification in terms of each candidate's own best rank, and against a single pass.

 Lower-casing one character depends on the platform and is a parameter.
 */
module TargetMatcher {
  import opened Words

  type Text = seq<U16>

  datatype Candidate = Candidate(id: Text, name: Text, alias: Text)

  datatype Rank = NoMatch | ExactId | ExactAliasOrName | MacFragment | AliasOrNameSubstring

  datatype Matches = Matches(rank: Rank, indices: seq<nat>)

  // ---- text

  function LowerInvariant(value: Text, lower: U16 -> U16): (r: Text)
    ensures |r| == |value|
  {
    seq(|value|, i requires 0 <= i < |value| => lower(value[i]))
  }

  predicate EqualsIgnoreCase(a: Text, b: Text, lower: U16 -> U16) {
    |a| == |b| && LowerInvariant(a, lower) == LowerInvariant(b, lower)
  }

  predicate OccursAt(value: Text, part: Text, i: nat) {
    i + |part| <= |value| && value[i..i + |part|] == part
  }

  predicate Contains(value: Text, part: Text) {
    exists i :: 0 <= i <= |value| && OccursAt(value, part, i)
  }

  predicate ContainsIgnoreCase(value: Text, query: Text, lower: U16 -> U16) {
    query != [] && Contains(LowerInvariant(value, lower), LowerInvariant(query, lower))
  }

  predicate IsHexDigit(c: U16) {
    0x30 <= c <= 0x39 || 0x61 <= c <= 0x66 || 0x41 <= c <= 0x46
  }

  function NormalizeHex(value: Text, lower: U16 -> U16): Text {
    if value == [] then []
    else (if IsHexDigit(value[0]) then [lower(value[0])] else []) + NormalizeHex(value[1..], lower)
  }

  // ---- what a candidate is worth on its own

  predicate IsMatch(rank: Rank, c: Candidate, query: Text, lower: U16 -> U16) {
    match rank
    case NoMatch => false
    case ExactId => EqualsIgnoreCase(c.id, query, lower)
    case ExactAliasOrName => EqualsIgnoreCase(c.alias, query, lower) || EqualsIgnoreCase(c.name, query, lower)
    case MacFragment =>
      |NormalizeHex(query, lower)| >= 6 && Contains(NormalizeHex(c.id, lower), NormalizeHex(query, lower))
    case AliasOrNameSubstring => ContainsIgnoreCase(c.alias, query, lower) || ContainsIgnoreCase(c.name, query, lower)
  }

  /** The strongest kind of match of one candidate. An empty query matches nothing. */
  function OwnRank(c: Candidate, query: Text, lower: U16 -> U16): Rank {
    if query == [] then NoMatch
    else if IsMatch(ExactId, c, query, lower) then ExactId
    else if IsMatch(ExactAliasOrName, c, query, lower) then ExactAliasOrName
    else if IsMatch(MacFragment, c, query, lower) then MacFragment
    else if IsMatch(AliasOrNameSubstring, c, query, lower) then AliasOrNameSubstring
    else NoMatch
  }

  // ---- which candidates a query finds, character by character

  /** The texts agree in every character once lower-cased. */
  ghost predicate Same(a: Text, b: Text, lower: U16 -> U16) {
    |a| == |b| && forall i :: 0 <= i < |a| ==> lower(a[i]) == lower(b[i])
  }

  /** A stretch of the value is the same as the query. */
  ghost predicate Within(value: Text, query: Text, lower: U16 -> U16) {
    exists i, j :: 0 <= i <= j <= |value| && Same(value[i..j], query, lower)
  }

  lemma EqualsIffSame(a: Text, b: Text, lower: U16 -> U16)
    ensures EqualsIgnoreCase(a, b, lower) <==> Same(a, b, lower)
  {
    if |a| == |b| {
      assert forall i :: 0 <= i < |a| ==> LowerInvariant(a, lower)[i] == lower(a[i]);
      assert forall i :: 0 <= i < |b| ==> LowerInvariant(b, lower)[i] == lower(b[i]);
    }
  }

  lemma LowerOfStretch(value: Text, i: nat, j: nat, lower: U16 -> U16)
    requires i <= j <= |value|
    ensures LowerInvariant(value, lower)[i..j] == LowerInvariant(value[i..j], lower)
  {
  }

  lemma ContainsIffWithin(value: Text, query: Text, lower: U16 -> U16)
    requires query != []
    ensures ContainsIgnoreCase(value, query, lower) <==> Within(value, query, lower)
  {
    var v, q := LowerInvariant(value, lower), LowerInvariant(query, lower);
    if ContainsIgnoreCase(value, query, lower) {
      var i :| 0 <= i <= |v| && OccursAt(v, q, i);
      LowerOfStretch(value, i, i + |q|, lower);
      EqualsIffSame(value[i..i + |q|], query, lower);
    }
    if Within(value, query, lower) {
      var i, j :| 0 <= i <= j <= |value| && Same(value[i..j], query, lower);
      LowerOfStretch(value, i, j, lower);
      EqualsIffSame(value[i..j], query, lower);
      assert OccursAt(v, q, i);
    }
  }

  const HEX_DIGITS := "0123456789abcdefABCDEF"

  lemma HexDigitsAre(c: U16)
    ensures IsHexDigit(c) <==> exists k :: 0 <= k < |HEX_DIGITS| && HEX_DIGITS[k] as int == c
  {
    if 0x30 <= c <= 0x39 {
      assert HEX_DIGITS[c - 0x30] as int == c;
    } else if 0x61 <= c <= 0x66 {
      assert HEX_DIGITS[c - 0x61 + 10] as int == c;
    } else if 0x41 <= c <= 0x46 {
      assert HEX_DIGITS[c - 0x41 + 16] as int == c;
    }
  }

  /** The positions of the hexadecimal digits of a text. */
  ghost predicate AreDigitsOf(at: seq<nat>, value: Text) {
    Ascending(at) && forall p: nat :: p in at <==> p < |value| && IsHexDigit(value[p])
  }

  /** The digits of the query are, in order and lower-cased, some consecutive digits of the value,
      whatever stands between them. */
  ghost predicate DigitsWithin(value: Text, query: Text, lower: U16 -> U16) {
    exists v, q, i: nat :: AreDigitsOf(v, value) && AreDigitsOf(q, query) && DigitsMatch(value, v, i, query, q, lower)
  }

  ghost predicate DigitsMatch(value: Text, v: seq<nat>, i: nat, query: Text, q: seq<nat>, lower: U16 -> U16) {
    && i + |q| <= |v|
    && forall k :: 0 <= k < |q| ==> SameAt(value, v[i + k], query, q[k], lower)
  }

  ghost predicate SameAt(a: Text, i: nat, b: Text, j: nat, lower: U16 -> U16) {
    i < |a| && j < |b| && lower(a[i]) == lower(b[j])
  }

  ghost function Shifted(at: seq<nat>): seq<nat> {
    seq(|at|, k requires 0 <= k < |at| => at[k] + 1)
  }

  lemma InShifted(at: seq<nat>, p: nat)
    ensures p in Shifted(at) <==> p > 0 && p - 1 in at
  {
    if p in Shifted(at) {
      var k :| 0 <= k < |at| && Shifted(at)[k] == p;
      assert at[k] == p - 1;
    }
    if p > 0 && p - 1 in at {
      var k :| 0 <= k < |at| && at[k] == p - 1;
      assert Shifted(at)[k] == p;
    }
  }

  /** The digits of a text from those of its tail. */
  ghost function Prefixed(digit: bool, at: seq<nat>): seq<nat> {
    (if digit then [0] else []) + Shifted(at)
  }

  lemma PrefixedAscends(digit: bool, at: seq<nat>)
    requires Ascending(at)
    ensures Ascending(Prefixed(digit, at))
  {
    var s := Shifted(at);
    assert Ascending(s) && forall k :: 0 <= k < |s| ==> 0 < s[k];
  }

  lemma PrefixedDigits(at: seq<nat>, value: Text)
    requires value != [] && AreDigitsOf(at, value[1..])
    ensures AreDigitsOf(Prefixed(IsHexDigit(value[0]), at), value)
  {
    PrefixedAscends(IsHexDigit(value[0]), at);
    forall p: nat
      ensures p in Prefixed(IsHexDigit(value[0]), at) <==> p < |value| && IsHexDigit(value[p])
    {
      InShifted(at, p);
      if 0 < p < |value| {
        assert value[1..][p - 1] == value[p];
      }
    }
  }

  /** The text consists of the characters at these positions, lower-cased. */
  ghost predicate Lists(text: Text, value: Text, at: seq<nat>, lower: U16 -> U16) {
    |text| == |at| && forall k :: 0 <= k < |at| ==> at[k] < |value| && text[k] == lower(value[at[k]])
  }

  lemma PrefixedLists(text: Text, value: Text, at: seq<nat>, lower: U16 -> U16)
    requires value != [] && Lists(text, value[1..], at, lower)
    ensures Lists((if IsHexDigit(value[0]) then [lower(value[0])] else []) + text, value,
                  Prefixed(IsHexDigit(value[0]), at), lower)
  {
  }

  /** Normalising lists the digits in order, lower-cased, and nothing else. */
  lemma {:induction false} NormalizeListsDigits(value: Text, lower: U16 -> U16) returns (at: seq<nat>)
    ensures AreDigitsOf(at, value) && Lists(NormalizeHex(value, lower), value, at, lower)
  {
    if value == [] {
      at := [];
    } else {
      var rest := NormalizeListsDigits(value[1..], lower);
      PrefixedDigits(rest, value);
      PrefixedLists(NormalizeHex(value[1..], lower), value, rest, lower);
      at := Prefixed(IsHexDigit(value[0]), rest);
    }
  }

  lemma DigitsAreUnique(a: seq<nat>, b: seq<nat>, value: Text)
    requires AreDigitsOf(a, value) && AreDigitsOf(b, value)
    ensures a == b
  {
    assert Members(a) == Members(b);
    SameMembers(a, b);
  }

  lemma FragmentIffDigitsWithin(value: Text, query: Text, lower: U16 -> U16)
    ensures Contains(NormalizeHex(value, lower), NormalizeHex(query, lower)) <==> DigitsWithin(value, query, lower)
  {
    var n, m := NormalizeHex(value, lower), NormalizeHex(query, lower);
    var v := NormalizeListsDigits(value, lower);
    var q := NormalizeListsDigits(query, lower);
    if Contains(n, m) {
      var i :| 0 <= i <= |n| && OccursAt(n, m, i);
      forall k | 0 <= k < |q| ensures SameAt(value, v[i + k], query, q[k], lower) {
        assert n[i..i + |m|][k] == m[k];
      }
      assert DigitsMatch(value, v, i, query, q, lower);
    }
    if DigitsWithin(value, query, lower) {
      var v', q', i: nat :|
        AreDigitsOf(v', value) && AreDigitsOf(q', query) && DigitsMatch(value, v', i, query, q', lower);
      DigitsAreUnique(v, v', value);
      DigitsAreUnique(q, q', query);
      forall k | 0 <= k < |m| ensures n[i..i + |m|][k] == m[k] {
        assert SameAt(value, v[i + k], query, q[k], lower);
      }
      assert OccursAt(n, m, i);
    }
  }

  /** What each rank means in terms of characters: the query is the id; else it is the alias or the name;
      else it has at least six hexadecimal digits and they occur in a row among those of the id; else it
      occurs in the alias or the name. Case never matters, and an empty query finds nothing. */
  lemma RankMeans(c: Candidate, query: Text, lower: U16 -> U16) returns (digits: seq<nat>)
    ensures AreDigitsOf(digits, query)
    ensures OwnRank(c, query, lower) ==
            if query == [] then NoMatch
            else if Same(c.id, query, lower) then ExactId
            else if Same(c.alias, query, lower) || Same(c.name, query, lower) then ExactAliasOrName
            else if |digits| >= 6 && DigitsWithin(c.id, query, lower) then MacFragment
            else if Within(c.alias, query, lower) || Within(c.name, query, lower) then AliasOrNameSubstring
            else NoMatch
  {
    digits := NormalizeListsDigits(query, lower);
    EqualsIffSame(c.id, query, lower);
    EqualsIffSame(c.alias, query, lower);
    EqualsIffSame(c.name, query, lower);
    FragmentIffDigitsWithin(c.id, query, lower);
    if query != [] {
      ContainsIffWithin(c.alias, query, lower);
      ContainsIffWithin(c.name, query, lower);
    }
  }

  /** Position in the order of preference; no match comes last. */
  function Order(r: Rank): nat {
    match r
    case ExactId => 1
    case ExactAliasOrName => 2
    case MacFragment => 3
    case AliasOrNameSubstring => 4
    case NoMatch => 5
  }

  ghost predicate Ascending(s: seq<nat>) {
    forall i, j :: 0 <= i < j < |s| ==> s[i] < s[j]
  }

  /** The rank is the best that any candidate attains, and the indices are, in ascending order,
      exactly the candidates whose own rank it is; there is no rank exactly if there are none. */
  ghost predicate IsBest(m: Matches, cs: seq<Candidate>, query: Text, lower: U16 -> U16) {
    && Ascending(m.indices)
    && (m.rank == NoMatch <==> m.indices == [])
    && (forall i :: 0 <= i < |cs| ==> Order(m.rank) <= Order(OwnRank(cs[i], query, lower)))
    && (forall i :: i in m.indices <==> 0 <= i < |cs| && m.rank != NoMatch && OwnRank(cs[i], query, lower) == m.rank)
  }

  // ---- the four passes

  /** One pass: the candidates that match at a rank. */
  method Collect(rank: Rank, cs: seq<Candidate>, query: Text, lower: U16 -> U16) returns (indices: seq<nat>)
    ensures Ascending(indices)
    ensures forall i :: i in indices <==> 0 <= i < |cs| && IsMatch(rank, cs[i], query, lower)
  {
    indices := [];
    for index := 0 to |cs|
      invariant Ascending(indices)
      invariant forall i :: i in indices <==> 0 <= i < index && IsMatch(rank, cs[i], query, lower)
    {
      if IsMatch(rank, cs[index], query, lower) {
        AppendAscends(indices, index);
        indices := indices + [index];
      }
    }
  }

  method FindAutoTargetMatches(cs: seq<Candidate>, query: Text, lower: U16 -> U16) returns (m: Matches)
    ensures IsBest(m, cs, query, lower)
    ensures m == OnePass(cs, query, lower)
  {
    m := Passes(cs, query, lower);
    OnePassIsBest(cs, query, lower);
    BestIsUnique(m, OnePass(cs, query, lower), cs, query, lower);
  }

  method Passes(cs: seq<Candidate>, query: Text, lower: U16 -> U16) returns (m: Matches)
    ensures IsBest(m, cs, query, lower)
  {
    if query == [] {
      return Matches(NoMatch, []);
    }
    var indices := Collect(ExactId, cs, query, lower);
    if indices != [] {
      assert indices[0] in indices;
      return Matches(ExactId, indices);
    }
    assert forall i :: 0 <= i < |cs| ==> i !in indices;
    indices := Collect(ExactAliasOrName, cs, query, lower);
    if indices != [] {
      return Matches(ExactAliasOrName, indices);
    }
    assert forall i :: 0 <= i < |cs| ==> i !in indices;
    var queryHex := NormalizeHex(query, lower);
    if |queryHex| >= 6 {
      indices := Collect(MacFragment, cs, query, lower);
      if indices != [] {
        return Matches(MacFragment, indices);
      }
      assert forall i :: 0 <= i < |cs| ==> i !in indices;
    }
    indices := Collect(AliasOrNameSubstring, cs, query, lower);
    if indices != [] {
      return Matches(AliasOrNameSubstring, indices);
    }
    assert forall i :: 0 <= i < |cs| ==> i !in indices;
    return Matches(NoMatch, []);
  }

  // ---- one pass instead of four

  /** What one more candidate does to the result: nothing, joins it, or takes its place. */
  function Absorb(m: Matches, rank: Rank, index: nat): Matches {
    if Order(rank) < Order(m.rank) then Matches(rank, [index])
    else if rank == m.rank && rank != NoMatch then Matches(rank, m.indices + [index])
    else m
  }

  function OnePass(cs: seq<Candidate>, query: Text, lower: U16 -> U16): Matches {
    if cs == [] then Matches(NoMatch, [])
    else
      var last := |cs| - 1;
      Absorb(OnePass(cs[..last], query, lower), OwnRank(cs[last], query, lower), last)
  }

  lemma {:induction false} OnePassIsBest(cs: seq<Candidate>, query: Text, lower: U16 -> U16)
    ensures IsBest(OnePass(cs, query, lower), cs, query, lower)
  {
    if cs != [] {
      var last := |cs| - 1;
      OnePassIsBest(cs[..last], query, lower);
      AbsorbKeepsBest(OnePass(cs[..last], query, lower), cs[..last], cs[last], query, lower);
      assert cs[..last] + [cs[last]] == cs;
    }
  }

  /** Appending a candidate changes the best matches by one `Absorb`. */
  lemma AbsorbKeepsBest(m: Matches, cs: seq<Candidate>, c: Candidate, query: Text, lower: U16 -> U16)
    requires IsBest(m, cs, query, lower)
    ensures IsBest(Absorb(m, OwnRank(c, query, lower), |cs|), cs + [c], query, lower)
  {
    var rank, all := OwnRank(c, query, lower), cs + [c];
    var m' := Absorb(m, rank, |cs|);
    AppendAscends(m.indices, |cs|);
    assert forall i :: 0 <= i < |cs| ==> all[i] == cs[i];
    forall i
      ensures i in m'.indices <==> 0 <= i < |all| && m'.rank != NoMatch && OwnRank(all[i], query, lower) == m'.rank
    {
      if 0 <= i < |cs| {
        assert Order(m.rank) <= Order(OwnRank(cs[i], query, lower));
        assert i in m.indices <==> m.rank != NoMatch && OwnRank(cs[i], query, lower) == m.rank;
      }
    }
  }

  /** The specification determines the result. */
  lemma BestIsUnique(m: Matches, m': Matches, cs: seq<Candidate>, query: Text, lower: U16 -> U16)
    requires IsBest(m, cs, query, lower) && IsBest(m', cs, query, lower)
    ensures m == m'
  {
    if m.indices != [] {
      assert m.indices[0] in m.indices;
    }
    if m'.indices != [] {
      assert m'.indices[0] in m'.indices;
    }
    assert Members(m.indices) == Members(m'.indices);
    SameMembers(m.indices, m'.indices);
  }

  lemma AppendAscends(s: seq<nat>, x: nat)
    requires Ascending(s) && forall i :: i in s ==> i < x
    ensures Ascending(s + [x])
  {
    assert forall k :: 0 <= k < |s| ==> s[k] in s;
  }

  ghost function Members(s: seq<nat>): set<nat> {
    set x | x in s
  }

  lemma {:induction false} SameMembers(a: seq<nat>, b: seq<nat>)
    requires Ascending(a) && Ascending(b) && Members(a) == Members(b)
    ensures a == b
  {
    if a != [] {
      LastIsGreatest(a);
    }
    if b != [] {
      LastIsGreatest(b);
    }
    if a != [] && b != [] {
      SameMembers(a[..|a| - 1], b[..|b| - 1]);
    }
  }

  lemma LastIsGreatest(a: seq<nat>)
    requires Ascending(a) && a != []
    ensures a[|a| - 1] in Members(a) && forall i :: i in Members(a) ==> i <= a[|a| - 1]
    ensures Members(a[..|a| - 1]) == Members(a) - {a[|a| - 1]}
    ensures a == a[..|a| - 1] + [a[|a| - 1]]
  {
    var init, last := a[..|a| - 1], a[|a| - 1];
    forall i | i in Members(a) && i != last ensures i in Members(init) {
      var j :| 0 <= j < |a| && a[j] == i;
      assert init[j] == i;
    }
  }
}
