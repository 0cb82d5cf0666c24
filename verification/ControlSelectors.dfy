/**
 From a validated request to typed selectors: the payload of an alias command is a target and an
 alias joined by a newline, and every command that needs a target yields a selector.
 */
module ControlSelectors {
  import opened Words
  import opened CommandProtocol

  const MAX_COMMAND_TEXT: nat := 64 * 1024 / UNIT_BYTES

  datatype SelectorKind = Id | Name | Mac | Last | Auto | Alias | Default

  datatype DeviceSelector = DeviceSelector(kind: SelectorKind, value: Text)

  predicate IsValidCommandText(value: Text) {
    value != [] && |value| <= MAX_COMMAND_TEXT && NUL !in value
  }

  predicate IsQueryKind(kind: SelectorKind) {
    kind in {Name, Mac, Auto, Alias}
  }

  function ById(value: Text): Option<DeviceSelector> {
    if !IsValidCommandText(value) then None else Some(DeviceSelector(Id, value))
  }

  function ByQuery(kind: SelectorKind, value: Text): Option<DeviceSelector> {
    if !IsQueryKind(kind) || !IsValidCommandText(value) then None else Some(DeviceSelector(kind, value))
  }

  function MakeSelector(target: U32, value: Text): Option<DeviceSelector> {
    if target == TARGET_ID then ById(value)
    else if target == TARGET_NAME then ByQuery(Name, value)
    else if target == TARGET_MAC then ByQuery(Mac, value)
    else if target == TARGET_AUTO then ByQuery(Auto, value)
    else if target == TARGET_ALIAS then ByQuery(Alias, value)
    else if target == TARGET_LAST then if value == [] then Some(DeviceSelector(Last, [])) else None
    else if target == TARGET_DEFAULT then if value == [] then Some(DeviceSelector(Default, [])) else None
    else None
  }

  /** Both parts go through the first newline; without one, the target is the whole payload and so
      is the alias, because the search's end marker plus one is zero. */
  function RequestTargetText(r: Request): Text {
    if r.command == ALIAS_SET then
      var separator := FindFirstOf(r.payload, {NEWLINE}, 0);
      if separator.Some? then r.payload[..separator.value] else r.payload
    else r.payload
  }

  function RequestAlias(r: Request): Text {
    if r.command != ALIAS_SET then []
    else
      var separator := FindFirstOf(r.payload, {NEWLINE}, 0);
      if separator.Some? then r.payload[separator.value + 1..] else r.payload
  }

  // ---- the alias payload

  ghost predicate AliasParts(target: Text, alias: Text) {
    && target != [] && NEWLINE !in target && NUL !in target
    && alias != [] && NEWLINE !in alias && RETURN !in alias && NUL !in alias
    && |target| + 1 + |alias| <= MAX_PAYLOAD_BYTES / UNIT_BYTES
  }

  function JoinAlias(target: Text, alias: Text): Text {
    target + [NEWLINE] + alias
  }

  /** A request whose envelope is in order: everything but the payload. */
  ghost predicate AliasEnvelope(r: Request) {
    r.command == ALIAS_SET && !r.correlation.Empty() && AreKnownFlags(r.flags) && IsExplicitTarget(r.target)
  }

  /** Valid alias payloads are in bijection with pairs of parts: splitting a valid payload gives
      parts whose join is the payload, and joining parts gives a valid payload that splits into
      exactly those parts. */
  lemma AliasPayloadBijection(r: Request, target: Text, alias: Text)
    requires AliasEnvelope(r)
    ensures IsRequestValid(r) && target == RequestTargetText(r) && alias == RequestAlias(r) <==>
            AliasParts(target, alias) && r.payload == JoinAlias(target, alias)
  {
    if IsRequestValid(r) {
      ValidPayloadSplits(r);
    }
    if AliasParts(target, alias) && r.payload == JoinAlias(target, alias) {
      SplitUndoesJoin(target, alias);
    }
  }

  lemma ValidPayloadSplits(r: Request)
    requires AliasEnvelope(r) && IsRequestValid(r)
    ensures AliasParts(RequestTargetText(r), RequestAlias(r))
    ensures r.payload == JoinAlias(RequestTargetText(r), RequestAlias(r))
  {
    var p := r.payload;
    var s := FindFirstOf(p, {NEWLINE}, 0).value;
    var target, alias := p[..s], p[s + 1..];
    assert p == target + [p[s]] + alias;
    assert forall u :: u in target ==> u in p && u != NEWLINE;
    assert forall u :: u in alias ==> u in p && u !in {RETURN, NEWLINE};
  }

  lemma SplitUndoesJoin(target: Text, alias: Text)
    requires NEWLINE !in target && NEWLINE !in alias && RETURN !in alias
    ensures var p := JoinAlias(target, alias);
            && FindFirstOf(p, {NEWLINE}, 0) == Some(|target|)
            && p[..|target|] == target && p[|target| + 1..] == alias
            && FindFirstOf(p, {RETURN, NEWLINE}, |target| + 1).None?
  {
    var p := JoinAlias(target, alias);
    assert forall i :: 0 <= i < |target| ==> p[i] == target[i];
    assert p[|target|] == NEWLINE;
    FoundAt(p, {NEWLINE}, 0, |target|);
    assert forall i :: |target| + 1 <= i < |p| ==> p[i] == alias[i - |target| - 1];
    NotFound(p, {RETURN, NEWLINE}, |target| + 1);
  }

  lemma FoundAt(text: Text, units: set<U16>, start: nat, k: nat)
    requires start <= k < |text| && text[k] in units
    requires forall i :: start <= i < k ==> text[i] !in units
    ensures FindFirstOf(text, units, start) == Some(k)
  {
  }

  lemma NotFound(text: Text, units: set<U16>, start: nat)
    requires start <= |text| && forall i :: start <= i < |text| ==> text[i] !in units
    ensures FindFirstOf(text, units, start).None?
  {
  }

  // ---- selectors

  predicate NeedsSelector(command: U32) {
    command in {DEFAULT_SET, ALIAS_SET, ALIAS_CLEAR, CONNECT, DISCONNECT, RECONNECT, TOGGLE_LAST}
  }

  /** The wire value of each kind. */
  function TargetOf(kind: SelectorKind): U32 {
    match kind
    case Id => 1
    case Name => 2
    case Mac => 3
    case Last => 4
    case Auto => 5
    case Alias => 6
    case Default => 7
  }

  /** A target and a text make a selector exactly if it is of the kind with that wire value and has that
      text, which must be a valid one, or empty for the two stateful kinds. */
  lemma MakesSelectorIff(target: U32, value: Text, s: DeviceSelector)
    ensures MakeSelector(target, value) == Some(s) <==>
            && TargetOf(s.kind) == target && s.value == value
            && if s.kind.Last? || s.kind.Default? then value == []
               else 0 < |value| <= 32768 && forall i :: 0 <= i < |value| ==> value[i] != 0
  {
    match s.kind
    case Id =>
    case Name =>
    case Mac =>
    case Last =>
    case Auto =>
    case Alias =>
    case Default =>
  }

  /** Every valid request for such a command yields a selector, of the kind that the wire names and
      with the exact target text; so the dispatcher's answer for a missing selector is never given. */
  lemma ValidRequestsHaveSelectors(r: Request)
    requires IsRequestValid(r) && NeedsSelector(r.command)
    ensures MakeSelector(r.target, RequestTargetText(r)).Some?
    ensures MakeSelector(r.target, RequestTargetText(r)).value.value == RequestTargetText(r)
    ensures TargetOf(MakeSelector(r.target, RequestTargetText(r)).value.kind) == r.target
  {
    if r.command == ALIAS_SET {
      AliasPayloadBijection(r, RequestTargetText(r), RequestAlias(r));
    }
  }

  /** What every valid request has in common. */
  ghost predicate Envelope(r: Request) {
    !r.correlation.Empty() && IsKnownCommand(r.command) && IsKnownTarget(r.target) && AreKnownFlags(r.flags)
    && |r.payload| <= MAX_PAYLOAD_BYTES / UNIT_BYTES && NUL !in r.payload
  }

  /** The wire grammar in terms of selectors: with its envelope in order, a request is valid exactly
      if it needs no selector and names no target, or needs one and has one, where commands that
      store a device accept neither of the two stateful selectors and an alias splits properly. */
  lemma ValidIffSelectable(r: Request)
    requires Envelope(r)
    ensures IsRequestValid(r) <==>
            if !NeedsSelector(r.command) then r.target == TARGET_NONE && r.payload == []
            else
              && MakeSelector(r.target, RequestTargetText(r)).Some?
              && (r.command in {DEFAULT_SET, ALIAS_SET, ALIAS_CLEAR} ==>
                    MakeSelector(r.target, RequestTargetText(r)).value.kind !in {Last, Default})
              && (r.command == ALIAS_SET ==>
                    AliasParts(RequestTargetText(r), RequestAlias(r))
                    && r.payload == JoinAlias(RequestTargetText(r), RequestAlias(r)))
  {
    if r.command == ALIAS_SET && IsExplicitTarget(r.target) {
      AliasPayloadBijection(r, RequestTargetText(r), RequestAlias(r));
    }
  }

  /** Different targets or texts never lead to the same selector. */
  lemma SelectorsAreFaithful(target: U32, value: Text, target': U32, value': Text)
    requires MakeSelector(target, value).Some? && MakeSelector(target, value) == MakeSelector(target', value')
    ensures target == target' && value == value'
  {
    assert value == MakeSelector(target, value).value.value;
  }
}
