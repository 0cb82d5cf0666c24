/**
 The publication fence. Every observed device fact is stamped with a generation on two
 channels, connection and status; a queued presentation later asks whether its token is
 still current. The counters are 64 bits wide and saturate.

 The theorems measure the counters against the whole observation history, so that
 `IsCurrent` is shown to answer a question about history, not about numbers.
 */
module PublicationFence {
  import opened Words

  datatype Status = NoStatus | Ready | Connecting | Reconnecting | Connected | Error | WaitingForReconnect

  datatype Channel = Connection | State

  type DeviceId = seq<U16>

  datatype Token = Token(deviceId: DeviceId, generation: U64, channel: Channel)

  datatype Observation = Observation(wasConnected: bool, wasWaiting: bool, connection: Token, state: Token)

  datatype DeviceState = DeviceState(
    isConnected: bool,
    currentStatus: Status,
    connectionGeneration: U64,
    statusGeneration: U64,
    isGenerationExhausted: bool)

  const FRESH := DeviceState(false, NoStatus, 0, 0, false)

  function UpdateConnection(d: DeviceState, isConnected: bool): DeviceState {
    if d.isConnected == isConnected then d
    else if d.connectionGeneration == U64_MAX then
      d.(isConnected := isConnected, isGenerationExhausted := true)
    else
      d.(isConnected := isConnected, connectionGeneration := d.connectionGeneration + 1)
  }

  function UpdateStatus(d: DeviceState, status: Status): DeviceState {
    if d.currentStatus == status then d
    else if d.statusGeneration == U64_MAX then
      d.(currentStatus := status, isGenerationExhausted := true)
    else
      d.(currentStatus := status, statusGeneration := d.statusGeneration + 1)
  }

  function Updated(d: DeviceState, status: Status): DeviceState {
    UpdateStatus(UpdateConnection(d, status == Connected), status)
  }

  // ---- the observation history and what it says about one device

  datatype Fact = Fact(deviceId: DeviceId, status: Status)

  /** The statuses observed for one device, oldest first. */
  ghost function SeenFor(h: seq<Fact>, id: DeviceId): seq<Status> {
    if h == [] then []
    else
      var rest := SeenFor(h[..|h| - 1], id);
      if h[|h| - 1].deviceId == id then rest + [h[|h| - 1].status] else rest
  }

  ghost function LastStatus(ss: seq<Status>): Status {
    if ss == [] then NoStatus else ss[|ss| - 1]
  }

  /** How often the status changed, counted from the unobserved status. */
  ghost function StatusChanges(ss: seq<Status>): nat {
    if ss == [] then 0
    else
      var before := ss[..|ss| - 1];
      StatusChanges(before) + if LastStatus(before) == LastStatus(ss) then 0 else 1
  }

  /** How often connectedness changed, counted from not connected. */
  ghost function ConnectionChanges(ss: seq<Status>): nat {
    if ss == [] then 0
    else
      var before := ss[..|ss| - 1];
      ConnectionChanges(before) + if (LastStatus(before) == Connected) == (LastStatus(ss) == Connected) then 0 else 1
  }

  ghost function Saturated(n: nat): U64 {
    if n <= U64_MAX then n else U64_MAX
  }

  /** The device entry that a history of statuses must have left behind. */
  ghost function Expected(ss: seq<Status>): DeviceState {
    DeviceState(
      LastStatus(ss) == Connected,
      LastStatus(ss),
      Saturated(ConnectionChanges(ss)),
      Saturated(StatusChanges(ss)),
      StatusChanges(ss) > U64_MAX)
  }

  // ---- the fence itself

  ghost function Replay(h: seq<Fact>): map<DeviceId, DeviceState> {
    if h == [] then map[]
    else
      var before, fact := Replay(h[..|h| - 1]), h[|h| - 1];
      before[fact.deviceId := Updated(if fact.deviceId in before then before[fact.deviceId] else FRESH, fact.status)]
  }

  function Current(devices: map<DeviceId, DeviceState>, token: Token): bool {
    token.deviceId in devices
    && !devices[token.deviceId].isGenerationExhausted
    && token.generation == (if token.channel == Connection
                            then devices[token.deviceId].connectionGeneration
                            else devices[token.deviceId].statusGeneration)
  }

  /** The token that observation `i` of a history handed out on a channel. */
  ghost function Issued(h: seq<Fact>, i: nat, channel: Channel): Token
    requires i < |h|
  {
    var e := Expected(SeenFor(h[..i + 1], h[i].deviceId));
    Token(h[i].deviceId, if channel == Connection then e.connectionGeneration else e.statusGeneration, channel)
  }

  class DeviceFactPublicationFence {
    var devices: map<DeviceId, DeviceState>
    ghost var history: seq<Fact>

    ghost predicate Valid()
      reads this
    {
      devices == Replay(history)
    }

    constructor ()
      ensures Valid() && history == []
    {
      devices, history := map[], [];
    }

    method Observe(deviceId: DeviceId, status: Status) returns (o: Observation)
      requires Valid()
      modifies this
      ensures Valid() && history == old(history) + [Fact(deviceId, status)]
      ensures o.connection == Issued(history, |old(history)|, Connection)
      ensures o.state == Issued(history, |old(history)|, State)
      ensures o.wasConnected <==> LastStatus(SeenFor(old(history), deviceId)) == Connected
      ensures o.wasWaiting <==> LastStatus(SeenFor(old(history), deviceId)) == WaitingForReconnect
    {
      EntryMatchesHistory(history, deviceId);
      var state := if deviceId in devices then devices[deviceId] else FRESH;
      var wasConnected, wasWaiting := state.isConnected, state.currentStatus == WaitingForReconnect;
      state := UpdateConnection(state, status == Connected);
      state := UpdateStatus(state, status);
      devices := devices[deviceId := state];
      history := history + [Fact(deviceId, status)];
      o := Observation(wasConnected, wasWaiting,
                       Token(deviceId, state.connectionGeneration, Connection),
                       Token(deviceId, state.statusGeneration, State));
      assert history[..|history| - 1] == old(history);
      EntryMatchesHistory(history, deviceId);
      assert history[..|old(history)| + 1] == history;
    }

    method IsCurrent(token: Token) returns (b: bool)
      requires Valid()
      ensures b == Current(Replay(history), token)
    {
      if token.deviceId !in devices || devices[token.deviceId].isGenerationExhausted {
        return false;
      }
      var found := devices[token.deviceId];
      return if token.channel == Connection
        then found.connectionGeneration == token.generation
        else found.statusGeneration == token.generation;
    }
  }

  // ---- counters against history

  lemma {:induction false} ConnectionChangesBounded(ss: seq<Status>)
    ensures ConnectionChanges(ss) <= StatusChanges(ss)
    ensures ConnectionChanges(ss) % 2 == if LastStatus(ss) == Connected then 1 else 0
  {
    if ss != [] {
      ConnectionChangesBounded(ss[..|ss| - 1]);
    }
  }

  lemma UpdatedMatches(ss: seq<Status>, status: Status)
    ensures Updated(Expected(ss), status) == Expected(ss + [status])
  {
    assert (ss + [status])[..|ss|] == ss;
    ConnectionChangesBounded(ss);
    ConnectionChangesBounded(ss + [status]);
  }

  /** After any history, a device has an entry exactly if it was observed, and the entry is the
      one that the device's own observations determine: other devices leave no trace in it. */
  lemma {:induction false} EntryMatchesHistory(h: seq<Fact>, id: DeviceId)
    ensures id in Replay(h) <==> SeenFor(h, id) != []
    ensures (if id in Replay(h) then Replay(h)[id] else FRESH) == Expected(SeenFor(h, id))
  {
    if h != [] {
      EntryMatchesHistory(h[..|h| - 1], id);
      UpdatedMatches(SeenFor(h[..|h| - 1], id), h[|h| - 1].status);
    }
  }

  /** Channel coupling, for every history and device. */
  lemma ChannelsAreCoupled(h: seq<Fact>, id: DeviceId)
    requires id in Replay(h)
    ensures var d := Replay(h)[id];
            && d.isConnected == (d.currentStatus == Connected)
            && d.connectionGeneration <= d.statusGeneration
            && (!d.isGenerationExhausted ==> d.connectionGeneration % 2 == if d.isConnected then 1 else 0)
  {
    EntryMatchesHistory(h, id);
    ConnectionChangesBounded(SeenFor(h, id));
  }

  // ---- tokens against history

  /** Every observation of the device in `(i, j]` agrees with observation `i` on the channel. */
  ghost predicate Unchanged(h: seq<Fact>, i: nat, j: nat, channel: Channel)
    requires i < j <= |h|
  {
    forall k :: i < k < j && h[k].deviceId == h[i].deviceId ==>
                  if channel == Connection then (h[k].status == Connected) == (h[i].status == Connected)
                  else h[k].status == h[i].status
  }

  ghost function Changes(ss: seq<Status>, channel: Channel): nat {
    if channel == Connection then ConnectionChanges(ss) else StatusChanges(ss)
  }

  /** A channel's change count stands still exactly while the fact does; it never goes back. */
  lemma {:induction false} CountStandsStill(h: seq<Fact>, i: nat, j: nat, channel: Channel)
    requires i < j <= |h|
    ensures var now, issued := SeenFor(h[..j], h[i].deviceId), SeenFor(h[..i + 1], h[i].deviceId);
            && now != []
            && Changes(issued, channel) <= Changes(now, channel)
            && (Changes(issued, channel) == Changes(now, channel) <==> Unchanged(h, i, j, channel))
            && (Unchanged(h, i, j, channel) ==>
                  if channel == Connection then (LastStatus(now) == Connected) == (h[i].status == Connected)
                  else LastStatus(now) == h[i].status)
    decreases j - i
  {
    var id := h[i].deviceId;
    assert h[..j][..j - 1] == h[..j - 1];
    if i + 1 < j {
      CountStandsStill(h, i, j - 1, channel);
      assert Unchanged(h, i, j, channel) ==> Unchanged(h, i, j - 1, channel);
      if h[j - 1].deviceId == id {
        assert SeenFor(h[..j], id)[..|SeenFor(h[..j - 1], id)|] == SeenFor(h[..j - 1], id);
      }
    }
  }

  /** A-B-A safety. The token issued by observation `i` is current after the first `j`
      observations if and only if every later observation of that device agrees with it on the
      token's channel, and the device's status has changed at most 2^64 - 1 times. */
  lemma TokenIsCurrentIff(h: seq<Fact>, i: nat, j: nat, channel: Channel)
    requires i < j <= |h|
    ensures Current(Replay(h[..j]), Issued(h, i, channel)) <==>
            Unchanged(h, i, j, channel) && StatusChanges(SeenFor(h[..j], h[i].deviceId)) <= U64_MAX
  {
    var id := h[i].deviceId;
    EntryMatchesHistory(h[..j], id);
    CountStandsStill(h, i, j, channel);
    ConnectionChangesBounded(SeenFor(h[..j], id));
  }

  /** A token that is once out of date stays so, even when the same fact comes back. */
  lemma NeverRevived(h: seq<Fact>, i: nat, j: nat, k: nat, channel: Channel)
    requires i < j <= k <= |h|
    requires !Current(Replay(h[..j]), Issued(h, i, channel))
    ensures !Current(Replay(h[..k]), Issued(h, i, channel))
  {
    TokenIsCurrentIff(h, i, j, channel);
    TokenIsCurrentIff(h, i, k, channel);
    StatusChangesGrow(h, h[i].deviceId, j, k);
  }

  lemma {:induction false} StatusChangesGrow(h: seq<Fact>, id: DeviceId, j: nat, k: nat)
    requires j <= k <= |h|
    ensures StatusChanges(SeenFor(h[..j], id)) <= StatusChanges(SeenFor(h[..k], id))
    decreases k - j
  {
    if j < k {
      StatusChangesGrow(h, id, j, k - 1);
      assert h[..k][..k - 1] == h[..k - 1];
      if h[k - 1].deviceId == id {
        assert SeenFor(h[..k], id)[..|SeenFor(h[..k - 1], id)|] == SeenFor(h[..k - 1], id);
      }
    }
  }

  /** A current status token implies that its companion connection token is current. */
  lemma StatusImpliesConnection(h: seq<Fact>, i: nat, j: nat)
    requires i < j <= |h| && Current(Replay(h[..j]), Issued(h, i, State))
    ensures Current(Replay(h[..j]), Issued(h, i, Connection))
  {
    TokenIsCurrentIff(h, i, j, State);
    TokenIsCurrentIff(h, i, j, Connection);
  }
}
