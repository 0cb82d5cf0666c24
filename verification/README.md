# Verified models of AudioPlaybackConnector2

AudioPlaybackConnector2 is a Windows tray application that connects Bluetooth audio devices. Around
its device code it is held together by small coordination protocols: request machines, publication
fences, coalescers, gates, wakeups, a framed command protocol, and an audit script that looks for
calls made under a lock. Each is a few dozen lines long and has to be right under every history of
calls or every interleaving of threads. This project models them in Dafny and proves what they are
for.

Every component is a module. Objects with mutable fields are classes whose methods follow the source
statement by statement; a ghost history or run records what was done to the object, and the contract
of a method says that the fields are the result of that history. The theorems then quantify over all
histories, or, for code used by several threads, over all interleavings of its atomic steps.

| module | what it models |
|---|---|
| `StartupRequests` | the latest-intent request machine: two slots for an unbounded stream of requests |
| `StartupCoordinator` | its owner: the operations it runs, the published snapshot, what is committed, shutdown at any point |
| `StartupExhaustion` | when the snapshot's `busy` stops telling the truth |
| `PublicationFence` | generation counters that decide whether a queued device fact is still current |
| `RefreshCoalescer` | the flag coalescer with any number of requesters, drain chains and a canceller |
| `RefreshScheduler` | its real client: tickets, dispatcher, retry timer, failing renders, shutdown |
| `RefreshDelivery` | what the scheduler is for: every single request is shown |
| `RefreshTickets`, `RefreshShutdown` | how work moves on inside it, and what shutdown achieves |
| `UiActionGate` | a claim/cancel/complete race over two atomic cells, one atomic operation per step |
| `SettingsWakeup` | a condition-variable wakeup with a wrapping version, deadlines and an entry gate |
| `SettingsLimits` | UTF-16 validation and truncation against the encoding of RFC 2781 |
| `WireFormat`, `CommandProtocol`, `CommandPipe` | struct layout, request and response frames, fragmented reads |
| `ControlSelectors` | the alias payload grammar and the way from a valid request to a typed selector |
| `TargetMatcher` | the four-pass ranked search for a device |
| `CallChains`, `HeldLocks` | the two algorithms of the lock audit |

Check everything with `dafny verify dfyconfig.toml`.

## Where the code and its promises differ

The models follow the code. Some statements that one might expect do not hold of it; for each there is
the exact condition under which it does:

* `SettingsStoreWakeup` asks that a notification between `Version()` and `Wait()` be retained. The
  version is 64 bits wide and wraps, so `DecidedByNotifications` shows that a wait without a deadline
  ignores the notifications exactly if their number is a multiple of 2^64; `WrapLosesNotifications`
  gives such a run, and `NotificationIsRetained` is the promise for fewer.
* `Failed` from `CurrentResult` is not final, unlike `Failed` from `CancelOrClassify`:
  `PollMayFailThenSucceed` is a run in which the action succeeds afterwards, and
  `PollFailedIsFinalIff` shows that it is final exactly if the phase is not `Pending`.
* A dispatcher that posts a refresh task and throws all the same leaves two carriers of one drain:
  `ThrowingDispatchDoubles` is such a run of four steps, and `OneCarrierIffWellBehaved` shows that this
  is the only way to get more than one. No refresh is lost either way (`NoRefreshIsLost`,
  `RequestCanBeShown`).
* The snapshot of the startup task should be busy exactly while an operation is running. A request that
  finds no revision left, and cannot be merged, while an operation is in flight makes the machine give
  that operation up without anything being published. `BreaksIff` and `BusyMatchesIff` show that these
  requests, and no others, part the snapshot from the machine; `StuckUntilStopped` that it then stays as
  it is until shutdown; `BusyTellsTheTruthIff` that it is wrong about the operations running exactly if
  the one running then has finished; and `ExhaustionLeavesBusy` is a history of 2^64 requests and one
  completion that ends so.
* A comment in `ControlCommandAdapter.cpp` (lines 113-115) says that selector construction is stricter
  than the wire rules. It is not: `ValidRequestsHaveSelectors` shows that every valid request for a
  command with a target has its selector, so the rejection at line 127 is never reached.

## Model

| member | source | states |
|---|---|---|
| `StartupRequests.LatestStartupTaskRequestState.RequestDesired` | AudioPlaybackConnector2/include/app/LatestStartupTaskRequestState.hpp:39-47 | fields and answer are those of the recorded history extended by this call |
| `StartupRequests.LatestStartupTaskRequestState.RequestRefresh` | AudioPlaybackConnector2/include/app/LatestStartupTaskRequestState.hpp:49-57 | fields and answer are those of the recorded history extended by this call |
| `StartupRequests.LatestStartupTaskRequestState.Complete` | AudioPlaybackConnector2/include/app/LatestStartupTaskRequestState.hpp:59-72 | fields and answer are those of the recorded history extended by this call, for any token whatever |
| `StartupRequests.LatestStartupTaskRequestState.RecordRequest` | AudioPlaybackConnector2/include/app/LatestStartupTaskRequestState.hpp:75-91 | the whole new state, including the exhausted one at revision 2^64 - 1 |
| `StartupRequests.EveryHistoryKeepsInv` | AudioPlaybackConnector2/include/app/LatestStartupTaskRequestState.hpp:39-97 | in every history an operation is in flight exactly if the latest request exists and is unsettled; exhaustion clears all slots |
| `StartupRequests.SingleFlight` | AudioPlaybackConnector2/include/app/LatestStartupTaskRequestState.hpp:39-91 | at most one started operation is not yet completed; until revisions run out there is one exactly while the latest request is unsettled, and afterwards exactly if one was in flight when they ran out |
| `StartupRequests.CompletionAlwaysFindsLatest` | AudioPlaybackConnector2/include/app/LatestStartupTaskRequestState.hpp:69-69 | the fallthrough for a missing latest request is unreachable |
| `StartupRequests.StartsIncrease` | AudioPlaybackConnector2/include/app/LatestStartupTaskRequestState.hpp:59-91 | revisions of started operations strictly increase over every history |
| `StartupRequests.PublicationsIncrease` | AudioPlaybackConnector2/include/app/LatestStartupTaskRequestState.hpp:59-72 | published revisions strictly increase, so each is published at most once |
| `StartupRequests.AcceptedOnce` | AudioPlaybackConnector2/include/app/LatestStartupTaskRequestState.hpp:59-72 | once a token was accepted as complete, every later completion with it is stale |
| `StartupRequests.LatestIsLastRecorded` | AudioPlaybackConnector2/include/app/LatestStartupTaskRequestState.hpp:59-91 | the latest slot is the last request recorded in the history unless it was published without being retained; the revision counts the recordings |
| `StartupRequests.PublishesLastRecorded` | AudioPlaybackConnector2/include/app/LatestStartupTaskRequestState.hpp:59-72 | a completion publishes if and only if its operation is in flight and no newer request was recorded after it |
| `StartupRequests.CoalescesExactly` | AudioPlaybackConnector2/include/app/LatestStartupTaskRequestState.hpp:39-57 | a refresh is merged exactly while an operation is outstanding, a desired state exactly while the last recorded request asks for it and is remembered; a merged request is accepted and told the revision of the request it joins |
| `StartupRequests.AcceptsExactly` | AudioPlaybackConnector2/include/app/LatestStartupTaskRequestState.hpp:39-91 | a request is refused exactly if revisions are used up with it, and otherwise told the revision of the last recorded request |
| `StartupRequests.IntentIsKept` | AudioPlaybackConnector2/include/app/LatestStartupTaskRequestState.hpp:39-91 | an unsettled desired intent is displaced only by the opposite desired intent, never by a refresh |
| `StartupRequests.Converges` | AudioPlaybackConnector2/include/app/LatestStartupTaskRequestState.hpp:59-72 | once requests stop, any completions, stale ones included, count down from at most two to idle |
| `StartupRequests.OnlyLatestIsPublished` | AudioPlaybackConnector2/include/app/LatestStartupTaskRequestState.hpp:59-72 | of the completions that follow, only the last recorded request is published |
| `StartupRequests.CanFinish` | AudioPlaybackConnector2/include/app/LatestStartupTaskRequestState.hpp:59-72 | from every history with work outstanding, at most two completions reach idle and the last publishes the latest request |
| `StartupRequests.ExhaustionIsAbsorbing` | AudioPlaybackConnector2/include/app/LatestStartupTaskRequestState.hpp:40-81 | exhaustion comes only after 2^64 - 1 recorded requests, never wraps, and refuses every later call |
| `StartupRequests.FlightMoves` | AudioPlaybackConnector2/include/app/LatestStartupTaskRequestState.hpp:39-91 | a call starts an operation exactly if the slot takes a new one, and the one in flight leaves the slot only by its own completion or when revisions run out |
| `StartupRequests.RunsOutIff` | AudioPlaybackConnector2/include/app/LatestStartupTaskRequestState.hpp:39-81 | revisions run out exactly at a request that is not merged when the counter is at its maximum |
| `StartupCoordinator.StartupTaskCoordinator.Publish` | AudioPlaybackConnector2/src/app/StartupTaskCoordinator.cpp:99-108 | a stopped coordinator publishes nothing, otherwise the snapshot under the next publication number |
| `StartupCoordinator.StartupTaskCoordinator.Request` | AudioPlaybackConnector2/src/app/StartupTaskCoordinator.cpp:157-170 | the whole new state, and the operation started, as the value model of the item gives them |
| `StartupCoordinator.StartupTaskCoordinator.Complete` | AudioPlaybackConnector2/src/app/StartupTaskCoordinator.cpp:181-228 | the whole new state, the operation started and the state committed, as the value model of the item gives them |
| `StartupCoordinator.StartupTaskCoordinator.RunRequest` | AudioPlaybackConnector2/src/app/StartupTaskCoordinator.cpp:57-61 | fields and started operation are those of the recorded history extended by this item; nothing once stopped |
| `StartupCoordinator.StartupTaskCoordinator.RunCompletion` | AudioPlaybackConnector2/src/app/StartupTaskCoordinator.cpp:57-61 | fields, started operation and committed state are those of the recorded history extended by this item; nothing once stopped |
| `StartupCoordinator.StartupTaskCoordinator.Stop` | AudioPlaybackConnector2/src/app/StartupTaskCoordinator.cpp:140-149 | fields are those of the recorded history extended by a shutdown |
| `StartupCoordinator.MachineFollowsCalls` | AudioPlaybackConnector2/src/app/StartupTaskCoordinator.cpp:157-206 | the machine inside is in the state reached by the calls of the items run, so the theorems about its histories apply |
| `StartupCoordinator.EveryHistoryIsCoherent` | AudioPlaybackConnector2/src/app/StartupTaskCoordinator.cpp:157-228 | until shutdown the snapshot carries the latest revision, shows the confirmed state at rest and the desired one as unknown while it is brought about, and is busy exactly while an operation is in flight unless revisions have run out |
| `StartupCoordinator.StartsExactly` | AudioPlaybackConnector2/src/app/StartupTaskCoordinator.cpp:169-227 | an operation is started exactly if the slot takes a new one and shutdown has not come before |
| `StartupCoordinator.OperationsAreTracked` | AudioPlaybackConnector2/src/app/StartupTaskCoordinator.cpp:157-228 | the operations started and not finished are exactly the one in flight, and never more than one, also after shutdown and exhaustion |
| `StartupCoordinator.RequestIsAnnouncedIff` | AudioPlaybackConnector2/src/app/StartupTaskCoordinator.cpp:157-168 | a request changes the snapshot exactly if a revision was left and it is not merged: a refresh merges while the snapshot is busy, a desired state while the last recorded request asks for it and the snapshot does not say failed |
| `StartupCoordinator.AnnouncementTells` | AudioPlaybackConnector2/src/app/StartupTaskCoordinator.cpp:160-168 | the announcement has the next revision, is busy and not failed, and shows a desired state as not known |
| `StartupCoordinator.MergedStateIsShown` | AudioPlaybackConnector2/src/app/StartupTaskCoordinator.cpp:157-159 | a desired state is merged only where the snapshot shows it already, under way or confirmed |
| `StartupCoordinator.CompletionIsPublishedIff` | AudioPlaybackConnector2/src/app/StartupTaskCoordinator.cpp:181-226 | a completion changes the snapshot exactly if it belongs to the last recorded request in flight; it then shows what was found, or else what was committed last, and failed exactly if unknown or not the desired state |
| `StartupCoordinator.CommitsExactly` | AudioPlaybackConnector2/src/app/StartupTaskCoordinator.cpp:204-217 | committed is the state found by the operation of the last recorded request, and nothing else, unless shutdown comes before |
| `StartupCoordinator.ConfirmedIsLastCommitted` | AudioPlaybackConnector2/src/app/StartupTaskCoordinator.cpp:207-218 | until shutdown a state counts as confirmed exactly if it is the one committed last; what a stale or superseded operation found never does |
| `StartupCoordinator.RestShowsLastCommitted` | AudioPlaybackConnector2/src/app/StartupTaskCoordinator.cpp:219-225 | at rest the snapshot shows the state committed last, and none before the first |
| `StartupCoordinator.EveryHistoryRemembers` | AudioPlaybackConnector2/src/app/StartupTaskCoordinator.cpp:203-206 | until revisions are used up, the last recorded request is kept for merging while it is worked on, and at rest exactly if it was a refresh or its desired state was found |
| `StartupCoordinator.ChangesAreNumbered` | AudioPlaybackConnector2/src/app/StartupTaskCoordinator.cpp:102-149 | a changed snapshot always has a new publication number |
| `StartupCoordinator.CanSettle` | AudioPlaybackConnector2/src/app/StartupTaskCoordinator.cpp:203-228 | from every busy state before shutdown and exhaustion, finishing one or two operations leaves none running and the snapshot at rest with the last request's outcome committed |
| `StartupCoordinator.StopIsFinal` | AudioPlaybackConnector2/src/app/StartupTaskCoordinator.cpp:41-149 | wherever shutdown strikes, the snapshot is not busy and never changes again, and nothing is started or committed |
| `StartupCoordinator.ShutdownInsideItem` | AudioPlaybackConnector2/src/app/StartupTaskCoordinator.cpp:99-103 | shutdown inside an item shows as one before it if nothing was published yet, and otherwise as one after it that starts nothing |
| `StartupCoordinator.ShutdownClearsBusy` | AudioPlaybackConnector2/src/app/StartupTaskCoordinator.cpp:144-149 | shutdown changes nothing in the snapshot but busy, and numbers that change |
| `StartupExhaustion.BreaksIff` | AudioPlaybackConnector2/src/app/StartupTaskCoordinator.cpp:157-159 | an item parts the snapshot's busy from the slot in flight if and only if it is a request that cannot be merged at revision 2^64 - 1 with an operation in flight |
| `StartupExhaustion.BusyMatchesIff` | AudioPlaybackConnector2/src/app/StartupTaskCoordinator.cpp:157-228 | until shutdown the snapshot is busy exactly while an operation is in flight if and only if no such request was made |
| `StartupExhaustion.BusyTellsTheTruthIff` | AudioPlaybackConnector2/src/app/StartupTaskCoordinator.cpp:157-228 | until shutdown the snapshot is busy exactly while an operation is running if and only if no such request was made or the operation running then has not finished |
| `StartupExhaustion.StuckUntilStopped` | AudioPlaybackConnector2/src/app/StartupTaskCoordinator.cpp:157-228 | once revisions have run out nothing changes, starts or is committed until shutdown |
| `StartupExhaustion.ExhaustionLeavesBusy` | AudioPlaybackConnector2/src/app/StartupTaskCoordinator.cpp:157-159 | a history that uses up the revisions and leaves the snapshot busy with nothing running |
| `PublicationFence.DeviceFactPublicationFence.Observe` | AudioPlaybackConnector2/include/app/DeviceFactPublicationFence.hpp:39-50 | the tokens handed out carry the device's own change counts, saturated; the previous facts are the last ones observed for it |
| `PublicationFence.DeviceFactPublicationFence.IsCurrent` | AudioPlaybackConnector2/include/app/DeviceFactPublicationFence.hpp:52-58 | the answer is the one that the replayed history determines |
| `PublicationFence.EntryMatchesHistory` | AudioPlaybackConnector2/include/app/DeviceFactPublicationFence.hpp:61-87 | after every history a device's entry is a function of its own observations alone: last status, saturated change counts, exhausted exactly after 2^64 - 1 changes |
| `PublicationFence.ChannelsAreCoupled` | AudioPlaybackConnector2/include/app/DeviceFactPublicationFence.hpp:69-87 | connectedness equals status Connected, the connection generation never exceeds the status generation, and its parity is the connectedness until exhaustion |
| `PublicationFence.TokenIsCurrentIff` | AudioPlaybackConnector2/include/app/DeviceFactPublicationFence.hpp:39-87 | a token of observation i is current after observation j if and only if every later fact of that device agrees with it on its channel and the device is not exhausted |
| `PublicationFence.NeverRevived` | AudioPlaybackConnector2/include/app/DeviceFactPublicationFence.hpp:52-87 | a token once out of date stays so, also when the same fact returns and across saturation |
| `PublicationFence.StatusImpliesConnection` | AudioPlaybackConnector2/include/app/DeviceFactPublicationFence.hpp:39-58 | a current status token implies that its companion connection token is current |
| `RefreshCoalescer.UiRefreshCoalescer.Request` | AudioPlaybackConnector2/include/app/UiRefreshCoalescer.hpp:16-25 | the whole new state and whether the caller must start a chain |
| `RefreshCoalescer.UiRefreshCoalescer.BeginDrain` | AudioPlaybackConnector2/include/app/UiRefreshCoalescer.hpp:27-32 | takes all pending flags and nothing else |
| `RefreshCoalescer.UiRefreshCoalescer.CompleteDrain` | AudioPlaybackConnector2/include/app/UiRefreshCoalescer.hpp:34-42 | the whole new state and whether the chain goes on |
| `RefreshCoalescer.UiRefreshCoalescer.Cancel` | AudioPlaybackConnector2/include/app/UiRefreshCoalescer.hpp:44-49 | the whole new state |
| `RefreshCoalescer.PendingHasOneChain` | AudioPlaybackConnector2/include/app/UiRefreshCoalescer.hpp:16-49 | under every interleaving there is at most one drain chain, and pending flags have exactly one |
| `RefreshCoalescer.ChainEndsOnlyWhenDone` | AudioPlaybackConnector2/include/app/UiRefreshCoalescer.hpp:34-42 | a chain ends only with nothing pending and goes on only to a pass with work |
| `RefreshCoalescer.EveryPassHasWork` | AudioPlaybackConnector2/include/app/UiRefreshCoalescer.hpp:27-42 | short of cancellation no drain pass is empty |
| `RefreshCoalescer.PutBackNeverSchedules` | AudioPlaybackConnector2/src/app/UiRefreshScheduler.cpp:102-104 | the answer that the scheduler discards when it puts flags back is always false |
| `RefreshCoalescer.PassReceivesWhatWasAsked` | AudioPlaybackConnector2/include/app/UiRefreshCoalescer.hpp:16-32 | a pass receives exactly the union of the requests since the previous pass, or nothing after cancellation |
| `RefreshCoalescer.RequestReachesPass` | AudioPlaybackConnector2/include/app/UiRefreshCoalescer.hpp:16-42 | a flag asked for at any step is pending or was handed to a pass that began after that step |
| `RefreshCoalescer.FlagsAreConserved` | AudioPlaybackConnector2/include/app/UiRefreshCoalescer.hpp:16-42 | what was asked for is what was drained together with what is pending, and each request for itself is pending or was drained after it |
| `RefreshCoalescer.IdleMeansDelivered` | AudioPlaybackConnector2/include/app/UiRefreshCoalescer.hpp:34-42 | when no chain is live, every single request was drained by a pass that began after it |
| `RefreshCoalescer.NothingAfterCancel` | AudioPlaybackConnector2/include/app/UiRefreshCoalescer.hpp:44-49 | after cancellation nothing is accepted, scheduled or drained for the rest of the run |
| `RefreshScheduler.NoRefreshIsLost` | AudioPlaybackConnector2/src/app/UiRefreshScheduler.cpp:36-109 | until stopped, pending flags always have an armed timer, a task with the current ticket or a thread that will drain them, whatever dispatcher and renderer do |
| `RefreshDelivery.EveryFlagIsAccountedFor` | AudioPlaybackConnector2/src/app/UiRefreshScheduler.cpp:93-109 | a flag requested at any step is, at every later moment until shutdown, pending, in the hands of a pass begun after the request, shown by such a pass, or dropped by one that failed, the last only outside the retry mask |
| `RefreshDelivery.PassBegan` | AudioPlaybackConnector2/src/app/UiRefreshScheduler.cpp:93-97 | the pass with a given number was begun by a step that took the flags pending there, and comes after a request exactly if its number is not below the passes begun before it |
| `RefreshDelivery.OnlyRequestedIsShown` | AudioPlaybackConnector2/src/app/UiRefreshScheduler.cpp:93-109 | what is pending or being rendered was requested before |
| `RefreshDelivery.PendingExactly` | AudioPlaybackConnector2/src/app/UiRefreshScheduler.cpp:93-104 | until cancellation a flag is pending exactly if, since the last pass began, it was requested or a rendering of it failed before shutdown and it is in the retry mask |
| `RefreshDelivery.OutsideMaskIsAskedAnew` | AudioPlaybackConnector2/src/app/UiRefreshScheduler.cpp:102-102 | a flag outside the retry mask is rendered only by a pass before which it was requested again after every earlier pass had begun |
| `RefreshDelivery.RestMeansShown` | AudioPlaybackConnector2/src/app/UiRefreshScheduler.cpp:93-109 | with no carrier left, every request for a flag in the retry mask was shown by a pass begun after it |
| `RefreshDelivery.PendingCanBeShown` | AudioPlaybackConnector2/src/app/UiRefreshScheduler.cpp:36-109 | from every unstopped state of every run at most nine steps lead to a successful rendering of all pending flags by a new pass |
| `RefreshDelivery.RequestCanBeShown` | AudioPlaybackConnector2/src/app/UiRefreshScheduler.cpp:36-109 | until shutdown every request can still be shown by a pass begun after it, unless one failed and its flag is not retried |
| `RefreshScheduler.ExactlyOneCarrier` | AudioPlaybackConnector2/src/app/UiRefreshScheduler.cpp:70-109 | with a dispatcher that never posts and throws, exactly one carrier exists while a drain is reserved and no render is empty |
| `RefreshScheduler.OneCarrierIffWellBehaved` | AudioPlaybackConnector2/src/app/UiRefreshScheduler.cpp:70-91 | there is one carrier at every moment if and only if no dispatch posted its task and threw |
| `RefreshScheduler.ThrowingDispatchDoubles` | AudioPlaybackConnector2/src/app/UiRefreshScheduler.cpp:70-91 | a run of four steps that ends with two carriers |
| `RefreshTickets.TicketExactly` | AudioPlaybackConnector2/src/app/UiRefreshScheduler.cpp:72-87 | a ticket is the queued one exactly from its publication until another is published, its own thread or task withdraws it, or shutdown does |
| `RefreshTickets.TaskIsAdmittedIff` | AudioPlaybackConnector2/src/app/UiRefreshScheduler.cpp:78-80 | a queued task is let in exactly if its ticket is still the published one and nothing was stopped |
| `RefreshTickets.TicketAdmitsOnce` | AudioPlaybackConnector2/src/app/UiRefreshScheduler.cpp:78-80 | one publication of a ticket lets in at most one task |
| `RefreshTickets.TicketsAreNumbered` | AudioPlaybackConnector2/src/app/UiRefreshScheduler.cpp:72-72 | tickets are numbered in the order drawn modulo 2^64 |
| `RefreshTickets.EntriesAreCaused` | AudioPlaybackConnector2/src/app/UiRefreshScheduler.cpp:93-109 | in every run each entry into the queue has its own cause: a request that reserves the drain, the timer, or a successful rendering that left flags |
| `RefreshTickets.FailureWaitsForTimer` | AudioPlaybackConnector2/src/app/UiRefreshScheduler.cpp:102-108 | after a failed rendering, while the drain stays reserved, nobody queues before the timer has fired |
| `RefreshShutdown.NothingStartsOnceStopped` | AudioPlaybackConnector2/src/app/UiRefreshScheduler.cpp:57-82 | once stopped no ticket is drawn and no task is admitted, so only passes admitted before may still begin |
| `RefreshShutdown.TicketIsWithdrawn` | AudioPlaybackConnector2/src/app/UiRefreshScheduler.cpp:57-79 | after shutdown has withdrawn the ticket, only a thread that had drawn one before may publish it |
| `RefreshShutdown.CancelIsFinal` | AudioPlaybackConnector2/src/app/UiRefreshScheduler.cpp:60-104 | after cancellation nothing is pending, every pass takes no flags and no chain is started or continued |
| `RefreshShutdown.TimerStaysOff` | AudioPlaybackConnector2/src/app/UiRefreshScheduler.cpp:48-66 | after its disposal the timer is never armed again |
| `RefreshShutdown.NoPassIsClosedAnew` | AudioPlaybackConnector2/src/app/UiRefreshScheduler.cpp:101-101 | a rendering that ends after shutdown ends its thread |
| `UiActionGate.ControlUiActionGate.TryBegin` | AudioPlaybackConnector2/include/control/ControlUiActionGate.hpp:14-17 | one compare-exchange appended to the run; the answer says whether this activity won |
| `UiActionGate.ControlUiActionGate.Complete` | AudioPlaybackConnector2/include/control/ControlUiActionGate.hpp:19-22 | two stores appended to the run, flag before phase |
| `UiActionGate.ControlUiActionGate.CancelOrClassify` | AudioPlaybackConnector2/include/control/ControlUiActionGate.hpp:24-28 | an exchange and, if needed, a load appended to the run; the result is what the last of them settles |
| `UiActionGate.ControlUiActionGate.CurrentResult` | AudioPlaybackConnector2/include/control/ControlUiActionGate.hpp:30-30 | a load and, if needed, a second one appended to the run; the result is what the last of them settles |
| `UiActionGate.ControlUiActionGate.Classify` | AudioPlaybackConnector2/include/control/ControlUiActionGate.hpp:34-37 | the classification of the loaded phase, reading the flag only for Completed |
| `UiActionGate.EveryRunKeepsInv` | AudioPlaybackConnector2/include/control/ControlUiActionGate.hpp:14-40 | at most one activity is busy, only while running, and a stored flag is its own |
| `UiActionGate.OneWinner` | AudioPlaybackConnector2/include/control/ControlUiActionGate.hpp:14-28 | of all claims and cancellations in a run at most one succeeds |
| `UiActionGate.PhaseTells` | AudioPlaybackConnector2/include/control/ControlUiActionGate.hpp:11-28 | the phase says exactly who won and whether the winner has completed |
| `UiActionGate.CancelFailedMeansNeverRuns` | AudioPlaybackConnector2/include/control/ControlUiActionGate.hpp:24-28 | Failed from the exchange means that the action is claimed nowhere in the run |
| `UiActionGate.IndeterminateMeansRunning` | AudioPlaybackConnector2/include/control/ControlUiActionGate.hpp:24-37 | Indeterminate means claimed before and not completed at that operation |
| `UiActionGate.ReadsWinnersValue` | AudioPlaybackConnector2/include/control/ControlUiActionGate.hpp:19-37 | a result read from the flag is the value the winner itself stored, the only one stored in the run |
| `UiActionGate.WinnerIsFirst` | AudioPlaybackConnector2/include/control/ControlUiActionGate.hpp:14-28 | the winner is the first claim or cancellation among the operations |
| `UiActionGate.AnswerIsSettledIff` | AudioPlaybackConnector2/include/control/ControlUiActionGate.hpp:24-37 | an answer is settled by the load of the flag, or at once unless the action had completed |
| `UiActionGate.AnswersTell` | AudioPlaybackConnector2/include/control/ControlUiActionGate.hpp:24-37 | read off the operations alone: Succeeded iff the winner stored true and completed before, Indeterminate iff an action was claimed and not completed, Failed iff nobody had won, the cancellation had, or the winner stored false and completed |
| `UiActionGate.SucceededIsPermanent` | AudioPlaybackConnector2/include/control/ControlUiActionGate.hpp:30-37 | after Succeeded every later result is Succeeded |
| `UiActionGate.PollFailedIsFinalIff` | AudioPlaybackConnector2/include/control/ControlUiActionGate.hpp:30-37 | Failed from a poll rules the action out in every continuation if and only if the phase is not Pending |
| `UiActionGate.PollMayFailThenSucceed` | AudioPlaybackConnector2/include/control/ControlUiActionGate.hpp:30-37 | a run in which a poll answers Failed and a later one Succeeded |
| `SettingsWakeup.ManualSettingsWakeup.Notify` | AudioPlaybackConnector2.CoreTests/src/ManualSettingsWakeup.hpp:30-36 | a bump and a notify_all appended to the run; the version one higher modulo 2^64 and the clock as before |
| `SettingsWakeup.ManualSettingsWakeup.Advance` | AudioPlaybackConnector2.CoreTests/src/ManualSettingsWakeup.hpp:59-68 | a bump and a notify_all appended to the run; the clock moved by the amount, the version one higher modulo 2^64 and returned |
| `SettingsWakeup.ManualSettingsWakeup.BlockNextWait` | AudioPlaybackConnector2.CoreTests/src/ManualSettingsWakeup.hpp:69-72 | the gate set for the next wait |
| `SettingsWakeup.ManualSettingsWakeup.EnterWait` | AudioPlaybackConnector2.CoreTests/src/ManualSettingsWakeup.hpp:37-52 | the wait is held at the gate, returns or parks |
| `SettingsWakeup.ManualSettingsWakeup.PassGate` | AudioPlaybackConnector2.CoreTests/src/ManualSettingsWakeup.hpp:39-52 | after the gate the wait returns or parks |
| `SettingsWakeup.ManualSettingsWakeup.Decide` | AudioPlaybackConnector2.CoreTests/src/ManualSettingsWakeup.hpp:45-51 | returns if ready, otherwise records the wait and parks |
| `SettingsWakeup.ManualSettingsWakeup.Recheck` | AudioPlaybackConnector2.CoreTests/src/ManualSettingsWakeup.hpp:51-52 | after a wake the wait returns and clears its flag, or parks again |
| `SettingsWakeup.ManualSettingsWakeup.SeesParked` | AudioPlaybackConnector2.CoreTests/src/ManualSettingsWakeup.hpp:73-78 | holds exactly if a wait with that deadline and at least that version is parked or just woken |
| `SettingsWakeup.WaitIsRecorded` | AudioPlaybackConnector2.CoreTests/src/ManualSettingsWakeup.hpp:47-52 | the flag and the two recorded fields describe the parked or woken wait exactly |
| `SettingsWakeup.GateHoldsOneWait` | AudioPlaybackConnector2.CoreTests/src/ManualSettingsWakeup.hpp:39-44 | a gate holds up exactly the first wait that enters after it was set |
| `SettingsWakeup.ReadyHasNotifier` | AudioPlaybackConnector2.CoreTests/src/ManualSettingsWakeup.hpp:30-53 | a parked waiter whose condition holds always has a notify_all still to come |
| `SettingsWakeup.QuietMeansRightlyAsleep` | AudioPlaybackConnector2/include/core/SettingsStoreWakeup.hpp:21-23 | once every notifier has finished, a parked waiter's version is unchanged and its deadline not reached |
| `SettingsWakeup.ReadyWaiterCanReturn` | AudioPlaybackConnector2.CoreTests/src/ManualSettingsWakeup.hpp:30-53 | the pending notify_all and one recheck make a ready waiter return |
| `SettingsWakeup.VersionCountsBumps` | AudioPlaybackConnector2.CoreTests/src/ManualSettingsWakeup.hpp:33-64 | the version advances by the number of notifications modulo 2^64 |
| `SettingsWakeup.ClockCountsAmounts` | AudioPlaybackConnector2.CoreTests/src/ManualSettingsWakeup.hpp:59-63 | the clock starts at zero and is moved by the amounts advanced and by nothing else |
| `SettingsWakeup.DecidedByNotifications` | AudioPlaybackConnector2.CoreTests/src/ManualSettingsWakeup.hpp:37-53 | a wait on a version read earlier returns if and only if the amounts advanced so far reach its deadline or the notifications since are not a multiple of 2^64, with or without the gate |
| `SettingsWakeup.NotificationIsRetained` | AudioPlaybackConnector2/include/core/SettingsStoreWakeup.hpp:21-23 | between one and 2^64 - 1 notifications after the read are never lost: no decision parks and a parked waiter has a notify_all coming |
| `SettingsWakeup.WrapLosesNotifications` | AudioPlaybackConnector2.CoreTests/src/ManualSettingsWakeup.hpp:26-53 | a run of exactly 2^64 notifications after which a wait parks with nobody to wake it |
| `SettingsLimits.DecodeEncode` | AudioPlaybackConnector2/include/core/SettingsLimits.hpp:30-46 | decoding undoes encoding |
| `SettingsLimits.EncodeDecode` | AudioPlaybackConnector2/include/core/SettingsLimits.hpp:30-46 | encoding undoes decoding |
| `SettingsLimits.DecodesExactlyEncodings` | AudioPlaybackConnector2/include/core/SettingsLimits.hpp:30-46 | units decode to a text if and only if they are its encoding, so the text is unique |
| `SettingsLimits.IsValidUtf16` | AudioPlaybackConnector2/include/core/SettingsLimits.hpp:30-46 | accepts exactly the encodings of sequences of Unicode scalar values |
| `SettingsLimits.IsBoundedUtf16` | AudioPlaybackConnector2/include/core/SettingsLimits.hpp:48-50 | accepts exactly encodings of scalar values within the limit in which no unit is zero |
| `SettingsLimits.TruncateUtf16` | AudioPlaybackConnector2/include/core/SettingsLimits.hpp:57-65 | bounded for every input; the longest valid prefix within the limit and at most one unit short of it for valid text, empty otherwise |
| `SettingsLimits.PrefixIsValidIff` | AudioPlaybackConnector2/include/core/SettingsLimits.hpp:59-63 | a prefix of valid text is valid exactly if it does not end in a high surrogate |
| `SettingsLimits.TruncationIsDetermined` | AudioPlaybackConnector2/include/core/SettingsLimits.hpp:57-65 | the longest valid prefix is unique |
| `SettingsLimits.TruncationIsIdempotent` | AudioPlaybackConnector2/include/core/SettingsLimits.hpp:57-65 | truncating a result again at its limit changes nothing |
| `SettingsLimits.TruncationKeepsWholeScalars` | AudioPlaybackConnector2/include/core/SettingsLimits.hpp:57-65 | what is kept are leading whole scalar values, as many as fit |
| `WireFormat.UnpackUndoesPack` | AudioPlaybackConnector2/include/control/CommandProtocol.hpp:85-114 | struct fields survive the trip to bytes and back |
| `WireFormat.PackUndoesUnpack` | AudioPlaybackConnector2/include/control/CommandProtocol.hpp:85-114 | every byte image is the image of exactly its fields |
| `WireFormat.ByteAt` | AudioPlaybackConnector2/include/control/CommandProtocol.hpp:85-114 | a number is stored with its least significant byte first |
| `WireFormat.FieldAt` | AudioPlaybackConnector2/include/control/CommandProtocol.hpp:85-114 | each field stands at the sum of the sizes before it, without padding |
| `WireFormat.UnitAt` | AudioPlaybackConnector2/src/control/CommandPipeIo.cpp:144-173 | each UTF-16 unit takes two bytes, the low one first |
| `CommandProtocol.Sizes` | AudioPlaybackConnector2/include/control/CommandProtocol.hpp:112-114 | the three structs are 40, 32 and 24 bytes long |
| `CommandProtocol.KnownValues` | AudioPlaybackConnector2/include/control/CommandProtocol.hpp:138-151 | the range checks accept exactly the commands, targets and exit codes that are named |
| `CommandProtocol.KnownFlagsByBits` | AudioPlaybackConnector2/include/control/CommandProtocol.hpp:156-156 | flags are known exactly if no bit but the lowest two is set |
| `CommandProtocol.RequestHeaderBytes` | AudioPlaybackConnector2/include/control/CommandProtocol.hpp:85-94 | the byte offset of every field of a request header |
| `CommandProtocol.ResponseHeaderBytes` | AudioPlaybackConnector2/include/control/CommandProtocol.hpp:96-103 | the byte offset of every field of a response header |
| `CommandProtocol.PayloadByteCount` | AudioPlaybackConnector2/include/control/CommandProtocol.hpp:197-202 | defined exactly up to the payload limit, then the valid 32-bit length of the payload's bytes |
| `CommandProtocol.AcknowledgementRoundTrip` | AudioPlaybackConnector2/include/control/CommandProtocol.hpp:225-228 | a written acknowledgement is accepted exactly for the same correlation id |
| `CommandProtocol.AcknowledgementAcceptedIff` | AudioPlaybackConnector2/include/control/CommandProtocol.hpp:105-228 | of all 24 bytes a reader may get it accepts exactly one sequence, given byte by byte |
| `CommandProtocol.ValidRequestsAreWritten` | AudioPlaybackConnector2/src/control/CommandPipeIo.cpp:158-173 | a request is written exactly if it is valid, under a header the reader accepts |
| `CommandProtocol.ResponsesAreWrittenIff` | AudioPlaybackConnector2/include/control/CommandProtocol.hpp:211-223 | a response is written exactly if it has a correlation id, a known code and at most 65536 bytes of text |
| `CommandProtocol.WrongStartIsRejected` | AudioPlaybackConnector2/include/control/CommandProtocol.hpp:204-209 | a stream that does not start with the magic and version of its kind is rejected |
| `CommandProtocol.ParseWritten` | AudioPlaybackConnector2/src/control/CommandPipeIo.cpp:137-173 | a written request followed by anything is read back with the rest untouched |
| `CommandProtocol.RequestFramesExactly` | AudioPlaybackConnector2/src/control/CommandPipeIo.cpp:137-173 | a stream parses to a request and a rest if and only if it is that request's frame followed by the rest |
| `CommandProtocol.ResponseFramesExactly` | AudioPlaybackConnector2/src/control/CommandPipeIo.cpp:175-203 | the same for responses and their 32-byte header |
| `CommandProtocol.PartOfFrameNeedsMore` | AudioPlaybackConnector2/src/control/CommandPipeIo.cpp:137-156 | an incomplete frame is neither accepted nor rejected |
| `CommandProtocol.StreamSplitsUniquely` | AudioPlaybackConnector2/src/control/CommandPipeIo.cpp:137-173 | concatenated frames split into exactly the requests written and in no other way |
| `CommandPipe.Pipe.ReadExact` | AudioPlaybackConnector2/src/control/CommandPipeIo.cpp:59-130 | delivers exactly the next bytes however they are fragmented, or the status of the outage that came first |
| `CommandPipe.ScriptMeans` | AudioPlaybackConnector2/src/control/CommandPipeIo.cpp:59-130 | the fragments up to the first outage are available however cut, and the outage is what a reader of more meets |
| `CommandPipe.Pipe.ReadRequest` | AudioPlaybackConnector2/src/control/CommandPipeIo.cpp:137-156 | the outcome is the parse of the available bytes, independent of fragmentation; on shortage the outage's status |
| `CommandPipe.Pipe.ReadResponse` | AudioPlaybackConnector2/src/control/CommandPipeIo.cpp:175-194 | the outcome is the parse of the available bytes, independent of fragmentation; on shortage the outage's status |
| `CommandPipe.ReadNext` | AudioPlaybackConnector2.CoreTests/src/CommandLineControlServerTests.cpp:185-208 | a read from any fragmentation of a stream returns its first request and leaves the others |
| `CommandPipe.ReadAll` | AudioPlaybackConnector2.CoreTests/src/CommandLineControlServerTests.cpp:185-208 | all requests come back in order and what follows is untouched |
| `ControlSelectors.AliasPayloadBijection` | AudioPlaybackConnector2/include/control/CommandProtocol.hpp:187-192 | valid alias payloads and pairs of target and alias correspond one to one by joining and splitting at the first newline |
| `ControlSelectors.SplitUndoesJoin` | AudioPlaybackConnector2/src/control/ControlCommandAdapter.cpp:101-111 | splitting a joined payload gives back its parts |
| `ControlSelectors.ValidRequestsHaveSelectors` | AudioPlaybackConnector2/src/control/ControlCommandAdapter.cpp:113-130 | every valid request for a command with a target has its selector, of the kind that the wire names and with the exact text |
| `ControlSelectors.ValidIffSelectable` | AudioPlaybackConnector2/include/control/CommandProtocol.hpp:153-195 | the wire grammar accepts exactly the requests whose selector exists and fits the command |
| `ControlSelectors.MakesSelectorIff` | AudioPlaybackConnector2/src/control/ControlCommandAdapter.cpp:79-95 | a wire target and a text make a selector exactly if its kind has that wire number and its text is that one, non-empty, bounded and without null, or empty for the two stateful kinds |
| `ControlSelectors.SelectorsAreFaithful` | AudioPlaybackConnector2/src/control/ControlCommandAdapter.cpp:79-95 | different targets or texts never give the same selector |
| `TargetMatcher.Collect` | AudioPlaybackConnector2/include/control/ControlTargetMatcher.hpp:29-36 | one pass lists exactly the matching candidates in ascending order |
| `TargetMatcher.FindAutoTargetMatches` | AudioPlaybackConnector2/include/control/ControlTargetMatcher.hpp:24-58 | the best attained rank and exactly the candidates whose own rank it is; equal to a single pass |
| `TargetMatcher.OnePassIsBest` | AudioPlaybackConnector2/include/control/ControlTargetMatcher.hpp:24-58 | folding the candidates one by one gives the best matches |
| `TargetMatcher.AbsorbKeepsBest` | AudioPlaybackConnector2/include/control/ControlTargetMatcher.hpp:24-58 | one more candidate leaves the result, joins it or replaces it |
| `TargetMatcher.BestIsUnique` | AudioPlaybackConnector2/include/control/ControlTargetMatcher.hpp:17-22 | the specification determines the result |
| `TargetMatcher.RankMeans` | AudioPlaybackConnector2/include/control/ControlTargetMatcher.hpp:38-57 | which candidates a query finds, character by character: same id, same alias or name, six or more hexadecimal digits in a row among those of the id, part of alias or name |
| `TargetMatcher.NormalizeListsDigits` | AudioPlaybackConnector2/include/util/Text.hpp:30-40 | normalising lists the hexadecimal digits in order, lower-cased, and nothing else |
| `TargetMatcher.HexDigitsAre` | AudioPlaybackConnector2/include/util/Text.hpp:34-35 | the 22 characters that count as hexadecimal digits |
| `CallChains.FindPaths` | scripts/audit-owner-locks.py:263-272 | returns the names along the enumerated chains, one entry per chain |
| `CallChains.NamesAlong` | scripts/audit-owner-locks.py:263-272 | an entry of the result gives the name of each call along its chain |
| `CallChains.ListsExactlyTheChains` | scripts/audit-owner-locks.py:263-272 | the chains are exactly the bounded ones through pairwise different defined functions outside `seen` to an undefined sink |
| `CallChains.ListsOnce` | scripts/audit-owner-locks.py:269-272 | no chain is listed twice |
| `CallChains.ListsInOrder` | scripts/audit-owner-locks.py:269-272 | chains are listed in the order of their call sites |
| `CallChains.SitesDetermineChain` | scripts/audit-owner-locks.py:269-272 | the call sites taken determine the chain |
| `CallChains.DeepSearchIsComplete` | scripts/audit-owner-locks.py:263-272 | with a depth above the number of definitions every acyclic chain is found, also in cyclic graphs |
| `HeldLocks.Innermost` | scripts/audit-owner-locks.py:169-172 | a shortest enclosing block, and none exactly if none encloses the lock |
| `HeldLocks.InnermostIsFirst` | scripts/audit-owner-locks.py:172-172 | among equally short blocks the first |
| `HeldLocks.SortIsStable` | scripts/audit-owner-locks.py:174-174 | the calls in source order, those at one offset in their listed order |
| `HeldLocks.ScanScope` | scripts/audit-owner-locks.py:173-183 | the scan with its flag reports what the declarative condition reports |
| `HeldLocks.GuardedCalls` | scripts/audit-owner-locks.py:167-184 | the reports are those of each lock on its own, one lock after the other |
| `HeldLocks.ReportedAtIsExact` | scripts/audit-owner-locks.py:174-183 | a call is reported exactly if it is in scope, toggles nothing and every unlock before it was followed by a relock |
| `HeldLocks.ReportedAtAscends` | scripts/audit-owner-locks.py:174-183 | reports follow source order and none is repeated |
| `HeldLocks.ReportsAreReportedCalls` | scripts/audit-owner-locks.py:183-183 | the report entries are those of the reported calls |
| `HeldLocks.LastToggleDecides` | scripts/audit-owner-locks.py:178-183 | whether a lock is held is decided by the last unlock or relock in scope |
| `HeldLocks.SortArranges` | scripts/audit-owner-locks.py:174-174 | the sorted calls are the listed ones, each once, by offset and then as listed |
| `HeldLocks.ReportsAreExact` | scripts/audit-owner-locks.py:167-183 | a lock reports exactly the listed calls made in its innermost block while it is held, in source order, each with the fields of lock and call |
| `HeldLocks.LocksAreIndependent` | scripts/audit-owner-locks.py:168-184 | the reports for two lists of locks are those for the one followed by those for the other |
| `HeldLocks.SingleLock` | scripts/audit-owner-locks.py:168-184 | a single lock has its own reports |

## Left out

- Device sessions, device service and watcher, settings store and codec, power transitions, adaptive resource policy, the command-line server and parser: larger owners of the protocols modelled here, dominated by Windows calls.
- Named pipes, security descriptors, thread-pool timers, XAML, toasts and string resources: foreign code.
- Writing to the pipe in pieces: only what is written is modelled; reads are modelled attempt by attempt, with each attempt's fragment or failure as input.
- Lock fairness and weaker memory orders: locked methods are single steps and atomics are sequentially consistent, as in the source.
- StartupCoordinator.Step: the drainer's queue and the delivery to subscribers are left out; each work item is one step, and shutdown may strike between items or at any of its points inside one. A coordinator made without a commit callback differs only in not calling it.
- StartupCoordinator.StartupTaskCoordinator.RunRequest: the class methods are the items without a shutdown inside; that case is covered by the lemmas over histories.
- RefreshScheduler.Step: loads of the stop flag are taken together with the step they guard, so a thread that has seen the flag clear counts as having drawn its ticket then; the delay of a retry is not modelled, only that the timer is armed.
- RefreshCoalescer.Step: a 32-bit flag mask is the set of its bits.
- SettingsWakeup.Step: `Wait` is modelled on values as its three locked stretches, since its loop ends only through other threads; the two-second limit of the test control's wait is left out.
- UiActionGate.ControlUiActionGate.CancelOrClassify: the method contract is for a call without interference; interleavings are covered by the lemmas over runs.
- TargetMatcher.LowerInvariant: the platform's lower-casing of one character is a parameter.
- CallChains.FindPaths: parsing, regular expressions and the report file are inputs or omitted; the script searches with depth 6.
- CorrelationIdHash, IsSupportedLanguage and the enum range checks on their own: settled by reading one expression.
