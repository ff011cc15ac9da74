# iChen terminal: session and transport model

This project models the core of the iChen terminal, a browser client that watches a fleet of
injection-molding controllers through the iChen server. The core has two parts.

- **`NetworkService`**: the reconnecting WebSocket transport. It has a periodic `refresh`
  that starts a connection attempt when the socket is missing or broken. Failed attempts are
  retried at intervals that grow by 10 % each time. The socket's open, error and close
  callbacks keep the connection flag and the attempt bookkeeping. `sendObject` drops frames
  silently in testing mode or while the connection is dead.
- **`AppComponent`**: the session. Its refresh tick sends heartbeats and controller-list
  syncs, and drops a server that has gone silent. `monitorNetwork` maps transport states onto
  the status bar and (re)starts the Join timer. `processMessage` folds the server's messages
  into the store of controller records:
  - Alive moves the server tick.
  - JoinResponse either denies the session or grants it a level.
  - ControllersList merges the list and then deletes unlisted entries.
  - ControllerStatus can embed a controller object, take a controller offline, drop an
    out-of-order message, apply the properties the message carries, or merge an alarm.
  - ControllerAction and CycleData update single fields.
- At start-up the optional filter rewrite removes the actions filter from the requested
  filter list.

Modules:

| module | file | content |
|---|---|---|
| `Protocol` | `protocol.dfy` | messages in and out, the controller record, settings |
| `Alarms` | `alarms.dfy` | `findIndex`, `splice` and the alarm merge of a status message |
| `Reconcile` | `reconcile.dfy` | what one message does to one record and to the store |
| `Snapshot` | `snapshot.dfy` | JavaScript string order and the sorted list handed to the view |
| `Filter` | `filter.dfy` | `split`, `trim`, `join` and the filter rewrite |
| `Transport` | `transport.dfy` | class `NetworkService` |
| `Session` | `session.dfy` | class `AppComponent` and the value methods its handlers use |

Two classes model the two objects whose fields the source updates: `Transport.NetworkService`
and `Session.AppComponent`.

- Each class method states the new value of every field it changes, including the transport's
  fields when a session method drives the transport. `ProcessMessage` is the exception; see
  "Left out".
- The invariant `Valid()` is preserved:
  - every heartbeat on the wire carries a higher sequence number than the ones before;
  - at most one Join timer runs, and it is the one `joinHandle` names;
  - an alive connection has a socket;
  - every record's alarm stack satisfies `Alarms.AlarmsOk`.
- The message handlers are proved against the value functions of `Reconcile`:
  - `StoreAfter` gives the store after any message;
  - `StatusUpdate`, `ActionUpdate` and `CycleUpdate` give the record after one message;
  - `MergeList` and `DeleteUnlisted` give the store after a controllers list.
- Lemmas about those functions state what the handlers do to message sequences.

Sockets and timers are named by the order in which they are created. The clock (`Date.now()`)
is the parameter `now`. The socket's ready state is the parameter `readyState`. Ghost logs
record what leaves the model:
- frames sent (`sent`);
- sockets closed (`closeRequests`);
- connection states published (`events`);
- change events raised (`changes`);
- stores published to the view (`published`).

The list the view receives from the k-th published store is `Snapshot.Snapshot`, every record
sorted by display name.

### Where the code does something other than its comments and names suggest

The model follows the code in each of these cases.

- **Deleting missing controllers.** The comment at line 264 of src/app/app.component.ts
  says that any controller missing from the list is deleted. The loop
  `for (const id in Array.from(keys()))` visits the array positions "0".."n-1", not the ids.
  So a position that is not a listed id is deleted, and an unlisted id at or above n survives
  (`Reconcile.UnlistedHighIdSurvives`). Exactly the listed ids remain only when the ids are
  exactly 0..n-1 (`Reconcile.DenseIdsGiveExactList`).
- **Skipping prior messages.** The comment at line 317 says prior messages arriving out of order
  are skipped. The test is a strict `<`, so a message with the same timestamp as the stored
  one is applied again (`Reconcile.EqualStampIsApplied`).
- **CycleData and timestamp order.** CycleData (lines 404-420) has no out-of-order test. It
  overwrites `lastMessageTimeStamp`, so it can move the stamp back and let an older status
  through (`Reconcile.CycleDataRewindsStamp`).
- **The active-alarm stack.** The comment at line 354 says the original entry is deleted if
  present. `findIndex` returns -1 for a key it does not find, the guard
  `index !== undefined` always passes, and `splice(-1, 1)` removes the last entry. So the
  stack never holds more than one entry, and clearing one alarm can hide another that is
  still active (`Alarms.ClearingEvictsStillActiveAlarm`, `Alarms.MergeOnSingleEntry`).
- **The Join timer on transport loss.** `monitorNetwork` (lines 167-207) clears the Join timer
  only when it restarts it on Online; the timer stops only on a JoinResponse. So an Offline or
  Error event leaves it running (`Session.AppComponent.SocketClosed`).
- **Resetting the reconnection interval.** The comment at line 62 of
  src/app/services/network-service.ts says the interval is reset. It is reset to the raw
  setting, without the 15 s default the constructor applies at line 27
  (`Transport.NetworkService.OnOpen`).
- **Which socket closed.** The close handler (lines 100-106 of
  src/app/services/network-service.ts) does not check which socket closed. A superseded
  socket that closes after its successor opened therefore marks an open connection dead, and
  `refresh` does not repair it (`Transport.SupersededCloseSilencesOpenSocket`).

## Model

| member | source | states |
|---|---|---|
| Protocol.OrZero | src/app/app.component.ts:237-238 | a missing result or level reads as 0, a present one as itself |
| Protocol.TruthyText | src/app/app.component.ts:321-333 | the truthiness test the handler applies to a text property: present, not null and not "" |
| Protocol.Blank | src/app/app.component.ts:286-288 | the record created for an unknown id has no stamp, no alarms and nothing on display |
| Protocol.Assign | src/app/app.component.ts:292 | `Object.assign` gives the record exactly the controller's properties and keeps every other field: stamps, change times, action, cycle data and alarms |
| Protocol.FromController | src/app/app.component.ts:262 | a listed controller becomes a record holding exactly the listed properties, with no stamp and no alarms |
| Alarms.FindIndex | src/app/app.component.ts:352 | the first position holding the key, with no earlier one; -1 exactly when no entry holds it |
| Alarms.SpliceOne | src/app/app.component.ts:355 | `splice(start, 1)`: removes the entry at `start`, counts a negative start back from the end, and removes nothing past the end |
| Alarms.Remaining | src/app/app.component.ts:351-355 | the stack loses the entry for the key when present, and otherwise its last entry |
| Alarms.MergeAlarm | src/app/app.component.ts:343-372 | the flag map records the event; a raise pushes the new entry onto the stack and shows it; the display is the stack's head; only alarm fields change; `AlarmsOk` is preserved |
| Alarms.ClearingEvictsStillActiveAlarm | src/app/app.component.ts:351-371 | raise k1, raise k2, clear k1: stack and display end empty while k2 is still flagged active |
| Alarms.MergeOnSingleEntry | src/app/app.component.ts:343-372 | on a well-formed record a raise leaves just the new entry, and any clear leaves stack and display empty |
| Reconcile.Disconnect | src/app/app.component.ts:306-311 | both modes become "Offline", the operator 0, mold and job card null; nothing else changes |
| Reconcile.ApplyDisplayName | src/app/app.component.ts:321 | a truthy display name replaces the record's; nothing else changes |
| Reconcile.ApplyModes | src/app/app.component.ts:322-329 | each truthy mode replaces the record's and stamps its change time; nothing else changes |
| Reconcile.ApplyJobCard | src/app/app.component.ts:330-333 | a truthy job card replaces the record's and stamps its change time; nothing else changes |
| Reconcile.ApplyOperatorAndMold | src/app/app.component.ts:334-341 | a present operator (null reads 0) or mold (null or "" reads null) replaces the record's and stamps its change time; absent ones change nothing |
| Reconcile.ApplyFields | src/app/app.component.ts:321-341 | the property writes leave id, action, stamps, cycle data and alarms untouched |
| Reconcile.StatusUpdate | src/app/app.component.ts:303-373 | receipt time set; the stamp never decreases; a disconnect takes the record offline; a stale message changes nothing else; a fresh one takes its stamp; `AlarmsOk` is preserved |
| Reconcile.StatusAppliesPresentFields | src/app/app.component.ts:317-341 | a fresh, connected status writes each property under its own presence rule, stamps change times, and leaves absent properties, action and cycle data; a carried alarm updates the alarm fields as `MergeAlarm` does, and without one they stay |
| Reconcile.Embed | src/app/app.component.ts:282-293 | an embedded controller adds its id, its properties become the record's, and other ids are untouched; no controller, no change |
| Reconcile.EmbedKeepsBookkeeping | src/app/app.component.ts:286-292 | a new id starts from the blank record; a known id keeps its stamps, action, cycle data and alarms |
| Reconcile.EmbedKeepsAlarmsOk | src/app/app.component.ts:282-293 | embedding keeps every record's alarm stack well formed |
| Reconcile.StatusStore | src/app/app.component.ts:278-376 | the store after a status message on an initialized session: the keys after embedding, other ids untouched, the message's record becomes `StatusUpdate` of the embedded one, receipt time stamped, a dropped message touches nothing else |
| Reconcile.StatusStoreKeepsAlarmsOk | src/app/app.component.ts:278-376 | a status message keeps every record's alarm stack well formed |
| Reconcile.ActionUpdate | src/app/app.component.ts:388-396 | `actionId` and receipt time are always written; a fresh action also takes the stamp and the action time |
| Reconcile.CycleUpdate | src/app/app.component.ts:411-415 | cycle data, receipt time, cycle time and stamp are written, with no staleness test; nothing else changes |
| Reconcile.MergeList | src/app/app.component.ts:262 | listed ids get the listed controller; unlisted stored ids keep their records |
| Reconcile.DeleteUnlisted | src/app/app.component.ts:264-267 | removes exactly the keys i in 0..n-1 that are not listed; the remaining records are unchanged |
| Reconcile.MergeListKeepsAlarmsOk | src/app/app.component.ts:262 | the merge keeps every alarm stack well formed |
| Reconcile.DeleteUnlistedKeepsAlarmsOk | src/app/app.component.ts:265-267 | the deletion keeps every alarm stack well formed |
| Reconcile.ListedControllersKept | src/app/app.component.ts:260-267 | every listed controller is in the store afterwards, as the listed object |
| Reconcile.DenseIdsGiveExactList | src/app/app.component.ts:262-267 | when the merged ids are exactly 0..n-1, the store ends with exactly the listed ids |
| Reconcile.UnlistedHighIdSurvives | src/app/app.component.ts:265-267 | stored ids 10 and 20 with a list naming only 20: both survive |
| Reconcile.EqualStampIsApplied | src/app/app.component.ts:318-319 | a status whose stamp equals the stored one is applied in full and raises a change |
| Reconcile.OvertakenStatusIsDropped | src/app/app.component.ts:318 | a status older than one already applied only moves the receipt time and raises nothing |
| Reconcile.IsStale | src/app/app.component.ts:318 | the out-of-order test: a set stamp that is strictly later than the message's |
| Reconcile.StatusRaisesChange | src/app/app.component.ts:303-375 | a status raises a change when it disconnects the controller or is not stale |
| Reconcile.ActionRaisesChange | src/app/app.component.ts:394-398 | an action raises a change only when it is not stale |
| Reconcile.StatusFold | src/app/app.component.ts:303-373 | applying statuses one after the other: receipt time is `now` once any arrived, and the stamp never decreases |
| Reconcile.InOrderStatusesApplied | src/app/app.component.ts:317-341 | in any sequence of connected statuses in stamp order, each one is applied and raises a change, and the stamp ends at the last message's |
| Reconcile.InOrderStatusesLastTextWins | src/app/app.component.ts:321-333 | after such a sequence, the display name, both modes and the job card, with their change times, come from the latest message carrying a truthy value |
| Reconcile.InOrderStatusesLastPresentWins | src/app/app.component.ts:334-341 | after such a sequence, operator and mold, with their change times, come from the latest message carrying them; action and cycle data are untouched |
| Reconcile.StaleActionStillWritesActionId | src/app/app.component.ts:390-394 | a stale action still overwrites `actionId`, keeps the stamp and raises nothing |
| Reconcile.CycleDataRewindsStamp | src/app/app.component.ts:413-415 | an older cycle report lowers the stamp, after which an older status is applied again |
| Snapshot.TextLess | src/app/app.component.ts:214 | the string `<` of the comparator: character by character, a proper prefix first |
| Snapshot.TextLessIrreflexive | src/app/app.component.ts:214 | no string sorts before itself |
| Snapshot.TextLessTotal | src/app/app.component.ts:214 | two different strings are ordered one way and only one |
| Snapshot.TextLessTransitive | src/app/app.component.ts:214 | the string order is transitive |
| Snapshot.Compare | src/app/app.component.ts:214 | the comparator is 0 for equal names, -1 when the first sorts first and 1 otherwise |
| Snapshot.CompareTransitive | src/app/app.component.ts:214 | the comparator's "at most" is transitive |
| Snapshot.Insert | src/app/app.component.ts:214 | insertion adds one element and keeps a sorted list sorted |
| Snapshot.SortByName | src/app/app.component.ts:214 | `sort` returns a permutation of its input ordered by display name |
| Snapshot.StoreValues | src/app/app.component.ts:213 | `Array.from(values())` is as long as the store and lists each record as many times as ids hold it, and nothing else |
| Snapshot.Snapshot | src/app/app.component.ts:213-214 | the published list is sorted by display name, as long as the store, holds each record as many times as ids hold it, every stored record, and nothing else |
| Snapshot.SnapshotOrdersByName | src/app/app.component.ts:214 | a record whose name sorts first is listed first |
| Filter.IsSpace | src/app/app.component.ts:101 | the characters `trim` removes: tab, line feed, vertical tab, form feed, carriage return, space, the Unicode space separators, line and paragraph separators and the byte-order mark |
| Filter.LeadingSpaces | src/app/app.component.ts:101 | the white space `trim` removes in front stops at the first other character |
| Filter.TrailingSpaces | src/app/app.component.ts:101 | the white space `trim` removes at the back stops at the last other character |
| Filter.LeadingSpacesAreSpaces | src/app/app.component.ts:101 | everything counted in front is white space |
| Filter.TrailingSpacesAreSpaces | src/app/app.component.ts:101 | everything counted at the back is white space |
| Filter.Trim | src/app/app.component.ts:101 | the result is a slice of the input with only white space cut off before and after it, and has no white space at either end |
| Filter.TrimAddsNothing | src/app/app.component.ts:101 | a character the input lacks is not in the trim |
| Filter.TrimOfTrimmed | src/app/app.component.ts:101 | trimming is idempotent on trimmed strings |
| Filter.TrimSkipsLeadingSpace | src/app/app.component.ts:101 | white space in front does not reach the trim |
| Filter.Split | src/app/app.component.ts:101 | at least one piece; no piece holds the separator; joining with it gives the input back |
| Filter.SplitWithoutSeparator | src/app/app.component.ts:101 | a string without the separator splits into itself |
| Filter.SplitAtSeparator | src/app/app.component.ts:101 | the piece before the first separator comes off first |
| Filter.SplitJoin | src/app/app.component.ts:101 | splitting a join of separator-free pieces gives the pieces back |
| Filter.TrimAll | src/app/app.component.ts:101 | `map(f => f.trim())`, piece by piece |
| Filter.Without | src/app/app.component.ts:101 | `filter(f => f !== actions)` keeps exactly the other names, each as many times as before |
| Filter.WithoutAppend | src/app/app.component.ts:101 | filtering a concatenation filters each part, so the kept names stay in their order |
| Filter.Join | src/app/app.component.ts:101 | `join(", ")`: the pieces with the separator between them (stated by `SplitJoin` and `NamesOfJoin`) |
| Filter.Names | src/app/app.component.ts:101 | the names read from a filter are comma-free and trimmed, at least one |
| Filter.Rewrite | src/app/app.component.ts:99-102 | the rewritten filter when the action id is not used (stated by `RewriteNames` and `RewriteIdempotent`) |
| Filter.RewriteSingleName | src/app/app.component.ts:99-102 | a single name is kept trimmed, or becomes "" when it is the actions filter |
| Filter.NamesOfJoin | src/app/app.component.ts:101 | joining trimmed names with ", " and reading them back gives the names |
| Filter.RewriteNames | src/app/app.component.ts:99-102 | the rewritten filter lists exactly the original names other than the actions filter, in order |
| Filter.RewriteIdempotent | src/app/app.component.ts:99-102 | rewriting twice equals rewriting once, and the actions filter is gone |
| Filter.RewriteKeepingNames | src/app/app.component.ts:99-102 | idempotence when some name remains |
| Filter.RewriteKeepingNothing | src/app/app.component.ts:99-102 | a filter naming only the actions filter rewrites to "" and stays "" |
| Filter.EmptyFilterNames | src/app/app.component.ts:101 | "" reads as one empty name |
| Filter.WithoutAbsent | src/app/app.component.ts:101 | dropping an unlisted name changes nothing |
| Transport.NeedsReconnection | src/app/services/network-service.ts:119-128 | no socket, or a socket closing or closed (ready state 2 or 3), needs a new one |
| Transport.Growth | src/app/services/network-service.ts:135 | the growth factor after n attempts is at least 1 |
| Transport.GrowthAtLeastLinear | src/app/services/network-service.ts:135 | after n attempts the factor is at least 1 + n/10 |
| Transport.GrowthMonotone | src/app/services/network-service.ts:135 | more attempts never shrink the factor |
| Transport.Backoff | src/app/services/network-service.ts:134-135 | the interval after n attempts never drops below a non-negative base |
| Transport.BackoffScalesBase | src/app/services/network-service.ts:132-135 | the interval after n attempts is base × 1.1^n |
| Transport.NetworkService.constructor | src/app/services/network-service.ts:24-28 | nothing connected; interval = setting, or 15000 when unset |
| Transport.NetworkService.IsInitialized | src/app/services/network-service.ts:30 | not initialized means not alive |
| Transport.NetworkService.IsConnected | src/app/services/network-service.ts:31 | connected implies a socket |
| Transport.NetworkService.Reconnect | src/app/services/network-service.ts:35-53 | the old socket is closed and the connection marked dead; a new socket becomes the attempt in flight; Connecting is published |
| Transport.NetworkService.Delivers | src/app/services/network-service.ts:159-164 | a frame goes out when not in testing mode, the connection is alive and a socket exists |
| Transport.NetworkService.BackoffWaiting | src/app/services/network-service.ts:132 | less time than the current interval has passed since the last failed attempt |
| Transport.NetworkService.StartsAttempt | src/app/services/network-service.ts:114-146 | no attempt in flight, the socket needs replacing, and the backoff wait is over |
| Transport.NetworkService.Refresh | src/app/services/network-service.ts:111-148 | does nothing while an attempt is in flight, while the socket is opening or open, or during the backoff wait; otherwise grows the interval by 1.1 and reconnects; keeps the backoff equation |
| Transport.NetworkService.OnOpen | src/app/services/network-service.ts:56-83 | the socket becomes the live connection; no attempt in flight; interval reset to the raw setting and the backoff restarted from it with no attempts; Online published |
| Transport.NetworkService.OnError | src/app/services/network-service.ts:85-98 | connection dead; only the attempt in flight's failure ends it and stamps the attempt time; socket, interval and backoff count stay; Error published |
| Transport.NetworkService.OnClose | src/app/services/network-service.ts:100-106 | connection dead whichever socket closed; socket, attempt in flight, interval, attempt time and backoff count stay; Offline published |
| Transport.NetworkService.Terminate | src/app/services/network-service.ts:150-155 | no-op in testing mode; fails "Connection not yet made." without a socket; otherwise closes it |
| Transport.NetworkService.SendObject | src/app/services/network-service.ts:157-165 | dropped in testing mode or when dead; fails exactly when alive without a socket; otherwise sent |
| Transport.SendNeverThrowsWhenValid | src/app/services/network-service.ts:157-165 | a well-formed transport never takes the throwing branch, and delivers exactly when not testing and alive |
| Transport.SupersededCloseSilencesOpenSocket | src/app/services/network-service.ts:100-106 | a late close of a replaced socket leaves socket 1 current but the connection dead, and the next refresh starts no new attempt |
| Session.HeartbeatsAppend | src/app/app.component.ts:146-151 | appending a non-heartbeat, or a heartbeat with a fresh higher number, keeps heartbeat numbers increasing |
| Session.UpdateRecord | src/app/app.component.ts:303-375 | the in-place status update computes `StatusUpdate`, and raises a change exactly when `StatusRaisesChange` |
| Session.ApplyPresent | src/app/app.component.ts:321-341 | the property writes compute `ApplyFields` |
| Session.ApplyNamesAndModes | src/app/app.component.ts:321-333 | name, mode and job-card writes compute the composed `Apply*` functions |
| Session.ApplyOperatorMold | src/app/app.component.ts:334-341 | operator and mold writes compute `ApplyOperatorAndMold` |
| Session.PushAlarm | src/app/app.component.ts:343-372 | the in-place alarm merge computes `MergeAlarm` |
| Session.ReceiveStatus | src/app/app.component.ts:278-376 | embedding then updating computes `Embed` and `StatusStore`, with the change flag for the embedded record |
| Session.DeletePositions | src/app/app.component.ts:265-267 | the position loop computes `DeleteUnlisted` |
| Session.StoreAfter | src/app/app.component.ts:219-422 | the store after any message; messages other than a list change nothing before initialization and never remove an id |
| Session.ChangesAfter | src/app/app.component.ts:303-420 | at most one change event per message, and none before initialization or for a list |
| Session.PublishedAfter | src/app/app.component.ts:260-294 | at most one published store per message; a list always publishes; nothing else publishes before initialization |
| Session.AppComponent.constructor | src/app/app.component.ts:64-103 | defaults the filter; rewrites it unless the action id is used; nothing initialized, no timers, empty store |
| Session.AppComponent.AliveDue | src/app/app.component.ts:147 | a heartbeat is due when the alive interval is set and none was sent or the interval has passed |
| Session.AppComponent.SyncDue | src/app/app.component.ts:154 | a list request is due when the sync interval is set and more than it has passed since the last one |
| Session.AppComponent.ServerSilent | src/app/app.component.ts:160 | the timeout is set, the server has ticked, and it has been silent for longer than the timeout |
| Session.AppComponent.SendAliveIfDue | src/app/app.component.ts:146-151 | when due, stamps the time, draws the next sequence number and sends a heartbeat with it |
| Session.AppComponent.SyncIfDue | src/app/app.component.ts:153-157 | when due, stamps the time and asks for the controllers list |
| Session.AppComponent.CheckServerAlive | src/app/app.component.ts:159-163 | a silent server is terminated; the tick is cleared only when terminate does not throw |
| Session.AppComponent.PeriodicChecks | src/app/app.component.ts:146-163 | heartbeat, list request and server-alive check in turn, with their combined effects on the session and on the frames sent and sockets closed |
| Session.AppComponent.Refresh | src/app/app.component.ts:139-164 | transport refresh (Connecting shown when an attempt starts), then the periodic checks; the transport's socket, attempt in flight, count, interval, liveness, attempt time and close log as its refresh leaves them, and the backoff equation kept |
| Session.AppComponent.MonitorNetwork | src/app/app.component.ts:167-207 | Online restarts the Join timer; every state sets its status; no state stops the timer |
| Session.AppComponent.SocketOpened | src/app/services/network-service.ts:56-83 | an opened socket makes the session on-line with a new Join timer; the transport holds it as the live socket with no attempt in flight, interval and backoff reset and attempt time cleared, and publishes Online; exactly one new timer is created |
| Session.AppComponent.SocketFailed | src/app/services/network-service.ts:85-98 | a failed socket shows Error and keeps the Join timer; the connection is dead, only the attempt in flight's failure ends it, socket, interval and backoff count stay, no timer is created, Error is published |
| Session.AppComponent.SocketClosed | src/app/services/network-service.ts:100-106 | a closed socket shows off-line and the Join timer keeps running; the connection is dead, socket, attempt in flight, interval, attempt time and backoff count stay, no timer is created, Offline is published |
| Session.AppComponent.JoinTimerFires | src/app/app.component.ts:177-188 | the running timer sends Join with "EN", "1.0.0", the org id, password and rewritten filter |
| Session.AppComponent.UpdateControllersList | src/app/app.component.ts:210-216 | the current store is published |
| Session.AppComponent.PublishedList | src/app/app.component.ts:213-214 | each published list is sorted by name, as long as its store, holds each record as many times as ids hold it, and nothing else |
| Session.AppComponent.OnAlive | src/app/app.component.ts:224-227 | the server tick becomes `now` |
| Session.AppComponent.OnJoinResponse | src/app/app.component.ts:230-257 | the Join timer stops; result below 100 (missing as 0) denies; otherwise grants the level, stamps the sync time and asks for the list |
| Session.AppComponent.OnControllersList | src/app/app.component.ts:260-274 | the store becomes `DeleteUnlisted(MergeList(store, data), data)`, is published, and the session is initialized |
| Session.AppComponent.OnControllerStatus | src/app/app.component.ts:277-378 | ignored before initialization; otherwise the store becomes `StatusStore`; the stores published and changes raised are `PublishedAfter` and `ChangesAfter` |
| Session.AppComponent.OnControllerAction | src/app/app.component.ts:381-401 | ignored before initialization or for unknown ids; otherwise `ActionUpdate`, raising a change when fresh |
| Session.AppComponent.OnCycleData | src/app/app.component.ts:404-420 | ignored before initialization or for unknown ids; otherwise `CycleUpdate`, always raising a change |
| Session.AppComponent.ProcessControllerMessage | src/app/app.component.ts:259-420 | a controller message leaves the store at `StoreAfter`, publishes `PublishedAfter`, raises `ChangesAfter`; only a list initializes the session |
| Session.AppComponent.ProcessActionOrCycle | src/app/app.component.ts:380-420 | an action or cycle report leaves the store at `StoreAfter` and raises `ChangesAfter` |
| Session.AppComponent.ProcessMessage | src/app/app.component.ts:219-422 | any message leaves the store at `StoreAfter`; only a list initializes; Alive moves the tick; JoinResponse stops the Join timer and alone may send; the stores published and changes raised are `PublishedAfter` and `ChangesAfter` |

## Left out

- The view, templates, CSS, `console` and `alert` output, and the HTTP text-map load
  (src/app/app.component.ts:105-112) are not modelled.
- `onChangeSettings` (src/app/app.component.ts:126-136) is not modelled: it works through
  `prompt`, `localStorage` and a page reload.
- The scan of the display configuration for the action id (src/app/app.component.ts:70-95)
  is the constructor parameter `usesAction`.
- The subscriptions and the 1 s refresh interval set up in the constructor
  (src/app/app.component.ts:114-123) are left out. The model's methods are the callbacks
  they would call.
- JSON encoding and decoding, including dropped unparsable frames, are left out. Messages are
  the datatypes `Inbound` and `Outbound`, and a `$type` the session ignores is `Other`.
- The socket library is not modelled. Sockets are numbers, `getReadyState()` is the
  parameter `readyState`, and closes are logged. Exceptions the library might throw are not
  modelled, so the `try`/`catch` blocks at src/app/services/network-service.ts:40-45 and
  137-146 are left out.
- `DataStoreService`, `MessageService` and `mixinDictionaryToMap` are not part of this model.
  - The store is a map from id to record.
  - `raiseChangeEvent` appends to the log `changes`.
  - The message service is a counter whose next value numbers a heartbeat.
  - Whether `message.create` for other messages also draws numbers is not modelled.
  - `mixinDictionaryToMap` is modelled as setting each listed id to the listed object.
- Session.DeletePositions: the loop deletes the number i. Whether the store's `delete`, given
  the string "i", matches the numeric key i is up to `DataStoreService`. The model assumes it
  does.
- `Date.now()` is the parameter `now`. One `now` serves both the transport's refresh and the
  session's refresh tick of one turn. `new Date(now)` is stored as the number `now`.
- Transport.NetworkService.Refresh: the interval is an exact real, not a double. Rounding
  over many attempts is not captured.
- Transport.NetworkService.OnOpen: an unset `ServerReconnectionInterval` gives `undefined`
  in the source, and `undefined * 1.1` is NaN. The model uses 0, which is equivalent for the
  backoff: no elapsed time is below NaN, and none is below 0.
- Transport.NetworkService.BackoffTracks: preserving the backoff equation is stated as
  `old(BackoffTracks()) ==> BackoffTracks()` rather than as part of `Valid()`. As a result,
  `Session.AppComponent.Valid()` does not carry it.
- Transport.NetworkService.IsInitialized: the contract relates the getter only to the
  invariant. What the getter returns is its body.
- Records are values. The source mutates the stored record objects in place, so lists
  already handed to the view see later changes. The model publishes the store as it was at
  publication (`Session.AppComponent.UpdateControllersList`).
- Object.assign copies only the seven controller properties the model knows (Protocol.Assign).
  Any other property the server sends with a controller is not modelled.
- Snapshot.StoreValues: the order in which the store yields its records is not modelled. The
  sorted list fixes the order of records with different names only.
- Snapshot.TextLess: strings compare by character (Unicode code point). JavaScript compares
  UTF-16 code units, which differs only for characters outside the Basic Multilingual Plane.
- Cycle data is a map from names to exact reals. Alarm values are already booleans, so
  `!!alarm.value` needs no model.
- Session.AppComponent.ProcessMessage: the contract states the store, the initialized flag,
  the server tick, the Join timer, what is sent and the change and publish logs. The
  remaining per-message detail is in the contracts of the handler for each message kind.
