/** The terminal's session with the iChen server: the login handshake, the periodic refresh,
    the connection status and the store of controller records that inbound messages update.
    Timers become tick methods, `Date.now()` the parameter `now`, the published controller
    lists and change events ghost logs, and the message service a counter. Line numbers refer
    to src/app/app.component.ts, except where a comment names the transport's lines of
    src/app/services/network-service.ts. */
module Session {
  import opened Protocol
  import opened Alarms
  import opened Reconcile
  import Snapshot
  import Filter
  import Transport

  /** The connection status shown in the status bar. */
  datatype ServerStatus = OffLine | OnLine | Connecting | Error | Denied

  /** Line 66: the filter asked for when none is configured. */
  const DefaultFilter: string := "Status, Alarms, Audit, Cycle, Actions"

  /** The heartbeats among the sent frames carry strictly increasing sequence numbers, none
      above the last number handed out. */
  ghost predicate HeartbeatsIncreasing(sent: seq<Outbound>, last: nat) {
    && (forall i :: 0 <= i < |sent| && sent[i].Heartbeat? ==> sent[i].sequence <= last)
    && (forall i, j :: 0 <= i < j < |sent| && sent[i].Heartbeat? && sent[j].Heartbeat? ==>
          sent[i].sequence < sent[j].sequence)
  }

  /** Appending a frame that is not a heartbeat, or a heartbeat numbered above every earlier
      one, keeps the heartbeats increasing. */
  lemma HeartbeatsAppend(sent: seq<Outbound>, last: nat, frame: Outbound, next: nat)
    requires HeartbeatsIncreasing(sent, last) && last <= next
    requires frame.Heartbeat? ==> frame.sequence == next && last < next
    ensures HeartbeatsIncreasing(sent + [frame], next)
  {
    var s := sent + [frame];
    forall i, j | 0 <= i < j < |s| && s[i].Heartbeat? && s[j].Heartbeat?
      ensures s[i].sequence < s[j].sequence
    {
      if j == |sent| {
        assert s[i] == sent[i];
      } else {
        assert s[i] == sent[i] && s[j] == sent[j];
      }
    }
  }

  /** Lines 303-375 on one record: stamp the receipt time, then either take the controller
      offline, drop an out-of-order message, or apply the message's properties and alarm;
      `raised` tells whether a change event follows. */
  method UpdateRecord(c: ControllerState, msg: Inbound, now: nat) returns (r: ControllerState, raised: bool)
    requires msg.ControllerStatus?
    ensures r == StatusUpdate(c, msg, now)
    ensures raised == StatusRaisesChange(c, msg)
  {
    r := c.(lastMessageTime := now);
    if msg.isDisconnected {
      r := r.(jobMode := "Offline", opMode := "Offline", operatorId := 0, moldId := None, jobCardId := None);
      return r, true;
    }
    if r.lastMessageTimeStamp != 0 && msg.timestamp < r.lastMessageTimeStamp {
      return r, false;
    }
    r := r.(lastMessageTimeStamp := msg.timestamp);
    r := ApplyPresent(r, msg);
    if msg.alarm.Some? {
      r := PushAlarm(r, msg.alarm.value, msg.timestamp);
    }
    raised := true;
  }

  /** Lines 321-341: write each property the message carries under its presence rule. */
  method ApplyPresent(c: ControllerState, msg: Inbound) returns (r: ControllerState)
    requires msg.ControllerStatus?
    ensures r == ApplyFields(c, msg)
  {
    r := ApplyNamesAndModes(c, msg);
    r := ApplyOperatorMold(r, msg.operatorId, msg.moldId, msg.timestamp);
  }

  /** Lines 321-333: a truthy display name, operating mode, job mode or job card overwrites the
      record's; the modes and the job card stamp their change times. */
  method ApplyNamesAndModes(c: ControllerState, msg: Inbound) returns (r: ControllerState)
    requires msg.ControllerStatus?
    ensures r == ApplyJobCard(ApplyModes(ApplyDisplayName(c, msg.displayName), msg.opMode, msg.jobMode, msg.timestamp),
                              msg.jobCardId, msg.timestamp)
  {
    var ts := msg.timestamp;
    r := c;
    if TruthyText(msg.displayName) {
      r := r.(displayName := msg.displayName.value);
    }
    assert r == ApplyDisplayName(c, msg.displayName);
    ghost var named := r;
    if TruthyText(msg.opMode) {
      r := r.(opMode := msg.opMode.value, lastOpModeChangedTime := ts);
    }
    if TruthyText(msg.jobMode) {
      r := r.(jobMode := msg.jobMode.value, lastJobModeChangedTime := ts);
    }
    assert r == ApplyModes(named, msg.opMode, msg.jobMode, ts);
    if TruthyText(msg.jobCardId) {
      r := r.(jobCardId := Some(msg.jobCardId.value), lastJobCardChangedTIme := ts);
    }
  }

  /** Lines 334-341: an operator or mold present at all overwrites the record's and stamps its
      change time. */
  method ApplyOperatorMold(c: ControllerState, operatorId: Field<int>, moldId: Field<string>, ts: nat)
    returns (r: ControllerState)
    ensures r == ApplyOperatorAndMold(c, operatorId, moldId, ts)
  {
    r := c;
    if !operatorId.Absent? {
      r := r.(operatorId := if operatorId.Given? then operatorId.value else 0, lastOperatorChangedTime := ts);
    }
    if !moldId.Absent? {
      r := r.(moldId := if moldId.Given? && moldId.value != "" then Some(moldId.value) else None,
              lastMoldChangedTime := ts);
    }
  }

  /** Lines 343-372: record the alarm flag, take the entry `findIndex` reports off the stack,
      and push a raised alarm onto it. */
  method PushAlarm(c: ControllerState, alarm: AlarmEvent, ts: nat) returns (r: ControllerState)
    ensures r == MergeAlarm(c, alarm, ts)
  {
    r := c.(alarms := c.alarms[alarm.key := alarm.value]);
    var stack := r.activeAlarms;
    var index := FindIndex(stack, alarm.key);
    stack := SpliceOne(stack, index);
    if alarm.value {
      var alm := AlarmEntry(alarm.key, alarm.value, ts);
      stack := [alm] + stack;
      r := r.(activeAlarms := stack, alarm := Some(alm));
    } else {
      r := r.(activeAlarms := stack, alarm := if |stack| > 0 then Some(stack[0]) else None);
    }
  }

  /** Lines 278-375 on the store: embed the controller object the message may carry (a new id
      gets a blank record first), then update the record of the id, if there is one. Returns
      the store after embedding, the store after the update, and whether a change event
      follows. */
  method ReceiveStatus(store: map<int, ControllerState>, msg: Inbound, now: nat)
    returns (embedded: map<int, ControllerState>, updated: map<int, ControllerState>, raised: bool)
    requires msg.ControllerStatus?
    ensures embedded == Embed(store, msg)
    ensures updated == StatusStore(store, msg, now)
    ensures raised == (msg.controllerId in embedded && StatusRaisesChange(embedded[msg.controllerId], msg))
  {
    var id := msg.controllerId;
    embedded := store;
    if msg.controller.Some? {
      if id !in embedded {
        embedded := embedded[id := Blank()];
      }
      embedded := embedded[id := Assign(embedded[id], msg.controller.value)];
    }
    updated, raised := embedded, false;
    if id in embedded {
      var ctrl;
      ctrl, raised := UpdateRecord(embedded[id], msg, now);
      updated := embedded[id := ctrl];
    }
  }

  /** Lines 265-267: `for (const id in array)` over the array of the store's n keys visits the
      positions 0..n-1, and each position that is not a listed id is deleted from the store. */
  method DeletePositions(store: map<int, ControllerState>, data: map<int, Controller>)
    returns (r: map<int, ControllerState>)
    ensures r == DeleteUnlisted(store, data)
  {
    r := store;
    var n := |store|;
    for i := 0 to n
      invariant forall id :: id in r <==> id in store && (id in data || !(0 <= id < i))
      invariant forall id :: id in r ==> r[id] == store[id]
    {
      if i !in data {
        r := r - {i};
      }
    }
    var d := DeleteUnlisted(store, data);
    forall id ensures id in r <==> id in d {
      assert id in d <==> id in store && (id in data || !(0 <= id < n));
    }
    assert r.Keys == d.Keys;
    assert forall id :: id in r ==> r[id] == d[id];
  }

  /** The store once `processMessage` (lines 219-422) has handled `msg` at clock time `now`,
      from the store and the initialized flag before it. */
  function StoreAfter(store: map<int, ControllerState>, initialized: bool, msg: Inbound, now: nat)
    : (r: map<int, ControllerState>)
    ensures !initialized && !msg.ControllersList? ==> r == store
    ensures !msg.ControllersList? ==> store.Keys <= r.Keys
  {
    match msg
    case ControllersList(data) => DeleteUnlisted(MergeList(store, data), data)
    case ControllerStatus(_, _, _, _, _, _, _, _, _, _, _) => if initialized then StatusStore(store, msg, now) else store
    case ControllerAction(id, _, _) =>
      if initialized && id in store then store[id := ActionUpdate(store[id], msg, now)] else store
    case CycleData(id, _, _) =>
      if initialized && id in store then store[id := CycleUpdate(store[id], msg, now)] else store
    case _ => store
  }

  /** The ids `processMessage` raises change events for while handling `msg`: a status that
      is applied or takes its controller offline (lines 313 and 375), a fresh action (line 398)
      and any cycle report (line 417), once the session is initialized and the id known. */
  function ChangesAfter(store: map<int, ControllerState>, initialized: bool, msg: Inbound): (r: seq<int>)
    ensures |r| <= 1
    ensures r != [] ==> initialized && !msg.ControllersList?
  {
    match msg
    case ControllerStatus(id, _, _, _, _, _, _, _, _, _, _) =>
      var embedded := Embed(store, msg);
      if initialized && id in embedded && StatusRaisesChange(embedded[id], msg) then [id] else []
    case ControllerAction(id, _, _) =>
      if initialized && id in store && ActionRaisesChange(store[id], msg) then [id] else []
    case CycleData(id, _, _) =>
      if initialized && id in store then [id] else []
    case _ => []
  }

  /** The stores `processMessage` publishes to the view while handling `msg`: the store after a
      controllers list (line 269), and the store after embedding a controller object carried
      by a status message (line 294). */
  function PublishedAfter(store: map<int, ControllerState>, initialized: bool, msg: Inbound)
    : (r: seq<map<int, ControllerState>>)
    ensures |r| <= 1
    ensures msg.ControllersList? ==> |r| == 1
    ensures r != [] ==> initialized || msg.ControllersList?
  {
    match msg
    case ControllersList(data) => [DeleteUnlisted(MergeList(store, data), data)]
    case ControllerStatus(_, _, _, _, _, _, _, _, _, _, _) =>
      if initialized && msg.controller.Some? then [Embed(store, msg)] else []
    case _ => []
  }

  class AppComponent {
    const settings: Settings
    const network: Transport.NetworkService
    const orgId: string
    /** The configured password, "" when none is set. */
    const password: string
    /** The filter sent with Join, after the start-up rewrite. */
    const filter: string

    var isInitialized: bool
    var accessLevel: int
    var lastAliveTime: nat
    var lastServerTickTime: nat
    var lastSyncControllersListTime: nat
    var serverStatus: ServerStatus
    var joinHandle: Option<nat>
    /** How many timers `setInterval` has handed out; the next handle is this number. */
    var timersCreated: nat
    /** The last sequence number the message service handed out. */
    var sequence: nat
    /** The data store: controller records by controller id. */
    var store: map<int, ControllerState>

    /** The join timers currently running. */
    ghost var runningTimers: set<nat>
    /** The ids `raiseChangeEvent` was called with, oldest first. */
    ghost var changes: seq<int>
    /** The stores whose snapshots were published to the view, oldest first: the k-th list
        the view received is `Snapshot.Snapshot(published[k])`. */
    ghost var published: seq<map<int, ControllerState>>

    ghost predicate Valid()
      reads this, network
    {
      && network.Valid()
      && network.settings == settings
      && AllAlarmsOk(store)
      && runningTimers == (if joinHandle.Some? then {joinHandle.value} else {})
      && (joinHandle.Some? ==> joinHandle.value < timersCreated)
      && HeartbeatsIncreasing(network.sent, sequence)
    }

    /** Lines 64-120 at clock time `now`: the filter defaults when unset, and loses the actions
        filter when no display field refers to the action id (`usesAction`). */
    constructor (settings: Settings, network: Transport.NetworkService, orgId: string, password: string,
                 configuredFilter: string, actionFilter: string, usesAction: bool, now: nat)
      requires network.Valid() && network.settings == settings && network.sent == []
      ensures Valid()
      ensures this.settings == settings && this.network == network
      ensures this.orgId == orgId && this.password == password
      ensures var f := if configuredFilter == "" then DefaultFilter else configuredFilter;
              filter == if usesAction then f else Filter.Rewrite(f, actionFilter)
      ensures !isInitialized && accessLevel == 0 && lastAliveTime == 0 && lastServerTickTime == 0
      ensures lastSyncControllersListTime == now && serverStatus == OffLine && joinHandle.None?
      ensures store == map[] && changes == [] && published == [] && runningTimers == {}
    {
      this.settings := settings;
      this.network := network;
      this.orgId := orgId;
      this.password := password;
      var f := if configuredFilter == "" then DefaultFilter else configuredFilter;
      if !usesAction {
        f := Filter.Rewrite(f, actionFilter);
      }
      this.filter := f;
      isInitialized := false;
      accessLevel := 0;
      lastAliveTime := 0;
      lastServerTickTime := 0;
      lastSyncControllersListTime := now;
      serverStatus := OffLine;
      joinHandle := None;
      timersCreated := 0;
      sequence := 0;
      store := map[];
      runningTimers := {};
      changes := [];
      published := [];
    }

    /** Line 147: a heartbeat is due. */
    predicate AliveDue(now: nat)
      reads this
    {
      settings.aliveSendInterval != 0
      && (lastAliveTime == 0 || now - lastAliveTime > settings.aliveSendInterval)
    }

    /** Line 154: a controller-list sync is due. */
    predicate SyncDue(now: nat)
      reads this
    {
      settings.syncControllersListInterval != 0
      && now - lastSyncControllersListTime > settings.syncControllersListInterval
    }

    /** Line 160: the server has been silent for longer than the timeout. */
    predicate ServerSilent(now: nat)
      reads this
    {
      settings.serverAliveTimeout != 0 && lastServerTickTime != 0
      && now - lastServerTickTime > settings.serverAliveTimeout
    }

    /** Lines 146-151: send a heartbeat, numbered with a fresh sequence number, when due. */
    method SendAliveIfDue(now: nat)
      requires Valid()
      modifies this`lastAliveTime, this`sequence, network`sent
      ensures Valid()
      ensures lastAliveTime == if old(AliveDue(now)) then now else old(lastAliveTime)
      ensures sequence == if old(AliveDue(now)) then old(sequence) + 1 else old(sequence)
      ensures network.sent == old(network.sent) + (if old(AliveDue(now)) && network.Delivers() then [Heartbeat(sequence)] else [])
    {
      if settings.aliveSendInterval != 0
         && (lastAliveTime == 0 || now - lastAliveTime > settings.aliveSendInterval)
      {
        lastAliveTime := now;
        sequence := sequence + 1;
        ghost var before := network.sent;
        var _ := network.SendObject(Heartbeat(sequence));
        HeartbeatsAppend(before, sequence - 1, Heartbeat(sequence), sequence);
      }
    }

    /** Lines 153-157: ask for the controllers list again when a sync is due. */
    method SyncIfDue(now: nat)
      requires Valid()
      modifies this`lastSyncControllersListTime, network`sent
      ensures Valid()
      ensures lastSyncControllersListTime == if old(SyncDue(now)) then now else old(lastSyncControllersListTime)
      ensures network.sent == old(network.sent) + (if old(SyncDue(now)) && network.Delivers() then [RequestControllersList] else [])
    {
      if settings.syncControllersListInterval != 0
         && now - lastSyncControllersListTime > settings.syncControllersListInterval
      {
        lastSyncControllersListTime := now;
        ghost var before := network.sent;
        var _ := network.SendObject(RequestControllersList);
        HeartbeatsAppend(before, sequence, RequestControllersList, sequence);
      }
    }

    /** Lines 159-163: drop a silent server's connection; when `terminate` throws, the tick
        is not reset. */
    method CheckServerAlive(now: nat) returns (outcome: Outcome)
      requires Valid()
      modifies this`lastServerTickTime, network`closeRequests
      ensures Valid()
      ensures outcome.Fail? <==> old(ServerSilent(now)) && !settings.testingMode && network.webSocket.None?
      ensures lastServerTickTime == if old(ServerSilent(now)) && outcome.Pass? then 0 else old(lastServerTickTime)
      ensures network.closeRequests == old(network.closeRequests) +
                (if old(ServerSilent(now)) && !settings.testingMode && network.webSocket.Some?
                 then [network.webSocket.value] else [])
    {
      outcome := Pass;
      if settings.serverAliveTimeout != 0 && lastServerTickTime != 0
         && now - lastServerTickTime > settings.serverAliveTimeout
      {
        outcome := network.Terminate();
        if outcome.Fail? {
          return;
        }
        lastServerTickTime := 0;
      }
    }

    /** Lines 139-164, with `readyState` what the current socket reports: refresh the
        transport (whose Connecting event reaches `monitorNetwork` at once), then the
        heartbeat, the list sync and the server-alive check. */
    method Refresh(now: nat, readyState: int) returns (outcome: Outcome)
      requires Valid()
      modifies network, this`lastAliveTime, this`sequence, this`lastSyncControllersListTime, this`lastServerTickTime
      modifies this`serverStatus, this`joinHandle, this`timersCreated, this`runningTimers
      ensures Valid()
      ensures network.events == old(network.events) +
                (if old(network.StartsAttempt(now, readyState)) then [Transport.Connecting] else [])
      ensures serverStatus == if old(network.StartsAttempt(now, readyState)) then Connecting else old(serverStatus)
      ensures joinHandle == old(joinHandle) && timersCreated == old(timersCreated) && runningTimers == old(runningTimers)
      ensures lastAliveTime == if old(AliveDue(now)) then now else old(lastAliveTime)
      ensures sequence == if old(AliveDue(now)) then old(sequence) + 1 else old(sequence)
      ensures lastSyncControllersListTime == if old(SyncDue(now)) then now else old(lastSyncControllersListTime)
      ensures network.sent == old(network.sent)
                + (if old(AliveDue(now)) && network.Delivers() then [Heartbeat(sequence)] else [])
                + (if old(SyncDue(now)) && network.Delivers() then [RequestControllersList] else [])
      ensures outcome.Fail? <==> old(ServerSilent(now)) && !settings.testingMode && network.webSocket.None?
      ensures lastServerTickTime == if old(ServerSilent(now)) && outcome.Pass? then 0 else old(lastServerTickTime)
      ensures network.webSocket == old(network.webSocket)
      ensures old(network.BackoffTracks()) ==> network.BackoffTracks()
      ensures !old(network.StartsAttempt(now, readyState)) ==>
                && network.webSocketInProgress == old(network.webSocketInProgress)
                && network.socketsCreated == old(network.socketsCreated)
                && network.reconnectionInterval == old(network.reconnectionInterval)
                && network.isConnectionAlive == old(network.isConnectionAlive)
      ensures old(network.StartsAttempt(now, readyState)) ==>
                && network.webSocketInProgress == Some(old(network.socketsCreated))
                && network.socketsCreated == old(network.socketsCreated) + 1
                && network.reconnectionInterval == old(network.reconnectionInterval) * 11.0 / 10.0
                && !network.isConnectionAlive
      ensures network.lastConnectionAttemptTime == old(network.lastConnectionAttemptTime)
      ensures network.baseInterval == old(network.baseInterval)
      ensures network.attemptsSinceReset ==
                old(network.attemptsSinceReset) + (if old(network.StartsAttempt(now, readyState)) then 1 else 0)
      ensures network.closeRequests == old(network.closeRequests)
                + (if old(network.StartsAttempt(now, readyState)) && old(network.webSocket).Some?
                   then [old(network.webSocket).value] else [])
                + (if old(ServerSilent(now)) && !settings.testingMode && network.webSocket.Some?
                   then [network.webSocket.value] else [])
    {
      var starts := network.StartsAttempt(now, readyState);
      network.Refresh(now, readyState);
      if starts {
        MonitorNetwork(Transport.Connecting);
      }
      outcome := PeriodicChecks(now);
    }

    /** Lines 146-163: the heartbeat, the list sync and the server-alive check of one tick. */
    method PeriodicChecks(now: nat) returns (outcome: Outcome)
      requires Valid()
      modifies this`lastAliveTime, this`sequence, this`lastSyncControllersListTime, this`lastServerTickTime
      modifies network`sent, network`closeRequests
      ensures Valid()
      ensures lastAliveTime == if old(AliveDue(now)) then now else old(lastAliveTime)
      ensures sequence == if old(AliveDue(now)) then old(sequence) + 1 else old(sequence)
      ensures lastSyncControllersListTime == if old(SyncDue(now)) then now else old(lastSyncControllersListTime)
      ensures network.sent == old(network.sent)
                + (if old(AliveDue(now)) && network.Delivers() then [Heartbeat(sequence)] else [])
                + (if old(SyncDue(now)) && network.Delivers() then [RequestControllersList] else [])
      ensures outcome.Fail? <==> old(ServerSilent(now)) && !settings.testingMode && network.webSocket.None?
      ensures lastServerTickTime == if old(ServerSilent(now)) && outcome.Pass? then 0 else old(lastServerTickTime)
      ensures network.closeRequests == old(network.closeRequests) +
                (if old(ServerSilent(now)) && !settings.testingMode && network.webSocket.Some?
                 then [network.webSocket.value] else [])
    {
      SendAliveIfDue(now);
      SyncIfDue(now);
      outcome := CheckServerAlive(now);
    }

    /** Lines 167-207: the status follows the transport; going online (re)starts the join
        timer, and no other event stops it, Offline included. */
    method MonitorNetwork(state: Transport.NetworkState)
      requires Valid()
      modifies this`joinHandle, this`timersCreated, this`runningTimers, this`serverStatus
      ensures Valid()
      ensures state.Online? ==> joinHandle == Some(old(timersCreated)) && timersCreated == old(timersCreated) + 1
      ensures !state.Online? ==> joinHandle == old(joinHandle) && timersCreated == old(timersCreated)
      ensures !state.Online? ==> runningTimers == old(runningTimers)
      ensures serverStatus == match state
                              case Online => OnLine
                              case Connecting => Connecting
                              case Error => Error
                              case Offline => OffLine
    {
      match state
      case Online =>
        if joinHandle.Some? {
          runningTimers := runningTimers - {joinHandle.value};
        }
        joinHandle := Some(timersCreated);
        runningTimers := runningTimers + {timersCreated};
        timersCreated := timersCreated + 1;
        serverStatus := OnLine;
      case Connecting =>
        serverStatus := Connecting;
      case Error =>
        serverStatus := Error;
      case Offline =>
        serverStatus := OffLine;
    }

    /** Transport lines 56-83, then lines 171-192: socket `ws` opened. */
    method SocketOpened(ws: nat)
      requires Valid() && ws < network.socketsCreated
      modifies network, this`joinHandle, this`timersCreated, this`runningTimers, this`serverStatus
      ensures Valid()
      ensures network.IsConnected() && network.webSocket == Some(ws) && network.webSocketInProgress.None?
      ensures network.reconnectionInterval == settings.serverReconnectionInterval as real
      ensures network.lastConnectionAttemptTime == 0 && network.BackoffTracks()
      ensures network.baseInterval == network.reconnectionInterval && network.attemptsSinceReset == 0
      ensures network.events == old(network.events) + [Transport.Online]
      ensures network.socketsCreated == old(network.socketsCreated) && network.closeRequests == old(network.closeRequests)
      ensures serverStatus == OnLine && joinHandle == Some(old(timersCreated))
      ensures timersCreated == old(timersCreated) + 1 && runningTimers == {old(timersCreated)}
      ensures network.sent == old(network.sent)
    {
      network.OnOpen(ws);
      MonitorNetwork(Transport.Online);
    }

    /** Transport lines 85-98, then lines 199-200: socket `ws` failed at clock time `now`. */
    method SocketFailed(ws: nat, now: nat)
      requires Valid()
      modifies network, this`joinHandle, this`timersCreated, this`runningTimers, this`serverStatus
      ensures Valid()
      ensures !network.IsConnected() && serverStatus == Error && joinHandle == old(joinHandle)
      ensures timersCreated == old(timersCreated) && runningTimers == old(runningTimers)
      ensures network.events == old(network.events) + [Transport.Error]
      ensures old(network.webSocketInProgress) == Some(ws) ==>
                network.lastConnectionAttemptTime == now && network.webSocketInProgress.None?
      ensures old(network.webSocketInProgress) != Some(ws) ==>
                && network.lastConnectionAttemptTime == old(network.lastConnectionAttemptTime)
                && network.webSocketInProgress == old(network.webSocketInProgress)
      ensures network.webSocket == old(network.webSocket) && network.reconnectionInterval == old(network.reconnectionInterval)
      ensures old(network.BackoffTracks()) ==> network.BackoffTracks()
      ensures network.baseInterval == old(network.baseInterval) && network.attemptsSinceReset == old(network.attemptsSinceReset)
      ensures network.socketsCreated == old(network.socketsCreated) && network.closeRequests == old(network.closeRequests)
      ensures network.sent == old(network.sent)
    {
      network.OnError(ws, now);
      MonitorNetwork(Transport.Error);
    }

    /** Transport lines 100-106, then lines 201-205: a socket closed; the join timer keeps running. */
    method SocketClosed(ws: nat)
      requires Valid()
      modifies network, this`joinHandle, this`timersCreated, this`runningTimers, this`serverStatus
      ensures Valid()
      ensures !network.IsConnected() && serverStatus == OffLine
      ensures joinHandle == old(joinHandle) && runningTimers == old(runningTimers) && timersCreated == old(timersCreated)
      ensures network.events == old(network.events) + [Transport.Offline]
      ensures network.webSocket == old(network.webSocket) && network.webSocketInProgress == old(network.webSocketInProgress)
      ensures network.reconnectionInterval == old(network.reconnectionInterval)
      ensures network.lastConnectionAttemptTime == old(network.lastConnectionAttemptTime)
      ensures old(network.BackoffTracks()) ==> network.BackoffTracks()
      ensures network.baseInterval == old(network.baseInterval) && network.attemptsSinceReset == old(network.attemptsSinceReset)
      ensures network.socketsCreated == old(network.socketsCreated) && network.closeRequests == old(network.closeRequests)
      ensures network.sent == old(network.sent)
    {
      network.OnClose(ws);
      MonitorNetwork(Transport.Offline);
    }

    /** Lines 179-189: the running join timer fires and sends Join. */
    method JoinTimerFires(handle: nat)
      requires Valid() && handle in runningTimers
      modifies network`sent
      ensures Valid()
      ensures network.sent == old(network.sent) +
                (if network.Delivers() then [Join("EN", "1.0.0", orgId, password, filter)] else [])
    {
      ghost var before := network.sent;
      var _ := network.SendObject(Join("EN", "1.0.0", orgId, password, filter));
      HeartbeatsAppend(before, sequence, Join("EN", "1.0.0", orgId, password, filter), sequence);
    }

    /** Lines 210-216: publish every record of the store, sorted by display name. */
    method UpdateControllersList()
      modifies this`published
      ensures published == old(published) + [store]
    {
      published := published + [store];
    }

    /** The k-th controller list the view received. */
    ghost function PublishedList(k: nat): (r: seq<ControllerState>)
      reads this
      requires k < |published|
      ensures Snapshot.SortedByName(r) && |r| == |published[k]|
      ensures forall x :: multiset(r)[x] == Snapshot.IdsHolding(published[k], x)
      ensures forall id :: id in published[k] ==> published[k][id] in r
      ensures forall x :: x in r ==> x in published[k].Values
    {
      Snapshot.Snapshot(published[k])
    }

    /** Lines 224-227: the server's Alive only moves the server tick. */
    method OnAlive(now: nat)
      requires Valid()
      modifies this`lastServerTickTime
      ensures Valid()
      ensures lastServerTickTime == now
    {
      lastServerTickTime := now;
    }

    /** Lines 230-257: the join timer stops; a result below 100 (a missing one reads as 0) is a
        denial, anything else grants the level and asks for the controllers list. */
    method OnJoinResponse(result: Option<int>, level: Option<int>, now: nat)
      requires Valid()
      modifies this`joinHandle, this`runningTimers, this`serverStatus, this`accessLevel
      modifies this`lastSyncControllersListTime, network`sent
      ensures Valid()
      ensures joinHandle.None? && runningTimers == {}
      ensures OrZero(result) < 100 ==>
                && serverStatus == Denied && accessLevel == old(accessLevel)
                && lastSyncControllersListTime == old(lastSyncControllersListTime)
                && network.sent == old(network.sent)
      ensures OrZero(result) >= 100 ==>
                && serverStatus == old(serverStatus) && accessLevel == OrZero(level)
                && lastSyncControllersListTime == now
                && network.sent == old(network.sent) + (if network.Delivers() then [RequestControllersList] else [])
    {
      if joinHandle.Some? {
        runningTimers := runningTimers - {joinHandle.value};
        joinHandle := None;
      }
      var res := OrZero(result);
      var lvl := OrZero(level);
      if res < 100 {
        serverStatus := Denied;
        return;
      }
      accessLevel := lvl;
      lastSyncControllersListTime := now;
      ghost var before := network.sent;
      var _ := network.SendObject(RequestControllersList);
      HeartbeatsAppend(before, sequence, RequestControllersList, sequence);
    }

    /** Lines 260-274: merge the listed controllers, walk the key positions deleting unlisted
        ones, publish the list and mark the session initialized. */
    method OnControllersList(data: map<int, Controller>)
      requires Valid()
      modifies this`store, this`isInitialized, this`published
      ensures Valid()
      ensures store == DeleteUnlisted(MergeList(old(store), data), data)
      ensures isInitialized
      ensures published == old(published) + [store]
    {
      var merged := MergeList(store, data);
      MergeListKeepsAlarmsOk(store, data);
      DeleteUnlistedKeepsAlarmsOk(merged, data);
      store := DeletePositions(merged, data);
      UpdateControllersList();
      isInitialized := true;
    }

    /** Lines 277-380, at clock time `now`. */
    method OnControllerStatus(msg: Inbound, now: nat)
      requires Valid() && msg.ControllerStatus?
      modifies this`store, this`changes, this`published
      ensures Valid()
      ensures store == StoreAfter(old(store), old(isInitialized), msg, now)
      ensures !old(isInitialized) ==> store == old(store) && changes == old(changes) && published == old(published)
      ensures old(isInitialized) ==> store == StatusStore(old(store), msg, now)
      ensures published == old(published) + PublishedAfter(old(store), old(isInitialized), msg)
      ensures changes == old(changes) + ChangesAfter(old(store), old(isInitialized), msg)
    {
      if !isInitialized {
        return;
      }
      var embedded, updated, raised := ReceiveStatus(store, msg, now);
      StatusStoreKeepsAlarmsOk(store, msg, now);
      if msg.controller.Some? {
        EmbedKeepsAlarmsOk(store, msg);
        store := embedded;
        UpdateControllersList();
      }
      store := updated;
      if raised {
        changes := changes + [msg.controllerId];
      }
    }

    /** Lines 381-400, at clock time `now`. */
    method OnControllerAction(msg: Inbound, now: nat)
      requires Valid() && msg.ControllerAction?
      modifies this`store, this`changes
      ensures Valid()
      ensures store == StoreAfter(old(store), old(isInitialized), msg, now)
      ensures !old(isInitialized) || msg.controllerId !in old(store) ==> store == old(store) && changes == old(changes)
      ensures old(isInitialized) && msg.controllerId in old(store) ==>
                && store == old(store)[msg.controllerId := ActionUpdate(old(store)[msg.controllerId], msg, now)]
                && changes == old(changes) +
                     (if ActionRaisesChange(old(store)[msg.controllerId], msg) then [msg.controllerId] else [])
    {
      if !isInitialized {
        return;
      }
      var id := msg.controllerId;
      if id !in store {
        return;
      }
      var ctrl := store[id];
      ctrl := ctrl.(actionId := msg.actionId, lastMessageTime := now);
      if ctrl.lastMessageTimeStamp != 0 && msg.timestamp < ctrl.lastMessageTimeStamp {
        store := store[id := ctrl];
        return;
      }
      ctrl := ctrl.(lastMessageTimeStamp := msg.timestamp, lastActionTime := msg.timestamp);
      store := store[id := ctrl];
      changes := changes + [id];
    }

    /** Lines 404-420, at clock time `now`. */
    method OnCycleData(msg: Inbound, now: nat)
      requires Valid() && msg.CycleData?
      modifies this`store, this`changes
      ensures Valid()
      ensures store == StoreAfter(old(store), old(isInitialized), msg, now)
      ensures !old(isInitialized) || msg.controllerId !in old(store) ==> store == old(store) && changes == old(changes)
      ensures old(isInitialized) && msg.controllerId in old(store) ==>
                && store == old(store)[msg.controllerId := CycleUpdate(old(store)[msg.controllerId], msg, now)]
                && changes == old(changes) + [msg.controllerId]
    {
      if !isInitialized {
        return;
      }
      var id := msg.controllerId;
      if id !in store {
        return;
      }
      var ctrl := store[id];
      ctrl := ctrl.(lastCycleData := msg.cycleData, lastMessageTime := now);
      ctrl := ctrl.(lastMessageTimeStamp := msg.timestamp, lastCycleDataTime := msg.timestamp);
      store := store[id := ctrl];
      changes := changes + [id];
    }

    /** Lines 259-422: the four messages about controllers, which touch only the store, the
        change stream, the published lists and the initialized flag. */
    method ProcessControllerMessage(msg: Inbound, now: nat)
      requires Valid()
      requires msg.ControllersList? || msg.ControllerStatus? || msg.ControllerAction? || msg.CycleData?
      modifies this`store, this`changes, this`published, this`isInitialized
      ensures Valid()
      ensures store == StoreAfter(old(store), old(isInitialized), msg, now)
      ensures isInitialized == (old(isInitialized) || msg.ControllersList?)
      ensures changes == old(changes) + ChangesAfter(old(store), old(isInitialized), msg)
      ensures published == old(published) + PublishedAfter(old(store), old(isInitialized), msg)
    {
      if msg.ControllersList? {
        OnControllersList(msg.data);
      } else if msg.ControllerStatus? {
        OnControllerStatus(msg, now);
      } else {
        ProcessActionOrCycle(msg, now);
      }
    }

    /** Lines 381-422. */
    method ProcessActionOrCycle(msg: Inbound, now: nat)
      requires Valid()
      requires msg.ControllerAction? || msg.CycleData?
      modifies this`store, this`changes
      ensures Valid()
      ensures store == StoreAfter(old(store), old(isInitialized), msg, now)
      ensures changes == old(changes) + ChangesAfter(old(store), old(isInitialized), msg)
    {
      if msg.ControllerAction? {
        OnControllerAction(msg, now);
      } else {
        OnCycleData(msg, now);
      }
    }

    /** Lines 219-422: one decoded message from the server, received at clock time `now`. */
    method ProcessMessage(msg: Inbound, now: nat)
      requires Valid()
      modifies this, network`sent
      ensures Valid()
      ensures store == StoreAfter(old(store), old(isInitialized), msg, now)
      ensures isInitialized == (old(isInitialized) || msg.ControllersList?)
      ensures msg.Alive? ==> lastServerTickTime == now
      ensures msg.JoinResponse? ==> joinHandle.None?
      ensures !msg.JoinResponse? ==> network.sent == old(network.sent) && serverStatus == old(serverStatus)
      ensures changes == old(changes) + ChangesAfter(old(store), old(isInitialized), msg)
      ensures published == old(published) + PublishedAfter(old(store), old(isInitialized), msg)
    {
      match msg
      case Alive =>
        OnAlive(now);
      case JoinResponse(result, level) =>
        OnJoinResponse(result, level, now);
      case Other =>
      case _ =>
        ProcessControllerMessage(msg, now);
    }
  }
}
