/** How one inbound message changes a controller record, and how a ControllersList changes the
    store: the specification the session's message handlers are proved against. Line numbers
    refer to src/app/app.component.ts. */
module Reconcile {
  import opened Protocol
  import opened Alarms

  /** Lines 318 and 394: a message is out of order when the record holds a stamp and the
      message's stamp is strictly older. An equal stamp is not stale. */
  predicate IsStale(stored: nat, ts: nat) {
    stored != 0 && ts < stored
  }

  /** Lines 307-311: a disconnected controller goes offline with no operator, mold or job card. */
  function Disconnect(c: ControllerState): (r: ControllerState)
    ensures r.opMode == "Offline" && r.jobMode == "Offline"
    ensures r.operatorId == 0 && r.moldId == None && r.jobCardId == None
    ensures r.(opMode := c.opMode, jobMode := c.jobMode, operatorId := c.operatorId,
               moldId := c.moldId, jobCardId := c.jobCardId) == c
  {
    c.(jobMode := "Offline", opMode := "Offline", operatorId := 0, moldId := None, jobCardId := None)
  }

  /** Line 321: a truthy display name overwrites the record's. */
  function ApplyDisplayName(c: ControllerState, f: Field<string>): (r: ControllerState)
    ensures r.displayName == if TruthyText(f) then f.value else c.displayName
    ensures r.(displayName := c.displayName) == c
  {
    if TruthyText(f) then c.(displayName := f.value) else c
  }

  /** Lines 322-329: a truthy operating or job mode overwrites the record's and stamps its change time. */
  function ApplyModes(c: ControllerState, opMode: Field<string>, jobMode: Field<string>, ts: nat): (r: ControllerState)
    ensures r.opMode == if TruthyText(opMode) then opMode.value else c.opMode
    ensures r.lastOpModeChangedTime == if TruthyText(opMode) then ts else c.lastOpModeChangedTime
    ensures r.jobMode == if TruthyText(jobMode) then jobMode.value else c.jobMode
    ensures r.lastJobModeChangedTime == if TruthyText(jobMode) then ts else c.lastJobModeChangedTime
    ensures r.(opMode := c.opMode, lastOpModeChangedTime := c.lastOpModeChangedTime,
               jobMode := c.jobMode, lastJobModeChangedTime := c.lastJobModeChangedTime) == c
  {
    var c1 := if TruthyText(opMode) then c.(opMode := opMode.value, lastOpModeChangedTime := ts) else c;
    if TruthyText(jobMode) then c1.(jobMode := jobMode.value, lastJobModeChangedTime := ts) else c1
  }

  /** Lines 330-333: a truthy job card overwrites the record's and stamps `lastJobCardChangedTIme`. */
  function ApplyJobCard(c: ControllerState, f: Field<string>, ts: nat): (r: ControllerState)
    ensures r.jobCardId == if TruthyText(f) then Some(f.value) else c.jobCardId
    ensures r.lastJobCardChangedTIme == if TruthyText(f) then ts else c.lastJobCardChangedTIme
    ensures r.(jobCardId := c.jobCardId, lastJobCardChangedTIme := c.lastJobCardChangedTIme) == c
  {
    if TruthyText(f) then c.(jobCardId := Some(f.value), lastJobCardChangedTIme := ts) else c
  }

  /** Lines 334-341: an operator or mold that is present at all, even as null or a falsy
      value, overwrites the record's (a falsy operator as 0, a falsy mold as null) and stamps
      its change time. */
  function ApplyOperatorAndMold(c: ControllerState, operatorId: Field<int>, moldId: Field<string>, ts: nat): (r: ControllerState)
    ensures r.operatorId == match operatorId
                            case Absent => c.operatorId
                            case Null => 0
                            case Given(v) => v
    ensures r.lastOperatorChangedTime == if operatorId.Absent? then c.lastOperatorChangedTime else ts
    ensures r.moldId == match moldId
                        case Absent => c.moldId
                        case Null => None
                        case Given(m) => if m == "" then None else Some(m)
    ensures r.lastMoldChangedTime == if moldId.Absent? then c.lastMoldChangedTime else ts
    ensures r.(operatorId := c.operatorId, lastOperatorChangedTime := c.lastOperatorChangedTime,
               moldId := c.moldId, lastMoldChangedTime := c.lastMoldChangedTime) == c
  {
    var c1 := match operatorId
              case Absent => c
              case Null => c.(operatorId := 0, lastOperatorChangedTime := ts)
              case Given(v) => c.(operatorId := v, lastOperatorChangedTime := ts);  // `v || 0` is v for a number
    match moldId
    case Absent => c1
    case Null => c1.(moldId := None, lastMoldChangedTime := ts)
    case Given(m) => c1.(moldId := if m == "" then None else Some(m), lastMoldChangedTime := ts)
  }

  /** Lines 321-341: each property the message carries, under that property's own presence
      rule, overwrites the record's; the bookkeeping the session keeps is not touched. */
  function ApplyFields(c: ControllerState, msg: Inbound): (r: ControllerState)
    requires msg.ControllerStatus?
    ensures r.controllerId == c.controllerId && r.actionId == c.actionId
    ensures r.lastMessageTime == c.lastMessageTime && r.lastMessageTimeStamp == c.lastMessageTimeStamp
    ensures r.lastActionTime == c.lastActionTime && r.lastCycleDataTime == c.lastCycleDataTime
    ensures r.lastCycleData == c.lastCycleData
    ensures r.alarms == c.alarms && r.activeAlarms == c.activeAlarms && r.alarm == c.alarm
  {
    var ts := msg.timestamp;
    ApplyOperatorAndMold(
      ApplyJobCard(ApplyModes(ApplyDisplayName(c, msg.displayName), msg.opMode, msg.jobMode, ts), msg.jobCardId, ts),
      msg.operatorId, msg.moldId, ts)
  }

  /** Lines 303-373: a ControllerStatus message applied to the record of a known controller
      at clock time `now`. */
  function StatusUpdate(c: ControllerState, msg: Inbound, now: nat): (r: ControllerState)
    requires msg.ControllerStatus?
    ensures r.lastMessageTime == now
    ensures r.lastMessageTimeStamp >= c.lastMessageTimeStamp
    ensures msg.isDisconnected ==> r == Disconnect(c).(lastMessageTime := now)
    ensures !msg.isDisconnected && IsStale(c.lastMessageTimeStamp, msg.timestamp) ==> r == c.(lastMessageTime := now)
    ensures !msg.isDisconnected && !IsStale(c.lastMessageTimeStamp, msg.timestamp) ==> r.lastMessageTimeStamp == msg.timestamp
    ensures AlarmsOk(c) ==> AlarmsOk(r)
  {
    var touched := c.(lastMessageTime := now);
    if msg.isDisconnected then Disconnect(touched)
    else if IsStale(c.lastMessageTimeStamp, msg.timestamp) then touched
    else
      var applied := ApplyFields(touched.(lastMessageTimeStamp := msg.timestamp), msg);
      match msg.alarm
      case None => applied
      case Some(ev) => MergeAlarm(applied, ev, msg.timestamp)
  }

  /** A fresh, connected status message writes each property only under that property's own
      presence rule, stamping its change time; absent properties keep their values. */
  lemma StatusAppliesPresentFields(c: ControllerState, msg: Inbound, now: nat)
    requires msg.ControllerStatus? && !msg.isDisconnected && !IsStale(c.lastMessageTimeStamp, msg.timestamp)
    ensures var r := StatusUpdate(c, msg, now);
            var ts := msg.timestamp;
            && r.displayName == (if TruthyText(msg.displayName) then msg.displayName.value else c.displayName)
            && r.opMode == (if TruthyText(msg.opMode) then msg.opMode.value else c.opMode)
            && r.lastOpModeChangedTime == (if TruthyText(msg.opMode) then ts else c.lastOpModeChangedTime)
            && r.jobMode == (if TruthyText(msg.jobMode) then msg.jobMode.value else c.jobMode)
            && r.lastJobModeChangedTime == (if TruthyText(msg.jobMode) then ts else c.lastJobModeChangedTime)
            && r.jobCardId == (if TruthyText(msg.jobCardId) then Some(msg.jobCardId.value) else c.jobCardId)
            && r.lastJobCardChangedTIme == (if TruthyText(msg.jobCardId) then ts else c.lastJobCardChangedTIme)
            && r.operatorId == (match msg.operatorId
                                case Absent => c.operatorId
                                case Null => 0
                                case Given(v) => v)
            && r.lastOperatorChangedTime == (if msg.operatorId.Absent? then c.lastOperatorChangedTime else ts)
            && r.moldId == (match msg.moldId
                            case Absent => c.moldId
                            case Null => None
                            case Given(m) => if m == "" then None else Some(m))
            && r.lastMoldChangedTime == (if msg.moldId.Absent? then c.lastMoldChangedTime else ts)
            && r.lastMessageTimeStamp == ts && r.lastMessageTime == now
            && r.actionId == c.actionId && r.lastCycleData == c.lastCycleData
            && (msg.alarm.None? ==> r.alarms == c.alarms && r.activeAlarms == c.activeAlarms && r.alarm == c.alarm)
            && (msg.alarm.Some? ==>
                  var m := MergeAlarm(c, msg.alarm.value, ts);
                  r.alarms == m.alarms && r.activeAlarms == m.activeAlarms && r.alarm == m.alarm)
  {
  }

  /** Lines 313 and 375: whether the status message raises a change event for the controller. */
  predicate StatusRaisesChange(c: ControllerState, msg: Inbound)
    requires msg.ControllerStatus?
  {
    msg.isDisconnected || !IsStale(c.lastMessageTimeStamp, msg.timestamp)
  }

  /** Every record of the store keeps the alarm invariant. */
  ghost predicate AllAlarmsOk(store: map<int, ControllerState>) {
    forall id :: id in store ==> AlarmsOk(store[id])
  }

  /** Lines 282-293: a controller object embedded in a ControllerStatus message is merged into
      the record of its id, which starts out blank when the id is new. */
  function Embed(store: map<int, ControllerState>, msg: Inbound): (r: map<int, ControllerState>)
    requires msg.ControllerStatus?
    ensures msg.controller.None? ==> r == store
    ensures msg.controller.Some? ==> r.Keys == store.Keys + {msg.controllerId}
    ensures msg.controller.Some? ==> Info(r[msg.controllerId]) == msg.controller.value
    ensures forall id :: id in store && id != msg.controllerId ==> r[id] == store[id]
  {
    match msg.controller
    case None => store
    case Some(c) =>
      var id := msg.controllerId;
      var existing := if id in store then store[id] else Blank();
      store[id := Assign(existing, c)]
  }

  /** Embedding creates a blank record for a new id and otherwise leaves the bookkeeping
      (times, stamps, cycle data, alarms) of the stored record as it was. */
  lemma EmbedKeepsBookkeeping(store: map<int, ControllerState>, msg: Inbound)
    requires msg.ControllerStatus? && msg.controller.Some?
    ensures var r := Embed(store, msg);
            (msg.controllerId !in store ==>
              r[msg.controllerId] == FromController(msg.controller.value)) &&
            (msg.controllerId in store ==>
              r[msg.controllerId].(controllerId := store[msg.controllerId].controllerId,
                                   displayName := store[msg.controllerId].displayName,
                                   opMode := store[msg.controllerId].opMode,
                                   jobMode := store[msg.controllerId].jobMode,
                                   operatorId := store[msg.controllerId].operatorId,
                                   moldId := store[msg.controllerId].moldId,
                                   jobCardId := store[msg.controllerId].jobCardId) == store[msg.controllerId])
  {
  }

  lemma EmbedKeepsAlarmsOk(store: map<int, ControllerState>, msg: Inbound)
    requires msg.ControllerStatus? && AllAlarmsOk(store)
    ensures AllAlarmsOk(Embed(store, msg))
  {
    var r := Embed(store, msg);
    forall id | id in r ensures AlarmsOk(r[id]) {
      if id != msg.controllerId { assert r[id] == store[id]; }
    }
  }

  /** Lines 278-380, once the session is initialized: merge any embedded controller, then
      apply the status to the record of the id if there is one; no other record changes. */
  function StatusStore(store: map<int, ControllerState>, msg: Inbound, now: nat): (r: map<int, ControllerState>)
    requires msg.ControllerStatus?
    ensures r.Keys == Embed(store, msg).Keys
    ensures forall id :: id in store && id != msg.controllerId ==> r[id] == store[id]
    ensures msg.controllerId in r ==> r[msg.controllerId].lastMessageTime == now
    ensures msg.controllerId in r ==> r[msg.controllerId] == StatusUpdate(Embed(store, msg)[msg.controllerId], msg, now)
    ensures msg.controllerId in r && !StatusRaisesChange(Embed(store, msg)[msg.controllerId], msg) ==>
              r[msg.controllerId] == Embed(store, msg)[msg.controllerId].(lastMessageTime := now)
  {
    var embedded := Embed(store, msg);
    var id := msg.controllerId;
    if id in embedded then embedded[id := StatusUpdate(embedded[id], msg, now)] else embedded
  }

  lemma StatusStoreKeepsAlarmsOk(store: map<int, ControllerState>, msg: Inbound, now: nat)
    requires msg.ControllerStatus? && AllAlarmsOk(store)
    ensures AllAlarmsOk(StatusStore(store, msg, now))
  {
    EmbedKeepsAlarmsOk(store, msg);
    var embedded := Embed(store, msg);
    var r := StatusStore(store, msg, now);
    forall id | id in r ensures AlarmsOk(r[id]) {
      if id != msg.controllerId { assert r[id] == embedded[id]; }
    }
  }

  /** Lines 390-396: a ControllerAction message applied to the record of a known controller. */
  function ActionUpdate(c: ControllerState, msg: Inbound, now: nat): (r: ControllerState)
    requires msg.ControllerAction?
    ensures r.actionId == msg.actionId && r.lastMessageTime == now
    ensures r.lastMessageTimeStamp >= c.lastMessageTimeStamp
    ensures IsStale(c.lastMessageTimeStamp, msg.timestamp) ==> r == c.(actionId := msg.actionId, lastMessageTime := now)
    ensures !IsStale(c.lastMessageTimeStamp, msg.timestamp) ==>
              r == c.(actionId := msg.actionId, lastMessageTime := now,
                      lastActionTime := msg.timestamp, lastMessageTimeStamp := msg.timestamp)
    ensures AlarmsOk(c) ==> AlarmsOk(r)
  {
    var touched := c.(actionId := msg.actionId, lastMessageTime := now);
    if IsStale(c.lastMessageTimeStamp, msg.timestamp) then touched
    else touched.(lastActionTime := msg.timestamp, lastMessageTimeStamp := msg.timestamp)
  }

  /** Line 398: whether the action message raises a change event. */
  predicate ActionRaisesChange(c: ControllerState, msg: Inbound)
    requires msg.ControllerAction?
  {
    !IsStale(c.lastMessageTimeStamp, msg.timestamp)
  }

  /** Lines 413-415: a CycleData message applied to the record of a known controller, with no
      staleness test. */
  function CycleUpdate(c: ControllerState, msg: Inbound, now: nat): (r: ControllerState)
    requires msg.CycleData?
    ensures r.lastCycleData == msg.cycleData && r.lastMessageTime == now
    ensures r.lastCycleDataTime == msg.timestamp && r.lastMessageTimeStamp == msg.timestamp
    ensures r.(lastCycleData := c.lastCycleData, lastMessageTime := c.lastMessageTime,
               lastCycleDataTime := c.lastCycleDataTime, lastMessageTimeStamp := c.lastMessageTimeStamp) == c
    ensures AlarmsOk(c) ==> AlarmsOk(r)
  {
    c.(lastCycleData := msg.cycleData, lastMessageTime := now,
       lastCycleDataTime := msg.timestamp, lastMessageTimeStamp := msg.timestamp)
  }

  /** Line 262, `mixinDictionaryToMap(data, store)`: every listed id's record becomes the
      listed controller object; records of ids not listed are left alone. */
  function MergeList(store: map<int, ControllerState>, data: map<int, Controller>): (r: map<int, ControllerState>)
    ensures r.Keys == store.Keys + data.Keys
    ensures forall id :: id in data ==> r[id] == FromController(data[id])
    ensures forall id :: id in store && id !in data ==> r[id] == store[id]
  {
    map id | id in store.Keys + data.Keys :: if id in data then FromController(data[id]) else store[id]
  }

  /** Lines 265-267 as written: `for (const id in array)` walks the positions "0".."n-1" of the
      array of the store's n keys, so a position, read as an id, is deleted when it is not
      listed; ids at or above n are never looked at. */
  function DeleteUnlisted(store: map<int, ControllerState>, data: map<int, Controller>): (r: map<int, ControllerState>)
    ensures r.Keys == store.Keys - (set i | 0 <= i < |store| && i !in data)
    ensures forall id :: id in r ==> r[id] == store[id]
  {
    map id | id in store && (id in data || !(0 <= id < |store|)) :: store[id]
  }

  /** Replacing and deleting whole records keeps every record's alarm list at most one long. */
  lemma MergeListKeepsAlarmsOk(store: map<int, ControllerState>, data: map<int, Controller>)
    requires AllAlarmsOk(store)
    ensures AllAlarmsOk(MergeList(store, data))
  {
    var r := MergeList(store, data);
    forall id | id in r ensures AlarmsOk(r[id]) {
      if id !in data { assert r[id] == store[id]; }
    }
  }

  lemma DeleteUnlistedKeepsAlarmsOk(store: map<int, ControllerState>, data: map<int, Controller>)
    requires AllAlarmsOk(store)
    ensures AllAlarmsOk(DeleteUnlisted(store, data))
  {
    var r := DeleteUnlisted(store, data);
    forall id | id in r ensures AlarmsOk(r[id]) {
      assert r[id] == store[id];
    }
  }

  /** A ControllersList keeps every listed controller, as the listed object. */
  lemma ListedControllersKept(store: map<int, ControllerState>, data: map<int, Controller>)
    ensures var r := DeleteUnlisted(MergeList(store, data), data);
            data.Keys <= r.Keys && forall id :: id in data ==> r[id] == FromController(data[id])
  {
  }

  /** When the merged store's ids are exactly 0..n-1 the positional walk deletes exactly the
      unlisted controllers, and the store ends up holding exactly the listed ones. */
  lemma {:induction false} DenseIdsGiveExactList(store: map<int, ControllerState>, data: map<int, Controller>)
    requires forall id :: id in MergeList(store, data) <==> 0 <= id < |MergeList(store, data)|
    ensures DeleteUnlisted(MergeList(store, data), data).Keys == data.Keys
  {
    var m := MergeList(store, data);
    var r := DeleteUnlisted(m, data);
    forall id ensures id in r <==> id in data {
      if id in r {
        assert id in m && 0 <= id < |m|;
      }
    }
  }

  /** Otherwise an unlisted controller survives: with controllers 10 and 20 stored, a list
      naming only 20 deletes the positions 0 and 1 and keeps 10. */
  lemma UnlistedHighIdSurvives(a: Controller, b: Controller)
    ensures var store := map[10 := FromController(a), 20 := FromController(b)];
            var data := map[20 := b];
            DeleteUnlisted(MergeList(store, data), data) == store
  {
    var store := map[10 := FromController(a), 20 := FromController(b)];
    var data := map[20 := b];
    var m := MergeList(store, data);
    assert m.Keys == {10, 20};
    assert |m| == 2 by { assert |{10, 20}| == 2; }
    assert m == store;
    var r := DeleteUnlisted(m, data);
    assert r.Keys == m.Keys;
  }

  /** An equal timestamp is applied: only a strictly older one is dropped. */
  lemma EqualStampIsApplied(c: ControllerState, msg: Inbound, now: nat)
    requires msg.ControllerStatus? && !msg.isDisconnected && msg.timestamp == c.lastMessageTimeStamp
    ensures StatusRaisesChange(c, msg)
    ensures StatusUpdate(c, msg, now) ==
              (var applied := ApplyFields(c.(lastMessageTime := now), msg);
               if msg.alarm.Some? then MergeAlarm(applied, msg.alarm.value, msg.timestamp) else applied)
  {
  }

  /** A status message overtaken by a newer one is invisible once it arrives: the only trace it
      leaves is the receipt time, and it raises no change event. */
  lemma OvertakenStatusIsDropped(c: ControllerState, newer: Inbound, older: Inbound, now1: nat, now2: nat)
    requires newer.ControllerStatus? && older.ControllerStatus?
    requires !newer.isDisconnected && !older.isDisconnected
    requires !IsStale(c.lastMessageTimeStamp, newer.timestamp)
    requires older.timestamp < newer.timestamp
    ensures var c1 := StatusUpdate(c, newer, now1);
            && !StatusRaisesChange(c1, older)
            && StatusUpdate(c1, older, now2) == c1.(lastMessageTime := now2)
  {
  }

  /** Status messages for one controller, applied in arrival order at clock time `now`. */
  function StatusFold(c: ControllerState, msgs: seq<Inbound>, now: nat): (r: ControllerState)
    requires forall i :: 0 <= i < |msgs| ==> msgs[i].ControllerStatus?
    ensures |msgs| > 0 ==> r.lastMessageTime == now
    ensures r.lastMessageTimeStamp >= c.lastMessageTimeStamp
    decreases |msgs|
  {
    if |msgs| == 0 then c
    else StatusUpdate(StatusFold(c, msgs[..|msgs| - 1], now), msgs[|msgs| - 1], now)
  }

  /** Connected status messages whose stamps never decrease, the first of them not older than
      the record. */
  predicate InOrderStatuses(c: ControllerState, msgs: seq<Inbound>) {
    && (forall i :: 0 <= i < |msgs| ==> msgs[i].ControllerStatus? && !msgs[i].isDisconnected)
    && (forall i, j :: 0 <= i < j < |msgs| ==> msgs[i].timestamp <= msgs[j].timestamp)
    && (|msgs| > 0 ==> !IsStale(c.lastMessageTimeStamp, msgs[0].timestamp))
  }

  /** The display name the last message carrying a truthy one wrote, or `base` when none did. */
  function LastDisplayName(base: string, msgs: seq<Inbound>): string
    requires forall i :: 0 <= i < |msgs| ==> msgs[i].ControllerStatus?
    decreases |msgs|
  {
    if |msgs| == 0 then base
    else
      var m := msgs[|msgs| - 1];
      if TruthyText(m.displayName) then m.displayName.value else LastDisplayName(base, msgs[..|msgs| - 1])
  }

  /** The operating mode the last message carrying a truthy one wrote, with that message's
      stamp as the change time; `base` when none did. */
  function LastOpMode(base: (string, nat), msgs: seq<Inbound>): (string, nat)
    requires forall i :: 0 <= i < |msgs| ==> msgs[i].ControllerStatus?
    decreases |msgs|
  {
    if |msgs| == 0 then base
    else
      var m := msgs[|msgs| - 1];
      if TruthyText(m.opMode) then (m.opMode.value, m.timestamp) else LastOpMode(base, msgs[..|msgs| - 1])
  }

  /** The same for the job mode. */
  function LastJobMode(base: (string, nat), msgs: seq<Inbound>): (string, nat)
    requires forall i :: 0 <= i < |msgs| ==> msgs[i].ControllerStatus?
    decreases |msgs|
  {
    if |msgs| == 0 then base
    else
      var m := msgs[|msgs| - 1];
      if TruthyText(m.jobMode) then (m.jobMode.value, m.timestamp) else LastJobMode(base, msgs[..|msgs| - 1])
  }

  /** The same for the job card. */
  function LastJobCard(base: (Option<string>, nat), msgs: seq<Inbound>): (Option<string>, nat)
    requires forall i :: 0 <= i < |msgs| ==> msgs[i].ControllerStatus?
    decreases |msgs|
  {
    if |msgs| == 0 then base
    else
      var m := msgs[|msgs| - 1];
      if TruthyText(m.jobCardId) then (Some(m.jobCardId.value), m.timestamp) else LastJobCard(base, msgs[..|msgs| - 1])
  }

  /** The operator the last message carrying the property at all wrote (null as 0), with that
      message's stamp; `base` when none did. */
  function LastOperator(base: (int, nat), msgs: seq<Inbound>): (int, nat)
    requires forall i :: 0 <= i < |msgs| ==> msgs[i].ControllerStatus?
    decreases |msgs|
  {
    if |msgs| == 0 then base
    else
      var m := msgs[|msgs| - 1];
      match m.operatorId
      case Absent => LastOperator(base, msgs[..|msgs| - 1])
      case Null => (0, m.timestamp)
      case Given(v) => (v, m.timestamp)
  }

  /** The mold the last message carrying the property at all wrote (null or "" as none), with
      that message's stamp; `base` when none did. */
  function LastMold(base: (Option<string>, nat), msgs: seq<Inbound>): (Option<string>, nat)
    requires forall i :: 0 <= i < |msgs| ==> msgs[i].ControllerStatus?
    decreases |msgs|
  {
    if |msgs| == 0 then base
    else
      var m := msgs[|msgs| - 1];
      match m.moldId
      case Absent => LastMold(base, msgs[..|msgs| - 1])
      case Null => (None, m.timestamp)
      case Given(v) => (if v == "" then None else Some(v), m.timestamp)
  }

  /** Status messages arriving in timestamp order are all applied: each raises a change when
      it arrives, and the record ends with the last stamp. */
  lemma {:induction false} InOrderStatusesApplied(c: ControllerState, msgs: seq<Inbound>, now: nat)
    requires InOrderStatuses(c, msgs)
    ensures forall i :: 0 <= i < |msgs| ==> StatusRaisesChange(StatusFold(c, msgs[..i], now), msgs[i])
    ensures StatusFold(c, msgs, now).lastMessageTimeStamp ==
              if |msgs| == 0 then c.lastMessageTimeStamp else msgs[|msgs| - 1].timestamp
    decreases |msgs|
  {
    var n := |msgs|;
    if n > 0 {
      var p := msgs[..n - 1];
      assert InOrderStatuses(c, p);
      InOrderStatusesApplied(c, p, now);
      var prev := StatusFold(c, p, now);
      assert !IsStale(prev.lastMessageTimeStamp, msgs[n - 1].timestamp) by {
        if n > 1 { assert prev.lastMessageTimeStamp == msgs[n - 2].timestamp; }
      }
      forall i | 0 <= i < n ensures StatusRaisesChange(StatusFold(c, msgs[..i], now), msgs[i]) {
        if i < n - 1 {
          assert msgs[..i] == p[..i];
        } else {
          assert msgs[..i] == p;
        }
      }
    }
  }

  /** After status messages arriving in timestamp order, the display name, the modes and the
      job card hold the value (and change time) of the last message that wrote them under
      their truthiness rule. */
  lemma {:induction false} InOrderStatusesLastTextWins(c: ControllerState, msgs: seq<Inbound>, now: nat)
    requires InOrderStatuses(c, msgs)
    ensures var r := StatusFold(c, msgs, now);
            && r.displayName == LastDisplayName(c.displayName, msgs)
            && (r.opMode, r.lastOpModeChangedTime) == LastOpMode((c.opMode, c.lastOpModeChangedTime), msgs)
            && (r.jobMode, r.lastJobModeChangedTime) == LastJobMode((c.jobMode, c.lastJobModeChangedTime), msgs)
            && (r.jobCardId, r.lastJobCardChangedTIme) == LastJobCard((c.jobCardId, c.lastJobCardChangedTIme), msgs)
    decreases |msgs|
  {
    var n := |msgs|;
    if n > 0 {
      var p := msgs[..n - 1];
      assert InOrderStatuses(c, p);
      InOrderStatusesLastTextWins(c, p, now);
      InOrderStatusesApplied(c, msgs, now);
      assert msgs[..n - 1] == p;
      StatusAppliesPresentFields(StatusFold(c, p, now), msgs[n - 1], now);
    }
  }

  /** After status messages arriving in timestamp order, the operator and the mold hold the
      value (and change time) of the last message carrying them at all, and the action and
      the cycle data are untouched. */
  lemma {:induction false} InOrderStatusesLastPresentWins(c: ControllerState, msgs: seq<Inbound>, now: nat)
    requires InOrderStatuses(c, msgs)
    ensures var r := StatusFold(c, msgs, now);
            && (r.operatorId, r.lastOperatorChangedTime) == LastOperator((c.operatorId, c.lastOperatorChangedTime), msgs)
            && (r.moldId, r.lastMoldChangedTime) == LastMold((c.moldId, c.lastMoldChangedTime), msgs)
            && r.actionId == c.actionId && r.lastCycleData == c.lastCycleData
    decreases |msgs|
  {
    var n := |msgs|;
    if n > 0 {
      var p := msgs[..n - 1];
      assert InOrderStatuses(c, p);
      InOrderStatusesLastPresentWins(c, p, now);
      InOrderStatusesApplied(c, msgs, now);
      assert msgs[..n - 1] == p;
      StatusAppliesPresentFields(StatusFold(c, p, now), msgs[n - 1], now);
    }
  }

  /** A stale ControllerAction still overwrites `actionId`. */
  lemma StaleActionStillWritesActionId(c: ControllerState, msg: Inbound, now: nat)
    requires msg.ControllerAction? && IsStale(c.lastMessageTimeStamp, msg.timestamp)
    ensures var r := ActionUpdate(c, msg, now);
            r.actionId == msg.actionId && r.lastMessageTimeStamp == c.lastMessageTimeStamp
            && !ActionRaisesChange(c, msg)
  {
  }

  /** CycleData has no staleness test, so an older cycle report moves the record's stamp back,
      after which a status message older than the one already applied is accepted again. */
  lemma CycleDataRewindsStamp(c: ControllerState, cycle: Inbound, status: Inbound, now1: nat, now2: nat)
    requires cycle.CycleData? && status.ControllerStatus? && !status.isDisconnected
    requires 0 < cycle.timestamp <= status.timestamp < c.lastMessageTimeStamp
    ensures IsStale(c.lastMessageTimeStamp, status.timestamp)
    ensures var c1 := CycleUpdate(c, cycle, now1);
            c1.lastMessageTimeStamp < c.lastMessageTimeStamp
            && StatusRaisesChange(c1, status)
            && StatusUpdate(c1, status, now2).lastMessageTimeStamp == status.timestamp
  {
  }
}
