/** Values exchanged between the iChen server, the transport and the session:
    decoded inbound messages, outbound envelopes, controller records and settings. */
module Protocol {

  datatype Option<+T> = None | Some(value: T)

  /** How an operation that the source aborts by throwing an Error ends. */
  datatype Outcome = Pass | Fail(error: string)

  /** One property of a decoded JSON message: missing, explicitly null, or a value.
      The source tells these apart with truthiness tests and `!== undefined` tests. */
  datatype Field<+T> = Absent | Null | Given(value: T)

  /** JavaScript truthiness of an optional string property. */
  predicate TruthyText(f: Field<string>) {
    f.Given? && f.value != ""
  }

  /** `x || 0` on an optional number: a missing, null or zero value reads as 0. */
  function OrZero(x: Option<int>): (r: int)
    ensures x.None? ==> r == 0
    ensures x.Some? ==> r == x.value
  {
    match x
    case None => 0
    case Some(v) => v
  }

  /** An entry of a controller's alarm stack. */
  datatype AlarmEntry = AlarmEntry(key: string, value: bool, timestamp: nat)

  /** The `alarm` property of a ControllerStatus message. */
  datatype AlarmEvent = AlarmEvent(key: string, value: bool)

  /** A controller object as the server sends it, in ControllersList and embedded in ControllerStatus. */
  datatype Controller = Controller(
    controllerId: int,
    displayName: string,
    opMode: string,
    jobMode: string,
    operatorId: int,
    moldId: Option<string>,
    jobCardId: Option<string>)

  /** The record the session keeps per controller: the controller's own properties plus the
      bookkeeping the session adds. Timestamps are numbers; 0 stands for "not set", which is
      how the source's truthiness tests read an unset stamp. */
  datatype ControllerState = ControllerState(
    controllerId: int,
    displayName: string,
    opMode: string,
    jobMode: string,
    operatorId: int,
    moldId: Option<string>,
    jobCardId: Option<string>,
    actionId: int,
    lastMessageTime: nat,
    lastMessageTimeStamp: nat,
    lastOpModeChangedTime: nat,
    lastJobModeChangedTime: nat,
    // spelled as line 332 of src/app/app.component.ts writes it, with a capital I
    lastJobCardChangedTIme: nat,
    lastOperatorChangedTime: nat,
    lastMoldChangedTime: nat,
    lastActionTime: nat,
    lastCycleDataTime: nat,
    lastCycleData: map<string, real>,
    alarms: map<string, bool>,
    activeAlarms: seq<AlarmEntry>,
    alarm: Option<AlarmEntry>)

  /** The empty object `{}` the session stores for a controller it has not seen before. */
  function Blank(): (r: ControllerState)
    ensures r.lastMessageTimeStamp == 0 && r.activeAlarms == [] && r.alarm.None? && r.alarms == map[]
  {
    ControllerState(0, "", "", "", 0, None, None, 0, 0, 0, 0, 0, 0, 0, 0, 0, 0, map[], map[], [], None)
  }

  /** The controller properties of a record. */
  function Info(s: ControllerState): Controller {
    Controller(s.controllerId, s.displayName, s.opMode, s.jobMode, s.operatorId, s.moldId, s.jobCardId)
  }

  /** `Object.assign(s, c)`: the controller's properties overwrite those of the record. */
  function Assign(s: ControllerState, c: Controller): (r: ControllerState)
    ensures Info(r) == c
    ensures r.actionId == s.actionId && r.lastCycleData == s.lastCycleData
    ensures r.lastMessageTime == s.lastMessageTime && r.lastMessageTimeStamp == s.lastMessageTimeStamp
    ensures r.alarms == s.alarms && r.activeAlarms == s.activeAlarms && r.alarm == s.alarm
    ensures r.(controllerId := s.controllerId, displayName := s.displayName, opMode := s.opMode,
               jobMode := s.jobMode, operatorId := s.operatorId, moldId := s.moldId, jobCardId := s.jobCardId) == s
  {
    s.(controllerId := c.controllerId, displayName := c.displayName, opMode := c.opMode,
       jobMode := c.jobMode, operatorId := c.operatorId, moldId := c.moldId, jobCardId := c.jobCardId)
  }

  /** The record a ControllersList entry becomes: the listed object itself, nothing else set. */
  function FromController(c: Controller): (r: ControllerState)
    ensures Info(r) == c && r.lastMessageTimeStamp == 0
    ensures r.activeAlarms == [] && r.alarm.None? && r.alarms == map[]
  {
    Assign(Blank(), c)
  }

  /** A decoded inbound message, one variant per `$type`. A frame that fails to parse never
      becomes a message; a `$type` the session does not handle is `Other`. */
  datatype Inbound =
    | Alive
    | JoinResponse(result: Option<int>, level: Option<int>)
    | ControllersList(data: map<int, Controller>)
    | ControllerStatus(
        controllerId: int,
        controller: Option<Controller>,
        displayName: Field<string>,
        opMode: Field<string>,
        jobMode: Field<string>,
        jobCardId: Field<string>,
        operatorId: Field<int>,
        moldId: Field<string>,
        alarm: Option<AlarmEvent>,
        isDisconnected: bool,
        timestamp: nat)
    | ControllerAction(controllerId: int, actionId: int, timestamp: nat)
    | CycleData(controllerId: int, cycleData: map<string, real>, timestamp: nat)  // `data` on the wire
    | Other

  /** An outbound envelope; `Heartbeat` is the envelope whose `$type` is "Alive". */
  datatype Outbound =
    | Heartbeat(sequence: nat)
    | Join(language: string, version: string, orgId: string, password: string, filter: string)
    | RequestControllersList

  /** The interval settings shared by the session and the transport, in milliseconds;
      0 means the setting is absent (the source tests each one for truthiness). */
  datatype Settings = Settings(
    aliveSendInterval: nat,
    syncControllersListInterval: nat,
    serverAliveTimeout: nat,
    serverReconnectionInterval: nat,
    testingMode: bool)
}
