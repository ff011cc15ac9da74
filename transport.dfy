/** The reconnecting WebSocket transport. Sockets are named by the order in which the transport
    creates them; what the socket library reports (its ready state, its open, error and close
    callbacks) reaches the model as parameters and event methods. Line numbers refer to
    src/app/services/network-service.ts. */
module Transport {
  import opened Protocol

  /** The connection states the transport publishes. */
  datatype NetworkState = Offline | Online | Connecting | Error

  /** The factor the reconnection interval has grown by after `n` attempts: 1.1 to the n. */
  function Growth(n: nat): (r: real)
    ensures r >= 1.0
  {
    if n == 0 then 1.0 else Growth(n - 1) * 11.0 / 10.0
  }

  /** Each attempt adds at least a tenth of the base interval (Bernoulli's inequality). */
  lemma {:induction false} GrowthAtLeastLinear(n: nat)
    ensures Growth(n) >= 1.0 + (n as real) / 10.0
  {
    if n > 0 {
      GrowthAtLeastLinear(n - 1);
      var g := Growth(n - 1);
      assert g * 11.0 / 10.0 >= (1.0 + ((n - 1) as real) / 10.0) * 11.0 / 10.0;
    }
  }

  /** The reconnection interval after `n` attempts starting from `base`: each attempt multiplies
      it by 1.1 (line 134). */
  function Backoff(base: real, n: nat): (r: real)
    ensures base >= 0.0 ==> r >= base
  {
    if n == 0 then base else Backoff(base, n - 1) * 11.0 / 10.0
  }

  /** After `n` attempts the interval is the base scaled by 1.1 to the n. */
  lemma {:induction false} BackoffScalesBase(base: real, n: nat)
    ensures Backoff(base, n) == base * Growth(n)
  {
    if n > 0 {
      BackoffScalesBase(base, n - 1);
      var g := Growth(n - 1);
      assert Growth(n) == g * 11.0 / 10.0;
      assert Backoff(base, n) == (base * g) * 11.0 / 10.0;
      assert (base * g) * 11.0 / 10.0 == base * (g * 11.0 / 10.0);
    }
  }

  /** More attempts never shrink the interval. */
  lemma {:induction false} GrowthMonotone(m: nat, n: nat)
    requires m <= n
    ensures Growth(m) <= Growth(n)
    decreases n - m
  {
    if m < n {
      GrowthMonotone(m, n - 1);
    }
  }

  /** Lines 119-128: no socket, or a socket neither opening (0) nor open (1), needs replacing. */
  predicate NeedsReconnection(webSocket: Option<nat>, readyState: int) {
    webSocket.None? || !(readyState == 0 || readyState == 1)
  }

  class NetworkService {
    const settings: Settings
    var webSocket: Option<nat>
    var webSocketInProgress: Option<nat>
    var isConnectionAlive: bool
    var reconnectionInterval: real
    var lastConnectionAttemptTime: nat
    /** How many sockets the transport has created; the next one gets this number. */
    var socketsCreated: nat

    /** The states published on the connection stream, oldest first. */
    ghost var events: seq<NetworkState>
    /** The frames handed to the socket, oldest first. */
    ghost var sent: seq<Outbound>
    /** The sockets the transport asked to close, oldest first. */
    ghost var closeRequests: seq<nat>
    /** The interval the backoff started from at the last reset, and the attempts since. */
    ghost var baseInterval: real
    ghost var attemptsSinceReset: nat

    ghost predicate Valid()
      reads this
    {
      && (isConnectionAlive ==> webSocket.Some?)
      && (webSocket.Some? ==> webSocket.value < socketsCreated)
      && (webSocketInProgress.Some? ==> webSocketInProgress.value < socketsCreated)
    }

    /** The reconnection interval is the interval of the last reset grown by 1.1 per attempt
        since: the backoff of lines 134 and 65. */
    ghost predicate BackoffTracks()
      reads this`baseInterval, this`reconnectionInterval, this`attemptsSinceReset
    {
      baseInterval >= 0.0 && reconnectionInterval == Backoff(baseInterval, attemptsSinceReset)
    }

    /** Lines 24-28: nothing connected; the interval defaults to 15 s when the setting is absent. */
    constructor (settings: Settings)
      ensures Valid() && BackoffTracks() && this.settings == settings
      ensures webSocket.None? && webSocketInProgress.None? && !isConnectionAlive
      ensures reconnectionInterval ==
                (if settings.serverReconnectionInterval != 0 then settings.serverReconnectionInterval else 15000) as real
      ensures lastConnectionAttemptTime == 0 && socketsCreated == 0
      ensures events == [] && sent == [] && closeRequests == [] && attemptsSinceReset == 0
    {
      this.settings := settings;
      webSocket, webSocketInProgress := None, None;
      isConnectionAlive := false;
      reconnectionInterval :=
        (if settings.serverReconnectionInterval != 0 then settings.serverReconnectionInterval else 15000) as real;
      lastConnectionAttemptTime := 0;
      socketsCreated := 0;
      events, sent, closeRequests := [], [], [];
      baseInterval := reconnectionInterval;
      attemptsSinceReset := 0;
    }

    /** Line 30: a socket has been opened at least once. */
    function IsInitialized(): (r: bool)
      reads this
      ensures Valid() && !r ==> !isConnectionAlive
    {
      webSocket.Some?
    }

    /** Line 31. */
    function IsConnected(): (r: bool)
      reads this
      ensures Valid() && r ==> webSocket.Some?
    {
      isConnectionAlive
    }

    /** Whether `sendObject` puts a frame on the socket now. */
    predicate Delivers()
      reads this
    {
      !settings.testingMode && isConnectionAlive && webSocket.Some?
    }

    /** Line 132: an earlier attempt failed less than one interval ago. */
    predicate BackoffWaiting(now: nat)
      reads this
    {
      lastConnectionAttemptTime != 0 && ((now - lastConnectionAttemptTime) as real) < reconnectionInterval
    }

    /** Lines 114-146: whether `refresh` starts a connection attempt. */
    predicate StartsAttempt(now: nat, readyState: int)
      reads this
    {
      webSocketInProgress.None? && NeedsReconnection(webSocket, readyState) && !BackoffWaiting(now)
    }

    /** Lines 35-109: close any existing socket, create the next one, publish Connecting and
        mark the new socket as the attempt in flight. */
    method Reconnect()
      requires Valid()
      modifies this
      ensures Valid()
      ensures webSocketInProgress == Some(old(socketsCreated)) && socketsCreated == old(socketsCreated) + 1
      ensures !isConnectionAlive
      ensures events == old(events) + [Connecting]
      ensures closeRequests == old(closeRequests) + (if old(webSocket).Some? then [old(webSocket).value] else [])
      ensures webSocket == old(webSocket) && lastConnectionAttemptTime == old(lastConnectionAttemptTime)
      ensures reconnectionInterval == old(reconnectionInterval) && sent == old(sent)
      ensures baseInterval == old(baseInterval) && attemptsSinceReset == old(attemptsSinceReset)
    {
      if webSocket.Some? {
        closeRequests := closeRequests + [webSocket.value];
        isConnectionAlive := false;
      }
      var ws := socketsCreated;
      socketsCreated := socketsCreated + 1;
      events := events + [Connecting];
      webSocketInProgress := Some(ws);
    }

    /** Lines 111-148, with `readyState` what the current socket reports. */
    method Refresh(now: nat, readyState: int)
      requires Valid()
      modifies this
      ensures Valid()
      ensures old(BackoffTracks()) ==> BackoffTracks()
      ensures !old(StartsAttempt(now, readyState)) ==> unchanged(this)
      ensures old(StartsAttempt(now, readyState)) ==>
                && reconnectionInterval == old(reconnectionInterval) * 11.0 / 10.0
                && attemptsSinceReset == old(attemptsSinceReset) + 1 && baseInterval == old(baseInterval)
                && webSocketInProgress == Some(old(socketsCreated)) && socketsCreated == old(socketsCreated) + 1
                && !isConnectionAlive
                && events == old(events) + [Connecting]
                && closeRequests == old(closeRequests) + (if old(webSocket).Some? then [old(webSocket).value] else [])
                && webSocket == old(webSocket) && lastConnectionAttemptTime == old(lastConnectionAttemptTime)
                && sent == old(sent)
    {
      if webSocketInProgress.Some? {
        return;
      }
      var needReconnection := false;
      if webSocket.None? {
        needReconnection := true;
      } else if readyState != 0 && readyState != 1 {
        needReconnection := true;
      }
      if needReconnection {
        if lastConnectionAttemptTime != 0 && ((now - lastConnectionAttemptTime) as real) < reconnectionInterval {
          return;
        }
        reconnectionInterval := reconnectionInterval * 11.0 / 10.0;
        attemptsSinceReset := attemptsSinceReset + 1;
        Reconnect();
      }
    }

    /** Lines 56-83: socket `ws` opened; it becomes the connection and the backoff resets to the
        configured interval (with no 15 s default here). */
    method OnOpen(ws: nat)
      requires Valid() && ws < socketsCreated
      modifies this
      ensures Valid()
      ensures BackoffTracks()
      ensures isConnectionAlive && webSocket == Some(ws) && webSocketInProgress.None?
      ensures reconnectionInterval == settings.serverReconnectionInterval as real && lastConnectionAttemptTime == 0
      ensures baseInterval == reconnectionInterval && attemptsSinceReset == 0
      ensures events == old(events) + [Online]
      ensures socketsCreated == old(socketsCreated) && sent == old(sent) && closeRequests == old(closeRequests)
    {
      isConnectionAlive := true;
      reconnectionInterval := settings.serverReconnectionInterval as real;
      baseInterval, attemptsSinceReset := reconnectionInterval, 0;
      lastConnectionAttemptTime := 0;
      webSocketInProgress := None;
      webSocket := Some(ws);
      events := events + [Online];
    }

    /** Lines 85-98: socket `ws` failed at clock time `now`; only the failure of the attempt in
        flight ends that attempt and starts the backoff wait. */
    method OnError(ws: nat, now: nat)
      requires Valid()
      modifies this
      ensures Valid()
      ensures old(BackoffTracks()) ==> BackoffTracks()
      ensures !isConnectionAlive && events == old(events) + [Error]
      ensures old(webSocketInProgress) == Some(ws) ==> lastConnectionAttemptTime == now && webSocketInProgress.None?
      ensures old(webSocketInProgress) != Some(ws) ==>
                lastConnectionAttemptTime == old(lastConnectionAttemptTime) && webSocketInProgress == old(webSocketInProgress)
      ensures webSocket == old(webSocket) && reconnectionInterval == old(reconnectionInterval)
      ensures baseInterval == old(baseInterval) && attemptsSinceReset == old(attemptsSinceReset)
      ensures socketsCreated == old(socketsCreated) && sent == old(sent) && closeRequests == old(closeRequests)
    {
      isConnectionAlive := false;
      if webSocketInProgress == Some(ws) {
        lastConnectionAttemptTime := now;
        webSocketInProgress := None;
      }
      events := events + [Error];
    }

    /** Lines 100-106: some socket closed; which one is not looked at. */
    method OnClose(ws: nat)
      requires Valid()
      modifies this
      ensures Valid()
      ensures old(BackoffTracks()) ==> BackoffTracks()
      ensures !isConnectionAlive && events == old(events) + [Offline]
      ensures webSocket == old(webSocket) && webSocketInProgress == old(webSocketInProgress)
      ensures reconnectionInterval == old(reconnectionInterval) && lastConnectionAttemptTime == old(lastConnectionAttemptTime)
      ensures baseInterval == old(baseInterval) && attemptsSinceReset == old(attemptsSinceReset)
      ensures socketsCreated == old(socketsCreated) && sent == old(sent) && closeRequests == old(closeRequests)
    {
      isConnectionAlive := false;
      events := events + [Offline];
    }

    /** Lines 150-155: close the connection; throws when no socket was ever opened. */
    method Terminate() returns (outcome: Outcome)
      modifies this`closeRequests
      ensures old(Valid()) ==> Valid()
      ensures settings.testingMode ==> outcome.Pass? && closeRequests == old(closeRequests)
      ensures !settings.testingMode && webSocket.None? ==>
                outcome == Fail("Connection not yet made.") && closeRequests == old(closeRequests)
      ensures !settings.testingMode && webSocket.Some? ==>
                outcome.Pass? && closeRequests == old(closeRequests) + [webSocket.value]
    {
      if settings.testingMode {
        return Pass;
      }
      if webSocket.None? {
        return Fail("Connection not yet made.");
      }
      closeRequests := closeRequests + [webSocket.value];
      outcome := Pass;
    }

    /** Lines 157-165: send one frame; silently dropped in testing mode or while the connection
        is not alive, and throws when alive with no socket. */
    method SendObject(frame: Outbound) returns (outcome: Outcome)
      modifies this`sent
      ensures old(Valid()) ==> Valid()
      ensures outcome.Fail? <==> !settings.testingMode && isConnectionAlive && webSocket.None?
      ensures outcome.Fail? ==> outcome.error == "Connection not yet made."
      ensures sent == old(sent) + (if Delivers() then [frame] else [])
    {
      if settings.testingMode || !isConnectionAlive {
        return Pass;
      }
      if webSocket.None? {
        return Fail("Connection not yet made.");
      }
      sent := sent + [frame];
      outcome := Pass;
    }
  }

  /** A well-formed transport never throws from `sendObject`: the connection is only alive
      with a socket in place. */
  lemma SendNeverThrowsWhenValid(t: NetworkService)
    requires t.Valid()
    ensures !(!t.settings.testingMode && t.isConnectionAlive && t.webSocket.None?)
    ensures t.Delivers() <==> !t.settings.testingMode && t.isConnectionAlive
  {
  }

  /** The close handler does not check which socket closed. A socket that is closing (ready
      state 2) is replaced by a reconnect, and its close event arrives after its successor
      opened. That close marks the connection dead while the successor is open, and `refresh`,
      seeing the open successor, starts no new attempt: frames are then dropped. */
  method SupersededCloseSilencesOpenSocket(settings: Settings) returns (connected: bool, reconnecting: bool, current: Option<nat>)
    requires !settings.testingMode
    ensures current == Some(1) && !connected && !reconnecting
  {
    var t := new NetworkService(settings);
    t.Refresh(1, 0);
    t.OnOpen(0);
    t.Refresh(2, 2);
    t.OnOpen(1);
    t.OnClose(0);
    reconnecting := t.StartsAttempt(3, 1);
    t.Refresh(3, 1);
    var _ := t.SendObject(RequestControllersList);
    assert t.sent == [];
    connected, current := t.IsConnected(), t.webSocket;
  }
}
