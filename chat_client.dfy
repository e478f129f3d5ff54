/**
  The GATT client that sends text to a peer: the framing of an outgoing
  payload, the connection state machine driven by the platform's callbacks,
  one retry after a failed attempt, and the one-shot write confirmation.

  The platform is an oracle. Whether the adapter is usable, whether
  `connectGatt` throws, and the callbacks that arrive while an attempt
  waits are parameters; every callback is one `GattEvent`.
*/
module ChatClient {
  import opened Text
  import opened Utf8

  const DELIMITER: string := "|||"
  /** The sender name used when the adapter has no name. */
  const DEFAULT_NAME: string := "Bilinmeyen"
  /** `BluetoothGatt.GATT_SUCCESS`. */
  const GATT_SUCCESS: int := 0
  /** `BluetoothProfile.STATE_DISCONNECTED` and `STATE_CONNECTED`. */
  const STATE_DISCONNECTED: int := 0
  const STATE_CONNECTED: int := 2

  /**
    The outgoing text of `sendRawDataSuspend`: a signal (any text starting
    with `SIG_`) goes as it is; anything else is prefixed with the adapter's
    name, or the placeholder, and the delimiter.
  */
  function FramePayload(data: string, adapterName: Option<string>): string {
    if StartsWith(data, "SIG_") then data
    else (if adapterName.Some? then adapterName.value else DEFAULT_NAME) + DELIMITER + data
  }

  /** A `CompletableDeferred<Boolean>`: waiting, or completed once with a value. */
  datatype Deferred = Pending | Completed(value: bool)

  /** The platform callbacks of `gattCallback`. */
  datatype GattEvent =
    | ConnectionStateChange(status: int, newState: int)
    | MtuChanged(mtu: int, mtuStatus: int)
    | ServicesDiscovered(discoveryStatus: int)
    | CharacteristicWrite(writeStatus: int)

  /**
    The client's mutable fields: the address of `activeGatt`, `isConnected`,
    `connectionDeferred`, and whether `writeCallback` is set.
  */
  datatype ClientState = ClientState(
    activeGatt: Option<string>,
    isConnected: bool,
    connectionDeferred: Option<Deferred>,
    writeCallback: bool)

  /** `connectionDeferred?.complete(v)`: only a pending deferred takes the value. */
  function Complete(d: Option<Deferred>, v: bool): (d': Option<Deferred>)
    ensures d == Some(Pending) ==> d' == Some(Completed(v))
    ensures d != Some(Pending) ==> d' == d
  {
    if d == Some(Pending) then Some(Completed(v)) else d
  }

  /**
    `cleanUp()`: whatever disconnecting and closing do (or throw), the GATT
    handle is dropped and the client is not connected; nothing else changes.
  */
  function CleanedUp(s: ClientState): (s': ClientState)
    ensures s'.activeGatt.None? && !s'.isConnected
    ensures s'.connectionDeferred == s.connectionDeferred && s'.writeCallback == s.writeCallback
  {
    s.(activeGatt := None, isConnected := false)
  }

  /**
    The effect of one callback. A non-success connection status, a
    disconnection and a failed discovery clean up and complete the attempt
    with false; a successful discovery connects and completes it with true;
    a write confirmation clears the write callback. A successful connection
    and an MTU change only schedule further platform requests.
  */
  function OnEvent(s: ClientState, e: GattEvent): (s': ClientState)
    ensures s'.isConnected ==> s.isConnected || e == ServicesDiscovered(GATT_SUCCESS)
    ensures e.CharacteristicWrite? ==> !s'.writeCallback
    ensures !e.CharacteristicWrite? ==> s'.writeCallback == s.writeCallback
  {
    match e
    case ConnectionStateChange(status, newState) =>
      if status != GATT_SUCCESS then
        CleanedUp(s).(connectionDeferred := Complete(s.connectionDeferred, false))
      else if newState == STATE_DISCONNECTED then
        CleanedUp(s).(connectionDeferred := Complete(s.connectionDeferred, false))
      else s
    case MtuChanged(_, _) => s
    case ServicesDiscovered(status) =>
      if status == GATT_SUCCESS then
        s.(isConnected := true, connectionDeferred := Complete(s.connectionDeferred, true))
      else
        CleanedUp(s).(connectionDeferred := Complete(s.connectionDeferred, false))
    case CharacteristicWrite(_) => s.(writeCallback := false)
  }

  /** The value with which an event completes a pending attempt, if it does. */
  function Decides(e: GattEvent): Option<bool> {
    match e
    case ConnectionStateChange(status, newState) =>
      if status != GATT_SUCCESS || newState == STATE_DISCONNECTED then Some(false) else None
    case ServicesDiscovered(status) => Some(status == GATT_SUCCESS)
    case _ => None
  }

  /** The first event in `evs` that decides an attempt, and its value. */
  function FirstDecision(evs: seq<GattEvent>): Option<bool> {
    if |evs| == 0 then None
    else if Decides(evs[0]).Some? then Decides(evs[0])
    else FirstDecision(evs[1..])
  }

  /**
    `withTimeout(10000) { connectionDeferred?.await() ?: false }`, with `evs`
    the callbacks that arrive before the timeout: the first completion is the
    result; when none comes, the timeout cleans up and the result is false.
  */
  function Await(s: ClientState, evs: seq<GattEvent>): (ClientState, bool)
    decreases |evs|
  {
    match s.connectionDeferred
    case None => (s, false)
    case Some(Completed(v)) => (s, v)
    case Some(Pending) =>
      if |evs| == 0 then (CleanedUp(s), false)
      else Await(OnEvent(s, evs[0]), evs[1..])
  }

  /** On a pending attempt, an event completes it exactly when it decides it, with its value. */
  lemma OnEventDecides(s: ClientState, e: GattEvent)
    ensures s.connectionDeferred == Some(Pending) ==>
      OnEvent(s, e).connectionDeferred ==
        (if Decides(e).Some? then Some(Completed(Decides(e).value)) else Some(Pending))
    ensures s.connectionDeferred != Some(Pending) ==>
      OnEvent(s, e).connectionDeferred == s.connectionDeferred
    ensures Decides(e).Some? ==> OnEvent(s, e).isConnected == Decides(e).value
    ensures Decides(e).None? ==> OnEvent(s, e).isConnected == s.isConnected && OnEvent(s, e).activeGatt == s.activeGatt
    ensures Decides(e) == Some(true) ==> OnEvent(s, e).activeGatt == s.activeGatt
    ensures Decides(e) == Some(false) ==> OnEvent(s, e).activeGatt.None?
  {
  }

  /**
    A waiting attempt succeeds exactly when the first deciding callback is a
    successful discovery; afterwards the client is connected exactly when the
    attempt succeeded, still on the same GATT handle, and otherwise cleaned up.
  */
  lemma {:induction false} AwaitOutcome(s: ClientState, evs: seq<GattEvent>)
    requires s.connectionDeferred == Some(Pending)
    decreases |evs|
    ensures var (s', ok) := Await(s, evs);
      (ok <==> FirstDecision(evs) == Some(true)) &&
      s'.isConnected == ok &&
      (ok ==> s'.activeGatt == s.activeGatt) &&
      (!ok ==> s'.activeGatt.None?) &&
      s'.connectionDeferred == (if FirstDecision(evs).Some? then Some(Completed(FirstDecision(evs).value)) else Some(Pending))
  {
    if |evs| > 0 {
      var s1 := OnEvent(s, evs[0]);
      OnEventDecides(s, evs[0]);
      if Decides(evs[0]).None? {
        AwaitOutcome(s1, evs[1..]);
      }
    }
  }

  /**
    `connectSuspend(address, isRetry)`, with `ready` for an adapter that is
    present and enabled with the connect permission granted, `gattOk` for a
    `connectGatt` that does not throw, and `evs` the callbacks before the
    timeout. Returns the new state, the verdict, and whether the device
    cache was refreshed.
  */
  function ConnectAttempt(s: ClientState, address: string, isRetry: bool, ready: bool, gattOk: bool,
                          evs: seq<GattEvent>): (ClientState, bool, bool)
  {
    if !ready then (s, false, false)
    else if s.isConnected && s.activeGatt == Some(address) then (s, true, false)
    else
      var s1 := CleanedUp(s).(connectionDeferred := Some(Pending));
      var s2 := if gattOk then s1.(activeGatt := Some(address))
                else s1.(connectionDeferred := Complete(s1.connectionDeferred, false));
      var (s3, ok) := Await(s2, evs);
      (s3, ok, isRetry && gattOk)
  }

  /**
    The guards of `connectSuspend`: an unusable adapter fails and changes
    nothing; a connection to the same address succeeds and changes nothing.
    Otherwise a fresh attempt succeeds exactly when `connectGatt` returns and
    the first deciding callback is a successful discovery, and then the
    client is connected to `address`; on failure it is cleaned up.
  */
  lemma ConnectAttemptOutcome(s: ClientState, address: string, isRetry: bool, ready: bool, gattOk: bool,
                              evs: seq<GattEvent>)
    ensures var (s', ok, refreshed) := ConnectAttempt(s, address, isRetry, ready, gattOk, evs);
      (!ready ==> s' == s && !ok && !refreshed) &&
      (ready && s.isConnected && s.activeGatt == Some(address) ==> s' == s && ok && !refreshed) &&
      (ready && !(s.isConnected && s.activeGatt == Some(address)) ==>
        (ok <==> gattOk && FirstDecision(evs) == Some(true)) &&
        s'.isConnected == ok &&
        (ok ==> s'.activeGatt == Some(address)) &&
        (!ok ==> s'.activeGatt.None?) &&
        (refreshed <==> isRetry && gattOk))
  {
    if ready && !(s.isConnected && s.activeGatt == Some(address)) {
      var s1 := CleanedUp(s).(connectionDeferred := Some(Pending));
      if gattOk {
        AwaitOutcome(s1.(activeGatt := Some(address)), evs);
      }
    }
  }

  /** What the platform does during one `connectSuspend` call. */
  datatype Attempt = Attempt(ready: bool, gattOk: bool, events: seq<GattEvent>)

  /**
    `connect(address)`: nothing when already connected to it; otherwise one
    attempt, and after a failure a clean-up and exactly one retry with the
    cache refresh. Returns the new state and the `isRetry` flag of each call
    made.
  */
  function ConnectRun(s: ClientState, address: string, first: Attempt, second: Attempt): (ClientState, seq<bool>) {
    if s.isConnected && s.activeGatt == Some(address) then (s, [])
    else
      var (s1, ok, _) := ConnectAttempt(s, address, false, first.ready, first.gattOk, first.events);
      if ok then (s1, [false])
      else
        var (s2, _, _) := ConnectAttempt(CleanedUp(s1), address, true, second.ready, second.gattOk, second.events);
        (s2, [false, true])
  }

  /**
    `connect` makes no call when already connected, at most two calls
    otherwise, and the second (the only one with `isRetry`) exactly when the
    first failed. Afterwards the client is connected only to `address`.
  */
  lemma ConnectRetriesOnce(s: ClientState, address: string, first: Attempt, second: Attempt)
    ensures var (s', calls) := ConnectRun(s, address, first, second);
      var ok1 := ConnectAttempt(s, address, false, first.ready, first.gattOk, first.events).1;
      (calls == [] <==> s.isConnected && s.activeGatt == Some(address)) &&
      (calls != [] ==> calls[0] == false && (calls == [false, true] <==> !ok1) && (calls == [false] <==> ok1)) &&
      (calls != [] && s'.isConnected ==> s'.activeGatt == Some(address))
  {
    if !(s.isConnected && s.activeGatt == Some(address)) {
      ConnectAttemptOutcome(s, address, false, first.ready, first.gattOk, first.events);
      var s1 := ConnectAttempt(s, address, false, first.ready, first.gattOk, first.events).0;
      ConnectAttemptOutcome(CleanedUp(s1), address, true, second.ready, second.gattOk, second.events);
    }
  }

  /** How many times the write callback runs while `evs` are delivered. */
  function WriteConfirmations(s: ClientState, evs: seq<GattEvent>): nat
    decreases |evs|
  {
    if |evs| == 0 then 0
    else (if evs[0].CharacteristicWrite? && s.writeCallback then 1 else 0) + WriteConfirmations(OnEvent(s, evs[0]), evs[1..])
  }

  /** The write callback is one-shot: once set, it runs at most once, whatever callbacks follow. */
  lemma {:induction false} WriteCallbackOneShot(s: ClientState, evs: seq<GattEvent>)
    decreases |evs|
    ensures WriteConfirmations(s, evs) <= (if s.writeCallback then 1 else 0)
  {
    if |evs| > 0 {
      WriteCallbackOneShot(OnEvent(s, evs[0]), evs[1..]);
    }
  }

  /** How `writeCharacteristic` behaves: starts the write, refuses it, or throws. */
  datatype WriteCall = Started | Refused | Threw

  /** The result of a send: failed at once, or written and waiting for the write confirmation. */
  datatype SendStatus = SendFailed | AwaitingConfirmation(value: seq<Byte>)

  /**
    `internalSendSuspend(data)`: fails without a GATT handle or without the
    chat characteristic; otherwise sets the value and the write callback,
    then fails when the permission is missing or the write throws (the
    callback stays set), fails and clears the callback when the write is
    refused, and otherwise waits for the confirmation.
  */
  function InternalSend(s: ClientState, data: string, serviceFound: bool, permission: bool, call: WriteCall)
    : (r: (ClientState, SendStatus))
    ensures r.1.AwaitingConfirmation? ==> s.activeGatt.Some? && r.1.value == Encode(data) && r.0.writeCallback
    ensures r.0.activeGatt == s.activeGatt && r.0.isConnected == s.isConnected &&
            r.0.connectionDeferred == s.connectionDeferred
  {
    if s.activeGatt.None? || !serviceFound then (s, SendFailed)
    else
      var armed := s.(writeCallback := true);
      if !permission then (armed, SendFailed)
      else match call
        case Started => (armed, AwaitingConfirmation(Encode(data)))
        case Refused => (armed.(writeCallback := false), SendFailed)
        case Threw => (armed, SendFailed)
  }

  /** The client, with the fields its callbacks and calls assign. */
  class AndroidChatClient {
    var activeGatt: Option<string>
    var isConnected: bool
    var connectionDeferred: Option<Deferred>
    var writeCallback: bool

    function State(): ClientState
      reads this
    {
      ClientState(activeGatt, isConnected, connectionDeferred, writeCallback)
    }

    constructor ()
      ensures State() == ClientState(None, false, None, false)
    {
      activeGatt := None;
      isConnected := false;
      connectionDeferred := None;
      writeCallback := false;
    }

    method CleanUp()
      modifies this
      ensures State() == CleanedUp(old(State()))
    {
      activeGatt := None;
      isConnected := false;
    }

    method OnConnectionStateChange(status: int, newState: int)
      modifies this
      ensures State() == OnEvent(old(State()), ConnectionStateChange(status, newState))
    {
      if status != GATT_SUCCESS {
        CleanUp();
        connectionDeferred := Complete(connectionDeferred, false);
        return;
      }
      if newState == STATE_CONNECTED {
        // requests the MTU, which the platform answers with `onMtuChanged`
      } else if newState == STATE_DISCONNECTED {
        CleanUp();
        connectionDeferred := Complete(connectionDeferred, false);
      }
    }

    method OnMtuChanged(mtu: int, status: int)
      modifies this
      ensures State() == OnEvent(old(State()), MtuChanged(mtu, status))
    {
      // schedules `discoverServices`, answered by `onServicesDiscovered`
    }

    method OnServicesDiscovered(status: int)
      modifies this
      ensures State() == OnEvent(old(State()), ServicesDiscovered(status))
    {
      if status == GATT_SUCCESS {
        isConnected := true;
        connectionDeferred := Complete(connectionDeferred, true);
      } else {
        CleanUp();
        connectionDeferred := Complete(connectionDeferred, false);
      }
    }

    /** Runs the write callback if it is set (resuming the waiting send with true), then clears it. */
    method OnCharacteristicWrite(status: int) returns (resumed: bool)
      modifies this
      ensures resumed == old(writeCallback)
      ensures State() == OnEvent(old(State()), CharacteristicWrite(status))
    {
      resumed := writeCallback;
      writeCallback := false;
    }

    /** Delivers one platform callback to its handler. */
    method Deliver(e: GattEvent)
      modifies this
      ensures State() == OnEvent(old(State()), e)
    {
      match e
      case ConnectionStateChange(status, newState) => OnConnectionStateChange(status, newState);
      case MtuChanged(mtu, status) => OnMtuChanged(mtu, status);
      case ServicesDiscovered(status) => OnServicesDiscovered(status);
      case CharacteristicWrite(status) => { var _ := OnCharacteristicWrite(status); }
    }

    method ConnectSuspend(address: string, isRetry: bool, ready: bool, gattOk: bool, events: seq<GattEvent>)
      returns (ok: bool, refreshed: bool)
      modifies this
      ensures (State(), ok, refreshed) == ConnectAttempt(old(State()), address, isRetry, ready, gattOk, events)
    {
      refreshed := false;
      if !ready {
        return false, false;
      }
      if isConnected && activeGatt == Some(address) {
        return true, false;
      }
      CleanUp();
      connectionDeferred := Some(Pending);
      if gattOk {
        activeGatt := Some(address);
        refreshed := isRetry;
      } else {
        connectionDeferred := Complete(connectionDeferred, false);
      }
      ghost var start := State();
      var i := 0;
      while i < |events| && connectionDeferred == Some(Pending)
        invariant 0 <= i <= |events|
        invariant connectionDeferred.Some?
        invariant Await(State(), events[i..]) == Await(start, events)
        decreases |events| - i
      {
        assert events[i..][1..] == events[i + 1..];
        Deliver(events[i]);
        i := i + 1;
      }
      if connectionDeferred == Some(Pending) {
        CleanUp();
        ok := false;
      } else {
        ok := connectionDeferred.value.value;
      }
    }

    method Connect(address: string, first: Attempt, second: Attempt) returns (calls: seq<bool>)
      modifies this
      ensures (State(), calls) == ConnectRun(old(State()), address, first, second)
    {
      if isConnected && activeGatt == Some(address) {
        return [];
      }
      var ok, _ := ConnectSuspend(address, false, first.ready, first.gattOk, first.events);
      if ok {
        return [false];
      }
      CleanUp();
      var _, _ := ConnectSuspend(address, true, second.ready, second.gattOk, second.events);
      calls := [false, true];
    }

    /**
      `sendRawDataSuspend(address, data)`: when not connected, runs `connect`
      and fails if that leaves the client unconnected; then frames the text
      and sends it.
    */
    method SendRawDataSuspend(address: string, data: string, adapterName: Option<string>,
                              first: Attempt, second: Attempt,
                              serviceFound: bool, permission: bool, call: WriteCall)
      returns (r: SendStatus)
      modifies this
      ensures r.AwaitingConfirmation? ==> r.value == Encode(FramePayload(data, adapterName)) && isConnected
      ensures !old(isConnected) || old(activeGatt).None? ==>
        var s1 := ConnectRun(old(State()), address, first, second).0;
        if !s1.isConnected then State() == s1 && r == SendFailed
        else (State(), r) == InternalSend(s1, FramePayload(data, adapterName), serviceFound, permission, call)
      ensures old(isConnected) && old(activeGatt).Some? ==>
        (State(), r) == InternalSend(old(State()), FramePayload(data, adapterName), serviceFound, permission, call)
    {
      if !isConnected || activeGatt.None? {
        var _ := Connect(address, first, second);
        if !isConnected {
          return SendFailed;
        }
      }
      var payload := FramePayload(data, adapterName);
      r := InternalSendAt(payload, serviceFound, permission, call);
    }

    method InternalSendAt(data: string, serviceFound: bool, permission: bool, call: WriteCall) returns (r: SendStatus)
      modifies this
      ensures (State(), r) == InternalSend(old(State()), data, serviceFound, permission, call)
    {
      if activeGatt.None? || !serviceFound {
        return SendFailed;
      }
      writeCallback := true;
      if !permission {
        return SendFailed;
      }
      match call
      case Started => r := AwaitingConfirmation(Encode(data));
      case Refused => writeCallback := false; r := SendFailed;
      case Threw => r := SendFailed;
    }
  }
}
