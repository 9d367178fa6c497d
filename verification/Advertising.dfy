/**
 The advertising state machine of the Bluetooth LE transport: global state number (GSN), broadcast
 key, timers and broadcasted event. Each callback of the original is a function from state to
 outcome, with every assertion of the original as a check that may abort.

 A timer is a handle, 0 when there is none. Registering a timer yields a handle chosen by the
 platform, 0 when resources are exhausted.
 */
module Advertising {
  import opened Bytes
  import opened Options
  import opened Outcomes
  import opened StoredRecords

  type Timer = nat

  const NO_TIMER: Timer := 0

  /** Broadcast interval of a characteristic: 20 ms, 1280 ms or 2560 ms. */
  type Interval = n: int | 1 <= n <= 3 witness 1

  predicate ValidInterval(n: int) {
    1 <= n <= 3
  }

  /** A scalar value in little-endian order; a broadcast has room for eight bytes. */
  type ScalarBytes = b: seq<byte> | |b| <= 8

  type EventValue = v: seq<byte> | |v| == 8 witness Zeros(8)

  datatype ServerState = Idle | Running | Stopping

  /** The broadcasted event; `iid` is 0 when none is active. */
  datatype BroadcastedEvent = BroadcastedEvent(interval: nat, iid: uint16, value: EventValue)

  const NO_EVENT := BroadcastedEvent(0, 0, Zeros(8))

  /** Persistent records of the transport. */
  datatype Store = Store(gsn: Option<seq<byte>>, parameters: Option<seq<byte>>, deviceId: DeviceId)

  /** One encryption of a broadcast payload: key, GSN used as nonce, associated data and plaintext fields. */
  datatype Emission = Emission(key: Key, gsn: uint16, aad: DeviceId, iid: uint16, value: EventValue)

  /**
   `log` lists every encryption so far. It does not exist in the original.
   */
  datatype State = State(
    store: Store,
    run: ServerState,
    connected: bool,
    fastStarted: bool,
    fastTimer: Timer,
    timer: Timer,
    event: BroadcastedEvent,
    log: seq<Emission>)

  /** Checks at which the original aborts, with the line of HAPBLEAccessoryServer+Advertising.c. */
  datatype Check =
    | CorruptRecord                  // a stored record that is too short
    | NoBroadcastKey                 // 99
    | InvalidInterval                // 123
    | UnknownTimer                   // 463
    | ConnectedAtExpiry              // 468
    | FastTimerBeforeStart           // 504
    | AlreadyConnected               // 523
    | NotConnected                   // 578, 1100
    | FastNotStartedAtDisconnect     // 584
    | FastTimerAtDisconnect          // 585
    | TimerAtDisconnect              // 586
    | EventAtDisconnect              // 619
    | LookupError                    // 769
    | EventBeforeDisconnectedEvent   // 1041
    | TimerBeforeDisconnectedEvent   // 1042
    | EventBeforeConnectedEvent      // 1127
    | TimerBeforeConnectedEvent      // 1128

  type Result<T> = Outcome<T, Check>

  /** Handles the platform hands out for the fast timer and for the event timer. */
  datatype Handles = Handles(fast: Timer, event: Timer)

  /** Broadcast configuration of a characteristic. */
  datatype Lookup = LookupFailed | Disabled | Enabled(interval: Interval)

  /** Value of a characteristic read for a broadcast. */
  datatype Read = ReadFailed | Scalar(bytes: ScalarBytes)

  datatype Firmware = Unchanged | Updated | Downgraded

  /** Between which two writes to the store the power is lost. */
  datatype Interruption =
    | BeforeGsnSaved   // an increment that may have expired the key
    | AfterGsnSaved    // an increment that has not been advertised
    | BeforeKeyExpired // a firmware update that has removed the GSN
    | AfterKeyExpired  // a firmware update that has not stored its version

  datatype Callback =
    | Create
    | LosePower(at: Interruption)
    | Start(firmware: Firmware, adminPaired: bool, handles: Handles)
    | Stop(deferred: bool)
    | CompleteShutdown
    | RestoreFactorySettings(deviceId: DeviceId)
    | DidConnect
    | DidDisconnect(deferred: bool, handles: Handles)
    | TimerExpired(expired: Timer, handles: Handles)
    | DidRaiseEvent(supportsBroadcast: bool, supportsDisconnected: bool, iid: uint16, lookup: Lookup, read: Read,
                    handles: Handles)
    | DidSendEventNotification
    | GenerateKey(key: Key, newId: Option<DeviceId>)
    | SetAdvertisingId(id: DeviceId)
    | CleanupPairings(adminPaired: bool)

  // ---- Stored records ----

  function ReadGsn(store: Store): Result<GsnState> {
    match DecodeGsn(store.gsn)
    case None => Aborts(CorruptRecord)
    case Some(g) => Continues(g)
  }

  function ReadParameters(store: Store): Result<BroadcastParameters> {
    match DecodeParameters(store.parameters)
    case None => Aborts(CorruptRecord)
    case Some(p) => Continues(p)
  }

  function WithGsn(store: Store, g: GsnState): Store {
    store.(gsn := Some(EncodeGsn(g)))
  }

  function WithParameters(store: Store, p: BroadcastParameters): Store {
    store.(parameters := Some(EncodeParameters(p)))
  }

  function AdvertisingIdOf(p: BroadcastParameters, store: Store): DeviceId {
    if p.hasAdvertisingId then p.advertisingId else store.deviceId
  }

  function ExpireKey(store: Store): Result<Store> {
    var p :- ReadParameters(store);
    Continues(WithParameters(store, p.(keyExpirationGsn := 0, key := Zeros(32))))
  }

  // ---- GSN ----

  function NextGsn(gsn: uint16): uint16 {
    if gsn == UINT16_MAX then 1 else gsn + 1
  }

  /** Last GSN under which a key generated at `gsn` may be used. */
  function ExpirationGsn(gsn: uint16): uint16 {
    var e: uint32 := gsn + 32767 - 1;
    if e > UINT16_MAX then e - UINT16_MAX else e
  }

  function IncrementGsn(store: Store): Result<Store> {
    var p :- ReadParameters(store);
    var g :- ReadGsn(store);
    var current :- if g.gsn == p.keyExpirationGsn then ExpireKey(store) else Continues(store);
    Continues(WithGsn(current, GsnState(NextGsn(g.gsn), true)))
  }

  function ResetCoalescing(store: Store): Result<Store> {
    var g :- ReadGsn(store);
    Continues(WithGsn(store, g.(didIncrement := false)))
  }

  // ---- Advertisement ----

  function DidStartAdvertising(s: State, fast: Timer): Result<State> {
    if s.fastStarted then Continues(s)
    else if s.fastTimer != NO_TIMER then Aborts(FastTimerBeforeStart)
    else Continues(s.(fastStarted := true, fastTimer := fast))
  }

  function EmissionOf(s: State, p: BroadcastParameters, gsn: uint16): Emission {
    Emission(p.key, gsn, AdvertisingIdOf(p, s.store), s.event.iid, s.event.value)
  }

  /** Fetches the advertisement; an active event is encrypted under the broadcast key. */
  function GetAdvertisingParameters(s: State): Result<State> {
    if s.connected then Continues(s)
    else if s.event.iid != 0 then
      var p :- ReadParameters(s.store);
      if p.keyExpirationGsn == 0 then Aborts(NoBroadcastKey)
      else
        var g :- ReadGsn(s.store);
        if !ValidInterval(s.event.interval) then Aborts(InvalidInterval)
        else Continues(s.(log := s.log + [EmissionOf(s, p, g.gsn)]))
    else
      var _ :- ReadGsn(s.store);
      Continues(s)
  }

  function UpdateAdvertisingData(s: State, fast: Timer): Result<State> {
    if s.run != Running then Continues(s)
    else
      var s1 :- GetAdvertisingParameters(s);
      if s1.connected then Continues(s1) else DidStartAdvertising(s1, fast)
  }

  // ---- Callbacks ----

  function AfterTimerExpired(s: State, h: Handles): Result<State> {
    if s.connected then Aborts(ConnectedAtExpiry)
    else if s.event.iid != 0 && s.timer == NO_TIMER then
      UpdateAdvertisingData(s.(event := NO_EVENT, timer := h.event), h.fast)
    else UpdateAdvertisingData(s, h.fast)
  }

  function AdvertisingTimerExpired(s: State, expired: Timer, h: Handles): Result<State> {
    if expired == s.fastTimer then AfterTimerExpired(s.(fastTimer := NO_TIMER), h)
    else if expired == s.timer then AfterTimerExpired(s.(timer := NO_TIMER), h)
    else Aborts(UnknownTimer)
  }

  function HandleConnect(s: State): Result<State> {
    if s.connected then Aborts(AlreadyConnected)
    else
      var store :- ResetCoalescing(s.store);
      UpdateAdvertisingData(
        s.(connected := true, fastTimer := NO_TIMER, timer := NO_TIMER, store := store, event := NO_EVENT), NO_TIMER)
  }

  function HandleStop(s: State, deferred: bool): State {
    if s.run == Idle then s
    else if s.connected || deferred then s.(run := Stopping)
    else s.(run := Idle)
  }

  function HandleDisconnect(s: State, deferred: bool, h: Handles): Result<State> {
    if !s.connected then Aborts(NotConnected)
    else if !s.fastStarted then Aborts(FastNotStartedAtDisconnect)
    else if s.fastTimer != NO_TIMER then Aborts(FastTimerAtDisconnect)
    else if s.timer != NO_TIMER then Aborts(TimerAtDisconnect)
    else
      var store :- ResetCoalescing(s.store);
      if s.event.iid != 0 then Aborts(EventAtDisconnect)
      else
        var s1 :- UpdateAdvertisingData(s.(connected := false, fastTimer := h.fast, store := store), h.fast);
        Continues(if s1.run != Running then HandleStop(s1, deferred) else s1)
  }

  function PaddedValue(bytes: ScalarBytes): EventValue {
    bytes + Zeros(8 - |bytes|)
  }

  /** Broadcasts a value under a new GSN, unless there is no timer for the event. */
  function StartBroadcast(s: State, iid: uint16, interval: Interval, bytes: ScalarBytes, h: Handles): Result<State> {
    var store :- IncrementGsn(s.store);
    var event := s.event.(value := PaddedValue(bytes));
    if h.event == NO_TIMER then
      UpdateAdvertisingData(s.(store := store, event := event), h.fast)
    else
      UpdateAdvertisingData(
        s.(store := store, timer := h.event, event := event.(interval := interval, iid := iid)), h.fast)
  }

  /** The part of a raised event that broadcasts it, once broadcasts are known to be enabled for it. */
  function BroadcastEvent(s: State, iid: uint16, interval: Interval, read: Read, h: Handles): Result<State> {
    var s1 :- UpdateAdvertisingData(
      s.(timer := NO_TIMER, event := s.event.(iid := 0, value := Zeros(8))), h.fast);
    match read
    case ReadFailed => UpdateAdvertisingData(s1, h.fast)
    case Scalar(bytes) => StartBroadcast(s1, iid, interval, bytes, h)
  }

  function DisconnectedEvent(s: State, h: Handles): Result<State> {
    var g :- ReadGsn(s.store);
    if g.didIncrement then Continues(s)
    else if s.event.iid != 0 then Aborts(EventBeforeDisconnectedEvent)
    else if s.timer != NO_TIMER then Aborts(TimerBeforeDisconnectedEvent)
    else
      var store :- IncrementGsn(s.store);
      if s.connected then Continues(s.(store := store))
      else UpdateAdvertisingData(s.(store := store, timer := h.event), h.fast)
  }

  /** Whether a raised event takes the broadcast path, and with which interval. */
  function BroadcastInterval(s: State, supportsBroadcast: bool, lookup: Lookup): Result<Option<Interval>> {
    if !supportsBroadcast || s.connected then Continues(None)
    else
      var p :- ReadParameters(s.store);
      var g :- ReadGsn(s.store);
      if p.keyExpirationGsn == 0 || p.keyExpirationGsn == g.gsn then Continues(None)
      else
        match lookup
        case LookupFailed => Aborts(LookupError)
        case Disabled => Continues(None)
        case Enabled(interval) => Continues(Some(interval))
  }

  function HandleRaiseEvent(s: State, supportsBroadcast: bool, supportsDisconnected: bool, iid: uint16,
                            lookup: Lookup, read: Read, h: Handles): Result<State>
  {
    var broadcast :- BroadcastInterval(s, supportsBroadcast, lookup);
    if broadcast.Some? then BroadcastEvent(s, iid, broadcast.value, read, h)
    else if supportsDisconnected then DisconnectedEvent(s, h)
    else Continues(s)
  }

  function HandleSendEventNotification(s: State): Result<State> {
    if !s.connected then Aborts(NotConnected)
    else
      var g :- ReadGsn(s.store);
      if g.didIncrement then Continues(s)
      else if s.event.iid != 0 then Aborts(EventBeforeConnectedEvent)
      else if s.timer != NO_TIMER then Aborts(TimerBeforeConnectedEvent)
      else
        var store :- IncrementGsn(s.store);
        Continues(s.(store := store))
  }

  function HandleGenerateKey(s: State, key: Key, newId: Option<DeviceId>): Result<State> {
    var p :- ReadParameters(s.store);
    var g :- ReadGsn(s.store);
    var generated := p.(keyExpirationGsn := ExpirationGsn(g.gsn), key := key);
    var q := if newId.Some? then generated.(hasAdvertisingId := true, advertisingId := newId.value) else generated;
    Continues(s.(store := WithParameters(s.store, q)))
  }

  function HandleSetAdvertisingId(s: State, id: DeviceId): Result<State> {
    var p :- ReadParameters(s.store);
    Continues(s.(store := WithParameters(s.store, p.(hasAdvertisingId := true, advertisingId := id))))
  }

  /** Without an admin pairing, the broadcast key and the advertising identifier are purged. */
  function CleanedUp(store: Store, adminPaired: bool): Store {
    if adminPaired then store else store.(parameters := None)
  }

  /** The stored records when the power is lost within an increment or a firmware update. */
  function Interrupted(store: Store, at: Interruption): Result<Store> {
    match at
    case BeforeGsnSaved =>
      var p :- ReadParameters(store);
      var g :- ReadGsn(store);
      if g.gsn == p.keyExpirationGsn then ExpireKey(store) else Continues(store)
    case AfterGsnSaved => IncrementGsn(store)
    case BeforeKeyExpired => Continues(store.(gsn := None))
    case AfterKeyExpired => ExpireKey(store.(gsn := None))
  }

  /** The power is lost, and comes back. */
  function HandlePowerLoss(s: State, at: Interruption): Result<State> {
    var store :- Interrupted(s.store, at);
    Continues(Created(s).(store := store))
  }

  /** Start of the server: firmware check, clean-up of the pairings, first advertisement. */
  function HandleStart(s: State, firmware: Firmware, adminPaired: bool, h: Handles): Result<State> {
    if firmware == Downgraded then Continues(s)
    else
      var checked :- if firmware == Updated then ExpireKey(s.store.(gsn := None)) else Continues(s.store);
      UpdateAdvertisingData(
        s.(run := Running, store := CleanedUp(checked, adminPaired)), h.fast)
  }

  /** The server object is zeroed; only the store survives, as it does a loss of power. */
  function Created(s: State): State {
    State(s.store, Idle, false, false, NO_TIMER, NO_TIMER, NO_EVENT, s.log)
  }

  function Step(s: State, c: Callback): Result<State> {
    match c
    case Create => Continues(Created(s))
    case LosePower(at) => HandlePowerLoss(s, at)
    case Start(firmware, adminPaired, h) => HandleStart(s, firmware, adminPaired, h)
    case Stop(deferred) => Continues(HandleStop(s, deferred))
    case CompleteShutdown => Continues(s.(run := Idle))
    case RestoreFactorySettings(deviceId) => Continues(s.(store := Store(None, None, deviceId)))
    case DidConnect => HandleConnect(s)
    case DidDisconnect(deferred, h) => HandleDisconnect(s, deferred, h)
    case TimerExpired(expired, h) => AdvertisingTimerExpired(s, expired, h)
    case DidRaiseEvent(broadcast, disconnected, iid, lookup, read, h) =>
      HandleRaiseEvent(s, broadcast, disconnected, iid, lookup, read, h)
    case DidSendEventNotification => HandleSendEventNotification(s)
    case GenerateKey(key, newId) => HandleGenerateKey(s, key, newId)
    case SetAdvertisingId(id) => HandleSetAdvertisingId(s, id)
    case CleanupPairings(adminPaired) => Continues(s.(store := CleanedUp(s.store, adminPaired)))
  }

  // ---- Runs ----

  /**
   What the environment respects. Timer handles are distinct from handles that are live; only live
   timers expire; a controller connects and disconnects only when it can; keys and advertising
   identifiers are set over a connection, and a new key has not encrypted anything yet; pairings change
   over any transport of a server that is not idle; the server starts when idle, and settings are
   restored when it is idle; firmware is updated by an idle server.
   */
  ghost predicate Admissible(s: State, c: Callback) {
    match c
    case Create => true
    case LosePower(at) => at.BeforeKeyExpired? || at.AfterKeyExpired? ==> s.run == Idle
    case Start(_, _, h) => s.run == Idle && FreshHandles(s, h)
    case Stop(_) => true
    case CompleteShutdown => s.run == Stopping && !s.connected
    case RestoreFactorySettings(_) => s.run == Idle
    case DidConnect => s.run == Running && !s.connected
    case DidDisconnect(_, h) => s.connected && FreshHandles(s, h)
    case TimerExpired(expired, h) =>
      && expired != NO_TIMER && (expired == s.fastTimer || expired == s.timer)
      && FreshHandles(if expired == s.fastTimer then s.(fastTimer := NO_TIMER) else s.(timer := NO_TIMER), h)
    case DidRaiseEvent(_, _, _, lookup, _, h) => lookup != LookupFailed && FreshHandles(s, h)
    case DidSendEventNotification => s.connected
    case GenerateKey(key, _) => s.connected && forall e :: e in s.log ==> e.key != key
    case SetAdvertisingId(_) => s.connected
    case CleanupPairings(_) => s.run != Idle
  }

  ghost predicate FreshHandles(s: State, h: Handles) {
    && (h.fast != NO_TIMER ==> h.fast != h.event && h.fast != s.timer)
    && (h.event != NO_TIMER ==> h.event != s.fastTimer)
  }

  function RunFrom(s: State, cs: seq<Callback>): Result<State>
    decreases |cs|
  {
    if cs == [] then Continues(s)
    else
      var s1 :- Step(s, cs[0]);
      RunFrom(s1, cs[1..])
  }

  /** Every callback of the run is admissible where it occurs. */
  ghost predicate AdmissibleRun(s: State, cs: seq<Callback>)
    decreases |cs|
  {
    cs == [] ||
    (Admissible(s, cs[0]) && (Step(s, cs[0]).Continues? ==> AdmissibleRun(Step(s, cs[0]).state, cs[1..])))
  }

  /** A device as it leaves the factory. */
  function Factory(deviceId: DeviceId): State {
    State(Store(None, None, deviceId), Idle, false, false, NO_TIMER, NO_TIMER, NO_EVENT, [])
  }
}
