/**
 The advertising part of the accessory server as an object: each callback updates its fields and the
 stored records in place, as the state machine of module `Advertising` says.
 */
module AdvertisingServer {
  import opened Bytes
  import opened Options
  import opened Outcomes
  import opened StoredRecords
  import Spec = Advertising
  import opened Advertising

  /** Fills a buffer with zeros. */
  method ZeroBytes(a: array<byte>)
    modifies a
    ensures a[..] == Zeros(a.Length)
  {
    for i := 0 to a.Length
      invariant forall k :: 0 <= k < i ==> a[k] == 0
    {
      a[i] := 0;
    }
  }

  class Server {
    // Records in the key-value store.
    var gsnRecord: Option<seq<byte>>
    var parametersRecord: Option<seq<byte>>
    var deviceId: DeviceId

    var run: ServerState
    var connected: bool
    var fastStarted: bool
    var fastTimer: Timer
    var timer: Timer
    var eventInterval: nat
    var eventIid: uint16
    const eventValue: array<byte>

    // Every encryption so far.
    ghost var log: seq<Emission>

    ghost predicate Valid()
      reads this
    {
      eventValue.Length == 8
    }

    ghost function View(): State
      requires Valid()
      reads this, eventValue
    {
      State(CurrentStore(), run, connected, fastStarted, fastTimer, timer,
            BroadcastedEvent(eventInterval, eventIid, eventValue[..]), log)
    }

    ghost function CurrentStore(): Store
      reads this
    {
      Store(gsnRecord, parametersRecord, deviceId)
    }

    /** The object is in the state that the specification gives, or both abort at the same check. */
    ghost predicate Agrees(status: Status<Check>, r: Result<State>)
      requires Valid()
      reads this, eventValue
    {
      match r
      case Continues(t) => status == Returned && View() == t
      case Aborts(at) => status == Halted(at)
    }

    /** As `Agrees`, for a method that changes only the stored records. */
    ghost predicate StoreAgrees(status: Status<Check>, r: Result<Store>)
      reads this
    {
      match r
      case Continues(t) => status == Returned && CurrentStore() == t
      case Aborts(at) => status == Halted(at)
    }

    constructor (deviceId: DeviceId)
      ensures Valid() && fresh(eventValue)
      ensures View() == Factory(deviceId)
    {
      gsnRecord, parametersRecord, this.deviceId := None, None, deviceId;
      run, connected, fastStarted, fastTimer, timer := Idle, false, false, NO_TIMER, NO_TIMER;
      eventInterval, eventIid := 0, 0;
      eventValue := new byte[8](_ => 0);
      log := [];
      new;
      assert eventValue[..] == Zeros(8);
    }

    // ---- Stored records ----

    method ReadGsn() returns (r: Result<GsnState>)
      ensures r == Spec.ReadGsn(CurrentStore())
    {
      var g := DecodeGsn(gsnRecord);
      return if g.None? then Aborts(CorruptRecord) else Continues(g.value);
    }

    method ReadParameters() returns (r: Result<BroadcastParameters>)
      ensures r == Spec.ReadParameters(CurrentStore())
    {
      var p := DecodeParameters(parametersRecord);
      return if p.None? then Aborts(CorruptRecord) else Continues(p.value);
    }

    method ExpireKey() returns (status: Status<Check>)
      modifies this`parametersRecord
      ensures StoreAgrees(status, Spec.ExpireKey(old(CurrentStore())))
    {
      var r := ReadParameters();
      if r.Aborts? { return Halted(r.at); }
      parametersRecord := Some(EncodeParameters(r.state.(keyExpirationGsn := 0, key := Zeros(32))));
      status := Returned;
    }

    method IncrementGsn() returns (status: Status<Check>)
      modifies this`gsnRecord, this`parametersRecord
      ensures StoreAgrees(status, Spec.IncrementGsn(old(CurrentStore())))
    {
      var p := ReadParameters();
      if p.Aborts? { return Halted(p.at); }
      var g := ReadGsn();
      if g.Aborts? { return Halted(g.at); }

      // Expire the key if necessary.
      if g.state.gsn == p.state.keyExpirationGsn {
        status := ExpireKey();
        assert status.Returned?;
      }

      var gsn := g.state.gsn;
      if gsn == UINT16_MAX {
        gsn := 1;
      } else {
        gsn := gsn + 1;
      }
      gsnRecord := Some(EncodeGsn(GsnState(gsn, true)));
      status := Returned;
    }

    method ResetCoalescing() returns (status: Status<Check>)
      modifies this`gsnRecord
      ensures StoreAgrees(status, Spec.ResetCoalescing(old(CurrentStore())))
    {
      var g := ReadGsn();
      if g.Aborts? { return Halted(g.at); }
      gsnRecord := Some(EncodeGsn(g.state.(didIncrement := false)));
      status := Returned;
    }

    // ---- Advertisement ----

    method DidStartAdvertising(fast: Timer) returns (status: Status<Check>)
      requires Valid()
      modifies this`fastStarted, this`fastTimer
      ensures Agrees(status, Spec.DidStartAdvertising(old(View()), fast))
    {
      if !fastStarted {
        if fastTimer != NO_TIMER { return Halted(FastTimerBeforeStart); }
        fastStarted := true;
        fastTimer := fast;
      }
      status := Returned;
    }

    method GetAdvertisingParameters() returns (status: Status<Check>, isActive: bool)
      requires Valid()
      modifies this`log
      ensures Agrees(status, Spec.GetAdvertisingParameters(old(View())))
      ensures status.Returned? ==> isActive == !connected
    {
      isActive := true;
      if connected {
        return Returned, false;
      }
      if eventIid != 0 {
        var p := ReadParameters();
        if p.Aborts? { return Halted(p.at), isActive; }
        if p.state.keyExpirationGsn == 0 { return Halted(NoBroadcastKey), isActive; }
        var g := ReadGsn();
        if g.Aborts? { return Halted(g.at), isActive; }
        if !ValidInterval(eventInterval) { return Halted(InvalidInterval), isActive; }
        log := log + [EmissionOf(View(), p.state, g.state.gsn)];
      } else {
        var g := ReadGsn();
        if g.Aborts? { return Halted(g.at), isActive; }
      }
      status := Returned;
    }

    method UpdateAdvertisingData(fast: Timer) returns (status: Status<Check>)
      requires Valid()
      modifies this`fastStarted, this`fastTimer, this`log
      ensures Agrees(status, Spec.UpdateAdvertisingData(old(View()), fast))
    {
      if run == Running {
        var s, isActive := GetAdvertisingParameters();
        if s.Halted? { return s; }
        if isActive {
          :- DidStartAdvertising(fast);
        }
      }
      status := Returned;
    }

    // ---- Callbacks ----

    method ClearEvent()
      requires Valid()
      modifies this`eventInterval, this`eventIid, eventValue
      ensures View() == old(View()).(event := NO_EVENT)
    {
      eventInterval, eventIid := 0, 0;
      ZeroBytes(eventValue);
    }

    method AdvertisingTimerExpired(expired: Timer, h: Handles) returns (status: Status<Check>)
      requires Valid()
      modifies this, eventValue
      ensures Agrees(status, Spec.AdvertisingTimerExpired(old(View()), expired, h))
    {
      if expired == fastTimer {
        fastTimer := NO_TIMER;
      } else if expired == timer {
        timer := NO_TIMER;
      } else {
        return Halted(UnknownTimer);
      }

      if connected { return Halted(ConnectedAtExpiry); }

      // Without a connection within the broadcast period, fall back to a disconnected event.
      if eventIid != 0 && timer == NO_TIMER {
        ClearEvent();
        timer := h.event;
      }
      status := UpdateAdvertisingData(h.fast);
    }

    method DidConnect() returns (status: Status<Check>)
      requires Valid()
      modifies this, eventValue
      ensures Agrees(status, HandleConnect(old(View())))
    {
      if connected { return Halted(AlreadyConnected); }
      connected := true;
      if fastTimer != NO_TIMER {
        fastTimer := NO_TIMER;
      }
      if timer != NO_TIMER {
        timer := NO_TIMER;
      }
      :- ResetCoalescing();
      ClearEvent();
      assert View() == old(View()).(connected := true, fastTimer := NO_TIMER, timer := NO_TIMER,
                                    store := CurrentStore(), event := NO_EVENT);
      status := UpdateAdvertisingData(NO_TIMER);
    }

    method Stop(deferred: bool)
      requires Valid()
      modifies this`run
      ensures View() == HandleStop(old(View()), deferred)
    {
      if run == Idle { return; }
      if run != Stopping {
        run := Stopping;
      }
      if connected || deferred { return; }
      run := Idle;
    }

    method DidDisconnect(deferred: bool, h: Handles) returns (status: Status<Check>)
      requires Valid()
      modifies this, eventValue
      ensures Agrees(status, HandleDisconnect(old(View()), deferred, h))
    {
      if !connected { return Halted(NotConnected); }
      connected := false;
      if !fastStarted { return Halted(FastNotStartedAtDisconnect); }
      if fastTimer != NO_TIMER { return Halted(FastTimerAtDisconnect); }
      if timer != NO_TIMER { return Halted(TimerAtDisconnect); }
      fastTimer := h.fast;
      :- ResetCoalescing();
      if eventIid != 0 { return Halted(EventAtDisconnect); }
      assert View() == old(View()).(connected := false, fastTimer := h.fast, store := CurrentStore());
      status := UpdateAdvertisingData(h.fast);
      assert status.Returned?;
      if run != Running {
        Stop(deferred);
      }
    }

    /** Writes a value over the zeros of the event buffer. */
    method WriteValue(bytes: ScalarBytes)
      requires Valid() && eventValue[..] == Zeros(8)
      modifies eventValue
      ensures eventValue[..] == PaddedValue(bytes)
    {
      var next := Put(eventValue, 0, bytes);
      assert eventValue[..] == eventValue[..next] + eventValue[next..];
    }

    method StartBroadcast(iid: uint16, interval: Interval, bytes: ScalarBytes, h: Handles)
      returns (status: Status<Check>)
      requires Valid() && eventValue[..] == Zeros(8) && timer == NO_TIMER
      modifies this, eventValue
      ensures Agrees(status, Spec.StartBroadcast(old(View()), iid, interval, bytes, h))
    {
      WriteValue(bytes);
      :- IncrementGsn();
      Activate(iid, interval, h.event);
      status := UpdateAdvertisingData(h.fast);
    }

    /** The event becomes active, if there is a timer to end it. */
    method Activate(iid: uint16, interval: Interval, handle: Timer)
      requires Valid() && timer == NO_TIMER
      modifies this`timer, this`eventInterval, this`eventIid
      ensures View() == if handle == NO_TIMER then old(View())
                        else old(View()).(timer := handle,
                                          event := old(View()).event.(interval := interval, iid := iid))
    {
      timer := handle;
      if timer != NO_TIMER {
        eventInterval := interval;
        eventIid := iid;
      }
    }

    method BroadcastEvent(iid: uint16, interval: Interval, read: Read, h: Handles) returns (status: Status<Check>)
      requires Valid()
      modifies this, eventValue
      ensures Agrees(status, Spec.BroadcastEvent(old(View()), iid, interval, read, h))
    {
      timer := NO_TIMER;

      // Cancel the current broadcast.
      eventIid := 0;
      ZeroBytes(eventValue);
      :- UpdateAdvertisingData(h.fast);

      if read.ReadFailed? {
        status := UpdateAdvertisingData(h.fast);
      } else {
        status := StartBroadcast(iid, interval, read.bytes, h);
      }
    }

    /** Whether an event is to be broadcast, and with which interval. */
    method GetBroadcastInterval(supportsBroadcast: bool, lookup: Lookup) returns (r: Result<Option<Interval>>)
      requires Valid()
      ensures r == BroadcastInterval(View(), supportsBroadcast, lookup)
    {
      if supportsBroadcast && !connected {
        var p := ReadParameters();
        if p.Aborts? { return Aborts(p.at); }
        var g := ReadGsn();
        if g.Aborts? { return Aborts(g.at); }
        if p.state.keyExpirationGsn != 0 && p.state.keyExpirationGsn != g.state.gsn {
          if lookup.LookupFailed? { return Aborts(LookupError); }
          if lookup.Enabled? { return Continues(Some(lookup.interval)); }
        }
      }
      return Continues(None);
    }

    method DisconnectedEvent(h: Handles) returns (status: Status<Check>)
      requires Valid()
      modifies this, eventValue
      ensures Agrees(status, Spec.DisconnectedEvent(old(View()), h))
    {
      var g := ReadGsn();
      if g.Aborts? { return Halted(g.at); }
      if !g.state.didIncrement {
        if eventIid != 0 { return Halted(EventBeforeDisconnectedEvent); }
        if timer != NO_TIMER { return Halted(TimerBeforeDisconnectedEvent); }
        :- IncrementGsn();
        if !connected {
          timer := h.event;
          status := UpdateAdvertisingData(h.fast);
          return;
        }
      }
      status := Returned;
    }

    method DidRaiseEvent(supportsBroadcast: bool, supportsDisconnected: bool, iid: uint16, lookup: Lookup,
                         read: Read, h: Handles)
      returns (status: Status<Check>)
      requires Valid()
      modifies this, eventValue
      ensures Agrees(status,
                     HandleRaiseEvent(old(View()), supportsBroadcast, supportsDisconnected, iid, lookup, read, h))
    {
      var broadcast := GetBroadcastInterval(supportsBroadcast, lookup);
      if broadcast.Aborts? { return Halted(broadcast.at); }
      if broadcast.state.Some? {
        status := BroadcastEvent(iid, broadcast.state.value, read, h);
      } else if supportsDisconnected {
        status := DisconnectedEvent(h);
      } else {
        status := Returned;
      }
    }

    method DidSendEventNotification() returns (status: Status<Check>)
      requires Valid()
      modifies this
      ensures Agrees(status, HandleSendEventNotification(old(View())))
    {
      if !connected { return Halted(NotConnected); }
      var g := ReadGsn();
      if g.Aborts? { return Halted(g.at); }
      if !g.state.didIncrement {
        if eventIid != 0 { return Halted(EventBeforeConnectedEvent); }
        if timer != NO_TIMER { return Halted(TimerBeforeConnectedEvent); }
        :- IncrementGsn();
      }
      status := Returned;
    }

    // ---- Broadcast key ----

    method GenerateKey(key: Key, newId: Option<DeviceId>) returns (status: Status<Check>)
      requires Valid()
      modifies this
      ensures Agrees(status, HandleGenerateKey(old(View()), key, newId))
    {
      var r := ReadParameters();
      if r.Aborts? { return Halted(r.at); }
      var g := ReadGsn();
      if g.Aborts? { return Halted(g.at); }
      var p := r.state;

      // The key expires after 32,767 increments.
      var expiration: uint32 := g.state.gsn + 32767 - 1;
      if expiration > UINT16_MAX {
        expiration := expiration - UINT16_MAX;
      }
      assert expiration != 0 && expiration <= UINT16_MAX;
      p := p.(keyExpirationGsn := expiration, key := key);
      if newId.Some? {
        p := p.(hasAdvertisingId := true, advertisingId := newId.value);
      }
      parametersRecord := Some(EncodeParameters(p));
      status := Returned;
    }

    method SetAdvertisingId(id: DeviceId) returns (status: Status<Check>)
      requires Valid()
      modifies this
      ensures Agrees(status, HandleSetAdvertisingId(old(View()), id))
    {
      var p := ReadParameters();
      if p.Aborts? { return Halted(p.at); }
      parametersRecord := Some(EncodeParameters(p.state.(hasAdvertisingId := true, advertisingId := id)));
      status := Returned;
    }

    // ---- Start and reset ----

    method HandleFirmwareUpdate() returns (status: Status<Check>)
      modifies this`gsnRecord, this`parametersRecord
      ensures StoreAgrees(status, Spec.ExpireKey(old(CurrentStore()).(gsn := None)))
    {
      gsnRecord := None;
      status := ExpireKey();
    }

    /** The records at a start: reset by an update, without broadcast parameters when there is no admin. */
    method CheckRecords(firmware: Firmware, adminPaired: bool) returns (status: Status<Check>)
      requires Valid()
      modifies this`gsnRecord, this`parametersRecord
      ensures var store := old(CurrentStore());
              var checked := if firmware == Updated then Spec.ExpireKey(store.(gsn := None)) else Continues(store);
              StoreAgrees(status, if checked.Aborts? then checked else Continues(CleanedUp(checked.state, adminPaired)))
    {
      if firmware == Updated {
        :- HandleFirmwareUpdate();
      }
      CleanupPairings(adminPaired);
      status := Returned;
    }

    method Start(firmware: Firmware, adminPaired: bool, h: Handles) returns (status: Status<Check>)
      requires Valid()
      requires run == Idle
      modifies this
      ensures Agrees(status, HandleStart(old(View()), firmware, adminPaired, h))
    {
      run := Running;
      if firmware == Downgraded {
        run := Idle;
        return Returned;
      }
      :- CheckRecords(firmware, adminPaired);
      assert View() == old(View()).(run := Running, store := CurrentStore());
      status := UpdateAdvertisingData(h.fast);
    }

    /** What the clean-up of the pairings does to the broadcast parameters. */
    method CleanupPairings(adminPaired: bool)
      requires Valid()
      modifies this`parametersRecord
      ensures View() == old(View()).(store := CleanedUp(old(CurrentStore()), adminPaired))
    {
      if !adminPaired {
        parametersRecord := None;
      }
    }

    method RestoreFactorySettings(newDeviceId: DeviceId)
      requires Valid()
      modifies this
      ensures View() == old(View()).(store := Store(None, None, newDeviceId))
    {
      gsnRecord, parametersRecord, deviceId := None, None, newDeviceId;
    }

    method Create()
      requires Valid()
      modifies this, eventValue
      ensures View() == Created(old(View()))
    {
      run, connected, fastStarted, fastTimer, timer := Idle, false, false, NO_TIMER, NO_TIMER;
      ClearEvent();
    }

    /** The writes of an increment or an update up to a loss of power. */
    method Interrupt(at: Interruption) returns (status: Status<Check>)
      modifies this`gsnRecord, this`parametersRecord
      ensures StoreAgrees(status, Interrupted(old(CurrentStore()), at))
    {
      match at
      case BeforeGsnSaved =>
        var p := ReadParameters();
        if p.Aborts? { return Halted(p.at); }
        var g := ReadGsn();
        if g.Aborts? { return Halted(g.at); }
        status := Returned;
        if g.state.gsn == p.state.keyExpirationGsn {
          status := ExpireKey();
        }
      case AfterGsnSaved => status := IncrementGsn();
      case BeforeKeyExpired =>
        gsnRecord := None;
        status := Returned;
      case AfterKeyExpired => status := HandleFirmwareUpdate();
    }

    method LosePower(at: Interruption) returns (status: Status<Check>)
      requires Valid()
      modifies this, eventValue
      ensures Agrees(status, HandlePowerLoss(old(View()), at))
    {
      status := Interrupt(at);
      if status.Halted? { return; }
      Create();
      status := Returned;
    }

    /** Any callback of the state machine. A server starts only when it is idle. */
    method Handle(c: Callback) returns (status: Status<Check>)
      requires Valid()
      requires c.Start? ==> run == Idle
      modifies this, eventValue
      ensures Agrees(status, Step(old(View()), c))
    {
      status := Returned;
      match c {
        case Create => Create();
        case LosePower(at) => status := LosePower(at);
        case Start(firmware, adminPaired, h) => status := Start(firmware, adminPaired, h);
        case Stop(deferred) => Stop(deferred);
        case CompleteShutdown => run := Idle;
        case RestoreFactorySettings(newDeviceId) => RestoreFactorySettings(newDeviceId);
        case DidConnect => status := DidConnect();
        case DidDisconnect(deferred, h) => status := DidDisconnect(deferred, h);
        case TimerExpired(expired, h) => status := AdvertisingTimerExpired(expired, h);
        case DidRaiseEvent(broadcast, disconnected, iid, lookup, read, h) =>
          status := DidRaiseEvent(broadcast, disconnected, iid, lookup, read, h);
        case DidSendEventNotification => status := DidSendEventNotification();
        case GenerateKey(key, newId) => status := GenerateKey(key, newId);
        case SetAdvertisingId(id) => status := SetAdvertisingId(id);
        case CleanupPairings(adminPaired) => CleanupPairings(adminPaired);
      }
    }
  }
}
