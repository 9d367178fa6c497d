/**
 Two things that every broadcast key is owed: no two different payloads are encrypted under it and the
 same nonce, and it encrypts under at most 32,766 nonces. Both are kept by the same steps; they differ in
 what they say of the log and of the current key.
 */
module NonceUniqueness {
  import opened Bytes
  import opened Options
  import opened Outcomes
  import opened StoredRecords
  import opened Advertising

  const KEY_LIFETIME := 32767

  function GsnOf(store: Store): GsnState
    requires DecodeGsn(store.gsn).Some?
  {
    DecodeGsn(store.gsn).value
  }

  function ParametersOf(store: Store): BroadcastParameters
    requires DecodeParameters(store.parameters).Some?
  {
    DecodeParameters(store.parameters).value
  }

  /** How many increments lead from GSN `from` to GSN `to`. */
  function Age(from: uint16, to: uint16): int {
    if to >= from then to - from else to - from + UINT16_MAX
  }

  ghost predicate Readable(store: Store) {
    && DecodeGsn(store.gsn).Some? && GsnOf(store).gsn >= 1
    && DecodeParameters(store.parameters).Some?
  }

  ghost predicate SamePayload(e: Emission, f: Emission) {
    e.aad == f.aad && e.iid == f.iid && e.value == f.value
  }

  ghost predicate NoncesUnique(log: seq<Emission>) {
    forall e, f :: e in log && f in log && e.key == f.key && e.gsn == f.gsn ==> SamePayload(e, f)
  }

  /** The GSNs under which a key was used. */
  ghost function GsnsUnder(log: seq<Emission>, key: Key): set<uint16> {
    set e | e in log && e.key == key :: e.gsn
  }

  ghost predicate UseBounded(log: seq<Emission>) {
    forall key :: |GsnsUnder(log, key)| < KEY_LIFETIME
  }

  datatype Aim = UniqueNonces | BoundedUse

  ghost predicate LogGood(log: seq<Emission>, aim: Aim) {
    match aim
    case UniqueNonces => NoncesUnique(log)
    case BoundedUse => UseBounded(log)
  }

  // ---- The current key ----

  predicate HasKey(s: State)
    requires Readable(s.store)
  {
    ParametersOf(s.store).keyExpirationGsn != 0
  }

  /** An encryption under the current key. */
  predicate UnderCurrentKey(s: State, e: Emission)
    requires Readable(s.store)
  {
    HasKey(s) && e.key == ParametersOf(s.store).key
  }

  /** How many increments the current key has left. */
  function Remaining(s: State): int
    requires Readable(s.store)
  {
    Age(GsnOf(s.store).gsn, ParametersOf(s.store).keyExpirationGsn)
  }

  /** The GSN lies ahead: the key would meet it again before it expires. */
  predicate IsAhead(s: State, gsn: uint16)
    requires Readable(s.store)
  {
    1 <= Age(GsnOf(s.store).gsn, gsn) <= Remaining(s)
  }

  /**
   The current key may be used from the current GSN on. For unique nonces, no GSN ahead has been used under
   it, and the current one only for the active event. For bounded use, it has at most 32,766 GSNs left,
   the current one included if an event is active.
   */
  ghost predicate KeyFits(s: State, aim: Aim)
    requires Readable(s.store)
  {
    HasKey(s) ==>
      match aim
      case UniqueNonces =>
        && (forall e :: e in s.log && UnderCurrentKey(s, e) ==> !IsAhead(s, e.gsn))
        && (s.event.iid != 0 ==>
              forall e :: e in s.log && UnderCurrentKey(s, e) && e.gsn == GsnOf(s.store).gsn ==>
                SamePayload(e, EmissionOf(s, ParametersOf(s.store), GsnOf(s.store).gsn)))
      case BoundedUse => Remaining(s) < KEY_LIFETIME - if s.event.iid != 0 then 1 else 0
  }

  /** For bounded use: the current key has been used only under the last 32,766 GSNs before it expires. */
  ghost predicate UsesInWindow(s: State, aim: Aim)
    requires Readable(s.store)
  {
    aim == BoundedUse ==>
      forall e :: e in s.log && UnderCurrentKey(s, e) ==>
        Age(e.gsn, ParametersOf(s.store).keyExpirationGsn) < KEY_LIFETIME - 1
  }

  /** What holds also while the key does not fit. */
  ghost predicate LogInv(s: State, aim: Aim) {
    && Readable(s.store)
    && (s.connected ==> s.event.iid == 0 && s.run != Idle)
    && (forall e :: e in s.log ==> e.gsn >= 1)
    && LogGood(s.log, aim)
    && UsesInWindow(s, aim)
  }

  ghost predicate KeyInv(s: State, aim: Aim) {
    LogInv(s, aim) && KeyFits(s, aim)
  }

  /**
   What every run keeps. The key may not fit after a firmware update that was cut off, but the server does
   not advertise before the next start.
   */
  ghost predicate RunInv(s: State, aim: Aim) {
    LogInv(s, aim) && (KeyFits(s, aim) || s.run == Idle)
  }

  /** The current key may be used under the current GSN by a new event. */
  ghost predicate GsnUnused(s: State, aim: Aim)
    requires Readable(s.store)
  {
    HasKey(s) ==>
      match aim
      case UniqueNonces => forall e :: e in s.log && UnderCurrentKey(s, e) ==> e.gsn != GsnOf(s.store).gsn
      case BoundedUse => Remaining(s) < KEY_LIFETIME - 1
  }

  // ---- Emissions and increments ----

  /** The invariant looks at the records, the event, the connection and the log only. */
  lemma OtherFieldsDoNotMatter(s: State, t: State, aim: Aim)
    requires KeyInv(s, aim) && t.store == s.store && t.log == s.log
    requires t.event.iid == 0 || t.event == s.event
    requires t.connected ==> t.event.iid == 0 && t.run != Idle
    ensures KeyInv(t, aim)
  {
  }

  lemma {:induction false} WindowBoundsCardinality(gsns: set<uint16>, expiration: uint16, n: nat)
    requires expiration >= 1 && n <= UINT16_MAX
    requires forall g :: g in gsns ==> g >= 1 && Age(g, expiration) < n
    ensures |gsns| <= n
  {
    if n == 0 {
      if g :| g in gsns {
        assert false;
      }
      assert gsns == {};
    } else if g :| g in gsns && Age(g, expiration) == n - 1 {
      WindowBoundsCardinality(gsns - {g}, expiration, n - 1);
    } else {
      WindowBoundsCardinality(gsns, expiration, n - 1);
    }
  }

  lemma LogStaysUnique(log: seq<Emission>, e: Emission)
    requires NoncesUnique(log)
    requires forall f :: f in log && f.key == e.key && f.gsn == e.gsn ==> SamePayload(f, e)
    ensures NoncesUnique(log + [e])
  {
  }

  lemma LogStaysBounded(log: seq<Emission>, e: Emission, expiration: uint16)
    requires UseBounded(log) && expiration >= 1
    requires forall f :: f in log + [e] && f.key == e.key ==> f.gsn >= 1 && Age(f.gsn, expiration) < KEY_LIFETIME - 1
    ensures UseBounded(log + [e])
  {
    forall key
      ensures |GsnsUnder(log + [e], key)| < KEY_LIFETIME
    {
      if key == e.key {
        WindowBoundsCardinality(GsnsUnder(log + [e], key), expiration, KEY_LIFETIME - 1);
      } else {
        assert GsnsUnder(log + [e], key) == GsnsUnder(log, key);
      }
    }
  }

  lemma EmissionKeepsKeyInv(s: State, aim: Aim)
    requires KeyInv(s, aim) && s.event.iid != 0 && HasKey(s)
    ensures KeyInv(s.(log := s.log + [EmissionOf(s, ParametersOf(s.store), GsnOf(s.store).gsn)]), aim)
  {
    var e := EmissionOf(s, ParametersOf(s.store), GsnOf(s.store).gsn);
    match aim
    case UniqueNonces => LogStaysUnique(s.log, e);
    case BoundedUse => LogStaysBounded(s.log, e, ParametersOf(s.store).keyExpirationGsn);
  }

  lemma UpdateKeepsKeyInv(s: State, fast: Timer, aim: Aim)
    requires KeyInv(s, aim)
    requires UpdateAdvertisingData(s, fast).Continues?
    ensures KeyInv(UpdateAdvertisingData(s, fast).state, aim)
  {
    var t := UpdateAdvertisingData(s, fast).state;
    if s.run == Running && !s.connected && s.event.iid != 0 {
      EmissionKeepsKeyInv(s, aim);
      OtherFieldsDoNotMatter(s.(log := t.log), t, aim);
    } else {
      OtherFieldsDoNotMatter(s, t, aim);
    }
  }

  lemma IncrementedStore(store: Store)
    requires Readable(store)
    ensures IncrementGsn(store).Continues?
    ensures var t := IncrementGsn(store).state;
            var p := ParametersOf(store);
            && Readable(t) && GsnOf(t) == GsnState(NextGsn(GsnOf(store).gsn), true)
            && t.deviceId == store.deviceId
            && ParametersOf(t) == if p.keyExpirationGsn == GsnOf(store).gsn
                                  then p.(keyExpirationGsn := 0, key := Zeros(32)) else p
  {
  }

  /** One increment on, what is ahead is one increment nearer. */
  lemma AgeAfterIncrement(gsn: uint16, x: uint16)
    requires gsn >= 1 && x >= 1
    ensures Age(NextGsn(gsn), x) == if x == gsn then UINT16_MAX - 1 else Age(gsn, x) - 1
    ensures 0 <= Age(gsn, x) < UINT16_MAX && (Age(gsn, x) == 0 <==> x == gsn)
  {
  }

  lemma IncrementKeepsKeyInv(s: State, aim: Aim)
    requires KeyInv(s, aim)
    ensures IncrementGsn(s.store).Continues?
    ensures var t := s.(store := IncrementGsn(s.store).state); KeyInv(t, aim) && GsnUnused(t, aim)
  {
    IncrementedStore(s.store);
    var p := ParametersOf(s.store);
    var g := GsnOf(s.store).gsn;
    var t := s.(store := IncrementGsn(s.store).state);
    if HasKey(t) {
      assert p.keyExpirationGsn != g && ParametersOf(t.store) == p;
      AgeAfterIncrement(g, p.keyExpirationGsn);
      forall e | e in t.log && UnderCurrentKey(t, e)
        ensures aim == UniqueNonces ==> !IsAhead(t, e.gsn) && e.gsn != GsnOf(t.store).gsn
      {
        AgeAfterIncrement(g, e.gsn);
      }
    }
  }

  lemma ActivateKeepsKeyInv(s: State, event: BroadcastedEvent, timer: Timer, aim: Aim)
    requires KeyInv(s, aim) && !s.connected && GsnUnused(s, aim)
    ensures KeyInv(s.(event := event, timer := timer), aim)
  {
  }

  // ---- Callbacks ----

  lemma StartBroadcastKeepsKeyInv(
    s: State, iid: uint16, interval: Interval, bytes: ScalarBytes, h: Handles, aim: Aim)
    requires KeyInv(s, aim) && !s.connected && s.event.iid == 0
    requires StartBroadcast(s, iid, interval, bytes, h).Continues?
    ensures KeyInv(StartBroadcast(s, iid, interval, bytes, h).state, aim)
  {
    IncrementKeepsKeyInv(s, aim);
    var t := s.(store := IncrementGsn(s.store).state);
    var event := s.event.(value := PaddedValue(bytes));
    if h.event == NO_TIMER {
      UpdateKeepsKeyInv(t.(event := event), h.fast, aim);
    } else {
      var u := t.(timer := h.event, event := event.(interval := interval, iid := iid));
      ActivateKeepsKeyInv(t, u.event, u.timer, aim);
      UpdateKeepsKeyInv(u, h.fast, aim);
    }
  }

  lemma BroadcastKeepsKeyInv(s: State, iid: uint16, interval: Interval, read: Read, h: Handles, aim: Aim)
    requires KeyInv(s, aim) && !s.connected
    requires BroadcastEvent(s, iid, interval, read, h).Continues?
    ensures KeyInv(BroadcastEvent(s, iid, interval, read, h).state, aim)
  {
    var s0 := s.(timer := NO_TIMER, event := s.event.(iid := 0, value := Zeros(8)));
    UpdateKeepsKeyInv(s0, h.fast, aim);
    UpdateChanges(s0, h.fast);
    var s1 := UpdateAdvertisingData(s0, h.fast).state;
    match read
    case ReadFailed => UpdateKeepsKeyInv(s1, h.fast, aim);
    case Scalar(bytes) => StartBroadcastKeepsKeyInv(s1, iid, interval, bytes, h, aim);
  }

  lemma DisconnectedEventKeepsKeyInv(s: State, h: Handles, aim: Aim)
    requires KeyInv(s, aim)
    requires DisconnectedEvent(s, h).Continues?
    ensures KeyInv(DisconnectedEvent(s, h).state, aim)
  {
    IncrementKeepsKeyInv(s, aim);
    var t := s.(store := IncrementGsn(s.store).state);
    if !s.connected && !GsnOf(s.store).didIncrement {
      UpdateKeepsKeyInv(t.(timer := h.event), h.fast, aim);
    }
  }

  lemma RaiseEventKeepsKeyInv(s: State, c: Callback, aim: Aim)
    requires KeyInv(s, aim) && c.DidRaiseEvent? && Step(s, c).Continues?
    ensures KeyInv(Step(s, c).state, aim)
  {
    var broadcast := BroadcastInterval(s, c.supportsBroadcast, c.lookup).state;
    if broadcast.Some? {
      BroadcastKeepsKeyInv(s, c.iid, broadcast.value, c.read, c.handles, aim);
    } else if c.supportsDisconnected {
      DisconnectedEventKeepsKeyInv(s, c.handles, aim);
    }
  }

  lemma GenerateKeyKeepsKeyInv(s: State, key: Key, newId: Option<DeviceId>, aim: Aim)
    requires KeyInv(s, aim) && s.connected
    requires forall e :: e in s.log ==> e.key != key
    requires HandleGenerateKey(s, key, newId).Continues?
    ensures KeyInv(HandleGenerateKey(s, key, newId).state, aim)
  {
  }

  lemma StartedStoreKeepsKeyInv(s: State, firmware: Firmware, adminPaired: bool, aim: Aim)
    requires LogInv(s, aim) && s.run == Idle && firmware != Downgraded
    requires firmware == Unchanged && adminPaired ==> KeyFits(s, aim)
    ensures var checked := if firmware == Updated then ExpireKey(s.store.(gsn := None)).state else s.store;
            KeyInv(s.(run := Running, store := CleanedUp(checked, adminPaired)), aim)
  {
  }

  lemma StartKeepsKeyInv(s: State, firmware: Firmware, adminPaired: bool, h: Handles, aim: Aim)
    requires LogInv(s, aim) && s.run == Idle && firmware != Downgraded
    requires firmware == Unchanged && adminPaired ==> KeyFits(s, aim)
    requires HandleStart(s, firmware, adminPaired, h).Continues?
    ensures KeyInv(HandleStart(s, firmware, adminPaired, h).state, aim)
  {
    var checked := if firmware == Updated then ExpireKey(s.store.(gsn := None)).state else s.store;
    StartedStoreKeepsKeyInv(s, firmware, adminPaired, aim);
    UpdateKeepsKeyInv(s.(run := Running, store := CleanedUp(checked, adminPaired)), h.fast, aim);
  }

  lemma ConnectKeepsKeyInv(s: State, aim: Aim)
    requires KeyInv(s, aim) && s.run == Running
    requires HandleConnect(s).Continues?
    ensures KeyInv(HandleConnect(s).state, aim)
  {
    var t := s.(connected := true, fastTimer := NO_TIMER, timer := NO_TIMER, store := ResetCoalescing(s.store).state,
                event := NO_EVENT);
    ResetKeepsKeyInv(s.(event := NO_EVENT), aim);
    OtherFieldsDoNotMatter(s.(event := NO_EVENT, store := t.store), t, aim);
    UpdateKeepsKeyInv(t, NO_TIMER, aim);
  }

  lemma ResetKeepsKeyInv(s: State, aim: Aim)
    requires KeyInv(s, aim)
    ensures ResetCoalescing(s.store).Continues?
    ensures KeyInv(s.(store := ResetCoalescing(s.store).state), aim)
  {
  }

  lemma DisconnectKeepsKeyInv(s: State, deferred: bool, h: Handles, aim: Aim)
    requires KeyInv(s, aim)
    requires HandleDisconnect(s, deferred, h).Continues?
    ensures KeyInv(HandleDisconnect(s, deferred, h).state, aim)
  {
    ResetKeepsKeyInv(s, aim);
    var t := s.(connected := false, fastTimer := h.fast, store := ResetCoalescing(s.store).state);
    OtherFieldsDoNotMatter(s.(store := t.store), t, aim);
    UpdateKeepsKeyInv(t, h.fast, aim);
    var u := UpdateAdvertisingData(t, h.fast).state;
    OtherFieldsDoNotMatter(u, HandleStop(u, deferred), aim);
  }

  lemma ExpiryKeepsKeyInv(s: State, h: Handles, aim: Aim)
    requires KeyInv(s, aim)
    requires AfterTimerExpired(s, h).Continues?
    ensures KeyInv(AfterTimerExpired(s, h).state, aim)
  {
    if s.event.iid != 0 && s.timer == NO_TIMER {
      UpdateKeepsKeyInv(s.(event := NO_EVENT, timer := h.event), h.fast, aim);
    } else {
      UpdateKeepsKeyInv(s, h.fast, aim);
    }
  }

  lemma NotificationKeepsKeyInv(s: State, aim: Aim)
    requires KeyInv(s, aim) && HandleSendEventNotification(s).Continues?
    ensures KeyInv(HandleSendEventNotification(s).state, aim)
  {
    IncrementKeepsKeyInv(s, aim);
  }

  /** Callbacks that change the stored records only. */
  lemma StoreKeepsKeyInv(s: State, c: Callback, aim: Aim)
    requires KeyInv(s, aim) && (c.RestoreFactorySettings? || c.SetAdvertisingId? || c.CleanupPairings?)
    requires c.SetAdvertisingId? ==> s.connected
    requires Step(s, c).Continues?
    ensures KeyInv(Step(s, c).state, aim)
  {
  }

  /** Callbacks that change neither records nor log. */
  lemma IdleStepKeepsKeyInv(s: State, c: Callback, aim: Aim)
    requires KeyInv(s, aim) && Admissible(s, c) && (c.Create? || c.Stop? || c.CompleteShutdown?)
    ensures Step(s, c).Continues? && KeyInv(Step(s, c).state, aim)
  {
    OtherFieldsDoNotMatter(s, Step(s, c).state, aim);
  }

  lemma ExpiredKeyKeepsKeyInv(s: State, aim: Aim)
    requires KeyInv(s, aim)
    ensures ExpireKey(s.store).Continues? && KeyInv(s.(store := ExpireKey(s.store).state), aim)
    ensures ExpireKey(s.store.(gsn := None)).Continues?
    ensures KeyInv(s.(store := ExpireKey(s.store.(gsn := None)).state), aim)
  {
  }

  /** The power is lost anywhere but between the removal of the GSN and the expiry of the key. */
  lemma PowerLossKeepsKeyInv(s: State, at: Interruption, aim: Aim)
    requires KeyInv(s, aim) && !at.BeforeKeyExpired?
    ensures HandlePowerLoss(s, at).Continues? && KeyInv(HandlePowerLoss(s, at).state, aim)
  {
    IncrementKeepsKeyInv(s, aim);
    ExpiredKeyKeepsKeyInv(s, aim);
    OtherFieldsDoNotMatter(s.(store := Interrupted(s.store, at).state), HandlePowerLoss(s, at).state, aim);
  }

  // ---- Steps and runs ----

  /** Callbacks of the connection and of the timers. */
  predicate IsTransition(c: Callback) {
    c.Start? || c.DidConnect? || c.DidDisconnect? || c.TimerExpired?
  }

  lemma TransitionKeepsKeyInv(s: State, c: Callback, aim: Aim)
    requires KeyInv(s, aim) && Admissible(s, c) && IsTransition(c)
    requires Step(s, c).Continues?
    ensures KeyInv(Step(s, c).state, aim)
  {
    match c
    case Start(firmware, adminPaired, h) =>
      if firmware != Downgraded {
        StartKeepsKeyInv(s, firmware, adminPaired, h, aim);
      }
    case DidConnect => ConnectKeepsKeyInv(s, aim);
    case DidDisconnect(deferred, h) => DisconnectKeepsKeyInv(s, deferred, h, aim);
    case TimerExpired(expired, h) =>
      var t := if expired == s.fastTimer then s.(fastTimer := NO_TIMER) else s.(timer := NO_TIMER);
      OtherFieldsDoNotMatter(s, t, aim);
      ExpiryKeepsKeyInv(t, h, aim);
  }

  lemma RequestKeepsKeyInv(s: State, c: Callback, aim: Aim)
    requires KeyInv(s, aim) && Admissible(s, c) && !IsTransition(c) && c != LosePower(BeforeKeyExpired)
    requires Step(s, c).Continues?
    ensures KeyInv(Step(s, c).state, aim)
  {
    match c
    case LosePower(at) => PowerLossKeepsKeyInv(s, at, aim);
    case DidRaiseEvent(_, _, _, _, _, _) => RaiseEventKeepsKeyInv(s, c, aim);
    case DidSendEventNotification => NotificationKeepsKeyInv(s, aim);
    case GenerateKey(key, newId) => GenerateKeyKeepsKeyInv(s, key, newId, aim);
    case RestoreFactorySettings(_) => StoreKeepsKeyInv(s, c, aim);
    case SetAdvertisingId(_) => StoreKeepsKeyInv(s, c, aim);
    case CleanupPairings(_) => StoreKeepsKeyInv(s, c, aim);
    case _ => IdleStepKeepsKeyInv(s, c, aim);
  }

  // ---- After a cut-off update ----

  /** Fetching the advertisement does not touch the records, the connection or the state of the server. */
  lemma UpdateChanges(s: State, fast: Timer)
    requires UpdateAdvertisingData(s, fast).Continues?
    ensures var t := UpdateAdvertisingData(s, fast).state;
            && t == s.(fastStarted := t.fastStarted, fastTimer := t.fastTimer, log := t.log)
            && (s.run != Running ==> t == s)
  {
  }

  lemma BroadcastChanges(s: State, iid: uint16, interval: Interval, read: Read, h: Handles)
    requires BroadcastEvent(s, iid, interval, read, h).Continues?
    ensures var t := BroadcastEvent(s, iid, interval, read, h).state;
            && t.connected == s.connected && t.run == s.run && (s.run != Running ==> t.log == s.log)
            && (t.store == s.store || Continues(t.store) == IncrementGsn(s.store))
  {
    var s0 := s.(timer := NO_TIMER, event := s.event.(iid := 0, value := Zeros(8)));
    UpdateChanges(s0, h.fast);
    var s1 := UpdateAdvertisingData(s0, h.fast).state;
    match read
    case ReadFailed => UpdateChanges(s1, h.fast);
    case Scalar(bytes) =>
      var s2 := s1.(store := IncrementGsn(s1.store).state, event := s1.event.(value := PaddedValue(bytes)));
      UpdateChanges(
        if h.event == NO_TIMER then s2
        else s2.(timer := h.event, event := s2.event.(interval := interval, iid := iid)), h.fast);
  }

  lemma DisconnectedEventChanges(s: State, h: Handles)
    requires DisconnectedEvent(s, h).Continues?
    ensures var t := DisconnectedEvent(s, h).state;
            && t.connected == s.connected && t.run == s.run && (s.run != Running ==> t.log == s.log)
            && (t.store == s.store || Continues(t.store) == IncrementGsn(s.store))
  {
    if !s.connected && IncrementGsn(s.store).Continues? {
      var t := s.(store := IncrementGsn(s.store).state, timer := h.event);
      if UpdateAdvertisingData(t, h.fast).Continues? {
        UpdateChanges(t, h.fast);
      }
    }
  }

  lemma RaiseEventChanges(s: State, c: Callback)
    requires c.DidRaiseEvent? && Step(s, c).Continues?
    ensures var t := Step(s, c).state;
            && t.connected == s.connected && t.run == s.run && (s.run != Running ==> t.log == s.log)
            && (t.store == s.store || Continues(t.store) == IncrementGsn(s.store))
  {
    var broadcast := BroadcastInterval(s, c.supportsBroadcast, c.lookup).state;
    if broadcast.Some? {
      BroadcastChanges(s, c.iid, broadcast.value, c.read, c.handles);
    } else if c.supportsDisconnected {
      DisconnectedEventChanges(s, c.handles);
    }
  }

  lemma ExpiryChanges(s: State, h: Handles)
    requires AfterTimerExpired(s, h).Continues?
    ensures var t := AfterTimerExpired(s, h).state;
            && t.connected == s.connected && t.run == s.run && (s.run != Running ==> t.log == s.log) && t.store == s.store
  {
    UpdateChanges(
      if s.event.iid != 0 && s.timer == NO_TIMER then s.(event := NO_EVENT, timer := h.event) else s, h.fast);
  }

  /** Other records under the same key, or none, do not matter to the log. */
  lemma OtherRecordsKeepLogInv(s: State, t: State, aim: Aim)
    requires LogInv(s, aim) && Readable(t.store) && t.log == s.log
    requires t.connected ==> t.event.iid == 0 && t.run != Idle
    requires var p, q := ParametersOf(s.store), ParametersOf(t.store);
             q.keyExpirationGsn == 0 || (q.keyExpirationGsn == p.keyExpirationGsn && q.key == p.key)
    ensures LogInv(t, aim)
  {
  }

  lemma InterruptedRecords(store: Store, at: Interruption)
    requires Readable(store)
    ensures Interrupted(store, at).Continues? && Readable(Interrupted(store, at).state)
    ensures var p, q := ParametersOf(store), ParametersOf(Interrupted(store, at).state);
            q.keyExpirationGsn == 0 || (q.keyExpirationGsn == p.keyExpirationGsn && q.key == p.key)
  {
    IncrementedStore(store);
  }

  lemma PowerLossKeepsRunInv(s: State, at: Interruption, aim: Aim)
    requires RunInv(s, aim)
    ensures HandlePowerLoss(s, at).Continues? && RunInv(HandlePowerLoss(s, at).state, aim)
  {
    InterruptedRecords(s.store, at);
    OtherRecordsKeepLogInv(s, HandlePowerLoss(s, at).state, aim);
  }

  /** An idle server encrypts nothing, whatever becomes of the GSN. */
  lemma IdleKeepsRunInv(s: State, c: Callback, aim: Aim)
    requires RunInv(s, aim) && s.run == Idle && Admissible(s, c) && FitStart(s, c, aim) && Step(s, c).Continues?
    ensures RunInv(Step(s, c).state, aim)
  {
    match c
    case LosePower(at) => PowerLossKeepsRunInv(s, at, aim);
    case Start(firmware, adminPaired, h) =>
      if firmware != Downgraded {
        StartKeepsKeyInv(s, firmware, adminPaired, h, aim);
      }
    case DidRaiseEvent(_, _, _, _, _, _) =>
      RaiseEventChanges(s, c);
      InterruptedRecords(s.store, AfterGsnSaved);
      OtherRecordsKeepLogInv(s, Step(s, c).state, aim);
    case TimerExpired(expired, h) =>
      ExpiryChanges(if expired == s.fastTimer then s.(fastTimer := NO_TIMER) else s.(timer := NO_TIMER), h);
      OtherRecordsKeepLogInv(s, Step(s, c).state, aim);
    case Create => OtherRecordsKeepLogInv(s, Step(s, c).state, aim);
    case Stop(_) => OtherRecordsKeepLogInv(s, Step(s, c).state, aim);
    case RestoreFactorySettings(_) => OtherRecordsKeepLogInv(s, Step(s, c).state, aim);
    case _ =>
  }

  // ---- Runs ----

  /** A start with the same firmware and an admin finds a current key that fits. */
  ghost predicate FitStart(s: State, c: Callback, aim: Aim) {
    c.Start? && c.firmware == Unchanged && c.adminPaired && Readable(s.store) ==> KeyFits(s, aim)
  }

  ghost predicate FitRun(s: State, cs: seq<Callback>, aim: Aim)
    decreases |cs|
  {
    cs == [] ||
    (FitStart(s, cs[0], aim) && (Step(s, cs[0]).Continues? ==> FitRun(Step(s, cs[0]).state, cs[1..], aim)))
  }

  lemma LiveStepKeepsKeyInv(s: State, c: Callback, aim: Aim)
    requires KeyInv(s, aim) && Admissible(s, c) && c != LosePower(BeforeKeyExpired)
    requires Step(s, c).Continues?
    ensures KeyInv(Step(s, c).state, aim)
  {
    if IsTransition(c) {
      TransitionKeepsKeyInv(s, c, aim);
    } else {
      RequestKeepsKeyInv(s, c, aim);
    }
  }

  lemma StepKeepsRunInv(s: State, c: Callback, aim: Aim)
    requires RunInv(s, aim) && Admissible(s, c) && FitStart(s, c, aim)
    requires Step(s, c).Continues?
    ensures RunInv(Step(s, c).state, aim)
  {
    if s.run == Idle {
      IdleKeepsRunInv(s, c, aim);
    } else if c.LosePower? {
      PowerLossKeepsRunInv(s, c.at, aim);
    } else {
      LiveStepKeepsKeyInv(s, c, aim);
    }
  }

  lemma {:induction false} RunKeepsRunInv(s: State, cs: seq<Callback>, aim: Aim)
    requires RunInv(s, aim) && AdmissibleRun(s, cs) && FitRun(s, cs, aim)
    requires RunFrom(s, cs).Continues?
    ensures RunInv(RunFrom(s, cs).state, aim)
    decreases |cs|
  {
    if cs != [] {
      StepKeepsRunInv(s, cs[0], aim);
      RunKeepsRunInv(Step(s, cs[0]).state, cs[1..], aim);
    }
  }

  /** Without an update that is cut off before the key has expired, every start is fit. */
  lemma {:induction false} FitWithoutCut(s: State, cs: seq<Callback>, aim: Aim)
    requires KeyInv(s, aim) && AdmissibleRun(s, cs) && LosePower(BeforeKeyExpired) !in cs
    ensures FitRun(s, cs, aim)
    decreases |cs|
  {
    if cs != [] && Step(s, cs[0]).Continues? {
      assert cs[0] in cs;
      LiveStepKeepsKeyInv(s, cs[0], aim);
      FitWithoutCut(Step(s, cs[0]).state, cs[1..], aim);
    }
  }

  lemma FactoryKeyInv(deviceId: DeviceId, aim: Aim)
    ensures KeyInv(Factory(deviceId), aim)
  {
    forall key
      ensures GsnsUnder([], key) == {}
    {
    }
  }

  // ---- Main results ----

  /** The eight nonce bytes: the GSN as a little-endian 64-bit number. */
  function Nonce(e: Emission): seq<byte> {
    Little16(e.gsn) + Zeros(6)
  }

  /** The twelve bytes that are encrypted. */
  function Plaintext(e: Emission): seq<byte> {
    Little16(e.gsn) + Little16(e.iid) + e.value
  }

  /**
   Over the whole life of a device, any two encryptions under the same key and nonce have the same
   plaintext and the same associated data. The run may wrap the GSN, refresh or expire the key,
   reconnect, stop and start, update the firmware, restore factory settings, and lose power between
   callbacks and between the writes of an increment or an update. That every start is fit matters only
   after an update that was cut off, and is necessary: see module `CutOffUpdates`.
   */
  lemma NonceNeverReused(deviceId: DeviceId, cs: seq<Callback>, i: nat, j: nat)
    requires AdmissibleRun(Factory(deviceId), cs) && FitRun(Factory(deviceId), cs, UniqueNonces)
    requires RunFrom(Factory(deviceId), cs).Continues?
    requires var log := RunFrom(Factory(deviceId), cs).state.log;
             i < |log| && j < |log| && log[i].key == log[j].key && Nonce(log[i]) == Nonce(log[j])
    ensures var log := RunFrom(Factory(deviceId), cs).state.log;
            Plaintext(log[i]) == Plaintext(log[j]) && log[i].aad == log[j].aad
  {
    FactoryKeyInv(deviceId, UniqueNonces);
    RunKeepsRunInv(Factory(deviceId), cs, UniqueNonces);
    var log := RunFrom(Factory(deviceId), cs).state.log;
    assert Nonce(log[i])[..2] == Little16(log[i].gsn) && Nonce(log[j])[..2] == Little16(log[j].gsn);
    assert log[i] in log && log[j] in log;
  }

  /** No key ever encrypts under more than 32,766 different GSNs. */
  lemma KeyUsedForBoundedGsns(deviceId: DeviceId, cs: seq<Callback>, key: Key)
    requires AdmissibleRun(Factory(deviceId), cs) && FitRun(Factory(deviceId), cs, BoundedUse)
    requires RunFrom(Factory(deviceId), cs).Continues?
    ensures |GsnsUnder(RunFrom(Factory(deviceId), cs).state.log, key)| < KEY_LIFETIME
  {
    FactoryKeyInv(deviceId, BoundedUse);
    RunKeepsRunInv(Factory(deviceId), cs, BoundedUse);
  }
}
