/**
 What is broadcast, told from the callbacks alone: over the whole life of a device, every encryption is made
 with the key that was generated last, with the identifier that was set last, under the stored GSN, and for
 an event that was raised with that value.
 */
module BroadcastHistory {
  import opened Bytes
  import opened Options
  import opened Outcomes
  import opened StoredRecords
  import opened Advertising
  import opened NonceUniqueness
  import opened GsnPeriods
  import opened CallbackEffects

  // ---- Histories, the latest callback last ----

  /** The callback purges the broadcast parameters. */
  predicate Purges(c: Callback) {
    || c.RestoreFactorySettings?
    || (c.Start? && c.firmware != Downgraded && !c.adminPaired)
    || (c.CleanupPairings? && !c.adminPaired)
  }

  /** The identifier that a callback sets. */
  function SetBy(c: Callback): Option<DeviceId> {
    match c
    case SetAdvertisingId(id) => Some(id)
    case GenerateKey(_, newId) => newId
    case _ => None
  }

  /** The device ID that was given last. */
  function DeviceIdAfter(deviceId: DeviceId, cs: seq<Callback>): DeviceId {
    if cs == [] then deviceId
    else
      var c := cs[|cs| - 1];
      if c.RestoreFactorySettings? then c.deviceId else DeviceIdAfter(deviceId, cs[..|cs| - 1])
  }

  /** The identifier that was set last, if it has not been purged since. */
  function IdentifierAfter(cs: seq<Callback>): Option<DeviceId> {
    if cs == [] || Purges(cs[|cs| - 1]) then None
    else if SetBy(cs[|cs| - 1]).Some? then SetBy(cs[|cs| - 1])
    else IdentifierAfter(cs[..|cs| - 1])
  }

  /** The key that was generated last, if it has not been purged since. */
  function KeyAfter(cs: seq<Callback>): Option<Key> {
    if cs == [] || Purges(cs[|cs| - 1]) then None
    else if cs[|cs| - 1].GenerateKey? then Some(cs[|cs| - 1].key)
    else KeyAfter(cs[..|cs| - 1])
  }

  /** The callback raises an event with this ID, interval and value, for broadcast. */
  predicate Raises(c: Callback, event: BroadcastedEvent) {
    && c.DidRaiseEvent? && c.supportsBroadcast && c.iid == event.iid
    && c.lookup.Enabled? && c.lookup.interval == event.interval && c.read.Scalar? && IsPadded(event.value, c.read.bytes)
  }

  // ---- One callback ----

  /** What a callback does to key and identifier. */
  ghost predicate ParametersChange(p: BroadcastParameters, c: Callback, q: BroadcastParameters) {
    && q.hasAdvertisingId == (!Purges(c) && (SetBy(c).Some? || p.hasAdvertisingId))
    && (q.hasAdvertisingId ==> q.advertisingId == if SetBy(c).Some? then SetBy(c).value else p.advertisingId)
    && (q.keyExpirationGsn != 0 ==>
          !Purges(c) && if c.GenerateKey? then q.key == c.key else p.keyExpirationGsn != 0 && q.key == p.key)
  }

  lemma RaiseParameters(s: State, c: Callback)
    requires Readable(s.store) && c.DidRaiseEvent? && Step(s, c).Continues?
    ensures var t := Step(s, c).state;
            && Readable(t.store) && t.store.deviceId == s.store.deviceId
            && ParametersChange(ParametersOf(s.store), c, ParametersOf(t.store))
  {
    RaiseEventStore(s, c);
    IncrementedStore(s.store);
  }

  lemma StartParameters(s: State, c: Callback)
    requires Readable(s.store) && c.Start? && Step(s, c).Continues?
    ensures var t := Step(s, c).state;
            && Readable(t.store) && t.store.deviceId == s.store.deviceId
            && ParametersChange(ParametersOf(s.store), c, ParametersOf(t.store))
  {
    if c.firmware != Downgraded {
      var checked := if c.firmware == Updated then ExpireKey(s.store.(gsn := None)).state else s.store;
      UpdateKeepsStore(s.(run := Running, store := CleanedUp(checked, c.adminPaired)), c.handles.fast);
    }
  }

  lemma TransitionParameters(s: State, c: Callback)
    requires Readable(s.store) && (c.DidConnect? || c.DidDisconnect? || c.TimerExpired?) && Step(s, c).Continues?
    ensures var t := Step(s, c).state;
            && Readable(t.store) && t.store.deviceId == s.store.deviceId
            && ParametersChange(ParametersOf(s.store), c, ParametersOf(t.store))
  {
    match c
    case DidConnect => ConnectStore(s);
    case DidDisconnect(deferred, h) => DisconnectStore(s, deferred, h);
    case TimerExpired(expired, h) =>
      ExpiryStore(if expired == s.fastTimer then s.(fastTimer := NO_TIMER) else s.(timer := NO_TIMER), h);
  }

  lemma CutParameters(s: State, at: Interruption)
    requires Readable(s.store)
    ensures Step(s, LosePower(at)).Continues?
    ensures var t := Step(s, LosePower(at)).state;
            && Readable(t.store) && t.store.deviceId == s.store.deviceId && t.log == s.log && t.event.iid == 0
            && ParametersChange(ParametersOf(s.store), LosePower(at), ParametersOf(t.store))
  {
    CutRecords(s, at);
  }

  lemma RecordParameters(s: State, c: Callback)
    requires Readable(s.store) && !c.DidRaiseEvent? && !IsTransition(c) && Step(s, c).Continues?
    ensures var t := Step(s, c).state;
            && Readable(t.store)
            && t.store.deviceId == (if c.RestoreFactorySettings? then c.deviceId else s.store.deviceId)
            && ParametersChange(ParametersOf(s.store), c, ParametersOf(t.store))
  {
    match c
    case LosePower(at) => CutParameters(s, at);
    case DidSendEventNotification => IncrementedStore(s.store);
    case _ =>
  }

  lemma StepParameters(s: State, c: Callback)
    requires Readable(s.store) && Step(s, c).Continues?
    ensures var t := Step(s, c).state;
            && Readable(t.store)
            && t.store.deviceId == (if c.RestoreFactorySettings? then c.deviceId else s.store.deviceId)
            && ParametersChange(ParametersOf(s.store), c, ParametersOf(t.store))
  {
    if c.DidRaiseEvent? {
      RaiseParameters(s, c);
    } else if c.Start? {
      StartParameters(s, c);
    } else if IsTransition(c) {
      TransitionParameters(s, c);
    } else {
      RecordParameters(s, c);
    }
  }

  /** The encryption of the active event of a state. */
  ghost predicate TellsState(e: Emission, t: State)
    requires Readable(t.store)
  {
    var p := ParametersOf(t.store);
    && p.keyExpirationGsn != 0 && t.event.iid != 0
    && e.key == p.key && e.gsn == GsnOf(t.store).gsn && e.iid == t.event.iid && e.value == t.event.value
    && e.aad == if p.hasAdvertisingId then p.advertisingId else t.store.deviceId
  }

  /** From one state to the other nothing is encrypted, or the active event once. */
  ghost predicate LogGrows(s: State, t: State)
    requires Readable(t.store)
  {
    t.log == s.log || (|t.log| == |s.log| + 1 && s.log <= t.log && TellsState(t.log[|s.log|], t))
  }

  lemma UpdateGrowsLog(s: State, fast: Timer)
    requires Readable(s.store) && UpdateAdvertisingData(s, fast).Continues?
    ensures var t := UpdateAdvertisingData(s, fast).state;
            t.store == s.store && t.event == s.event && LogGrows(s, t) && (s.event.iid == 0 ==> t.log == s.log)
  {
  }

  lemma RaiseGrowsLog(s: State, c: Callback)
    requires Readable(s.store) && c.DidRaiseEvent? && Step(s, c).Continues?
    ensures var t := Step(s, c).state;
            Readable(t.store) && LogGrows(s, t) && (t.event.iid != 0 ==> t.event == s.event || Raises(c, t.event))
  {
    IncrementedStore(s.store);
    var h := c.handles;
    var broadcast := BroadcastInterval(s, c.supportsBroadcast, c.lookup).state;
    if broadcast.Some? {
      var s0 := s.(timer := NO_TIMER, event := s.event.(iid := 0, value := Zeros(8)));
      UpdateGrowsLog(s0, h.fast);
      var s1 := UpdateAdvertisingData(s0, h.fast).state;
      match c.read
      case ReadFailed => UpdateGrowsLog(s1, h.fast);
      case Scalar(bytes) =>
        var s2 := s1.(store := IncrementGsn(s1.store).state, event := s1.event.(value := PaddedValue(bytes)));
        UpdateGrowsLog(
          if h.event == NO_TIMER then s2
          else s2.(timer := h.event, event := s2.event.(interval := broadcast.value, iid := c.iid)), h.fast);
    } else if c.supportsDisconnected && !s.connected && !GsnOf(s.store).didIncrement {
      UpdateGrowsLog(s.(store := IncrementGsn(s.store).state, timer := h.event), h.fast);
    }
  }

  lemma TransitionGrowsLog(s: State, c: Callback)
    requires Readable(s.store) && IsTransition(c) && Step(s, c).Continues?
    ensures var t := Step(s, c).state;
            Readable(t.store) && LogGrows(s, t) && (t.event.iid != 0 ==> t.event == s.event)
  {
    match c
    case Start(firmware, adminPaired, h) =>
      if firmware != Downgraded {
        var checked := if firmware == Updated then ExpireKey(s.store.(gsn := None)).state else s.store;
        UpdateGrowsLog(s.(run := Running, store := CleanedUp(checked, adminPaired)), h.fast);
      }
    case DidConnect =>
    case DidDisconnect(deferred, h) =>
      UpdateGrowsLog(s.(connected := false, fastTimer := h.fast, store := ResetCoalescing(s.store).state), h.fast);
    case TimerExpired(expired, h) =>
      var s1 := if expired == s.fastTimer then s.(fastTimer := NO_TIMER) else s.(timer := NO_TIMER);
      UpdateGrowsLog(
        if s1.event.iid != 0 && s1.timer == NO_TIMER then s1.(event := NO_EVENT, timer := h.event) else s1, h.fast);
  }

  /** A callback encrypts once at most, and then the event that is active after it. */
  lemma StepGrowsLog(s: State, c: Callback)
    requires Readable(s.store) && Step(s, c).Continues?
    ensures var t := Step(s, c).state;
            Readable(t.store) && LogGrows(s, t) && (t.event.iid != 0 ==> t.event == s.event || Raises(c, t.event))
  {
    if c.DidRaiseEvent? {
      RaiseGrowsLog(s, c);
    } else if IsTransition(c) {
      TransitionGrowsLog(s, c);
    } else {
      StepParameters(s, c);
    }
  }

  // ---- Runs ----

  /** The state agrees with the callbacks that led to it. */
  ghost predicate Agrees(s: State, deviceId: DeviceId, cs: seq<Callback>) {
    && Readable(s.store)
    && s.store.deviceId == DeviceIdAfter(deviceId, cs)
    && (var p := ParametersOf(s.store);
        && IdentifierAfter(cs) == (if p.hasAdvertisingId then Some(p.advertisingId) else None)
        && (p.keyExpirationGsn != 0 ==> KeyAfter(cs) == Some(p.key)))
    && (s.event.iid != 0 ==> exists c :: c in cs && Raises(c, s.event))
  }

  lemma StepAgrees(s: State, deviceId: DeviceId, cs: seq<Callback>, c: Callback)
    requires Agrees(s, deviceId, cs) && Step(s, c).Continues?
    ensures Agrees(Step(s, c).state, deviceId, cs + [c])
  {
    assert (cs + [c])[..|cs|] == cs;
    StepParameters(s, c);
    StepGrowsLog(s, c);
    var t := Step(s, c).state;
    if t.event.iid != 0 {
      if t.event == s.event {
        var d :| d in cs && Raises(d, s.event);
        assert d in cs + [c];
      } else {
        assert c in cs + [c];
      }
    }
  }

  lemma {:induction false} RunAgrees(s: State, deviceId: DeviceId, before: seq<Callback>, cs: seq<Callback>)
    requires Agrees(s, deviceId, before) && RunFrom(s, cs).Continues?
    ensures Agrees(RunFrom(s, cs).state, deviceId, before + cs)
    decreases |cs|
  {
    if cs == [] {
      assert before + cs == before;
    } else {
      StepAgrees(s, deviceId, before, cs[0]);
      RunAgrees(Step(s, cs[0]).state, deviceId, before + [cs[0]], cs[1..]);
      assert before + [cs[0]] + cs[1..] == before + cs;
    }
  }

  /** What an encryption tells, against the callbacks up to the one that made it. */
  ghost predicate TellsHistory(e: Emission, deviceId: DeviceId, cs: seq<Callback>) {
    && KeyAfter(cs) == Some(e.key)
    && e.aad == (if IdentifierAfter(cs).Some? then IdentifierAfter(cs).value else DeviceIdAfter(deviceId, cs))
    && exists c, interval :: c in cs && Raises(c, BroadcastedEvent(interval, e.iid, e.value))
  }

  /**
   Whatever happens to a device, a callback encrypts at most once, and what it encrypts follows from the
   callbacks so far: the last key generated, the last identifier set (the device ID if none has been set
   since the factory or the last purge), the stored GSN, and a value that was read for an event raised.
   */
  lemma EveryBroadcastIsTrue(deviceId: DeviceId, cs: seq<Callback>, c: Callback)
    requires RunFrom(Factory(deviceId), cs + [c]).Continues?
    ensures RunFrom(Factory(deviceId), cs).Continues?
    ensures var s := RunFrom(Factory(deviceId), cs).state;
            var t := RunFrom(Factory(deviceId), cs + [c]).state;
            t.log == s.log ||
            (|t.log| == |s.log| + 1 && t.log[..|s.log|] == s.log
             && TellsHistory(t.log[|s.log|], deviceId, cs + [c])
             && DecodeGsn(t.store.gsn).Some? && DecodeGsn(t.store.gsn).value.gsn == t.log[|s.log|].gsn)
  {
    RunSplits(Factory(deviceId), cs, c);
    FactoryAgrees(deviceId);
    RunAgrees(Factory(deviceId), deviceId, [], cs);
    assert [] + cs == cs;
    StepTellsHistory(RunFrom(Factory(deviceId), cs).state, deviceId, cs, c);
  }

  lemma FactoryAgrees(deviceId: DeviceId)
    ensures Agrees(Factory(deviceId), deviceId, [])
  {
  }

  lemma StepTellsHistory(s: State, deviceId: DeviceId, cs: seq<Callback>, c: Callback)
    requires Agrees(s, deviceId, cs) && Step(s, c).Continues?
    ensures var t := Step(s, c).state;
            t.log == s.log ||
            (|t.log| == |s.log| + 1 && t.log[..|s.log|] == s.log
             && TellsHistory(t.log[|s.log|], deviceId, cs + [c])
             && DecodeGsn(t.store.gsn).Some? && DecodeGsn(t.store.gsn).value.gsn == t.log[|s.log|].gsn)
  {
    StepAgrees(s, deviceId, cs, c);
    StepGrowsLog(s, c);
    var t := Step(s, c).state;
    if t.log != s.log {
      StateTellsHistory(t.log[|s.log|], t, deviceId, cs + [c]);
    }
  }

  lemma StateTellsHistory(e: Emission, t: State, deviceId: DeviceId, cs: seq<Callback>)
    requires Agrees(t, deviceId, cs) && TellsState(e, t)
    ensures TellsHistory(e, deviceId, cs)
  {
    var c :| c in cs && Raises(c, t.event);
    assert Raises(c, BroadcastedEvent(t.event.interval, e.iid, e.value));
  }

  lemma {:induction false} RunSplits(s: State, cs: seq<Callback>, c: Callback)
    requires RunFrom(s, cs + [c]).Continues?
    ensures RunFrom(s, cs).Continues? && RunFrom(s, cs + [c]) == Step(RunFrom(s, cs).state, c)
    decreases |cs|
  {
    if cs == [] {
      assert ([] + [c])[1..] == [];
    } else {
      assert (cs + [c])[1..] == cs[1..] + [c];
      RunSplits(Step(s, cs[0]).state, cs[1..], c);
    }
  }

  /** Neither sets another identifier nor purges. */
  predicate KeepsIdentifier(c: Callback) {
    !Purges(c) && SetBy(c).None?
  }

  /** The identifier that the records hold, the device ID if none has been set. */
  function ToldBy(store: Store): DeviceId
    requires Readable(store)
  {
    if ParametersOf(store).hasAdvertisingId then ParametersOf(store).advertisingId else store.deviceId
  }

  /** Everything that has been added to a log tells the identifier. */
  predicate AddedTells(before: seq<Emission>, after: seq<Emission>, id: DeviceId) {
    before <= after && forall i :: |before| <= i < |after| ==> after[i].aad == id
  }

  /** As far as one callback is concerned. */
  lemma ChangeKeepsIdentifier(s: State, t: State, c: Callback)
    requires Readable(s.store) && Readable(t.store) && KeepsIdentifier(c)
    requires t.store.deviceId == s.store.deviceId && LogGrows(s, t)
    requires ParametersChange(ParametersOf(s.store), c, ParametersOf(t.store))
    ensures ToldBy(t.store) == ToldBy(s.store) && AddedTells(s.log, t.log, ToldBy(s.store))
  {
  }

  lemma StepKeepsIdentifier(s: State, c: Callback)
    requires Readable(s.store) && Step(s, c).Continues? && KeepsIdentifier(c)
    ensures var t := Step(s, c).state;
            Readable(t.store) && ToldBy(t.store) == ToldBy(s.store) && AddedTells(s.log, t.log, ToldBy(s.store))
  {
    StepParameters(s, c);
    StepGrowsLog(s, c);
    ChangeKeepsIdentifier(s, Step(s, c).state, c);
  }

  lemma AddedTellsOn(a: seq<Emission>, b: seq<Emission>, c: seq<Emission>, id: DeviceId)
    requires AddedTells(a, b, id) && AddedTells(b, c, id)
    ensures AddedTells(a, c, id)
  {
  }

  lemma {:induction false} RunKeepsIdentifier(s: State, cs: seq<Callback>)
    requires Readable(s.store) && RunFrom(s, cs).Continues? && forall c :: c in cs ==> KeepsIdentifier(c)
    ensures AddedTells(s.log, RunFrom(s, cs).state.log, ToldBy(s.store))
    decreases |cs|
  {
    if cs != [] {
      assert cs[0] in cs;
      StepKeepsIdentifier(s, cs[0]);
      var t := Step(s, cs[0]).state;
      RunKeepsIdentifier(t, cs[1..]);
      AddedTellsOn(s.log, t.log, RunFrom(t, cs[1..]).state.log, ToldBy(s.store));
    }
  }

  /**
   Once an identifier has been set, with a key or by itself, everything that is broadcast tells it, until
   another one is set or it is purged.
   */
  lemma IdentifierIsTold(s: State, c: Callback, id: DeviceId, cs: seq<Callback>)
    requires Readable(s.store) && (c == SetAdvertisingId(id) || (c.GenerateKey? && c.newId == Some(id)))
    requires Step(s, c).Continues? && RunFrom(Step(s, c).state, cs).Continues?
    requires forall d :: d in cs ==> KeepsIdentifier(d)
    ensures AddedTells(s.log, RunFrom(Step(s, c).state, cs).state.log, id)
  {
    StepParameters(s, c);
    StepGrowsLog(s, c);
    RunKeepsIdentifier(Step(s, c).state, cs);
  }

  /** After a purge, everything that is broadcast tells the device ID, until an identifier is set. */
  lemma DeviceIdIsTold(s: State, c: Callback, cs: seq<Callback>)
    requires Readable(s.store) && Purges(c)
    requires Step(s, c).Continues? && RunFrom(Step(s, c).state, cs).Continues?
    requires forall d :: d in cs ==> KeepsIdentifier(d)
    ensures AddedTells(s.log, RunFrom(Step(s, c).state, cs).state.log,
                       if c.RestoreFactorySettings? then c.deviceId else s.store.deviceId)
  {
    StepParameters(s, c);
    StepGrowsLog(s, c);
    RunKeepsIdentifier(Step(s, c).state, cs);
  }
}
