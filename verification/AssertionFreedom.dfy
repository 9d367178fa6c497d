/**
 Which runs of the advertising machine reach none of its assertions. Stopping the server leaves its
 event timer and its broadcasted event behind, so a firmware update, a removal of the pairings or a
 restoration of factory settings may meet a live one, and a removal of the pairings over another
 transport a running broadcast: these are the only ways to an abort.
 */
module AssertionFreedom {
  import opened Bytes
  import opened Options
  import opened Outcomes
  import opened StoredRecords
  import opened Advertising
  import opened NonceUniqueness
  import opened GsnPeriods

  ghost predicate MachineInv(s: State) {
    && Readable(s.store)
    && (s.event.iid != 0 ==>
          && s.timer != NO_TIMER && !s.connected && ValidInterval(s.event.interval)
          && ParametersOf(s.store).keyExpirationGsn != 0)
    && (s.timer != NO_TIMER ==> GsnOf(s.store).didIncrement)
    && (s.connected ==>
          s.timer == NO_TIMER && s.fastTimer == NO_TIMER && s.fastStarted && s.run != Idle)
    && (s.fastTimer != NO_TIMER ==> s.fastStarted && s.fastTimer != s.timer)
    && (s.run == Running ==> s.fastStarted)
  }

  /** What a caller must check before a reset: no event timer is live, or for the pairings no event. */
  predicate Safe(s: State, c: Callback) {
    match c
    case Start(firmware, adminPaired, _) =>
      && (firmware == Updated ==> s.timer == NO_TIMER)
      && (firmware == Unchanged && !adminPaired ==> s.event.iid == 0)
    case CleanupPairings(adminPaired) => !adminPaired ==> s.event.iid == 0
    case RestoreFactorySettings(_) => s.timer == NO_TIMER
    case _ => true
  }

  /** `MachineInv`, except that fast advertising may not have started yet. */
  ghost predicate AlmostInv(s: State) {
    && MachineInv(s.(fastStarted := true))
    && (s.fastTimer != NO_TIMER ==> s.fastStarted)
  }

  lemma UpdateContinues(s: State, fast: Timer)
    requires AlmostInv(s) && (s.connected ==> s.fastStarted)
    requires s.run != Running || s.fastStarted || fast == NO_TIMER || fast != s.timer
    ensures UpdateAdvertisingData(s, fast).Continues?
    ensures MachineInv(UpdateAdvertisingData(s, fast).state)
  {
  }

  lemma BroadcastContinues(s: State, iid: uint16, interval: Interval, read: Read, h: Handles)
    requires MachineInv(s) && !s.connected && FreshHandles(s, h)
    requires var p := ParametersOf(s.store).keyExpirationGsn; p != 0 && p != GsnOf(s.store).gsn
    ensures BroadcastEvent(s, iid, interval, read, h).Continues?
    ensures MachineInv(BroadcastEvent(s, iid, interval, read, h).state)
  {
    var s0 := s.(timer := NO_TIMER, event := s.event.(iid := 0, value := Zeros(8)));
    UpdateContinues(s0, h.fast);
    var s1 := UpdateAdvertisingData(s0, h.fast).state;
    match read
    case ReadFailed => UpdateContinues(s1, h.fast);
    case Scalar(bytes) =>
      IncrementedStore(s1.store);
      var s2 := s1.(store := IncrementGsn(s1.store).state, event := s1.event.(value := PaddedValue(bytes)));
      if h.event == NO_TIMER {
        UpdateContinues(s2, h.fast);
      } else {
        UpdateContinues(
          s2.(timer := h.event, event := s2.event.(interval := interval, iid := iid)), h.fast);
      }
  }

  lemma DisconnectedEventContinues(s: State, h: Handles)
    requires MachineInv(s) && FreshHandles(s, h)
    ensures DisconnectedEvent(s, h).Continues?
    ensures MachineInv(DisconnectedEvent(s, h).state)
  {
    IncrementedStore(s.store);
    if !GsnOf(s.store).didIncrement && !s.connected {
      UpdateContinues(s.(store := IncrementGsn(s.store).state, timer := h.event), h.fast);
    }
  }

  lemma ExpiryContinues(s: State, expired: Timer, h: Handles)
    requires MachineInv(s) && Admissible(s, TimerExpired(expired, h))
    ensures AdvertisingTimerExpired(s, expired, h).Continues?
    ensures MachineInv(AdvertisingTimerExpired(s, expired, h).state)
  {
    if expired == s.fastTimer {
      UpdateContinues(s.(fastTimer := NO_TIMER), h.fast);
    } else if s.event.iid != 0 {
      UpdateContinues(s.(event := NO_EVENT, timer := h.event), h.fast);
    } else {
      UpdateContinues(s.(timer := NO_TIMER), h.fast);
    }
  }

  lemma StartContinues(s: State, firmware: Firmware, adminPaired: bool, h: Handles)
    requires MachineInv(s) && Admissible(s, Start(firmware, adminPaired, h))
    requires Safe(s, Start(firmware, adminPaired, h))
    ensures HandleStart(s, firmware, adminPaired, h).Continues?
    ensures MachineInv(HandleStart(s, firmware, adminPaired, h).state)
  {
    if firmware != Downgraded {
      var checked := if firmware == Updated then ExpireKey(s.store.(gsn := None)).state else s.store;
      UpdateContinues(
        s.(run := Running, store := CleanedUp(checked, adminPaired)), h.fast);
    }
  }

  lemma DisconnectContinues(s: State, deferred: bool, h: Handles)
    requires MachineInv(s) && s.connected && FreshHandles(s, h)
    ensures HandleDisconnect(s, deferred, h).Continues?
    ensures MachineInv(HandleDisconnect(s, deferred, h).state)
  {
    UpdateContinues(
      s.(connected := false, fastTimer := h.fast, store := ResetCoalescing(s.store).state), h.fast);
  }

  lemma PowerLossContinues(s: State, at: Interruption)
    requires MachineInv(s) && Admissible(s, LosePower(at))
    ensures HandlePowerLoss(s, at).Continues? && MachineInv(HandlePowerLoss(s, at).state)
  {
    InterruptedRecords(s.store, at);
  }

  lemma RaiseEventContinues(s: State, c: Callback)
    requires MachineInv(s) && c.DidRaiseEvent? && Admissible(s, c)
    ensures Step(s, c).Continues? && MachineInv(Step(s, c).state)
  {
    var broadcast := BroadcastInterval(s, c.supportsBroadcast, c.lookup).state;
    if broadcast.Some? {
      BroadcastContinues(s, c.iid, broadcast.value, c.read, c.handles);
    } else if c.supportsDisconnected {
      DisconnectedEventContinues(s, c.handles);
    }
  }

  lemma TransitionContinues(s: State, c: Callback)
    requires MachineInv(s) && Admissible(s, c) && Safe(s, c) && IsTransition(c)
    ensures Step(s, c).Continues? && MachineInv(Step(s, c).state)
  {
    match c
    case Start(firmware, adminPaired, h) => StartContinues(s, firmware, adminPaired, h);
    case DidConnect =>
    case DidDisconnect(deferred, h) => DisconnectContinues(s, deferred, h);
    case TimerExpired(expired, h) => ExpiryContinues(s, expired, h);
  }

  lemma RequestContinues(s: State, c: Callback)
    requires MachineInv(s) && Admissible(s, c) && Safe(s, c) && !IsTransition(c)
    ensures Step(s, c).Continues? && MachineInv(Step(s, c).state)
  {
    match c
    case LosePower(at) => PowerLossContinues(s, at);
    case DidRaiseEvent(_, _, _, _, _, _) => RaiseEventContinues(s, c);
    case DidSendEventNotification => IncrementedStore(s.store);
    case _ =>
  }

  lemma StepContinues(s: State, c: Callback)
    requires MachineInv(s) && Admissible(s, c) && Safe(s, c)
    ensures Step(s, c).Continues? && MachineInv(Step(s, c).state)
  {
    if IsTransition(c) {
      TransitionContinues(s, c);
    } else {
      RequestContinues(s, c);
    }
  }

  /** Every callback of the run is safe where it occurs. */
  predicate SafeRun(s: State, cs: seq<Callback>)
    decreases |cs|
  {
    cs == [] || (Safe(s, cs[0]) && (Step(s, cs[0]).Continues? ==> SafeRun(Step(s, cs[0]).state, cs[1..])))
  }

  lemma {:induction false} RunContinues(s: State, cs: seq<Callback>)
    requires MachineInv(s) && AdmissibleRun(s, cs) && SafeRun(s, cs)
    ensures RunFrom(s, cs).Continues? && MachineInv(RunFrom(s, cs).state)
    decreases |cs|
  {
    if cs != [] {
      StepContinues(s, cs[0]);
      RunContinues(Step(s, cs[0]).state, cs[1..]);
    }
  }

  // ---- Main results ----

  /** No safe run of a device reaches an assertion, a failed precondition or the missing-key error. */
  lemma SafeRunsNeverAbort(deviceId: DeviceId, cs: seq<Callback>)
    requires AdmissibleRun(Factory(deviceId), cs) && SafeRun(Factory(deviceId), cs)
    ensures RunFrom(Factory(deviceId), cs).Continues?
  {
    RunContinues(Factory(deviceId), cs);
  }

  /** An event raised while the GSN has not advanced yet, with no timer to be had. */
  const PROBE := DidRaiseEvent(false, true, 1, Disabled, ReadFailed, Handles(NO_TIMER, NO_TIMER))

  /** A start with the same firmware, by a server that has been paired again. */
  const RESTART := Start(Unchanged, true, Handles(NO_TIMER, NO_TIMER))

  /** A way to an abort after an unsafe callback: only safe callbacks follow it. */
  function WayToAbort(s: State, c: Callback): seq<Callback> {
    if c.CleanupPairings? then [Stop(false)] + ([RESTART] + []) else [PROBE] + []
  }

  lemma PrependStep(s: State, c: Callback, cs: seq<Callback>)
    ensures RunFrom(s, [c] + cs) ==
            (if Step(s, c).Continues? then RunFrom(Step(s, c).state, cs) else Aborts(Step(s, c).at))
    ensures AdmissibleRun(s, [c] + cs) <==>
            Admissible(s, c) && (Step(s, c).Continues? ==> AdmissibleRun(Step(s, c).state, cs))
    ensures SafeRun(s, [c] + cs) <==>
            Safe(s, c) && (Step(s, c).Continues? ==> SafeRun(Step(s, c).state, cs))
  {
    assert ([c] + cs)[1..] == cs;
  }

  lemma UnsafeCleanupAborts(s: State, c: Callback)
    requires MachineInv(s) && Admissible(s, c) && !Safe(s, c) && c.CleanupPairings?
    ensures var t := Step(s, c).state;
            && Step(s, c).Continues? && AdmissibleRun(t, WayToAbort(s, c)) && SafeRun(t, WayToAbort(s, c))
            && RunFrom(t, WayToAbort(s, c)) == Aborts(NoBroadcastKey)
  {
    var t := Step(s, c).state;
    var u := Step(t, Stop(false)).state;
    assert u.run == Idle && Step(u, RESTART) == Aborts(NoBroadcastKey);
    PrependStep(u, RESTART, []);
    PrependStep(t, Stop(false), [RESTART] + []);
  }

  lemma UnsafeResetAborts(s: State, c: Callback)
    requires MachineInv(s) && Admissible(s, c) && !Safe(s, c) && !c.CleanupPairings?
    requires Step(s, c).Continues?
    ensures var t := Step(s, c).state;
            && AdmissibleRun(t, WayToAbort(s, c)) && SafeRun(t, WayToAbort(s, c))
            && RunFrom(t, WayToAbort(s, c)).Aborts?
  {
    var t := Step(s, c).state;
    if c.Start? {
      UnsafeStartLeavesTimer(s, c.firmware, c.adminPaired, c.handles);
    }
    assert Step(t, PROBE).Aborts?;
    PrependStep(t, PROBE, []);
  }

  /**
   The condition is exact: a callback is safe if and only if it does not abort and no run of safe
   callbacks after it does.
   */
  lemma SafeExactlyWhenNoAbort(s: State, c: Callback)
    requires MachineInv(s) && Admissible(s, c)
    ensures Safe(s, c) <==>
            Step(s, c).Continues? &&
            forall cs :: AdmissibleRun(Step(s, c).state, cs) && SafeRun(Step(s, c).state, cs)
                         ==> RunFrom(Step(s, c).state, cs).Continues?
  {
    if Safe(s, c) {
      StepContinues(s, c);
      forall cs | AdmissibleRun(Step(s, c).state, cs) && SafeRun(Step(s, c).state, cs)
        ensures RunFrom(Step(s, c).state, cs).Continues?
      {
        RunContinues(Step(s, c).state, cs);
      }
    } else if Step(s, c).Continues? {
      if c.CleanupPairings? {
        UnsafeCleanupAborts(s, c);
      } else {
        UnsafeResetAborts(s, c);
      }
    }
  }

  lemma UnsafeStartLeavesTimer(s: State, firmware: Firmware, adminPaired: bool, h: Handles)
    requires MachineInv(s) && Admissible(s, Start(firmware, adminPaired, h))
    requires !Safe(s, Start(firmware, adminPaired, h))
    requires HandleStart(s, firmware, adminPaired, h).Continues?
    ensures var t := HandleStart(s, firmware, adminPaired, h).state;
            && DecodeGsn(t.store.gsn) == Some(GsnState(1, false))
            && t.timer != NO_TIMER && t.event.iid == 0
  {
  }

  /**
   Such a run exists: a disconnected event, a stop, a restoration of factory settings as the sample
   application does it when the server becomes idle, a start and the next event.
   */
  lemma RestoreWithLiveTimerAborts(deviceId: DeviceId)
    ensures var raise := DidRaiseEvent(false, true, 1, Disabled, ReadFailed, Handles(NO_TIMER, 2));
            var start := Start(Unchanged, false, Handles(NO_TIMER, NO_TIMER));
            var cs := [start, raise, Stop(false), RestoreFactorySettings(deviceId), start, raise];
            AdmissibleRun(Factory(deviceId), cs) &&
            RunFrom(Factory(deviceId), cs) == Aborts(TimerBeforeDisconnectedEvent)
  {
    var raise := DidRaiseEvent(false, true, 1, Disabled, ReadFailed, Handles(NO_TIMER, 2));
    var start := Start(Unchanged, false, Handles(NO_TIMER, NO_TIMER));
    var restore := RestoreFactorySettings(deviceId);
    var s0 := Factory(deviceId);
    var s1 := Step(s0, start).state;
    var s2 := Step(s1, raise).state;
    var s3 := Step(s2, Stop(false)).state;
    var s4 := Step(s3, restore).state;
    var s5 := Step(s4, start).state;
    assert s2.timer == 2 && s3.run == Idle;
    assert Step(s5, raise) == Aborts(TimerBeforeDisconnectedEvent);
    PrependStep(s5, raise, []);
    PrependStep(s4, start, [raise]);
    PrependStep(s3, restore, [start, raise]);
    PrependStep(s2, Stop(false), [restore, start, raise]);
    PrependStep(s1, raise, [Stop(false), restore, start, raise]);
    PrependStep(s0, start, [raise, Stop(false), restore, start, raise]);
  }
}
