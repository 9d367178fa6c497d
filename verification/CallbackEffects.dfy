/**
 What each callback of the advertising machine does, in terms of the stored GSN, key and identifier, the
 timers, the event, the state of the server and the encryptions: for every state that safe runs keep.
 */
module CallbackEffects {
  import opened Bytes
  import opened Options
  import opened Outcomes
  import opened StoredRecords
  import opened Advertising
  import opened NonceUniqueness
  import opened GsnPeriods
  import opened AssertionFreedom

  // ---- Raised events ----

  /** An event that is to be broadcast: enabled, unconnected, and under a key that has a GSN left. */
  predicate IsForBroadcast(s: State, c: Callback)
    requires Readable(s.store) && c.DidRaiseEvent?
  {
    && c.supportsBroadcast && c.lookup.Enabled? && !s.connected
    && ParametersOf(s.store).keyExpirationGsn != 0
    && ParametersOf(s.store).keyExpirationGsn != GsnOf(s.store).gsn
  }

  /** The bytes of a value, and zeros after them. */
  predicate IsPadded(value: EventValue, bytes: ScalarBytes) {
    value[..|bytes|] == bytes && forall i :: |bytes| <= i < 8 ==> value[i] == 0
  }

  /** The GSN is one increment further, from 65,535 to 1, and marked as advanced. */
  ghost predicate IsAdvanced(t: State, s: State)
    requires Readable(s.store)
  {
    && Readable(t.store)
    && GsnOf(t.store).gsn == GsnOf(s.store).gsn % 65535 + 1
    && GsnOf(t.store).didIncrement
  }

  /** Neither the server nor the connection nor fast advertising is concerned. */
  predicate SameServer(t: State, s: State) {
    && t.run == s.run && t.connected == s.connected
    && t.fastStarted == s.fastStarted && t.fastTimer == s.fastTimer && t.store.deviceId == s.store.deviceId
  }

  /**
   A value that has been read is broadcast under the next GSN, with the interval for which it is enabled,
   until the timer expires; without a timer, the GSN advances and nothing is broadcast.
   */
  lemma ValueIsBroadcast(s: State, c: Callback)
    requires MachineInv(s) && c.DidRaiseEvent? && Admissible(s, c) && IsForBroadcast(s, c) && c.read.Scalar?
    ensures Step(s, c).Continues?
    ensures var t := Step(s, c).state;
            && IsAdvanced(t, s) && ParametersOf(t.store) == ParametersOf(s.store) && SameServer(t, s)
            && t.timer == c.handles.event
            && (if t.timer == NO_TIMER then t.event.iid == 0 && t.log == s.log
                else && t.event.iid == c.iid && t.event.interval == c.lookup.interval
                     && IsPadded(t.event.value, c.read.bytes)
                     && |t.log| == |s.log| + if s.run == Running && c.iid != 0 then 1 else 0)
  {
    RaiseEventContinues(s, c);
    IncrementedStore(s.store);
  }

  /** When the value cannot be read, the current broadcast has ended all the same, and the GSN stays. */
  lemma FailedReadEndsBroadcast(s: State, c: Callback)
    requires MachineInv(s) && c.DidRaiseEvent? && Admissible(s, c) && IsForBroadcast(s, c) && c.read.ReadFailed?
    ensures Step(s, c).Continues?
    ensures var t := Step(s, c).state;
            && t.store == s.store && SameServer(t, s) && t.timer == NO_TIMER && t.event.iid == 0 && t.log == s.log
  {
    RaiseEventContinues(s, c);
  }

  /**
   Every other event advances the GSN once in a period, if its characteristic asks for it, and
   starts the event timer while nobody is connected. A broadcast that is under way goes on.
   */
  lemma OtherEventAdvances(s: State, c: Callback)
    requires MachineInv(s) && c.DidRaiseEvent? && Admissible(s, c) && !IsForBroadcast(s, c)
    ensures Step(s, c).Continues?
    ensures var t := Step(s, c).state;
            if c.supportsDisconnected && !GsnOf(s.store).didIncrement then
              && IsAdvanced(t, s) && SameServer(t, s) && t.log == s.log && t.event == s.event
              && t.timer == if s.connected then NO_TIMER else c.handles.event
            else t == s
  {
    RaiseEventContinues(s, c);
    IncrementedStore(s.store);
  }

  // ---- Timers ----

  /** The expiry of the fast timer repeats the payload of an active event, and changes nothing else. */
  lemma FastTimerExpires(s: State, c: Callback)
    requires MachineInv(s) && c.TimerExpired? && Admissible(s, c) && c.expired == s.fastTimer
    ensures Step(s, c).Continues?
    ensures var t := Step(s, c).state;
            && t == s.(fastTimer := NO_TIMER, log := t.log)
            && |t.log| == |s.log| + if s.run == Running && s.event.iid != 0 then 1 else 0
  {
    ExpiryContinues(s, c.expired, c.handles);
  }

  /** The expiry of the event timer ends a broadcast, which is followed by a period without a value. */
  lemma EventTimerExpires(s: State, c: Callback)
    requires MachineInv(s) && c.TimerExpired? && Admissible(s, c) && c.expired == s.timer
    ensures Step(s, c).Continues?
    ensures var t := Step(s, c).state;
            && t.store == s.store && SameServer(t, s) && t.log == s.log && t.event.iid == 0
            && t.timer == if s.event.iid != 0 then c.handles.event else NO_TIMER
  {
    ExpiryContinues(s, c.expired, c.handles);
  }

  // ---- Connections ----

  /** The GSN stays and is no longer marked as advanced. */
  ghost predicate IsUnmarked(t: State, s: State)
    requires Readable(s.store)
  {
    && Readable(t.store)
    && GsnOf(t.store) == GsnState(GsnOf(s.store).gsn, false)
    && ParametersOf(t.store) == ParametersOf(s.store) && t.store.deviceId == s.store.deviceId
  }

  /** A connection ends both timers and the event, and opens a period. */
  lemma ConnectionOpensPeriod(s: State)
    requires MachineInv(s) && Admissible(s, DidConnect)
    ensures Step(s, DidConnect).Continues?
    ensures var t := Step(s, DidConnect).state;
            && IsUnmarked(t, s) && t.connected && t.run == Running && t.fastStarted
            && t.fastTimer == NO_TIMER && t.timer == NO_TIMER && t.event == NO_EVENT && t.log == s.log
  {
  }

  /** A disconnection starts fast advertising, opens a period, and ends a stop that nothing else delays. */
  lemma DisconnectionOpensPeriod(s: State, deferred: bool, h: Handles)
    requires MachineInv(s) && Admissible(s, DidDisconnect(deferred, h))
    ensures Step(s, DidDisconnect(deferred, h)).Continues?
    ensures var t := Step(s, DidDisconnect(deferred, h)).state;
            && IsUnmarked(t, s) && !t.connected && t.fastStarted
            && t.fastTimer == h.fast && t.timer == NO_TIMER && t.event.iid == 0 && t.log == s.log
            && t.run == if s.run == Running then Running else if deferred then Stopping else Idle
  {
    DisconnectContinues(s, deferred, h);
  }

  // ---- Start, stop and reset ----

  /** Firmware that was downgraded does not start. */
  lemma DowngradeDoesNotStart(s: State, adminPaired: bool, h: Handles)
    ensures Step(s, Start(Downgraded, adminPaired, h)) == Continues(s)
  {
  }

  /**
   Any other start runs the server. Fast advertising starts with the first one; an update resets the GSN
   and expires the key; without an admin neither key nor identifier is left.
   */
  lemma StartRuns(s: State, firmware: Firmware, adminPaired: bool, h: Handles)
    requires MachineInv(s) && Admissible(s, Start(firmware, adminPaired, h)) && firmware != Downgraded
    requires Safe(s, Start(firmware, adminPaired, h))
    ensures Step(s, Start(firmware, adminPaired, h)).Continues?
    ensures var t := Step(s, Start(firmware, adminPaired, h)).state;
            && t.run == Running && !t.connected && t.fastStarted && t.timer == s.timer && t.event == s.event
            && t.fastTimer == (if s.fastStarted then s.fastTimer else h.fast)
            && Readable(t.store) && t.store.deviceId == s.store.deviceId
            && GsnOf(t.store) == (if firmware == Updated then GsnState(1, false) else GsnOf(s.store))
            && ParametersOf(t.store) == (var p := ParametersOf(s.store);
                                         if !adminPaired then BroadcastParameters(0, Zeros(32), false, Zeros(6))
                                         else if firmware == Updated then p.(keyExpirationGsn := 0, key := Zeros(32))
                                         else p)
            && |t.log| == |s.log| + if s.event.iid != 0 then 1 else 0
  {
    StartContinues(s, firmware, adminPaired, h);
  }

  /** The run goes on without a start or a loss of the object. */
  predicate StaysStopped(c: Callback) {
    !c.Start? && !c.Create? && !c.LosePower? && !c.DidConnect?
  }

  lemma StoppingStays(s: State, c: Callback)
    requires s.run == Stopping && Step(s, c).Continues? && StaysStopped(c)
    ensures var t := Step(s, c).state;
            && t.log == s.log
            && t.run == (if (c.CompleteShutdown? || (c.DidDisconnect? && !c.deferred) ||
                             (c.Stop? && !c.deferred && !s.connected))
                         then Idle else Stopping)
  {
    match c
    case DidRaiseEvent(_, _, _, _, _, _) => RaiseEventChanges(s, c);
    case TimerExpired(expired, h) =>
      ExpiryChanges(if expired == s.fastTimer then s.(fastTimer := NO_TIMER) else s.(timer := NO_TIMER), h);
    case _ =>
  }

  lemma IdleStays(s: State, c: Callback)
    requires s.run == Idle && Step(s, c).Continues? && StaysStopped(c)
    ensures Step(s, c).state.run == Idle && Step(s, c).state.log == s.log
  {
    match c
    case DidRaiseEvent(_, _, _, _, _, _) => RaiseEventChanges(s, c);
    case TimerExpired(expired, h) =>
      ExpiryChanges(if expired == s.fastTimer then s.(fastTimer := NO_TIMER) else s.(timer := NO_TIMER), h);
    case _ =>
  }

  /** A stop is complete at once, unless there is a connection or another delay. */
  lemma StopIsComplete(s: State, deferred: bool)
    ensures Step(s, Stop(deferred)).Continues?
    ensures var t := Step(s, Stop(deferred)).state;
            && t == s.(run := t.run)
            && (t.run == Idle <==> s.run == Idle || (!s.connected && !deferred)) && t.run != Running
  {
  }

  /** Some callback of the run completes a stop, in the state in which it occurs. */
  predicate Completes(s: State, cs: seq<Callback>)
    decreases |cs|
  {
    cs != [] &&
    (|| cs[0].CompleteShutdown?
     || (cs[0].DidDisconnect? && !cs[0].deferred)
     || (cs[0].Stop? && !cs[0].deferred && !s.connected)
     || (Step(s, cs[0]).Continues? && Completes(Step(s, cs[0]).state, cs[1..])))
  }

  lemma {:induction false} IdleOverRun(s: State, cs: seq<Callback>)
    requires s.run == Idle && RunFrom(s, cs).Continues?
    requires forall c :: c in cs ==> StaysStopped(c)
    ensures RunFrom(s, cs).state.run == Idle && RunFrom(s, cs).state.log == s.log
    decreases |cs|
  {
    if cs != [] {
      assert cs[0] in cs;
      IdleStays(s, cs[0]);
      IdleOverRun(Step(s, cs[0]).state, cs[1..]);
    }
  }

  /**
   A stop that waits for a disconnection or for another delay is complete exactly when the disconnection, a
   second stop or the end of the delay has come, and nothing is broadcast after it.
   */
  lemma {:induction false} StopWaits(s: State, cs: seq<Callback>)
    requires s.run == Stopping && RunFrom(s, cs).Continues?
    requires forall c :: c in cs ==> StaysStopped(c)
    ensures var t := RunFrom(s, cs).state;
            && t.log == s.log && t.run == if Completes(s, cs) then Idle else Stopping
    decreases |cs|
  {
    if cs != [] {
      assert cs[0] in cs;
      StoppingStays(s, cs[0]);
      var t := Step(s, cs[0]).state;
      if t.run == Idle {
        IdleOverRun(t, cs[1..]);
      } else {
        StopWaits(t, cs[1..]);
      }
    }
  }

  /** A restoration of factory settings leaves neither GSN nor key nor identifier. */
  lemma RestoreResets(s: State, deviceId: DeviceId)
    ensures Step(s, RestoreFactorySettings(deviceId)).Continues?
    ensures var t := Step(s, RestoreFactorySettings(deviceId)).state;
            && t == s.(store := t.store) && t.store.deviceId == deviceId
            && Readable(t.store) && GsnOf(t.store) == GsnState(1, false)
            && ParametersOf(t.store) == BroadcastParameters(0, Zeros(32), false, Zeros(6))
  {
  }

  /** A loss of power, like a new start of the program, leaves the stored records and nothing else. */
  lemma OnlyRecordsSurvive(s: State, c: Callback)
    requires (c.Create? || c.LosePower?) && Step(s, c).Continues?
    ensures var t := Step(s, c).state;
            && t == Factory(s.store.deviceId).(store := t.store, log := s.log)
            && (c.Create? ==> t.store == s.store)
  {
  }

  /** What an increment or an update has written when the power is lost between its writes. */
  lemma CutRecords(s: State, at: Interruption)
    requires Readable(s.store)
    ensures Step(s, LosePower(at)).Continues? && Readable(Step(s, LosePower(at)).state.store)
    ensures var t := Step(s, LosePower(at)).state.store;
            var g, p := GsnOf(s.store), ParametersOf(s.store);
            var expired := p.(keyExpirationGsn := 0, key := Zeros(32));
            match at
            case BeforeGsnSaved =>
              GsnOf(t) == g && ParametersOf(t) == if g.gsn == p.keyExpirationGsn then expired else p
            case AfterGsnSaved =>
              && GsnOf(t) == GsnState(g.gsn % 65535 + 1, true)
              && ParametersOf(t) == if g.gsn == p.keyExpirationGsn then expired else p
            case BeforeKeyExpired => GsnOf(t) == GsnState(1, false) && ParametersOf(t) == p
            case AfterKeyExpired => GsnOf(t) == GsnState(1, false) && ParametersOf(t) == expired
  {
    IncrementedStore(s.store);
  }
}
