/**
 When the GSN advances, and when that expires the broadcast key: counted over whole runs.
 */
module GsnPeriods {
  import opened Bytes
  import opened Options
  import opened Outcomes
  import opened StoredRecords
  import opened Advertising
  import opened NonceUniqueness

  /** The callback broadcasts an event under a new GSN. */
  predicate Broadcasts(s: State, c: Callback) {
    && c.DidRaiseEvent? && c.read.Scalar?
    && BroadcastInterval(s, c.supportsBroadcast, c.lookup).Continues?
    && BroadcastInterval(s, c.supportsBroadcast, c.lookup).state.Some?
  }

  /** The callback changes the GSN. */
  predicate Advances(s: State, c: Callback)
    requires Step(s, c).Continues?
  {
    ReadGsn(s.store).Continues? && ReadGsn(Step(s, c).state.store).Continues? &&
    ReadGsn(Step(s, c).state.store).state.gsn != ReadGsn(s.store).state.gsn
  }

  /** How many callbacks of a run change the GSN. */
  function Advancements(s: State, cs: seq<Callback>): nat
    requires RunFrom(s, cs).Continues?
    decreases |cs|
  {
    if cs == [] then 0
    else (if Advances(s, cs[0]) then 1 else 0) + Advancements(Step(s, cs[0]).state, cs[1..])
  }

  /** How many callbacks of a run broadcast an event. */
  function BroadcastCount(s: State, cs: seq<Callback>): nat
    requires RunFrom(s, cs).Continues?
    decreases |cs|
  {
    if cs == [] then 0
    else (if Broadcasts(s, cs[0]) then 1 else 0) + BroadcastCount(Step(s, cs[0]).state, cs[1..])
  }

  /** The GSN `n` increments after `gsn`, wrapping from 65535 to 1. */
  function AdvancedBy(gsn: uint16, n: nat): uint16
    requires gsn >= 1
  {
    (gsn - 1 + n) % UINT16_MAX + 1
  }

  lemma NextIsAdvancedBy(gsn: uint16, n: nat)
    requires gsn >= 1
    ensures AdvancedBy(gsn, n) >= 1
    ensures AdvancedBy(NextGsn(gsn), n) == AdvancedBy(gsn, n + 1)
    ensures AdvancedBy(gsn, 0) == gsn
  {
  }

  /** Callbacks that do not reset the GSN. */
  predicate KeepsGsn(c: Callback) {
    && !c.RestoreFactorySettings? && c != LosePower(BeforeKeyExpired) && c != LosePower(AfterKeyExpired)
    && (c.Start? ==> c.firmware != Updated)
  }

  /** Callbacks that neither reset the GSN, nor replace or purge the key. */
  predicate KeepsGsnAndKey(c: Callback) {
    && KeepsGsn(c) && !c.GenerateKey? && c != LosePower(BeforeGsnSaved)
    && (c.Start? ==> c.adminPaired)
    && (c.CleanupPairings? ==> c.adminPaired)
  }

  /** The server object is zeroed. */
  predicate Reboots(c: Callback) {
    c.Create? || c.LosePower?
  }

  /** The callback reaches the increment of the original. */
  predicate Increments(s: State, c: Callback)
    requires Readable(s.store)
  {
    || Broadcasts(s, c)
    || c == LosePower(AfterGsnSaved)
    || (c.DidSendEventNotification? && !GsnOf(s.store).didIncrement)
    || (c.DidRaiseEvent? && c.supportsDisconnected && !GsnOf(s.store).didIncrement &&
        BroadcastInterval(s, c.supportsBroadcast, c.lookup) == Continues(None))
  }

  lemma UpdateKeepsStore(s: State, fast: Timer)
    requires UpdateAdvertisingData(s, fast).Continues?
    ensures UpdateAdvertisingData(s, fast).state.store == s.store
    ensures UpdateAdvertisingData(s, fast).state.connected == s.connected
  {
  }

  lemma RaiseEventStore(s: State, c: Callback)
    requires Readable(s.store) && c.DidRaiseEvent? && Step(s, c).Continues?
    ensures Step(s, c).state.connected == s.connected
    ensures Step(s, c).state.store == if Increments(s, c) then IncrementGsn(s.store).state else s.store
  {
    var h := c.handles;
    var broadcast := BroadcastInterval(s, c.supportsBroadcast, c.lookup).state;
    if broadcast.Some? {
      var s0 := s.(timer := NO_TIMER, event := s.event.(iid := 0, value := Zeros(8)));
      UpdateKeepsStore(s0, h.fast);
      var s1 := UpdateAdvertisingData(s0, h.fast).state;
      match c.read
      case ReadFailed => UpdateKeepsStore(s1, h.fast);
      case Scalar(bytes) =>
        var s2 := s1.(store := IncrementGsn(s1.store).state, event := s1.event.(value := PaddedValue(bytes)));
        UpdateKeepsStore(
          if h.event == NO_TIMER then s2
          else s2.(timer := h.event, event := s2.event.(interval := broadcast.value, iid := c.iid)), h.fast);
    } else if c.supportsDisconnected && !s.connected && !GsnOf(s.store).didIncrement {
      UpdateKeepsStore(s.(store := IncrementGsn(s.store).state, timer := h.event), h.fast);
    }
  }

  lemma ConnectStore(s: State)
    requires Readable(s.store) && HandleConnect(s).Continues?
    ensures HandleConnect(s).state.store == ResetCoalescing(s.store).state
  {
  }

  lemma DisconnectStore(s: State, deferred: bool, h: Handles)
    requires Readable(s.store) && HandleDisconnect(s, deferred, h).Continues?
    ensures HandleDisconnect(s, deferred, h).state.store == ResetCoalescing(s.store).state
  {
    UpdateKeepsStore(s.(connected := false, fastTimer := h.fast, store := ResetCoalescing(s.store).state), h.fast);
  }

  lemma ExpiryStore(s: State, h: Handles)
    requires AfterTimerExpired(s, h).Continues?
    ensures AfterTimerExpired(s, h).state.store == s.store
    ensures AfterTimerExpired(s, h).state.connected == s.connected
  {
    UpdateKeepsStore(
      if s.event.iid != 0 && s.timer == NO_TIMER then s.(event := NO_EVENT, timer := h.event) else s, h.fast);
  }

  /** The records after a callback that does not increment. */
  ghost predicate RecordsStay(s: State, c: Callback, t: State)
    requires Readable(s.store)
  {
    && Readable(t.store) && GsnOf(t.store).gsn == GsnOf(s.store).gsn
    && GsnOf(t.store).didIncrement == (GsnOf(s.store).didIncrement && !c.DidConnect? && !c.DidDisconnect?)
    && (KeepsGsnAndKey(c) ==>
          ParametersOf(t.store).keyExpirationGsn == ParametersOf(s.store).keyExpirationGsn &&
          ParametersOf(t.store).key == ParametersOf(s.store).key)
    && (!c.DidConnect? && !c.DidDisconnect? && !Reboots(c) ==> t.connected == s.connected)
  }

  lemma TransitionStore(s: State, c: Callback)
    requires Readable(s.store) && Step(s, c).Continues? && KeepsGsn(c) && IsTransition(c)
    ensures RecordsStay(s, c, Step(s, c).state)
  {
    match c
    case Start(firmware, adminPaired, h) =>
      if firmware == Unchanged {
        UpdateKeepsStore(
          s.(run := Running, store := CleanedUp(s.store, adminPaired)), h.fast);
      }
    case DidConnect => ConnectStore(s);
    case DidDisconnect(deferred, h) => DisconnectStore(s, deferred, h);
    case TimerExpired(expired, h) =>
      ExpiryStore(if expired == s.fastTimer then s.(fastTimer := NO_TIMER) else s.(timer := NO_TIMER), h);
  }

  lemma OtherStore(s: State, c: Callback)
    requires Readable(s.store) && Step(s, c).Continues? && KeepsGsn(c)
    requires !c.DidRaiseEvent? && !Increments(s, c)
    ensures RecordsStay(s, c, Step(s, c).state)
  {
    if IsTransition(c) {
      TransitionStore(s, c);
    } else if c.LosePower? {
      CutIncrementStore(s.store);
    }
  }

  /** An increment that loses power before its GSN is saved. */
  lemma CutIncrementStore(store: Store)
    requires Readable(store)
    ensures var t := Interrupted(store, BeforeGsnSaved);
            t.Continues? && t.state.gsn == store.gsn && Readable(t.state)
  {
  }

  /** Every callback leaves the GSN alone or increments it once. */
  lemma StepAdvancesOnce(s: State, c: Callback)
    requires Readable(s.store) && Step(s, c).Continues? && KeepsGsn(c)
    ensures var t := Step(s, c).state;
            && Readable(t.store)
            && (Advances(s, c) <==> Increments(s, c))
            && GsnOf(t.store).gsn == (if Advances(s, c) then NextGsn(GsnOf(s.store).gsn) else GsnOf(s.store).gsn)
            && (Advances(s, c) ==> GsnOf(t.store).didIncrement)
            && (!c.DidConnect? && !c.DidDisconnect? && !Reboots(c) ==> t.connected == s.connected)
            && (!c.DidConnect? && !c.DidDisconnect? ==>
                  GsnOf(t.store).didIncrement == (GsnOf(s.store).didIncrement || Advances(s, c)))
  {
    IncrementedStore(s.store);
    if c.DidRaiseEvent? {
      RaiseEventStore(s, c);
    } else if !Increments(s, c) {
      OtherStore(s, c);
    }
  }

  lemma StepExpiresKey(s: State, c: Callback)
    requires Readable(s.store) && Step(s, c).Continues? && KeepsGsnAndKey(c)
    ensures var t := Step(s, c).state;
            var p := ParametersOf(s.store);
            && Readable(t.store)
            && (if Advances(s, c) && p.keyExpirationGsn == GsnOf(s.store).gsn
                then ParametersOf(t.store).keyExpirationGsn == 0
                else ParametersOf(t.store).keyExpirationGsn == p.keyExpirationGsn && ParametersOf(t.store).key == p.key)
  {
    StepAdvancesOnce(s, c);
    IncrementedStore(s.store);
    if c.DidRaiseEvent? {
      RaiseEventStore(s, c);
    } else if !Increments(s, c) {
      OtherStore(s, c);
    }
  }

  // ---- Key lifetime ----

  /** The stored key record after `n` increments of a key generated at `gsn`. */
  ghost predicate KeyAtAge(store: Store, gsn: uint16, key: Key, n: nat)
    requires Readable(store) && gsn >= 1
  {
    var p := ParametersOf(store);
    && GsnOf(store).gsn == AdvancedBy(gsn, n)
    && (if n < KEY_LIFETIME then p.keyExpirationGsn == ExpirationGsn(gsn) && p.key == key else p.keyExpirationGsn == 0)
  }

  lemma ExpiresAtAge(gsn: uint16, n: nat)
    requires gsn >= 1 && n < KEY_LIFETIME
    ensures AdvancedBy(gsn, n) == ExpirationGsn(gsn) <==> n == KEY_LIFETIME - 1
  {
  }

  lemma AdvancedByOneMore(gsn: uint16, n: nat)
    requires gsn >= 1
    ensures NextGsn(AdvancedBy(gsn, n)) == AdvancedBy(gsn, n + 1)
  {
  }

  lemma KeyAgesByStep(s: State, gsn: uint16, key: Key, n: nat, c: Callback)
    requires gsn >= 1 && Readable(s.store) && KeyAtAge(s.store, gsn, key, n)
    requires Step(s, c).Continues? && KeepsGsnAndKey(c)
    ensures var t := Step(s, c).state;
            Readable(t.store) && KeyAtAge(t.store, gsn, key, if Advances(s, c) then n + 1 else n)
  {
    StepAdvancesOnce(s, c);
    StepExpiresKey(s, c);
    AdvancedByOneMore(gsn, n);
    if n < KEY_LIFETIME {
      ExpiresAtAge(gsn, n);
    }
  }

  lemma {:induction false} KeyAgesOverRun(
    s: State, gsn: uint16, key: Key, n: nat, cs: seq<Callback>, total: nat)
    requires gsn >= 1 && Readable(s.store) && KeyAtAge(s.store, gsn, key, n)
    requires RunFrom(s, cs).Continues? && total == n + Advancements(s, cs)
    requires forall c :: c in cs ==> KeepsGsnAndKey(c)
    ensures Readable(RunFrom(s, cs).state.store) && KeyAtAge(RunFrom(s, cs).state.store, gsn, key, total)
    decreases |cs|
  {
    if cs == [] {
      assert RunFrom(s, cs).state == s;
    } else {
      assert cs[0] in cs;
      KeyAgesByStep(s, gsn, key, n, cs[0]);
      var t := Step(s, cs[0]).state;
      KeyAgesOverRun(t, gsn, key, if Advances(s, cs[0]) then n + 1 else n, cs[1..], total);
      assert RunFrom(s, cs) == RunFrom(t, cs[1..]);
    }
  }

  /**
   A key that is not replaced expires with exactly the 32,767th increment after its generation, for
   every GSN at which it may be generated. An increment that loses power after its GSN was saved counts.
   */
  lemma KeyLifetimeIsExact(s: State, key: Key, newId: Option<DeviceId>, cs: seq<Callback>)
    requires Readable(s.store)
    requires var t := HandleGenerateKey(s, key, newId).state; RunFrom(t, cs).Continues?
    requires forall c :: c in cs ==> KeepsGsnAndKey(c)
    ensures var t := HandleGenerateKey(s, key, newId).state;
            var u := RunFrom(t, cs).state;
            && Readable(u.store)
            && (ParametersOf(u.store).keyExpirationGsn == 0 <==> Advancements(t, cs) >= 32767)
            && (Advancements(t, cs) < 32767 ==> ParametersOf(u.store).key == key)
            && GsnOf(u.store).gsn == AdvancedBy(GsnOf(s.store).gsn, Advancements(t, cs))
  {
    var t := HandleGenerateKey(s, key, newId).state;
    var gsn := GsnOf(s.store).gsn;
    assert AdvancedBy(gsn, 0) == gsn;
    KeyAgesOverRun(t, gsn, key, 0, cs, Advancements(t, cs));
  }

  // ---- Increments that lose power before their GSN is saved ----

  /** Callbacks that neither reset the GSN, nor replace the key, nor purge it but by such an increment. */
  predicate KeepsGsnAndReplacesNoKey(c: Callback) {
    KeepsGsnAndKey(c) || c == LosePower(BeforeGsnSaved)
  }

  /** As `KeyAtAge`, where the key may be gone one increment early. */
  ghost predicate KeyAtAgeOrCut(store: Store, gsn: uint16, key: Key, n: nat)
    requires Readable(store) && gsn >= 1
  {
    || KeyAtAge(store, gsn, key, n)
    || (n >= KEY_LIFETIME - 1 && GsnOf(store).gsn == AdvancedBy(gsn, n) && ParametersOf(store).keyExpirationGsn == 0)
  }

  lemma KeyAgesOrIsCut(s: State, gsn: uint16, key: Key, n: nat, c: Callback)
    requires gsn >= 1 && Readable(s.store) && KeyAtAgeOrCut(s.store, gsn, key, n)
    requires Step(s, c).Continues? && KeepsGsnAndReplacesNoKey(c)
    ensures var t := Step(s, c).state;
            Readable(t.store) && KeyAtAgeOrCut(t.store, gsn, key, if Advances(s, c) then n + 1 else n)
  {
    if c == LosePower(BeforeGsnSaved) {
      if n < KEY_LIFETIME {
        ExpiresAtAge(gsn, n);
      }
    } else if KeyAtAge(s.store, gsn, key, n) {
      KeyAgesByStep(s, gsn, key, n, c);
    } else {
      StepAdvancesOnce(s, c);
      StepExpiresKey(s, c);
      AdvancedByOneMore(gsn, n);
    }
  }

  lemma {:induction false} KeyAgesOrIsCutOverRun(
    s: State, gsn: uint16, key: Key, n: nat, cs: seq<Callback>, total: nat)
    requires gsn >= 1 && Readable(s.store) && KeyAtAgeOrCut(s.store, gsn, key, n)
    requires RunFrom(s, cs).Continues? && total == n + Advancements(s, cs)
    requires forall c :: c in cs ==> KeepsGsnAndReplacesNoKey(c)
    ensures Readable(RunFrom(s, cs).state.store) && KeyAtAgeOrCut(RunFrom(s, cs).state.store, gsn, key, total)
    decreases |cs|
  {
    if cs == [] {
      assert RunFrom(s, cs).state == s;
    } else {
      assert cs[0] in cs;
      KeyAgesOrIsCut(s, gsn, key, n, cs[0]);
      var t := Step(s, cs[0]).state;
      KeyAgesOrIsCutOverRun(t, gsn, key, if Advances(s, cs[0]) then n + 1 else n, cs[1..], total);
      assert RunFrom(s, cs) == RunFrom(t, cs[1..]);
    }
  }

  /**
   An increment that loses power before its GSN is saved lets the key go one increment early at most: with
   any number of them, the key is there for 32,766 increments and gone with the 32,767th.
   */
  lemma KeyLifetimeWithCuts(s: State, key: Key, newId: Option<DeviceId>, cs: seq<Callback>)
    requires Readable(s.store)
    requires var t := HandleGenerateKey(s, key, newId).state; RunFrom(t, cs).Continues?
    requires forall c :: c in cs ==> KeepsGsnAndReplacesNoKey(c)
    ensures var t := HandleGenerateKey(s, key, newId).state;
            var u := RunFrom(t, cs).state;
            && Readable(u.store)
            && (Advancements(t, cs) < 32766 ==>
                  ParametersOf(u.store).keyExpirationGsn != 0 && ParametersOf(u.store).key == key)
            && (Advancements(t, cs) >= 32767 ==> ParametersOf(u.store).keyExpirationGsn == 0)
            && GsnOf(u.store).gsn == AdvancedBy(GsnOf(s.store).gsn, Advancements(t, cs))
  {
    var t := HandleGenerateKey(s, key, newId).state;
    var gsn := GsnOf(s.store).gsn;
    assert AdvancedBy(gsn, 0) == gsn;
    assert KeyAtAge(t.store, gsn, key, 0);
    KeyAgesOrIsCutOverRun(t, gsn, key, 0, cs, Advancements(t, cs));
  }

  // ---- Coalescing ----

  /** The callback asks for an increment while a controller is connected. */
  predicate AsksWhileConnected(c: Callback) {
    c.DidSendEventNotification? || (c.DidRaiseEvent? && c.supportsDisconnected)
  }

  lemma StepWhileConnected(s: State, c: Callback)
    requires s.connected && Readable(s.store) && Step(s, c).Continues? && KeepsGsn(c)
    requires !c.DidConnect? && !c.DidDisconnect? && !Reboots(c)
    ensures var t := Step(s, c).state;
            && t.connected && Readable(t.store)
            && (Advances(s, c) <==> AsksWhileConnected(c) && !GsnOf(s.store).didIncrement)
            && (GsnOf(t.store).didIncrement <==> GsnOf(s.store).didIncrement || AsksWhileConnected(c))
  {
    StepAdvancesOnce(s, c);
  }

  /**
   While a controller stays connected the GSN advances at most once, however many events there are,
   and exactly once when there is an event and it has not advanced in this cycle yet.
   */
  lemma {:induction false} ConnectedPeriodAdvancesOnce(s: State, cs: seq<Callback>)
    requires s.connected && Readable(s.store) && RunFrom(s, cs).Continues?
    requires forall c :: c in cs ==> KeepsGsn(c) && !c.DidConnect? && !c.DidDisconnect? && !Reboots(c)
    ensures Advancements(s, cs) ==
            if !GsnOf(s.store).didIncrement && exists c :: c in cs && AsksWhileConnected(c) then 1 else 0
    decreases |cs|
  {
    if cs != [] {
      assert cs[0] in cs;
      StepWhileConnected(s, cs[0]);
      ConnectedPeriodAdvancesOnce(Step(s, cs[0]).state, cs[1..]);
      assert forall c :: c in cs <==> c == cs[0] || c in cs[1..];
    }
  }

  /** Every connection starts such a period with no increment made. */
  lemma PeriodStartsUnincremented(s: State, c: Callback)
    requires Readable(s.store) && Step(s, c).Continues? && (c.DidConnect? || c.DidDisconnect?)
    ensures var t := Step(s, c).state;
            Readable(t.store) && !GsnOf(t.store).didIncrement && t.connected == c.DidConnect?
  {
  }

  lemma GsnOneStepEarlier(s: State, cs: seq<Callback>)
    requires cs != [] && Readable(s.store) && RunFrom(s, cs).Continues?
    requires var t := Step(s, cs[0]).state;
             && Readable(t.store)
             && GsnOf(t.store).gsn == if Advances(s, cs[0]) then NextGsn(GsnOf(s.store).gsn) else GsnOf(s.store).gsn
    ensures var t := Step(s, cs[0]).state;
            AdvancedBy(GsnOf(t.store).gsn, Advancements(t, cs[1..]))
            == AdvancedBy(GsnOf(s.store).gsn, Advancements(s, cs))
  {
    NextIsAdvancedBy(GsnOf(s.store).gsn, Advancements(Step(s, cs[0]).state, cs[1..]));
  }

  /** Over a run that does not reset it, the GSN moves by exactly the number of advances. */
  lemma {:induction false} GsnAfterRun(s: State, cs: seq<Callback>)
    requires Readable(s.store) && RunFrom(s, cs).Continues?
    requires forall c :: c in cs ==> KeepsGsn(c)
    ensures var t := RunFrom(s, cs).state;
            Readable(t.store) && GsnOf(t.store).gsn == AdvancedBy(GsnOf(s.store).gsn, Advancements(s, cs))
    decreases |cs|
  {
    if cs == [] {
      NextIsAdvancedBy(GsnOf(s.store).gsn, 0);
    } else {
      assert cs[0] in cs;
      StepAdvancesOnce(s, cs[0]);
      GsnAfterRun(Step(s, cs[0]).state, cs[1..]);
      GsnOneStepEarlier(s, cs);
    }
  }

  /**
   Between two changes of the connection, at most one advance of the GSN is not a broadcast, and it
   is the first one: from a state in which the GSN has advanced, every advance is a broadcast.
   */
  lemma {:induction false} LaterAdvancesAreBroadcasts(s: State, cs: seq<Callback>)
    requires Readable(s.store) && RunFrom(s, cs).Continues?
    requires forall c :: c in cs ==> KeepsGsn(c) && !c.DidConnect? && !c.DidDisconnect? && !c.LosePower?
    ensures BroadcastCount(s, cs) <= Advancements(s, cs) <= BroadcastCount(s, cs) + 1
    ensures GsnOf(s.store).didIncrement ==> Advancements(s, cs) == BroadcastCount(s, cs)
    decreases |cs|
  {
    if cs != [] {
      assert cs[0] in cs;
      StepAdvancesOnce(s, cs[0]);
      LaterAdvancesAreBroadcasts(Step(s, cs[0]).state, cs[1..]);
    }
  }
}
