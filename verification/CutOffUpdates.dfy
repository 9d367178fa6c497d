/**
 What becomes of the broadcast key when a firmware update loses power after it has removed the GSN and
 before it has expired the key, and the old firmware starts again. The condition under which it may start
 is exact, for unique nonces and for bounded use.
 */
module CutOffUpdates {
  import opened Bytes
  import opened Options
  import opened Outcomes
  import opened StoredRecords
  import opened Advertising
  import opened NonceUniqueness

  // ---- Runs ----

  lemma RunOfCons(s: State, c: Callback, cs: seq<Callback>, aim: Aim)
    requires Step(s, c).Continues?
    ensures RunFrom(s, [c] + cs) == RunFrom(Step(s, c).state, cs)
    ensures AdmissibleRun(s, [c] + cs) <==> Admissible(s, c) && AdmissibleRun(Step(s, c).state, cs)
    ensures FitRun(s, [c] + cs, aim) <==> FitStart(s, c, aim) && FitRun(Step(s, c).state, cs, aim)
  {
    assert ([c] + cs)[1..] == cs;
  }

  lemma {:induction false} RunOfConcat(s: State, cs: seq<Callback>, ds: seq<Callback>, aim: Aim)
    requires RunFrom(s, cs).Continues?
    ensures RunFrom(s, cs + ds) == RunFrom(RunFrom(s, cs).state, ds)
    ensures AdmissibleRun(s, cs + ds) <==> AdmissibleRun(s, cs) && AdmissibleRun(RunFrom(s, cs).state, ds)
    ensures FitRun(s, cs + ds, aim) <==> FitRun(s, cs, aim) && FitRun(RunFrom(s, cs).state, ds, aim)
    decreases |cs|
  {
    if cs == [] {
      assert cs + ds == ds;
    } else {
      assert (cs + ds)[1..] == cs[1..] + ds;
      RunOfConcat(Step(s, cs[0]).state, cs[1..], ds, aim);
    }
  }

  /** No continuation of a run that the environment may take, with fit starts, spoils the log. */
  ghost predicate StaysGood(s: State, aim: Aim) {
    forall cs :: AdmissibleRun(s, cs) && FitRun(s, cs, aim) && RunFrom(s, cs).Continues? ==>
      LogGood(RunFrom(s, cs).state.log, aim)
  }

  /** A continuation that spoils the log. */
  ghost predicate Spoils(s: State, cs: seq<Callback>, aim: Aim) {
    AdmissibleRun(s, cs) && FitRun(s, cs, aim) && RunFrom(s, cs).Continues? && !LogGood(RunFrom(s, cs).state.log, aim)
  }

  // ---- Broadcasts ----

  /** The server advertises, and the current key has not reached its last GSN. */
  ghost predicate CanBroadcast(s: State) {
    && s.run == Running && !s.connected && s.fastStarted
    && Readable(s.store) && HasKey(s) && Remaining(s) > 0
  }

  /** A raised event that is broadcast, with a timer handle that is not in use. */
  function Raise(s: State, iid: uint16, value: ScalarBytes): Callback {
    DidRaiseEvent(true, false, iid, Enabled(1), Scalar(value), Handles(NO_TIMER, s.fastTimer + 1))
  }

  lemma RaiseEmits(s: State, iid: uint16, value: ScalarBytes)
    requires CanBroadcast(s) && iid != 0
    ensures Admissible(s, Raise(s, iid, value)) && Step(s, Raise(s, iid, value)).Continues?
    ensures var t := Step(s, Raise(s, iid, value)).state;
            && t.run == Running && !t.connected && t.fastStarted && Readable(t.store)
            && GsnOf(t.store).gsn == NextGsn(GsnOf(s.store).gsn) && ParametersOf(t.store) == ParametersOf(s.store)
            && Remaining(t) == Remaining(s) - 1
            && t.log == s.log + [Emission(ParametersOf(s.store).key, NextGsn(GsnOf(s.store).gsn),
                                          AdvertisingIdOf(ParametersOf(s.store), s.store), iid, PaddedValue(value))]
  {
    var s0 := s.(timer := NO_TIMER, event := s.event.(iid := 0, value := Zeros(8)));
    assert UpdateAdvertisingData(s0, NO_TIMER) == Continues(s0);
    IncrementedStore(s.store);
    AgeAfterIncrement(GsnOf(s.store).gsn, ParametersOf(s.store).keyExpirationGsn);
  }

  /** The GSN `n` increments on. */
  function Later(gsn: uint16, n: nat): uint16
    requires gsn >= 1 && n < UINT16_MAX
  {
    if gsn + n <= UINT16_MAX then gsn + n else gsn + n - UINT16_MAX
  }

  /** The GSNs after the current one, up to `n` increments on, have all been used under the current key. */
  ghost predicate AllUsed(log: seq<Emission>, key: Key, gsn: uint16, n: nat) {
    forall x: uint16 :: x >= 1 && 1 <= Age(gsn, x) <= n ==> exists e :: e in log && e.key == key && e.gsn == x
  }

  lemma AllUsedOneMore(before: seq<Emission>, after: seq<Emission>, key: Key, gsn: uint16, n: nat, e: Emission)
    requires gsn >= 1 && AllUsed(after, key, NextGsn(gsn), n) && e in after
    requires e.key == key && e.gsn == NextGsn(gsn)
    ensures AllUsed(after, key, gsn, n + 1)
  {
    forall x: uint16 | x >= 1 && 1 <= Age(gsn, x) <= n + 1
      ensures exists f :: f in after && f.key == key && f.gsn == x
    {
      AgeAfterIncrement(gsn, x);
      if Age(gsn, x) == 1 {
        assert x == NextGsn(gsn);
      }
    }
  }

  /** Broadcasts under the next `n` GSNs. */
  lemma {:induction false} RaiseThrough(s: State, n: nat, aim: Aim) returns (cs: seq<Callback>)
    requires s.run == Running && !s.connected && s.fastStarted
    requires Readable(s.store) && HasKey(s) && n <= Remaining(s)
    ensures AdmissibleRun(s, cs) && FitRun(s, cs, aim) && RunFrom(s, cs).Continues?
    ensures var t := RunFrom(s, cs).state;
            && t.run == Running && !t.connected && t.fastStarted
            && Readable(t.store) && ParametersOf(t.store) == ParametersOf(s.store)
            && Remaining(t) == Remaining(s) - n
            && GsnOf(t.store).gsn == Later(GsnOf(s.store).gsn, n)
            && (forall e :: e in s.log ==> e in t.log)
            && AllUsed(t.log, ParametersOf(s.store).key, GsnOf(s.store).gsn, n)
    decreases n
  {
    if n == 0 {
      cs := [];
    } else {
      var c := Raise(s, 1, []);
      RaiseEmits(s, 1, []);
      var s1 := Step(s, c).state;
      var e := s1.log[|s.log|];
      var rest := RaiseThrough(s1, n - 1, aim);
      cs := [c] + rest;
      RunOfCons(s, c, rest, aim);
      var t := RunFrom(s1, rest).state;
      assert e in s1.log && e in t.log;
      AllUsedOneMore(s1.log, t.log, ParametersOf(s.store).key, GsnOf(s.store).gsn, n - 1, e);
    }
  }

  // ---- Unique nonces ----

  /** A value that a broadcast does not have. */
  function OtherValue(v: EventValue): (w: ScalarBytes)
    ensures PaddedValue(w) != v
  {
    var w := if v[0] == 0 then [1] else [0];
    assert PaddedValue(w)[0] == w[0];
    w
  }

  lemma LaterIsDetermined(gsn: uint16, x: uint16)
    requires gsn >= 1 && x >= 1
    ensures Age(gsn, x) < UINT16_MAX && Later(gsn, Age(gsn, x)) == x
  {
  }

  lemma SameKeyAndGsn(log: seq<Emission>, e: Emission, f: Emission)
    requires e in log && f in log && e.key == f.key && e.gsn == f.gsn && e.value != f.value
    ensures !NoncesUnique(log)
  {
    assert !SamePayload(e, f);
  }

  /** A used GSN that lies ahead is reached, and met with another value. */
  lemma UsedAheadSpoils(s: State, e: Emission) returns (cs: seq<Callback>)
    requires s.run == Running && !s.connected && s.fastStarted && Readable(s.store)
    requires e in s.log && e.gsn >= 1 && UnderCurrentKey(s, e) && IsAhead(s, e.gsn)
    ensures Spoils(s, cs, UniqueNonces)
  {
    var gsn := GsnOf(s.store).gsn;
    var n := Age(gsn, e.gsn) - 1;
    LaterIsDetermined(gsn, e.gsn);
    var through := RaiseThrough(s, n, UniqueNonces);
    var t := RunFrom(s, through).state;
    var c := Raise(t, 1, OtherValue(e.value));
    RaiseEmits(t, 1, OtherValue(e.value));
    var u := Step(t, c).state;
    cs := through + ([c] + []);
    RunOfCons(t, c, [], UniqueNonces);
    RunOfConcat(s, through, [c] + [], UniqueNonces);
    assert NextGsn(Later(gsn, n)) == e.gsn;
    SameKeyAndGsn(u.log, e, u.log[|t.log|]);
  }

  // ---- Bounded use ----

  /** A set that has every GSN of a stretch has as many elements. */
  lemma {:induction false} StretchBoundsCardinality(gsns: set<uint16>, gsn: uint16, n: nat)
    requires gsn >= 1 && n < UINT16_MAX
    requires forall x: uint16 :: x >= 1 && 1 <= Age(gsn, x) <= n ==> x in gsns
    ensures |gsns| >= n
    decreases n
  {
    if n > 0 {
      var x := Later(gsn, n);
      assert x >= 1 && Age(gsn, x) == n;
      assert forall y: uint16 :: y >= 1 && Age(gsn, y) < n ==> y != x;
      StretchBoundsCardinality(gsns - {x}, gsn, n - 1);
    }
  }

  lemma AllUsedCardinality(log: seq<Emission>, key: Key, gsn: uint16, n: nat)
    requires gsn >= 1 && n < UINT16_MAX && AllUsed(log, key, gsn, n)
    ensures |GsnsUnder(log, key)| >= n
    ensures (exists e :: e in log && e.key == key && e.gsn == gsn) ==> |GsnsUnder(log, key)| >= n + 1
  {
    var gsns := GsnsUnder(log, key);
    forall x: uint16 | x >= 1 && 1 <= Age(gsn, x) <= n
      ensures x in gsns
    {
      var e :| e in log && e.key == key && e.gsn == x;
    }
    StretchBoundsCardinality(gsns, gsn, n);
    if e :| e in log && e.key == key && e.gsn == gsn {
      assert gsn in gsns && Age(gsn, gsn) == 0;
      StretchBoundsCardinality(gsns - {gsn}, gsn, n);
    }
  }

  /** A key with too many GSNs left is used under all of them. */
  lemma TooManyLeftSpoils(s: State) returns (cs: seq<Callback>)
    requires s.run == Running && !s.connected && s.fastStarted && Readable(s.store) && HasKey(s)
    requires var used := exists e :: e in s.log && UnderCurrentKey(s, e) && e.gsn == GsnOf(s.store).gsn;
             Remaining(s) + (if used then 1 else 0) >= KEY_LIFETIME
    ensures Spoils(s, cs, BoundedUse)
  {
    var gsn, key := GsnOf(s.store).gsn, ParametersOf(s.store).key;
    LaterIsDetermined(gsn, ParametersOf(s.store).keyExpirationGsn);
    cs := RaiseThrough(s, Remaining(s), BoundedUse);
    var log := RunFrom(s, cs).state.log;
    if e :| e in s.log && UnderCurrentKey(s, e) && e.gsn == gsn {
      assert e in log && e.key == key;
    }
    AllUsedCardinality(log, key, gsn, Remaining(s));
    assert |GsnsUnder(log, key)| >= KEY_LIFETIME;
  }

  // ---- The condition is exact ----

  /** A start of the same firmware with a current key: it advertises, and encrypts an active event. */
  lemma StartAdvertises(s: State, h: Handles)
    requires Readable(s.store) && !s.connected && HasKey(s) && Step(s, Start(Unchanged, true, h)).Continues?
    ensures var t := Step(s, Start(Unchanged, true, h)).state;
            && t.run == Running && !t.connected && t.fastStarted && t.store == s.store
            && t.log == s.log + if s.event.iid == 0 then []
                                else [EmissionOf(s, ParametersOf(s.store), GsnOf(s.store).gsn)]
  {
  }

  lemma UnfitStartSpoils(s: State, h: Handles, aim: Aim) returns (cs: seq<Callback>)
    requires LogInv(s, aim) && s.run == Idle && !KeyFits(s, aim)
    requires Step(s, Start(Unchanged, true, h)).Continues?
    ensures Spoils(Step(s, Start(Unchanged, true, h)).state, cs, aim)
  {
    var t := Step(s, Start(Unchanged, true, h)).state;
    StartAdvertises(s, h);
    match aim
    case UniqueNonces =>
      if e :| e in s.log && UnderCurrentKey(s, e) && IsAhead(s, e.gsn) {
        cs := UsedAheadSpoils(t, e);
      } else {
        var f := EmissionOf(s, ParametersOf(s.store), GsnOf(s.store).gsn);
        var e :| e in s.log && UnderCurrentKey(s, e) && e.gsn == GsnOf(s.store).gsn && !SamePayload(e, f);
        cs := [];
        assert e in t.log && f in t.log && e.key == f.key && e.gsn == f.gsn;
      }
    case BoundedUse =>
      if s.event.iid != 0 {
        var f := t.log[|s.log|];
        assert f in t.log && UnderCurrentKey(t, f) && f.gsn == GsnOf(t.store).gsn;
      }
      cs := TooManyLeftSpoils(t);
  }

  /**
   In every state that runs keep, a callback is a fit start, or none, if and only if no run after it spoils
   the log.
   */
  lemma FitExactlyWhenGood(s: State, c: Callback, aim: Aim)
    requires RunInv(s, aim) && Admissible(s, c) && Step(s, c).Continues?
    ensures FitStart(s, c, aim) <==> StaysGood(Step(s, c).state, aim)
  {
    var t := Step(s, c).state;
    if FitStart(s, c, aim) {
      StepKeepsRunInv(s, c, aim);
      forall cs | AdmissibleRun(t, cs) && FitRun(t, cs, aim) && RunFrom(t, cs).Continues?
        ensures LogGood(RunFrom(t, cs).state.log, aim)
      {
        RunKeepsRunInv(t, cs, aim);
      }
    } else {
      var cs := UnfitStartSpoils(s, c.handles, aim);
      assert Spoils(t, cs, aim);
    }
  }

  // ---- Right after the cut ----

  const REBOOT := Start(Unchanged, true, Handles(NO_TIMER, NO_TIMER))

  /** What can be checked before the update: of the log for unique nonces, of the stored record for bounded use. */
  ghost predicate SurvivesCut(s: State, aim: Aim)
    requires Readable(s.store)
  {
    match aim
    case UniqueNonces =>
      forall e :: e in s.log && UnderCurrentKey(s, e) ==> !(2 <= e.gsn <= ParametersOf(s.store).keyExpirationGsn)
    case BoundedUse => ParametersOf(s.store).keyExpirationGsn <= KEY_LIFETIME
  }

  lemma CutState(s: State)
    requires Readable(s.store)
    ensures Step(s, LosePower(BeforeKeyExpired)).Continues?
    ensures var t := Step(s, LosePower(BeforeKeyExpired)).state;
            && t.run == Idle && !t.connected && t.event.iid == 0 && t.log == s.log
            && Readable(t.store) && GsnOf(t.store).gsn == 1 && ParametersOf(t.store) == ParametersOf(s.store)
            && Admissible(t, REBOOT) && Step(t, REBOOT).Continues?
  {
  }

  lemma CutKeyFits(s: State, t: State, aim: Aim)
    requires Readable(s.store) && Readable(t.store) && t.log == s.log && t.event.iid == 0
    requires GsnOf(t.store).gsn == 1 && ParametersOf(t.store) == ParametersOf(s.store)
    requires forall e :: e in s.log ==> e.gsn >= 1
    ensures KeyFits(t, aim) <==> SurvivesCut(s, aim)
  {
  }

  /**
   An update is cut off with the GSN removed and the key still there, and the old firmware starts. No
   nonce is ever reused after that if and only if the key has not been used under a GSN from 2 up to its
   expiration; the key stays within its number of GSNs if and only if it expires at 32,767 or before.
   */
  lemma OldFirmwareAfterCutExactlyWhen(s: State, aim: Aim)
    requires RunInv(s, aim) && s.run == Idle
    ensures var t := Step(s, LosePower(BeforeKeyExpired)).state;
            && Admissible(s, LosePower(BeforeKeyExpired)) && Step(s, LosePower(BeforeKeyExpired)).Continues?
            && Admissible(t, REBOOT) && Step(t, REBOOT).Continues?
            && (StaysGood(Step(t, REBOOT).state, aim) <==> SurvivesCut(s, aim))
  {
    CutState(s);
    var t := Step(s, LosePower(BeforeKeyExpired)).state;
    PowerLossKeepsRunInv(s, BeforeKeyExpired, aim);
    CutKeyFits(s, t, aim);
    FitExactlyWhenGood(t, REBOOT, aim);
  }

  lemma SpoiledAfterCut(s: State, aim: Aim) returns (cs: seq<Callback>)
    requires RunInv(s, aim) && s.run == Idle && !SurvivesCut(s, aim)
    ensures AdmissibleRun(s, cs) && RunFrom(s, cs).Continues? && !LogGood(RunFrom(s, cs).state.log, aim)
  {
    OldFirmwareAfterCutExactlyWhen(s, aim);
    var t := Step(s, LosePower(BeforeKeyExpired)).state;
    var u := Step(t, REBOOT).state;
    var ds := Spoiling(u, aim);
    RunOfCons(t, REBOOT, ds, aim);
    RunOfCons(s, LosePower(BeforeKeyExpired), [REBOOT] + ds, aim);
    cs := [LosePower(BeforeKeyExpired)] + ([REBOOT] + ds);
  }

  lemma Spoiling(s: State, aim: Aim) returns (cs: seq<Callback>)
    requires !StaysGood(s, aim)
    ensures Spoils(s, cs, aim)
  {
    cs :| AdmissibleRun(s, cs) && FitRun(s, cs, aim) && RunFrom(s, cs).Continues? &&
          !LogGood(RunFrom(s, cs).state.log, aim);
  }

  // ---- From the factory ----

  const NO_HANDLES := Handles(NO_TIMER, NO_TIMER)

  /** A device that has advanced its GSN and then generated a key over its first connection. */
  function WithKey(key: Key): seq<Callback> {
    [REBOOT] + ([DidConnect] + ([DidSendEventNotification] + ([GenerateKey(key, None)]
    + ([DidDisconnect(false, NO_HANDLES)] + []))))
  }

  lemma WithKeyCanBroadcast(deviceId: DeviceId, key: Key)
    ensures var s := Factory(deviceId);
            && AdmissibleRun(s, WithKey(key)) && RunFrom(s, WithKey(key)).Continues?
            && var t := RunFrom(s, WithKey(key)).state;
               && CanBroadcast(t) && t.log == [] && GsnOf(t.store).gsn == 2
               && ParametersOf(t.store).key == key && ParametersOf(t.store).keyExpirationGsn == 32768
  {
    var aim := UniqueNonces;
    var s0 := Factory(deviceId);
    var s1 := Step(s0, REBOOT).state;
    var s2 := Step(s1, DidConnect).state;
    var s3 := Step(s2, DidSendEventNotification).state;
    var s4 := Step(s3, GenerateKey(key, None)).state;
    var last: seq<Callback> := [DidDisconnect(false, NO_HANDLES)] + [];
    RunOfCons(s4, DidDisconnect(false, NO_HANDLES), [], aim);
    RunOfCons(s3, GenerateKey(key, None), last, aim);
    RunOfCons(s2, DidSendEventNotification, [GenerateKey(key, None)] + last, aim);
    RunOfCons(s1, DidConnect, [DidSendEventNotification] + ([GenerateKey(key, None)] + last), aim);
    RunOfCons(s0, REBOOT, [DidConnect] + ([DidSendEventNotification] + ([GenerateKey(key, None)] + last)), aim);
  }

  /** A broadcast, after which the server is stopped. */
  lemma BroadcastAndStop(s: State, aim: Aim) returns (cs: seq<Callback>)
    requires CanBroadcast(s)
    ensures AdmissibleRun(s, cs) && RunFrom(s, cs).Continues? && LosePower(BeforeKeyExpired) !in cs
    ensures var t := RunFrom(s, cs).state;
            && t.run == Idle && Readable(t.store) && ParametersOf(t.store) == ParametersOf(s.store)
            && |t.log| == |s.log| + 1 && UnderCurrentKey(t, t.log[|s.log|])
            && t.log[|s.log|].gsn == NextGsn(GsnOf(s.store).gsn)
  {
    var c := Raise(s, 1, []);
    RaiseEmits(s, 1, []);
    var s1 := Step(s, c).state;
    cs := [c] + ([Stop(false)] + []);
    RunOfCons(s1, Stop(false), [], aim);
    RunOfCons(s, c, [Stop(false)] + [], aim);
  }

  /** Broadcasts once at the end of a life in which nothing has been broadcast, and stops. */
  lemma BroadcastOnce(s0: State, life: seq<Callback>) returns (cs: seq<Callback>)
    requires AdmissibleRun(s0, life) && RunFrom(s0, life).Continues? && LosePower(BeforeKeyExpired) !in life
    requires var s := RunFrom(s0, life).state; CanBroadcast(s) && s.log == [] && GsnOf(s.store).gsn == 2
    ensures AdmissibleRun(s0, cs) && RunFrom(s0, cs).Continues? && LosePower(BeforeKeyExpired) !in cs
    ensures var s, t := RunFrom(s0, life).state, RunFrom(s0, cs).state;
            && t.run == Idle && Readable(t.store) && ParametersOf(t.store) == ParametersOf(s.store)
            && exists e :: e in t.log && UnderCurrentKey(t, e) && e.gsn == 3
  {
    var bs := BroadcastAndStop(RunFrom(s0, life).state, UniqueNonces);
    RunOfConcat(s0, life, bs, UniqueNonces);
    cs := life + bs;
    var t := RunFrom(s0, cs).state;
    assert t.log[0] in t.log && UnderCurrentKey(t, t.log[0]) && t.log[0].gsn == 3;
  }

  /** A life up to an update: the server is idle and the key, which expires at 32,768, has been used at GSN 3. */
  lemma LifeUntilUpdate(deviceId: DeviceId, key: Key) returns (cs: seq<Callback>)
    ensures AdmissibleRun(Factory(deviceId), cs) && RunFrom(Factory(deviceId), cs).Continues?
    ensures LosePower(BeforeKeyExpired) !in cs
    ensures var s := RunFrom(Factory(deviceId), cs).state;
            && s.run == Idle && Readable(s.store) && ParametersOf(s.store).keyExpirationGsn == 32768
            && exists e :: e in s.log && UnderCurrentKey(s, e) && e.gsn == 3
  {
    WithKeyCanBroadcast(deviceId, key);
    cs := BroadcastOnce(Factory(deviceId), WithKey(key));
  }

  /**
   From the factory there is a life of a device in which a nonce is reused, and one in which a key is used
   under too many GSNs: the same up to the start of the old firmware after an update that was cut off.
   */
  lemma SpoiledLife(deviceId: DeviceId, key: Key, aim: Aim) returns (cs: seq<Callback>)
    ensures AdmissibleRun(Factory(deviceId), cs) && RunFrom(Factory(deviceId), cs).Continues?
    ensures !LogGood(RunFrom(Factory(deviceId), cs).state.log, aim)
  {
    var s0 := Factory(deviceId);
    var life := LifeUntilUpdate(deviceId, key);
    var s := RunFrom(s0, life).state;
    FactoryKeyInv(deviceId, aim);
    FitWithoutCut(s0, life, aim);
    RunKeepsRunInv(s0, life, aim);
    var rest := SpoiledAfterCut(s, aim);
    RunOfConcat(s0, life, rest, aim);
    cs := life + rest;
  }
}
