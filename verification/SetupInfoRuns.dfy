/**
 What every run of the setup-code state machine keeps, which runs abort, and that a pairing attempt
 sees one setup code and one verifier from start to stop.
 */
module SetupInfoRuns {
  import opened Bytes
  import opened Options
  import opened Outcomes
  import opened SetupInfo

  /** Every verifier belongs to the code it is used with. */
  predicate InfoMatchesCode(p: Platform, setup: Setup) {
    if p.Dynamic() then
      && (setup.Available() ==> setup.codeAvailable)
      && (setup.infoAvailable ==> setup.info.verifier == Srp(setup.info.salt, setup.code))
    else
      && (setup.Available() ==>
            && setup.infoAvailable && setup.info == p.staticInfo && setup.codeAvailable == (p.nfc || p.legacyNfc))
      && (setup.codeAvailable ==> setup.code == p.staticCode)
  }

  /** The display shows the current code, the tag carries it exactly in NFC pairing mode. */
  predicate OutputsCurrent(p: Platform, s: State) {
    && (p.display ==> s.shown == CurrentCode(s))
    && (p.nfc ==> s.tag == if s.nfcTimer != NO_TIMER && p.hasSetupId then CurrentCode(s) else None)
  }

  /** Without an accessory no timer is live, and a platform with an output has no setup code. */
  predicate NothingWithoutAccessory(p: Platform, s: State) {
    !s.hosting ==>
      s.refreshTimer == NO_TIMER && s.nfcTimer == NO_TIMER && (p.HasOutput() ==> !s.setup.Available())
  }

  predicate CodeInv(p: Platform, s: State) {
    && p.Valid()
    && (s.refreshTimer != NO_TIMER ==> p.Dynamic() && s.setup.codeAvailable && !s.setup.locked && !s.paired)
    && (s.setup.kept ==> s.setup.locked)
    && (!s.setup.Available() ==> s.setup == CLEARED)
    && (s.paired && s.setup.Available() ==> s.setup.locked)
    && (s.nfcTimer != NO_TIMER ==> p.nfc)
    && InfoMatchesCode(p, s.setup)
    && NothingWithoutAccessory(p, s)
  }

  predicate Inv(p: Platform, s: State) {
    && CodeInv(p, s)
    && (s.pairing ==> s.setup.Available() && s.setup.locked)
    && OutputsCurrent(p, s)
  }

  /** The platform can show a code while it is paired: it has a display, an NFC tag and a setup ID. */
  predicate MayShowWhilePaired(p: Platform) {
    p.display && p.nfc && p.hasSetupId
  }

  /** The callback shows a payload, which tells the category of the accessory. */
  predicate NeedsAccessory(p: Platform, s: State, c: Callback) {
    p.HasOutput() &&
    match c
    case ServerStop => true
    case StateUpdate(_) => !s.paired
    case PairingStart(_) => true
    case EnterNfc(_, _) => !s.paired
    case EnterLegacy(_) => p.Legacy() && !s.pairing && !s.paired
    case _ => false
  }

  /** The server starts once before a stop, and what needs the accessory comes between start and stop. */
  predicate BetweenStartAndStop(p: Platform, s: State, c: Callback) {
    && (c.ServerStart? ==> !s.hosting)
    && (NeedsAccessory(p, s, c) ==> s.hosting)
  }

  /**
   What a caller must check: the accessory is there when it is needed, and on the platforms above NFC
   pairing mode does not end between the storing of a pairing and the end of the attempt.
   */
  predicate Safe(p: Platform, s: State, c: Callback) {
    && BetweenStartAndStop(p, s, c)
    && match c
    case StateUpdate(_) => ExitIsSafe(p, s)
    case ExitNfc => ExitIsSafe(p, s)
    case NfcTimerExpired(_) => ExitIsSafe(p, s)
    case _ => true
  }

  predicate ExitIsSafe(p: Platform, s: State) {
    MayShowWhilePaired(p) && s.nfcTimer != NO_TIMER && s.paired ==> !s.setup.codeAvailable
  }

  /** What a handler promises that leaves the pairing procedure alone. */
  predicate Kept(p: Platform, s: State, r: Result<State>) {
    && r.Continues?
    && CodeInv(p, r.state) && OutputsCurrent(p, r.state)
    && r.state.hosting == s.hosting && r.state.pairing == s.pairing && r.state.paired == s.paired
  }

  lemma PrepareContinues(p: Platform, s: State, lock: bool, draw: Draw)
    requires CodeInv(p, s) && !s.paired && (lock || HasTimer(draw)) && (p.HasOutput() ==> s.hosting)
    requires s.setup.Available() ==> OutputsCurrent(p, s)
    ensures var r := PrepareSetupInfo(p, s, lock, draw);
            && Kept(p, s, r) && r.state.setup.Available()
            && (s.setup.locked || lock ==> r.state.setup.locked && r.state.refreshTimer == NO_TIMER)
            && (s.setup.Available() ==> r.state.setup == s.setup.(locked := s.setup.locked || lock))
            && (!s.setup.Available() ==> !r.state.setup.kept)
  {
  }

  lemma ExitNfcContinues(p: Platform, s: State)
    requires CodeInv(p, s) && s.nfcTimer == NO_TIMER && p.nfc && s.hosting
    requires OutputsCurrent(p, s.(tag := None))
    ensures var r := CompleteExitingNfcPairingMode(p, s);
            && (if MayShowWhilePaired(p) && s.paired && s.setup.codeAvailable then r == Aborts(PayloadWhilePaired)
                else Kept(p, s, r))
            && (r.Continues? && s.setup.locked ==> r.state.setup == s.setup)
  {
  }

  lemma GetInfoContinues(p: Platform, s: State, restore: bool, draw: Draw, salt: seq<byte>)
    requires Inv(p, s) && s.pairing && !s.paired
    ensures var r := GetSetupInfo(p, s, restore, draw, salt);
            && r.Continues? && r.state.1 == Some(r.state.0.setup.info)
            && Inv(p, r.state.0) && r.state.0.pairing && r.state.0.setup.infoAvailable
            && (restore || !s.setup.kept ==>
                  && r.state.0.setup.code == s.setup.code && r.state.0.setup.kept == s.setup.kept
                  && r.state.0.setup.codeAvailable == s.setup.codeAvailable
                  && (s.setup.infoAvailable ==> r.state.0.setup.info == s.setup.info))
            && (!restore ==> !r.state.0.setup.kept)
  {
    if !restore && s.setup.kept {
      PrepareContinues(p, ClearSetupInfo(s).state, true, draw);
    }
  }

  lemma StopContinues(p: Platform, s: State, keep: bool, draw: Draw)
    requires CodeInv(p, s) && OutputsCurrent(p, s) && s.setup.locked && HasTimer(draw)
    requires p.HasOutput() ==> s.hosting
    ensures var r := HandlePairingStop(p, s, keep, draw);
            && Kept(p, s, r)
            && (keep ==> r.state.setup == s.setup.(kept := true))
  {
    var r := KeepOrClear(p, s, keep);
    if p.display && !s.paired {
      PrepareContinues(p, r.state, false, draw);
    }
  }

  lemma NfcStepContinues(p: Platform, s: State, c: Callback)
    requires Inv(p, s) && Admissible(p, s, c)
    requires c.StateUpdate? || c.ExitNfc? || c.NfcTimerExpired? || c.EnterNfc?
    ensures if Safe(p, s, c) then Step(p, s, c).Continues? && Inv(p, Step(p, s, c).state) else Step(p, s, c).Aborts?
  {
    match c
    case StateUpdate(draw) =>
      if !s.paired && p.display {
        if s.hosting { PrepareContinues(p, s, false, draw); }
      } else if s.paired && s.nfcTimer != NO_TIMER {
        ExitNfcContinues(p, s.(nfcTimer := NO_TIMER));
      }
    case EnterNfc(timer, draw) =>
      if !s.paired && !s.setup.Available() && s.hosting { PrepareContinues(p, s.(nfcTimer := timer), false, draw); }
    case ExitNfc => if s.nfcTimer != NO_TIMER { ExitNfcContinues(p, s.(nfcTimer := NO_TIMER)); }
    case NfcTimerExpired(timer) => ExitNfcContinues(p, s.(nfcTimer := NO_TIMER));
  }

  lemma PairingStepContinues(p: Platform, s: State, c: Callback)
    requires Inv(p, s) && Admissible(p, s, c)
    requires c.PairingStart? || c.PairingStop? || c.PairingRestart? || c.GetInfo?
    ensures if Safe(p, s, c) then Step(p, s, c).Continues? && Inv(p, Step(p, s, c).state) else Step(p, s, c).Aborts?
  {
    match c
    case PairingStart(draw) =>
      if p.HasOutput() ==> s.hosting { PrepareContinues(p, s.(pairing := true), true, draw); }
    case PairingStop(keep, draw) => StopContinues(p, s.(pairing := false), keep, draw);
    case PairingRestart(draw) => StopContinues(p, s.(pairing := false), true, draw);
    case GetInfo(restore, draw, salt) => GetInfoContinues(p, s, restore, draw, salt);
  }

  lemma StepContinues(p: Platform, s: State, c: Callback)
    requires Inv(p, s) && Admissible(p, s, c)
    ensures if Safe(p, s, c) then Step(p, s, c).Continues? && Inv(p, Step(p, s, c).state) else Step(p, s, c).Aborts?
  {
    if c.StateUpdate? || c.ExitNfc? || c.NfcTimerExpired? || c.EnterNfc? {
      NfcStepContinues(p, s, c);
    } else if c.PairingStart? || c.PairingStop? || c.PairingRestart? || c.GetInfo? {
      PairingStepContinues(p, s, c);
    } else {
      match c
      case ServerStart(draw) =>
        if !s.hosting && p.display && !s.paired { PrepareContinues(p, s.(hosting := true), false, draw); }
      case Refresh(draw) =>
        if s.refreshTimer != NO_TIMER { PrepareContinues(p, ClearSetupInfo(s).state, false, draw); }
      case RefreshTimerExpired(timer, draw) =>
        if p.display { PrepareContinues(p, ClearSetupInfo(s.(refreshTimer := NO_TIMER)).state, false, draw); }
      case EnterLegacy(draw) =>
        if p.Legacy() && !s.pairing && !s.paired && s.hosting { PrepareContinues(p, s, false, draw); }
      case _ =>
    }
  }

  // ---- Assertions ----

  predicate SafeRun(p: Platform, s: State, cs: seq<Callback>)
    decreases |cs|
  {
    cs == [] ||
    (Safe(p, s, cs[0]) && (Step(p, s, cs[0]).Continues? ==> SafeRun(p, Step(p, s, cs[0]).state, cs[1..])))
  }

  /**
   A run aborts exactly when it is not safe: no assertion or precondition of the original fails in a
   safe run, and one fails in every other run.
   */
  lemma {:induction false} RunContinuesExactlyWhenSafe(p: Platform, s: State, cs: seq<Callback>)
    requires Inv(p, s) && AdmissibleRun(p, s, cs)
    ensures RunFrom(p, s, cs).Continues? <==> SafeRun(p, s, cs)
    ensures RunFrom(p, s, cs).Continues? ==> Inv(p, RunFrom(p, s, cs).state)
    decreases |cs|
  {
    if cs != [] {
      StepContinues(p, s, cs[0]);
      if Step(p, s, cs[0]).Continues? {
        RunContinuesExactlyWhenSafe(p, Step(p, s, cs[0]).state, cs[1..]);
      }
    }
  }

  /** Every callback of the run keeps to the time between start and stop. */
  predicate KeepsToSession(p: Platform, s: State, cs: seq<Callback>)
    decreases |cs|
  {
    cs == [] ||
    (BetweenStartAndStop(p, s, cs[0]) &&
     (Step(p, s, cs[0]).Continues? ==> KeepsToSession(p, Step(p, s, cs[0]).state, cs[1..])))
  }

  lemma {:induction false} SafeOnOtherPlatforms(p: Platform, s: State, cs: seq<Callback>)
    requires !MayShowWhilePaired(p) && KeepsToSession(p, s, cs)
    ensures SafeRun(p, s, cs)
    decreases |cs|
  {
    if cs != [] && Step(p, s, cs[0]).Continues? {
      SafeOnOtherPlatforms(p, Step(p, s, cs[0]).state, cs[1..]);
    }
  }

  lemma PrependStep(p: Platform, s: State, c: Callback, cs: seq<Callback>)
    ensures RunFrom(p, s, [c] + cs) ==
            (if Step(p, s, c).Continues? then RunFrom(p, Step(p, s, c).state, cs) else Aborts(Step(p, s, c).at))
    ensures AdmissibleRun(p, s, [c] + cs) <==>
            Admissible(p, s, c) && (Step(p, s, c).Continues? ==> AdmissibleRun(p, Step(p, s, c).state, cs))
    ensures KeepsToSession(p, s, [c] + cs) <==>
            BetweenStartAndStop(p, s, c) &&
            (Step(p, s, c).Continues? ==> KeepsToSession(p, Step(p, s, c).state, cs))
  {
    assert ([c] + cs)[1..] == cs;
  }

  /**
   Start, NFC pairing mode, a pairing attempt that stores its pairing, and the state update that the
   stored pairing schedules, before the attempt has ended.
   */
  function PairingOverNfc(draw: Draw): seq<Callback> {
    [ServerStart(draw)] + ([EnterNfc(1, draw)] + ([PairingStart(draw)] + ([PairingStored] + ([StateUpdate(draw)] + []))))
  }

  lemma PairingOverNfcAborts(p: Platform, draw: Draw)
    requires p.Valid() && MayShowWhilePaired(p) && HasTimer(draw)
    ensures AdmissibleRun(p, INITIAL, PairingOverNfc(draw)) && KeepsToSession(p, INITIAL, PairingOverNfc(draw))
    ensures RunFrom(p, INITIAL, PairingOverNfc(draw)) == Aborts(PayloadWhilePaired)
  {
    var s1 := Step(p, INITIAL, ServerStart(draw)).state;
    var s2 := Step(p, s1, EnterNfc(1, draw)).state;
    var s3 := Step(p, s2, PairingStart(draw)).state;
    var s4 := Step(p, s3, PairingStored).state;
    assert s3.setup.codeAvailable && s3.setup.locked && s3.nfcTimer == 1;
    assert Step(p, s4, StateUpdate(draw)) == Aborts(PayloadWhilePaired);
    PrependStep(p, s4, StateUpdate(draw), []);
    PrependStep(p, s3, PairingStored, [StateUpdate(draw)] + []);
    PrependStep(p, s2, PairingStart(draw), [PairingStored] + ([StateUpdate(draw)] + []));
    PrependStep(p, s1, EnterNfc(1, draw), [PairingStart(draw)] + ([PairingStored] + ([StateUpdate(draw)] + [])));
    PrependStep(p, INITIAL, ServerStart(draw),
                [EnterNfc(1, draw)] + ([PairingStart(draw)] + ([PairingStored] + ([StateUpdate(draw)] + []))));
  }

  /**
   As long as callbacks keep to the time between start and stop, the assertion that no pairable payload
   is shown while paired, like every other one, is out of reach on a platform if and only if it lacks a
   display, an NFC tag or a setup ID.
   */
  lemma NeverAbortsExactlyOnPlatforms(p: Platform)
    requires p.Valid()
    ensures (forall cs :: AdmissibleRun(p, INITIAL, cs) && KeepsToSession(p, INITIAL, cs)
                          ==> RunFrom(p, INITIAL, cs).Continues?)
            <==> !MayShowWhilePaired(p)
  {
    if MayShowWhilePaired(p) {
      PairingOverNfcAborts(p, Draw("", 1));
    } else {
      forall cs | AdmissibleRun(p, INITIAL, cs) && KeepsToSession(p, INITIAL, cs)
        ensures RunFrom(p, INITIAL, cs).Continues?
      {
        SafeOnOtherPlatforms(p, INITIAL, cs);
        RunContinuesExactlyWhenSafe(p, INITIAL, cs);
      }
    }
  }

  /**
   A state update that is delivered after the server has stopped dereferences the accessory that is no
   longer there, if and only if the platform has an output and the accessory is unpaired. The update that
   a start schedules is still to come when the server is stopped right away.
   */
  lemma LateStateUpdateAborts(p: Platform, s: State, draw: Draw)
    requires Inv(p, s) && s.hosting && !s.pairing && HasTimer(draw)
    ensures var cs := [ServerStop] + ([StateUpdate(draw)] + []);
            && AdmissibleRun(p, s, cs)
            && RunFrom(p, s, cs) == if p.HasOutput() && !s.paired then Aborts(NoAccessory)
                                    else Continues(Step(p, s, ServerStop).state)
  {
    StepContinues(p, s, ServerStop);
    var t := Step(p, s, ServerStop).state;
    StepContinues(p, t, StateUpdate(draw));
    PrependStep(p, t, StateUpdate(draw), []);
    PrependStep(p, s, ServerStop, [StateUpdate(draw)] + []);
  }

  /** NFC pairing mode entered before the server has started dereferences the missing accessory. */
  lemma EarlyNfcPairingModeAborts(p: Platform, timer: Timer, draw: Draw)
    requires p.Valid() && p.nfc && timer != NO_TIMER && HasTimer(draw)
    ensures Admissible(p, INITIAL, EnterNfc(timer, draw))
    ensures Step(p, INITIAL, EnterNfc(timer, draw)) == Aborts(NoAccessory)
  {
  }

  // ---- Stability of the setup code ----

  /** The callback does not end the pairing attempt. */
  predicate DuringAttempt(c: Callback) {
    !c.PairingStop? && !c.PairingRestart?
  }

  /** The setup code and, once there is one, the verifier. */
  predicate SameSetup(s: Setup, t: Setup) {
    && t.codeAvailable == s.codeAvailable && t.code == s.code
    && (s.infoAvailable ==> t.infoAvailable && t.info == s.info)
    && t.kept == s.kept
  }

  /**
   Within an attempt a callback keeps the setup code and the verifier, unless it asks for setup info
   without restoring and a code kept from an earlier attempt is still there.
   */
  lemma StepKeepsSetup(p: Platform, s: State, c: Callback)
    requires Inv(p, s) && s.pairing && Admissible(p, s, c) && DuringAttempt(c)
    requires Step(p, s, c).Continues?
    ensures var t := Step(p, s, c).state;
            && Inv(p, t) && t.pairing
            && (SameSetup(s.setup, t.setup) || (c.GetInfo? && !c.restore && s.setup.kept && !t.setup.kept))
  {
    StepContinues(p, s, c);
    match c
    case GetInfo(restore, draw, salt) => GetInfoContinues(p, s, restore, draw, salt);
    case StateUpdate(draw) =>
      if s.paired && s.nfcTimer != NO_TIMER {
        ExitNfcContinues(p, s.(nfcTimer := NO_TIMER));
      }
    case ExitNfc =>
      if s.nfcTimer != NO_TIMER {
        ExitNfcContinues(p, s.(nfcTimer := NO_TIMER));
      }
    case NfcTimerExpired(_) => ExitNfcContinues(p, s.(nfcTimer := NO_TIMER));
    case _ =>
  }

  /** Every request for setup info asks to restore. */
  predicate AllRestore(cs: seq<Callback>) {
    forall c :: c in cs && c.GetInfo? ==> c.restore
  }

  /**
   A whole attempt sees one setup code, whatever its requests ask for, as long as none of them discards a
   code kept from an earlier attempt that is still there.
   */
  lemma {:induction false} AttemptKeepsSetup(p: Platform, s: State, cs: seq<Callback>)
    requires Inv(p, s) && s.pairing && AdmissibleRun(p, s, cs) && RunFrom(p, s, cs).Continues?
    requires forall c :: c in cs ==> DuringAttempt(c)
    requires s.setup.kept ==> AllRestore(cs)
    ensures var t := RunFrom(p, s, cs).state;
            Inv(p, t) && t.pairing && SameSetup(s.setup, t.setup)
    decreases |cs|
  {
    if cs != [] {
      assert cs[0] in cs;
      StepKeepsSetup(p, s, cs[0]);
      AttemptKeepsSetup(p, Step(p, s, cs[0]).state, cs[1..]);
    }
  }

  /**
   Two requests for setup info within one attempt, with any other callbacks in between, return the same
   salt and verifier: if the first one discards what was kept, whatever the later ones ask for; if it
   restores, as long as the later ones restore as well.
   */
  lemma RequestsOfAnAttemptAgree(
    p: Platform, s: State, restore: bool, draw: Draw, salt: seq<byte>, cs: seq<Callback>,
    restore': bool, draw': Draw, salt': seq<byte>)
    requires Inv(p, s) && s.pairing && !s.paired
    requires var t := Step(p, s, GetInfo(restore, draw, salt)).state;
             AdmissibleRun(p, t, cs) && RunFrom(p, t, cs).Continues? && !RunFrom(p, t, cs).state.paired
    requires forall c :: c in cs ==> DuringAttempt(c)
    requires restore ==> restore' && AllRestore(cs)
    ensures var first := GetSetupInfo(p, s, restore, draw, salt);
            var u := RunFrom(p, first.state.0, cs).state;
            var second := GetSetupInfo(p, u, restore', draw', salt');
            && first.Continues? && second.Continues?
            && first.state.1.Some? && second.state.1 == first.state.1
  {
    GetInfoContinues(p, s, restore, draw, salt);
    var t := Step(p, s, GetInfo(restore, draw, salt)).state;
    AttemptKeepsSetup(p, t, cs);
    GetInfoContinues(p, RunFrom(p, t, cs).state, restore', draw', salt');
  }

  /** The setup info of a request that follows another one. */
  function SecondInfo(
    p: Platform, s: State, restore: bool, draw: Draw, salt: seq<byte>, restore': bool, draw': Draw, salt': seq<byte>)
    : Option<Info>
  {
    var first := GetSetupInfo(p, s, restore, draw, salt);
    if first.Aborts? then None
    else
      var second := GetSetupInfo(p, first.state.0, restore', draw', salt');
      if second.Aborts? then None else second.state.1
  }

  /**
   The condition on the flags is exact: the second request returns what the first one did, whatever code
   and salt are drawn in between, if and only if it does not discard a random code that the first one
   restored.
   */
  lemma RequestsAgreeExactlyWhen(p: Platform, s: State, restore: bool, draw: Draw, salt: seq<byte>, restore': bool)
    requires Inv(p, s) && s.pairing && !s.paired
    ensures var first := GetSetupInfo(p, s, restore, draw, salt);
            && first.Continues?
            && ((forall draw', salt' :: SecondInfo(p, s, restore, draw, salt, restore', draw', salt') == first.state.1)
                <==> (restore ==> restore') || !s.setup.kept || !p.Dynamic())
  {
    GetInfoContinues(p, s, restore, draw, salt);
    var first := GetSetupInfo(p, s, restore, draw, salt);
    var t := first.state.0;
    if (restore ==> restore') || !s.setup.kept || !p.Dynamic() {
      forall draw', salt'
        ensures SecondInfo(p, s, restore, draw, salt, restore', draw', salt') == first.state.1
      {
        GetInfoContinues(p, t, restore', draw', salt');
      }
    } else {
      var draw' := Draw(t.setup.code + "0", NO_TIMER);
      GetInfoContinues(p, t, restore', draw', salt);
      assert SecondInfo(p, s, restore, draw, salt, restore', draw', salt) != first.state.1;
    }
  }

  /** The flags and the method of a pairing attempt. */
  datatype Attempt = Attempt(transient: bool, split: bool, withAuth: bool)

  /** Message M2 ignores both flags when authentication was requested. */
  predicate RestoresInM2(a: Attempt) {
    var isTransient := a.transient && !a.withAuth;
    var isSplit := a.split && !a.withAuth;
    !isTransient && isSplit
  }

  /** Message M4 looks at the flags only. */
  predicate RestoresInM4(a: Attempt) {
    !a.transient && a.split
  }

  /**
   The proof of message M4 is checked against the salt and the verifier that message M2 used, for every
   combination of flags and method, although the two messages may ask differently.
   */
  lemma MessagesOfAnAttemptAgree(
    p: Platform, s: State, a: Attempt, draw: Draw, salt: seq<byte>, cs: seq<Callback>, draw': Draw, salt': seq<byte>)
    requires Inv(p, s) && s.pairing && !s.paired
    requires var t := Step(p, s, GetInfo(RestoresInM2(a), draw, salt)).state;
             AdmissibleRun(p, t, cs) && RunFrom(p, t, cs).Continues? && !RunFrom(p, t, cs).state.paired
    requires forall c :: c in cs ==> DuringAttempt(c) && !c.GetInfo?
    ensures var first := GetSetupInfo(p, s, RestoresInM2(a), draw, salt);
            var u := RunFrom(p, first.state.0, cs).state;
            var second := GetSetupInfo(p, u, RestoresInM4(a), draw', salt');
            && first.Continues? && second.Continues?
            && first.state.1.Some? && second.state.1 == first.state.1
  {
    RequestsOfAnAttemptAgree(p, s, RestoresInM2(a), draw, salt, cs, RestoresInM4(a), draw', salt');
  }

  /** In every state of every run, the verifier belongs to the code, and display and tag are current. */
  lemma OutputsStayCurrent(p: Platform, cs: seq<Callback>)
    requires p.Valid() && AdmissibleRun(p, INITIAL, cs) && RunFrom(p, INITIAL, cs).Continues?
    ensures var t := RunFrom(p, INITIAL, cs).state;
            InfoMatchesCode(p, t.setup) && OutputsCurrent(p, t)
  {
    RunContinuesExactlyWhenSafe(p, INITIAL, cs);
  }

  /** The deprecated display is not told when its code expires: it goes on showing it. */
  lemma LegacyDisplayKeepsExpiredCode(p: Platform, s: State, timer: Timer, draw: Draw)
    requires Inv(p, s) && p.legacyDisplay && s.shown == CurrentCode(s)
    requires Admissible(p, s, RefreshTimerExpired(timer, draw))
    ensures var r := Step(p, s, RefreshTimerExpired(timer, draw));
            r.Continues? && r.state.shown == Some(s.setup.code) && CurrentCode(r.state) == None
  {
  }
}
