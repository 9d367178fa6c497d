/**
 What each callback of the setup-code machine makes of the setup code, the verifier, the timers and the
 outputs, in every state that runs keep, and that a code that was given up does not come back.
 */
module SetupInfoEffects {
  import opened Bytes
  import opened Options
  import opened Outcomes
  import opened SetupInfo
  import opened SetupInfoRuns

  // ---- Fresh and kept setups ----

  /**
   A setup that has just been prepared: a random code without a verifier, which is refreshed unless it is
   locked, or the provisioned verifier, with the provisioned code where a tag can show it.
   */
  predicate IsFresh(p: Platform, t: State, lock: bool, draw: Draw) {
    && t.setup.locked == lock && !t.setup.kept
    && if p.display || p.legacyDisplay then
         && t.setup.codeAvailable && t.setup.code == draw.code && !t.setup.infoAvailable
         && t.refreshTimer == if lock then NO_TIMER else draw.timer
       else
         && t.setup.infoAvailable && t.setup.info == p.staticInfo && t.refreshTimer == NO_TIMER
         && t.setup.codeAvailable == (p.nfc || p.legacyNfc)
         && (t.setup.codeAvailable ==> t.setup.code == p.staticCode)
  }

  /** There is neither a code nor a verifier, and nothing to refresh. */
  predicate IsEmpty(t: State) {
    && !t.setup.codeAvailable && !t.setup.infoAvailable && !t.setup.locked && !t.setup.kept
    && t.setup.code == "" && t.setup.info == Info([], NoVerifier) && t.refreshTimer == NO_TIMER
  }

  /** Code, verifier and refresh are as they were. */
  predicate IsSame(t: State, s: State) {
    t.setup == s.setup && t.refreshTimer == s.refreshTimer
  }

  /** A new setup where there was none, or the one that was there. */
  predicate IsPrepared(p: Platform, t: State, s: State, draw: Draw) {
    if s.setup.codeAvailable || s.setup.infoAvailable then IsSame(t, s) else IsFresh(p, t, false, draw)
  }

  /** The rest of the state. */
  predicate SameRest(t: State, s: State) {
    t.nfcTimer == s.nfcTimer && t.hosting == s.hosting && t.paired == s.paired && t.pairing == s.pairing
  }

  /** The code that is available is on every display and, in NFC pairing mode, on the tag. */
  predicate IsShown(p: Platform, t: State) {
    && (p.display ==> t.shown == if t.setup.codeAvailable then Some(t.setup.code) else None)
    && (p.nfc ==> t.tag == if t.nfcTimer != NO_TIMER && p.hasSetupId && t.setup.codeAvailable
                           then Some(t.setup.code) else None)
  }

  // ---- Start, stop and state updates ----

  /** A start gives an unpaired accessory with a display its first code. */
  lemma StartShowsCode(p: Platform, s: State, draw: Draw)
    requires Inv(p, s) && Admissible(p, s, ServerStart(draw)) && Safe(p, s, ServerStart(draw))
    ensures Step(p, s, ServerStart(draw)).Continues?
    ensures var t := Step(p, s, ServerStart(draw)).state;
            && SameRest(t, s.(hosting := true)) && IsShown(p, t)
            && if p.display && !s.paired then IsFresh(p, t, false, draw) else IsSame(t, s)
  {
    StepContinues(p, s, ServerStart(draw));
  }

  /** A stop leaves neither a setup nor a timer nor anything to be seen. */
  lemma StopForgetsSetup(p: Platform, s: State)
    requires Inv(p, s) && Admissible(p, s, ServerStop) && Safe(p, s, ServerStop)
    ensures Step(p, s, ServerStop).Continues?
    ensures var t := Step(p, s, ServerStop).state;
            && IsEmpty(t) && t.nfcTimer == NO_TIMER && !t.hosting && t.paired == s.paired && t.pairing == s.pairing
            && (p.display || p.legacyDisplay || p.legacyNfc ==> t.shown == None) && (p.nfc ==> t.tag == None)
  {
    StepContinues(p, s, ServerStop);
  }

  /** A state update gives an unpaired accessory with a display a code, and ends NFC pairing mode of a paired one. */
  lemma StateUpdateEffect(p: Platform, s: State, draw: Draw)
    requires Inv(p, s) && Admissible(p, s, StateUpdate(draw)) && Safe(p, s, StateUpdate(draw))
    ensures Step(p, s, StateUpdate(draw)).Continues?
    ensures var t := Step(p, s, StateUpdate(draw)).state;
            && IsShown(p, t)
            && if s.paired then SameRest(t, s.(nfcTimer := NO_TIMER)) && IsSame(t, s)
               else SameRest(t, s) && if p.display then IsPrepared(p, t, s, draw) else IsSame(t, s)
  {
    StepContinues(p, s, StateUpdate(draw));
  }

  // ---- Pairing attempts ----

  /** An attempt starts with the code that was there, or else with a new one, locked and without a refresh. */
  lemma PairingStartLocks(p: Platform, s: State, draw: Draw)
    requires Inv(p, s) && Admissible(p, s, PairingStart(draw)) && Safe(p, s, PairingStart(draw))
    ensures Step(p, s, PairingStart(draw)).Continues?
    ensures var t := Step(p, s, PairingStart(draw)).state;
            && SameRest(t, s.(pairing := true)) && IsShown(p, t)
            && if s.setup.codeAvailable || s.setup.infoAvailable
               then t.setup == s.setup.(locked := true) && t.refreshTimer == NO_TIMER
               else IsFresh(p, t, true, draw)
  {
    StepContinues(p, s, PairingStart(draw));
  }

  /**
   An attempt that does not keep its code gives it up, and a display gets another one while the accessory
   is unpaired; one that keeps it leaves it locked for the next.
   */
  lemma PairingStopEffect(p: Platform, s: State, keep: bool, draw: Draw)
    requires Inv(p, s) && Admissible(p, s, PairingStop(keep, draw)) && Safe(p, s, PairingStop(keep, draw))
    ensures Step(p, s, PairingStop(keep, draw)).Continues?
    ensures var t := Step(p, s, PairingStop(keep, draw)).state;
            && SameRest(t, s.(pairing := false)) && IsShown(p, t)
            && if keep then t.setup == s.setup.(kept := true) && t.refreshTimer == NO_TIMER
               else if p.display && !s.paired then IsFresh(p, t, false, draw)
               else IsEmpty(t)
  {
    StepContinues(p, s, PairingStop(keep, draw));
  }

  /** A restart keeps the code without a trace of that. */
  lemma PairingRestartEffect(p: Platform, s: State, draw: Draw)
    requires Inv(p, s) && Admissible(p, s, PairingRestart(draw)) && Safe(p, s, PairingRestart(draw))
    ensures Step(p, s, PairingRestart(draw)).Continues?
    ensures var t := Step(p, s, PairingRestart(draw)).state;
            && SameRest(t, s.(pairing := false)) && IsShown(p, t)
            && t.setup == s.setup.(kept := false) && t.refreshTimer == NO_TIMER
  {
    StepContinues(p, s, PairingRestart(draw));
  }

  /**
   A request for setup info that does not restore gets a new code in the place of one that was kept. The
   verifier is that of the code, with the salt drawn now if it had none, and what the request returns.
   */
  lemma InfoEffect(p: Platform, s: State, restore: bool, draw: Draw, salt: seq<byte>)
    requires Inv(p, s) && Admissible(p, s, GetInfo(restore, draw, salt))
    ensures GetSetupInfo(p, s, restore, draw, salt).Continues?
    ensures var (t, info) := GetSetupInfo(p, s, restore, draw, salt).state;
            var discards := !restore && s.setup.kept;
            && Step(p, s, GetInfo(restore, draw, salt)) == Continues(t)
            && SameRest(t, s) && t.setup.locked && t.setup.infoAvailable && info == Some(t.setup.info)
            && t.setup.kept == (s.setup.kept && restore) && t.setup.codeAvailable == s.setup.codeAvailable
            && (p.display || p.legacyDisplay ==>
                  && t.setup.code == (if discards then draw.code else s.setup.code)
                  && t.setup.info == if s.setup.infoAvailable && !discards then s.setup.info
                                     else Info(salt, Srp(salt, t.setup.code)))
            && (!p.display && !p.legacyDisplay ==>
                  t.setup.info == p.staticInfo && (t.setup.codeAvailable ==> t.setup.code == p.staticCode))
  {
    GetInfoContinues(p, s, restore, draw, salt);
  }

  /** A session that asks to restore while there is nothing to restore gets nothing. */
  lemma NothingToRestore(p: Platform, s: State, draw: Draw, salt: seq<byte>)
    requires !s.setup.codeAvailable && !s.setup.infoAvailable
    ensures GetSetupInfo(p, s, true, draw, salt) == Continues((s, None))
  {
  }

  // ---- Refresh ----

  /** A refresh replaces the code exactly while it is due to be refreshed. */
  lemma RefreshReplacesCode(p: Platform, s: State, draw: Draw)
    requires Inv(p, s) && Admissible(p, s, Refresh(draw))
    ensures Step(p, s, Refresh(draw)).Continues?
    ensures var t := Step(p, s, Refresh(draw)).state;
            if s.refreshTimer == NO_TIMER then t == s
            else && SameRest(t, s) && IsFresh(p, t, false, draw) && !t.setup.locked
                 && t.setup.code == draw.code && t.shown == Some(draw.code) && t.refreshTimer == draw.timer
  {
    StepContinues(p, s, Refresh(draw));
  }

  /** The expiry of a code replaces it on a display, and leaves none on the deprecated one. */
  lemma ExpiryReplacesCode(p: Platform, s: State, timer: Timer, draw: Draw)
    requires Inv(p, s) && Admissible(p, s, RefreshTimerExpired(timer, draw))
    ensures Step(p, s, RefreshTimerExpired(timer, draw)).Continues?
    ensures var t := Step(p, s, RefreshTimerExpired(timer, draw)).state;
            && SameRest(t, s)
            && if p.display
               then && IsFresh(p, t, false, draw) && t.setup.code == draw.code && t.shown == Some(draw.code)
                    && t.refreshTimer == draw.timer
               else IsEmpty(t)
  {
    StepContinues(p, s, RefreshTimerExpired(timer, draw));
  }

  // ---- NFC and legacy pairing mode ----

  /** NFC pairing mode is entered, or its timer replaced, while unpaired; the tag shows the code. */
  lemma EnterNfcEffect(p: Platform, s: State, timer: Timer, draw: Draw)
    requires Inv(p, s) && Admissible(p, s, EnterNfc(timer, draw)) && Safe(p, s, EnterNfc(timer, draw))
    ensures Step(p, s, EnterNfc(timer, draw)).Continues?
    ensures var t := Step(p, s, EnterNfc(timer, draw)).state;
            if s.paired then t == s
            else && SameRest(t, s.(nfcTimer := timer)) && IsShown(p, t) && t.setup.codeAvailable
                 && IsPrepared(p, t, s, draw)
  {
    StepContinues(p, s, EnterNfc(timer, draw));
  }

  /** The end of NFC pairing mode takes the code off the tag, and gives it up if nothing else needs it. */
  lemma ExitNfcEffect(p: Platform, s: State, c: Callback)
    requires Inv(p, s) && Admissible(p, s, c) && Safe(p, s, c) && (c.ExitNfc? || c.NfcTimerExpired?)
    ensures Step(p, s, c).Continues?
    ensures var t := Step(p, s, c).state;
            && SameRest(t, s.(nfcTimer := NO_TIMER)) && IsShown(p, t) && t.tag == None
            && if s.nfcTimer == NO_TIMER || s.setup.locked || s.refreshTimer != NO_TIMER then IsSame(t, s)
               else IsEmpty(t)
  {
    StepContinues(p, s, c);
  }

  /** Deprecated pairing mode prepares a setup, and shows its code, while nobody is pairing or paired. */
  lemma EnterLegacyEffect(p: Platform, s: State, draw: Draw)
    requires Inv(p, s) && Admissible(p, s, EnterLegacy(draw)) && Safe(p, s, EnterLegacy(draw))
    ensures Step(p, s, EnterLegacy(draw)).Continues?
    ensures var t := Step(p, s, EnterLegacy(draw)).state;
            if (!p.legacyDisplay && !p.legacyNfc) || s.pairing || s.paired then t == s
            else && SameRest(t, s) && IsPrepared(p, t, s, draw)
                 && t.shown == if s.setup.codeAvailable || s.setup.infoAvailable then s.shown
                               else Some(t.setup.code)
  {
    StepContinues(p, s, EnterLegacy(draw));
  }

  /** Whether the accessory is paired after the callbacks: as the last of them said that changed it. */
  predicate PairedAfter(paired: bool, cs: seq<Callback>) {
    if cs == [] then paired
    else
      match cs[|cs| - 1]
      case PairingStored => true
      case PairingRemoved => false
      case _ => PairedAfter(paired, cs[..|cs| - 1])
  }

  lemma {:induction false} PairedAppend(paired: bool, c: Callback, cs: seq<Callback>)
    ensures PairedAfter(paired, [c] + cs) == PairedAfter(PairedAfter(paired, [c]), cs)
  {
    if cs == [] {
      assert [c] + cs == [c];
    } else {
      assert ([c] + cs)[..|cs|] == [c] + cs[..|cs| - 1];
      PairedAppend(paired, c, cs[..|cs| - 1]);
    }
  }

  /** Only the storing and the removal of pairings decide whether the accessory is paired. */
  lemma {:induction false} PairedTellsHistory(p: Platform, s: State, cs: seq<Callback>)
    requires Inv(p, s) && AdmissibleRun(p, s, cs) && RunFrom(p, s, cs).Continues?
    ensures RunFrom(p, s, cs).state.paired == PairedAfter(s.paired, cs)
    decreases |cs|
  {
    if cs != [] {
      StepContinues(p, s, cs[0]);
      StepPaired(p, s, cs[0]);
      PairedTellsHistory(p, Step(p, s, cs[0]).state, cs[1..]);
      PairedAppend(s.paired, cs[0], cs[1..]);
      assert [cs[0]] + cs[1..] == cs;
    }
  }

  lemma AttemptPaired(p: Platform, s: State, c: Callback)
    requires Step(p, s, c).Continues? && (c.PairingStart? || c.GetInfo?)
    ensures Step(p, s, c).state.paired == s.paired
  {
  }

  lemma AttemptEndPaired(p: Platform, s: State, c: Callback)
    requires Step(p, s, c).Continues? && (c.PairingStop? || c.PairingRestart?)
    ensures Step(p, s, c).state.paired == s.paired
  {
  }

  lemma OtherPaired(p: Platform, s: State, c: Callback)
    requires Step(p, s, c).Continues? && !c.PairingStored? && !c.PairingRemoved?
    requires !c.PairingStart? && !c.GetInfo? && !c.PairingStop? && !c.PairingRestart?
    ensures Step(p, s, c).state.paired == s.paired
  {
  }

  lemma StepPaired(p: Platform, s: State, c: Callback)
    requires Step(p, s, c).Continues?
    ensures Step(p, s, c).state.paired == PairedAfter(s.paired, [c])
  {
    assert [c][..0] == [];
    if c.PairingStart? || c.GetInfo? {
      AttemptPaired(p, s, c);
    } else if c.PairingStop? || c.PairingRestart? {
      AttemptEndPaired(p, s, c);
    } else if !c.PairingStored? && !c.PairingRemoved? {
      OtherPaired(p, s, c);
    }
  }

  // ---- Codes that were given up ----

  /** The random code that a callback may bring. */
  function DrawOf(c: Callback): Option<Code> {
    match c
    case ServerStart(draw) => Some(draw.code)
    case StateUpdate(draw) => Some(draw.code)
    case PairingStart(draw) => Some(draw.code)
    case PairingStop(_, draw) => Some(draw.code)
    case PairingRestart(draw) => Some(draw.code)
    case GetInfo(_, draw, _) => Some(draw.code)
    case Refresh(draw) => Some(draw.code)
    case RefreshTimerExpired(_, draw) => Some(draw.code)
    case EnterNfc(_, draw) => Some(draw.code)
    case EnterLegacy(draw) => Some(draw.code)
    case _ => None
  }

  /** The code, if there is one, was drawn by one of the callbacks. */
  predicate DrawnIn(t: State, cs: seq<Callback>) {
    t.setup.codeAvailable ==> exists c :: c in cs && DrawOf(c) == Some(t.setup.code)
  }

  /** The callback gives up the setup code. */
  predicate GivesUp(s: State, c: Callback) {
    || c.ServerStop?
    || (c.PairingStop? && !c.keep)
    || (c.GetInfo? && !c.restore && s.setup.kept)
    || (c.Refresh? && s.refreshTimer != NO_TIMER)
    || c.RefreshTimerExpired?
  }

  /** A callback leaves the code that is there, or brings its own. */
  lemma StepKeepsOrDraws(p: Platform, s: State, c: Callback)
    requires Inv(p, s) && Admissible(p, s, c) && Safe(p, s, c) && (p.display || p.legacyDisplay)
    ensures Step(p, s, c).Continues? && Inv(p, Step(p, s, c).state)
    ensures var t := Step(p, s, c).state;
            t.setup.codeAvailable ==>
              || DrawOf(c) == Some(t.setup.code)
              || (!GivesUp(s, c) && s.setup.codeAvailable && t.setup.code == s.setup.code)
  {
    StepContinues(p, s, c);
    match c
    case GetInfo(restore, draw, salt) => InfoEffect(p, s, restore, draw, salt);
    case PairingStop(keep, draw) => PairingStopEffect(p, s, keep, draw);
    case _ =>
  }

  lemma {:induction false} RunKeepsOrDraws(p: Platform, s: State, before: seq<Callback>, cs: seq<Callback>)
    requires Inv(p, s) && AdmissibleRun(p, s, cs) && RunFrom(p, s, cs).Continues?
    requires (p.display || p.legacyDisplay) && DrawnIn(s, before)
    ensures DrawnIn(RunFrom(p, s, cs).state, before + cs)
    decreases |cs|
  {
    if cs == [] {
      assert before + cs == before;
    } else {
      StepContinues(p, s, cs[0]);
      StepKeepsOrDraws(p, s, cs[0]);
      var t := Step(p, s, cs[0]).state;
      DrawnOn(s, t, before, cs[0]);
      RunKeepsOrDraws(p, t, before + [cs[0]], cs[1..]);
      assert before + [cs[0]] + cs[1..] == before + cs;
    }
  }

  lemma DrawnOn(s: State, t: State, before: seq<Callback>, c: Callback)
    requires DrawnIn(s, before)
    requires t.setup.codeAvailable ==>
               DrawOf(c) == Some(t.setup.code) || (s.setup.codeAvailable && t.setup.code == s.setup.code)
    ensures DrawnIn(t, before + [c])
  {
    if t.setup.codeAvailable && DrawOf(c) == Some(t.setup.code) {
      assert c in before + [c];
    } else if t.setup.codeAvailable {
      var d :| d in before && DrawOf(d) == Some(s.setup.code);
      assert d in before + [c];
    }
  }

  /**
   A random code that was given up, by the end of an attempt, a refresh, an expiry, a stop or a request, does
   not come back: whatever follows, the code in use was drawn by the callback that gave it up or by a later one.
   */
  lemma CodeIsNotReused(p: Platform, s: State, c: Callback, cs: seq<Callback>)
    requires Inv(p, s) && (p.display || p.legacyDisplay) && GivesUp(s, c)
    requires AdmissibleRun(p, s, [c] + cs) && RunFrom(p, s, [c] + cs).Continues?
    ensures DrawnIn(RunFrom(p, s, [c] + cs).state, [c] + cs)
  {
    PrependStep(p, s, c, cs);
    StepContinues(p, s, c);
    StepKeepsOrDraws(p, s, c);
    var t := Step(p, s, c).state;
    assert c in [c];
    RunKeepsOrDraws(p, t, [c], cs);
  }
}
