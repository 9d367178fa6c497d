/**
 The setup-code part of the accessory server as an object: each handler updates its fields in place,
 as the state machine of module `SetupInfo` says.
 */
module SetupInfoServer {
  import opened Bytes
  import opened Options
  import opened Outcomes
  import Spec = SetupInfo
  import opened SetupInfo

  class Server {
    const platform: Platform

    var info: Info
    var code: Code
    var infoAvailable: bool
    var codeAvailable: bool
    var locked: bool
    var kept: bool
    var refreshTimer: Timer
    var nfcTimer: Timer
    var hosting: bool
    var paired: bool
    var pairing: bool

    // What the display and the NFC tag were last given.
    var shown: Option<Code>
    var tag: Option<Code>

    function View(): State
      reads this
    {
      State(Setup(info, code, infoAvailable, codeAvailable, locked, kept), refreshTimer, nfcTimer, hosting, paired,
            pairing, shown, tag)
    }

    /** The object is in the state that the specification gives, or both abort at the same check. */
    ghost predicate Agrees(status: Status<Check>, r: Result<State>)
      reads this
    {
      match r
      case Continues(t) => status == Returned && View() == t
      case Aborts(at) => status == Halted(at)
    }

    constructor (platform: Platform)
      ensures this.platform == platform && View() == INITIAL
    {
      this.platform := platform;
      info, code, infoAvailable, codeAvailable, locked, kept := CLEARED.info, "", false, false, false, false;
      refreshTimer, nfcTimer, hosting, paired, pairing := NO_TIMER, NO_TIMER, false, false, false;
      shown, tag := None, None;
    }

    method SynchronizeDisplayAndNfc() returns (status: Status<Check>)
      modifies this`shown, this`tag
      ensures Agrees(status, Spec.SynchronizeDisplayAndNfc(platform, old(View())))
    {
      if !platform.display && !platform.Legacy() && !platform.nfc {
        return Returned;
      }

      // The payload tells the category of the accessory.
      if !hosting { return Halted(NoAccessory); }

      var setupCode := if codeAvailable then Some(code) else None;
      var hasPairablePayload := false;
      if setupCode.Some? && (platform.Legacy() || platform.display || (platform.nfc && nfcTimer != NO_TIMER)) {
        if platform.hasSetupId {
          if paired { return Halted(PayloadWhilePaired); }
          hasPairablePayload := true;
        }
      }

      if platform.Legacy() || platform.display {
        shown := setupCode;
      }
      if platform.nfc {
        if nfcTimer != NO_TIMER {
          tag := if hasPairablePayload then setupCode else None;
        } else {
          tag := None;
        }
      }
      status := Returned;
    }

    method ZeroSetup()
      modifies this`info, this`code, this`infoAvailable, this`codeAvailable, this`locked, this`kept
      ensures View() == old(View()).(setup := CLEARED)
    {
      info, code, infoAvailable, codeAvailable, locked, kept := CLEARED.info, "", false, false, false, false;
    }

    method ClearSetupInfo() returns (status: Status<Check>)
      modifies this
      ensures Agrees(status, Spec.ClearSetupInfo(old(View())))
    {
      if infoAvailable || codeAvailable {
        ZeroSetup();
        if refreshTimer != NO_TIMER {
          refreshTimer := NO_TIMER;
        }
      }
      if refreshTimer != NO_TIMER { return Halted(TimerAfterClear); }
      status := Returned;
    }

    method LoadSetup(lock: bool, draw: Draw) returns (status: Status<Check>)
      modifies this
      ensures Agrees(status, Spec.LoadSetup(platform, old(View()), lock, draw))
    {
      ZeroSetup();
      locked := lock;
      if platform.display || platform.legacyDisplay {
        status := GenerateCode(draw);
      } else {
        LoadCode();
        status := Returned;
      }
    }

    /** A random setup code, refreshed unless it is locked. */
    method GenerateCode(draw: Draw) returns (status: Status<Check>)
      modifies this`code, this`codeAvailable, this`refreshTimer
      ensures
        var t := old(View()).(setup := old(View()).setup.(code := draw.code, codeAvailable := true));
        Agrees(status,
               if t.setup.locked then Continues(t)
               else if t.refreshTimer != NO_TIMER then Aborts(TimerBeforePrepare)
               else if draw.timer == NO_TIMER then Aborts(NoTimerLeft)
               else Continues(t.(refreshTimer := draw.timer)))
    {
      code := draw.code;
      codeAvailable := true;
      if !locked {
        if refreshTimer != NO_TIMER { return Halted(TimerBeforePrepare); }
        refreshTimer := draw.timer;
        if refreshTimer == NO_TIMER { return Halted(NoTimerLeft); }
      }
      status := Returned;
    }

    /** The provisioned verifier, and the provisioned code where an NFC tag can show it. */
    method LoadCode()
      modifies this`code, this`codeAvailable, this`info, this`infoAvailable
      ensures var s := old(View()).setup;
              var loaded := if platform.nfc || platform.legacyNfc
                            then s.(code := platform.staticCode, codeAvailable := true) else s;
              View() == old(View()).(setup := loaded.(info := platform.staticInfo, infoAvailable := true))
    {
      if platform.nfc || platform.legacyNfc {
        code := platform.staticCode;
        codeAvailable := true;
      }
      info := platform.staticInfo;
      infoAvailable := true;
    }

    method PrepareSetupInfo(lock: bool, draw: Draw) returns (status: Status<Check>)
      modifies this
      ensures Agrees(status, Spec.PrepareSetupInfo(platform, old(View()), lock, draw))
    {
      if paired { return Halted(PrepareWhilePaired); }
      if infoAvailable || codeAvailable {
        if lock {
          locked := lock;
          if refreshTimer != NO_TIMER {
            refreshTimer := NO_TIMER;
          }
        }
        return Returned;
      }
      :- LoadSetup(lock, draw);
      assert infoAvailable || codeAvailable;
      status := SynchronizeDisplayAndNfc();
    }

    method DynamicSetupInfoExpired(timer: Timer, draw: Draw) returns (status: Status<Check>)
      modifies this
      ensures Agrees(status, Spec.DynamicSetupInfoExpired(platform, old(View()), timer, draw))
    {
      if timer != refreshTimer { return Halted(WrongTimer); }
      refreshTimer := NO_TIMER;
      if paired { return Halted(ExpiryWhilePaired); }
      if locked { return Halted(ExpiryWhileLocked); }
      if !infoAvailable && !codeAvailable { return Halted(ExpiryOfNothing); }
      status := ClearSetupInfo();
      assert status.Returned?;
      if platform.display {
        status := PrepareSetupInfo(false, draw);
      }
    }

    method DiscardKept(draw: Draw) returns (status: Status<Check>)
      requires kept
      modifies this
      ensures Agrees(status, Spec.DiscardKept(platform, old(View()), false, draw))
    {
      status := ClearSetupInfo();
      if status.Halted? { return; }
      :- PrepareSetupInfo(true, draw);
      status := if kept then Halted(KeptAfterDiscard) else Returned;
    }

    method GetSetupInfo(restore: bool, draw: Draw, salt: seq<byte>)
      returns (status: Status<Check>, setupInfo: Option<Info>)
      modifies this
      ensures match Spec.GetSetupInfo(platform, old(View()), restore, draw, salt)
              case Continues(r) => status == Returned && View() == r.0 && setupInfo == r.1
              case Aborts(at) => status == Halted(at)
    {
      setupInfo := None;
      if restore && !infoAvailable && !codeAvailable {
        return Returned, None;
      }
      if !infoAvailable && !codeAvailable { return Halted(NothingToGet), None; }

      // Discard a code kept from the previous attempt.
      if !restore && kept {
        status := DiscardKept(draw);
        if status.Halted? { return; }
      }

      // Derive the verifier when it is first used.
      if !infoAvailable {
        info := Info(salt, Srp(salt, code));
        infoAvailable := true;
      }
      return Returned, Some(info);
    }

    // ---- Server and pairing ----

    method HandleServerStart(draw: Draw) returns (status: Status<Check>)
      modifies this
      ensures Agrees(status, Spec.HandleServerStart(platform, old(View()), draw))
    {
      if refreshTimer != NO_TIMER { return Halted(TimerAtStart); }
      if platform.display && !paired {
        :- PrepareSetupInfo(false, draw);
      }
      status := Returned;
    }

    method HandleServerStop() returns (status: Status<Check>)
      modifies this
      ensures Agrees(status, Spec.HandleServerStop(platform, old(View())))
    {
      if refreshTimer != NO_TIMER {
        refreshTimer := NO_TIMER;
      }
      if nfcTimer != NO_TIMER {
        nfcTimer := NO_TIMER;
      }
      ZeroSetup();
      status := SynchronizeDisplayAndNfc();
    }

    method HandleStateUpdate(draw: Draw) returns (status: Status<Check>)
      modifies this
      ensures Agrees(status, Spec.HandleStateUpdate(platform, old(View()), draw))
    {
      if !paired {
        if platform.display {
          status := PrepareSetupInfo(false, draw);
        } else {
          status := SynchronizeDisplayAndNfc();
        }
      } else if platform.nfc && nfcTimer != NO_TIMER {
        status := ExitNfcPairingMode();
      } else {
        status := Returned;
      }
    }

    method HandlePairingStart(draw: Draw) returns (status: Status<Check>)
      modifies this
      ensures Agrees(status, Spec.HandlePairingStart(platform, old(View()), draw))
    {
      if paired { return Halted(PairingStartWhilePaired); }
      :- PrepareSetupInfo(true, draw);
      status := if refreshTimer != NO_TIMER then Halted(TimerAtPairingStart) else Returned;
    }

    method HandlePairingStop(keep: bool, draw: Draw) returns (status: Status<Check>)
      modifies this
      ensures Agrees(status, Spec.HandlePairingStop(platform, old(View()), keep, draw))
    {
      if keep {
        if !locked { return Halted(KeepUnlocked); }
        kept := true;
      } else {
        :- ClearSetupInfo();
        :- SynchronizeDisplayAndNfc();
      }
      if platform.display && !paired {
        :- PrepareSetupInfo(false, draw);
      }
      status := Returned;
    }

    method RefreshSetupPayload(draw: Draw) returns (status: Status<Check>)
      modifies this
      ensures Agrees(status, Spec.RefreshSetupPayload(platform, old(View()), draw))
    {
      if !platform.display { return Halted(NoDisplay); }
      if refreshTimer == NO_TIMER {
        return Returned;
      }
      :- ClearSetupInfo();
      status := PrepareSetupInfo(false, draw);
    }

    // ---- NFC and legacy pairing mode ----

    method CompleteExitingNfcPairingMode() returns (status: Status<Check>)
      modifies this
      ensures Agrees(status, Spec.CompleteExitingNfcPairingMode(platform, old(View())))
    {
      if !platform.nfc { return Halted(NoNfc); }
      if nfcTimer != NO_TIMER { return Halted(NfcTimerAtExit); }
      if !locked && refreshTimer == NO_TIMER {
        status := ClearSetupInfo();
        assert status.Returned?;
      }
      status := SynchronizeDisplayAndNfc();
    }

    method NfcPairingModeExpired(timer: Timer) returns (status: Status<Check>)
      modifies this
      ensures Agrees(status, Spec.NfcPairingModeExpired(platform, old(View()), timer))
    {
      if timer != nfcTimer { return Halted(WrongTimer); }
      nfcTimer := NO_TIMER;
      status := CompleteExitingNfcPairingMode();
    }

    method EnterNfcPairingMode(timer: Timer, draw: Draw) returns (status: Status<Check>)
      modifies this
      ensures Agrees(status, Spec.EnterNfcPairingMode(platform, old(View()), timer, draw))
    {
      if !platform.nfc { return Halted(NoNfc); }
      if paired {
        return Returned;
      }
      var forceSynchronization := false;
      if nfcTimer != NO_TIMER {
        nfcTimer := NO_TIMER;
      } else {
        forceSynchronization := true;
      }
      nfcTimer := timer;
      if nfcTimer == NO_TIMER { return Halted(NoTimerLeft); }

      if !infoAvailable && !codeAvailable {
        status := PrepareSetupInfo(false, draw);
      } else if forceSynchronization {
        status := SynchronizeDisplayAndNfc();
      } else {
        status := Returned;
      }
    }

    method ExitNfcPairingMode() returns (status: Status<Check>)
      modifies this
      ensures Agrees(status, Spec.ExitNfcPairingMode(platform, old(View())))
    {
      if !platform.nfc { return Halted(NoNfc); }
      if nfcTimer == NO_TIMER {
        return Returned;
      }
      nfcTimer := NO_TIMER;
      status := CompleteExitingNfcPairingMode();
    }

    method EnterLegacyPairingMode(draw: Draw) returns (status: Status<Check>)
      modifies this
      ensures Agrees(status, Spec.EnterLegacyPairingMode(platform, old(View()), draw))
    {
      if platform.display || platform.nfc { return Halted(NotLegacy); }
      if !platform.legacyDisplay && !platform.legacyNfc {
        return Returned;
      }
      if pairing {
        return Returned;
      }
      if paired {
        return Returned;
      }
      status := PrepareSetupInfo(false, draw);
    }

    // ---- All callbacks ----

    /** The server gets its accessory and informs the setup code of the start. */
    method ServerStart(draw: Draw) returns (status: Status<Check>)
      modifies this
      ensures Agrees(status, Step(platform, old(View()), Callback.ServerStart(draw)))
    {
      if hosting { return Halted(AlreadyHosting); }
      hosting := true;
      status := HandleServerStart(draw);
    }

    /** The server informs the setup code of the stop and gives up its accessory. */
    method ServerStop() returns (status: Status<Check>)
      modifies this
      ensures Agrees(status, Step(platform, old(View()), Callback.ServerStop))
    {
      status := HandleServerStop();
      if status.Halted? { return; }
      hosting := false;
      status := Returned;
    }

    /** The session releases the pairing procedure, keeping the setup code for its next attempt. */
    method PairingRestart(draw: Draw) returns (status: Status<Check>)
      modifies this
      ensures Agrees(status, Step(platform, old(View()), Callback.PairingRestart(draw)))
    {
      pairing := false;
      :- HandlePairingStop(true, draw);
      kept := false;
      status := Returned;
    }

    /** Any callback of the state machine. */
    method Handle(c: Callback) returns (status: Status<Check>)
      modifies this
      ensures Agrees(status, Step(platform, old(View()), c))
    {
      match c {
        case ServerStart(draw) => status := ServerStart(draw);
        case ServerStop => status := ServerStop();
        case StateUpdate(draw) => status := HandleStateUpdate(draw);
        case PairingStart(draw) => pairing := true; status := HandlePairingStart(draw);
        case PairingStop(keep, draw) => pairing := false; status := HandlePairingStop(keep, draw);
        case PairingRestart(draw) => status := PairingRestart(draw);
        case PairingStored => paired := true; status := Returned;
        case PairingRemoved => paired := false; status := Returned;
        case GetInfo(restore, draw, salt) =>
          var setupInfo;
          status, setupInfo := GetSetupInfo(restore, draw, salt);
        case Refresh(draw) => status := RefreshSetupPayload(draw);
        case RefreshTimerExpired(timer, draw) => status := DynamicSetupInfoExpired(timer, draw);
        case EnterNfc(timer, draw) => status := EnterNfcPairingMode(timer, draw);
        case ExitNfc => status := ExitNfcPairingMode();
        case NfcTimerExpired(timer) => status := NfcPairingModeExpired(timer);
        case EnterLegacy(draw) => status := EnterLegacyPairingMode(draw);
      }
    }
  }
}
