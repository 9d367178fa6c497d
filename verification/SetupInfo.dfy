/**
 The setup code of an accessory: when it is generated or loaded, locked for a pairing attempt, kept
 for the next one, refreshed or cleared, and what the display and the NFC tag show. Each handler of
 the original is a function from state to outcome, with its assertions and preconditions as checks.
 */
module SetupInfo {
  import opened Bytes
  import opened Options
  import opened Outcomes

  type Timer = nat
  type Code = string

  const NO_TIMER: Timer := 0

  /** An SRP verifier: derived from a salt and a code, or provisioned in the factory. */
  datatype Verifier = NoVerifier | Provisioned(bytes: seq<byte>) | Srp(salt: seq<byte>, code: Code)

  datatype Info = Info(salt: seq<byte>, verifier: Verifier)

  /** What the platform provides. */
  datatype Platform = Platform(
    display: bool, nfc: bool, legacyDisplay: bool, legacyNfc: bool, hasSetupId: bool, staticCode: Code,
    staticInfo: Info)
  {
    predicate Legacy() {
      legacyDisplay || legacyNfc
    }

    /** The setup code is random and refreshed, rather than provisioned. */
    predicate Dynamic() {
      display || legacyDisplay
    }

    /** Something shows the setup payload. */
    predicate HasOutput() {
      display || nfc || Legacy()
    }

    /** The deprecated interface is not combined with the current one. */
    predicate Valid() {
      display || nfc ==> !Legacy()
    }
  }

  /** The part of the state that is zeroed when the setup code is cleared. */
  datatype Setup = Setup(
    info: Info, code: Code, infoAvailable: bool, codeAvailable: bool, locked: bool, kept: bool)
  {
    predicate Available() {
      infoAvailable || codeAvailable
    }
  }

  const CLEARED := Setup(Info([], NoVerifier), "", false, false, false, false)

  /**
   `hosting` tells whether the server has its primary accessory, which it gets with a start and loses
   with the end of a stop; `pairing` whether a session holds the pairing procedure; `shown` is the code
   last sent to the display, `tag` the code last written to the NFC tag as a pairable payload.
   */
  datatype State = State(
    setup: Setup, refreshTimer: Timer, nfcTimer: Timer, hosting: bool, paired: bool, pairing: bool,
    shown: Option<Code>, tag: Option<Code>)

  const INITIAL := State(CLEARED, NO_TIMER, NO_TIMER, false, false, false, None, None)

  /**
   Checks at which the original aborts, with the line of HAPAccessorySetupInfo.c, and the dereference of
   a null accessory.
   */
  datatype Check =
    | NoAccessory              // 103
    | AlreadyHosting           // HAPAccessoryServer.c, 472
    | PayloadWhilePaired       // 122
    | TimerAfterClear          // 198
    | PrepareWhilePaired       // 205
    | TimerBeforePrepare       // 244
    | NoTimerLeft              // 253, 509
    | NothingPrepared          // 271
    | WrongTimer               // 280, 472
    | ExpiryWhilePaired        // 282
    | ExpiryWhileLocked        // 283
    | ExpiryOfNothing          // 284
    | NothingToGet             // 307
    | KeptAfterDiscard         // 315
    | TimerAtStart             // 344
    | PairingStartWhilePaired  // 395
    | TimerAtPairingStart      // 401
    | KeepUnlocked             // 417
    | NoDisplay                // 441
    | NoNfc                    // 458, 482, 523
    | NfcTimerAtExit           // 459
    | NotLegacy                // 540

  type Result<T> = Outcome<T, Check>

  /** A random setup code and the handle of the timer that would refresh it, 0 when there is none. */
  datatype Draw = Draw(code: Code, timer: Timer)

  datatype Callback =
    | ServerStart(draw: Draw)
    | ServerStop
    | StateUpdate(draw: Draw)
    | PairingStart(draw: Draw)
    | PairingStop(keep: bool, draw: Draw)
    | PairingRestart(draw: Draw)
    | PairingStored
    | PairingRemoved
    | GetInfo(restore: bool, draw: Draw, salt: seq<byte>)
    | Refresh(draw: Draw)
    | RefreshTimerExpired(timer: Timer, draw: Draw)
    | EnterNfc(timer: Timer, draw: Draw)
    | ExitNfc
    | NfcTimerExpired(timer: Timer)
    | EnterLegacy(draw: Draw)

  // ---- Display and NFC tag ----

  function CurrentCode(s: State): Option<Code> {
    if s.setup.codeAvailable then Some(s.setup.code) else None
  }

  /** Updates the display and the NFC tag. */
  function SynchronizeDisplayAndNfc(p: Platform, s: State): Result<State> {
    if !p.HasOutput() then Continues(s)
    else if !s.hosting then Aborts(NoAccessory)
    else
      var pairable :=
        s.setup.codeAvailable && (p.Legacy() || p.display || (p.nfc && s.nfcTimer != NO_TIMER)) && p.hasSetupId;
      if pairable && s.paired then Aborts(PayloadWhilePaired)
      else
        Continues(s.(shown := if p.Legacy() || p.display then CurrentCode(s) else s.shown,
                     tag := if !p.nfc then s.tag
                            else if s.nfcTimer != NO_TIMER && pairable then Some(s.setup.code)
                            else None))
  }

  // ---- Setup code ----

  function ClearSetupInfo(s: State): Result<State> {
    var cleared := if s.setup.Available() then s.(setup := CLEARED, refreshTimer := NO_TIMER) else s;
    if cleared.refreshTimer != NO_TIMER then Aborts(TimerAfterClear) else Continues(cleared)
  }

  /** Generates or loads the setup code. */
  function LoadSetup(p: Platform, s: State, lock: bool, draw: Draw): Result<State> {
    var empty := CLEARED.(locked := lock);
    if p.Dynamic() then
      var t := s.(setup := empty.(code := draw.code, codeAvailable := true));
      if lock then Continues(t)
      else if t.refreshTimer != NO_TIMER then Aborts(TimerBeforePrepare)
      else if draw.timer == NO_TIMER then Aborts(NoTimerLeft)
      else Continues(t.(refreshTimer := draw.timer))
    else
      var loaded := if p.nfc || p.legacyNfc then empty.(code := p.staticCode, codeAvailable := true) else empty;
      Continues(s.(setup := loaded.(info := p.staticInfo, infoAvailable := true)))
  }

  function PrepareSetupInfo(p: Platform, s: State, lock: bool, draw: Draw): Result<State> {
    if s.paired then Aborts(PrepareWhilePaired)
    else if s.setup.Available() then
      Continues(if lock then s.(setup := s.setup.(locked := true), refreshTimer := NO_TIMER) else s)
    else
      var t :- LoadSetup(p, s, lock, draw);
      if !t.setup.Available() then Aborts(NothingPrepared) else SynchronizeDisplayAndNfc(p, t)
  }

  function DynamicSetupInfoExpired(p: Platform, s: State, timer: Timer, draw: Draw): Result<State> {
    if timer != s.refreshTimer then Aborts(WrongTimer)
    else if s.paired then Aborts(ExpiryWhilePaired)
    else if s.setup.locked then Aborts(ExpiryWhileLocked)
    else if !s.setup.Available() then Aborts(ExpiryOfNothing)
    else
      var t :- ClearSetupInfo(s.(refreshTimer := NO_TIMER));
      if p.display then PrepareSetupInfo(p, t, false, draw) else Continues(t)
  }

  /** A setup code kept from an earlier attempt is discarded, unless it is asked for. */
  function DiscardKept(p: Platform, s: State, restore: bool, draw: Draw): Result<State> {
    if restore || !s.setup.kept then Continues(s)
    else
      var cleared :- ClearSetupInfo(s);
      var t :- PrepareSetupInfo(p, cleared, true, draw);
      if t.setup.kept then Aborts(KeptAfterDiscard) else Continues(t)
  }

  /** The verifier is derived when it is first needed. */
  function DeriveVerifier(s: State, salt: seq<byte>): State {
    if s.setup.infoAvailable then s
    else s.(setup := s.setup.(info := Info(salt, Srp(salt, s.setup.code)), infoAvailable := true))
  }

  /** The new state and the setup info, if there is any to restore. */
  function GetSetupInfo(p: Platform, s: State, restore: bool, draw: Draw, salt: seq<byte>)
    : Result<(State, Option<Info>)>
  {
    if restore && !s.setup.Available() then Continues((s, None))
    else if !s.setup.Available() then Aborts(NothingToGet)
    else
      var t :- DiscardKept(p, s, restore, draw);
      var u := DeriveVerifier(t, salt);
      Continues((u, Some(u.setup.info)))
  }

  // ---- Server and pairing ----

  function HandleServerStart(p: Platform, s: State, draw: Draw): Result<State> {
    if s.refreshTimer != NO_TIMER then Aborts(TimerAtStart)
    else if p.display && !s.paired then PrepareSetupInfo(p, s, false, draw)
    else Continues(s)
  }

  function HandleServerStop(p: Platform, s: State): Result<State> {
    SynchronizeDisplayAndNfc(p, s.(setup := CLEARED, refreshTimer := NO_TIMER, nfcTimer := NO_TIMER))
  }

  function HandleStateUpdate(p: Platform, s: State, draw: Draw): Result<State> {
    if !s.paired then
      if p.display then PrepareSetupInfo(p, s, false, draw) else SynchronizeDisplayAndNfc(p, s)
    else if p.nfc && s.nfcTimer != NO_TIMER then ExitNfcPairingMode(p, s)
    else Continues(s)
  }

  function HandlePairingStart(p: Platform, s: State, draw: Draw): Result<State> {
    if s.paired then Aborts(PairingStartWhilePaired)
    else
      var t :- PrepareSetupInfo(p, s, true, draw);
      if t.refreshTimer != NO_TIMER then Aborts(TimerAtPairingStart) else Continues(t)
  }

  function KeepOrClear(p: Platform, s: State, keep: bool): Result<State> {
    if keep then
      if !s.setup.locked then Aborts(KeepUnlocked) else Continues(s.(setup := s.setup.(kept := true)))
    else
      var t :- ClearSetupInfo(s);
      SynchronizeDisplayAndNfc(p, t)
  }

  function HandlePairingStop(p: Platform, s: State, keep: bool, draw: Draw): Result<State> {
    var t :- KeepOrClear(p, s, keep);
    if p.display && !t.paired then PrepareSetupInfo(p, t, false, draw) else Continues(t)
  }

  function RefreshSetupPayload(p: Platform, s: State, draw: Draw): Result<State> {
    if !p.display then Aborts(NoDisplay)
    else if s.refreshTimer == NO_TIMER then Continues(s)
    else
      var t :- ClearSetupInfo(s);
      PrepareSetupInfo(p, t, false, draw)
  }

  // ---- NFC and legacy pairing mode ----

  function CompleteExitingNfcPairingMode(p: Platform, s: State): Result<State> {
    if !p.nfc then Aborts(NoNfc)
    else if s.nfcTimer != NO_TIMER then Aborts(NfcTimerAtExit)
    else
      var t :- if !s.setup.locked && s.refreshTimer == NO_TIMER then ClearSetupInfo(s) else Continues(s);
      SynchronizeDisplayAndNfc(p, t)
  }

  function NfcPairingModeExpired(p: Platform, s: State, timer: Timer): Result<State> {
    if timer != s.nfcTimer then Aborts(WrongTimer)
    else CompleteExitingNfcPairingMode(p, s.(nfcTimer := NO_TIMER))
  }

  function EnterNfcPairingMode(p: Platform, s: State, timer: Timer, draw: Draw): Result<State> {
    if !p.nfc then Aborts(NoNfc)
    else if s.paired then Continues(s)
    else if timer == NO_TIMER then Aborts(NoTimerLeft)
    else
      var t := s.(nfcTimer := timer);
      if !s.setup.Available() then PrepareSetupInfo(p, t, false, draw)
      else if s.nfcTimer == NO_TIMER then SynchronizeDisplayAndNfc(p, t)
      else Continues(t)
  }

  function ExitNfcPairingMode(p: Platform, s: State): Result<State> {
    if !p.nfc then Aborts(NoNfc)
    else if s.nfcTimer == NO_TIMER then Continues(s)
    else CompleteExitingNfcPairingMode(p, s.(nfcTimer := NO_TIMER))
  }

  function EnterLegacyPairingMode(p: Platform, s: State, draw: Draw): Result<State> {
    if p.display || p.nfc then Aborts(NotLegacy)
    else if !p.Legacy() || s.pairing || s.paired then Continues(s)
    else PrepareSetupInfo(p, s, false, draw)
  }

  // ---- Runs ----

  function Step(p: Platform, s: State, c: Callback): Result<State> {
    match c
    case ServerStart(draw) =>
      if s.hosting then Aborts(AlreadyHosting) else HandleServerStart(p, s.(hosting := true), draw)
    case ServerStop =>
      var t :- HandleServerStop(p, s);
      Continues(t.(hosting := false))
    case StateUpdate(draw) => HandleStateUpdate(p, s, draw)
    case PairingStart(draw) => HandlePairingStart(p, s.(pairing := true), draw)
    case PairingStop(keep, draw) => HandlePairingStop(p, s.(pairing := false), keep, draw)
    case PairingRestart(draw) =>
      var t :- HandlePairingStop(p, s.(pairing := false), true, draw);
      Continues(t.(setup := t.setup.(kept := false)))
    case PairingStored => Continues(s.(paired := true))
    case PairingRemoved => Continues(s.(paired := false))
    case GetInfo(restore, draw, salt) =>
      var r :- GetSetupInfo(p, s, restore, draw, salt);
      Continues(r.0)
    case Refresh(draw) => RefreshSetupPayload(p, s, draw)
    case RefreshTimerExpired(timer, draw) => DynamicSetupInfoExpired(p, s, timer, draw)
    case EnterNfc(timer, draw) => EnterNfcPairingMode(p, s, timer, draw)
    case ExitNfc => ExitNfcPairingMode(p, s)
    case NfcTimerExpired(timer) => NfcPairingModeExpired(p, s, timer)
    case EnterLegacy(draw) => EnterLegacyPairingMode(p, s, draw)
  }

  /** Whether a handle for a timer is left. */
  predicate HasTimer(draw: Draw) {
    draw.timer != NO_TIMER
  }

  /**
   What the environment respects. Timers can be registered; only live timers expire; a session claims
   the pairing procedure when it is free and the accessory unpaired, asks for the setup info and
   stores a pairing while it holds it; the server stops when no session holds it; the modes are
   entered on platforms that have them.
   */
  predicate Admissible(p: Platform, s: State, c: Callback) {
    match c
    case ServerStart(draw) => HasTimer(draw) && !s.pairing
    case ServerStop => !s.pairing
    case StateUpdate(draw) => HasTimer(draw)
    case PairingStart(draw) => !s.pairing && !s.paired
    case PairingStop(keep, draw) => HasTimer(draw) && s.pairing
    case PairingRestart(draw) => HasTimer(draw) && s.pairing
    case PairingStored => s.pairing
    case PairingRemoved => true
    case GetInfo(_, _, _) => s.pairing && !s.paired
    case Refresh(draw) => HasTimer(draw) && p.display
    case RefreshTimerExpired(timer, draw) => HasTimer(draw) && timer != NO_TIMER && timer == s.refreshTimer
    case EnterNfc(timer, draw) => HasTimer(draw) && timer != NO_TIMER && p.nfc
    case ExitNfc => p.nfc
    case NfcTimerExpired(timer) => timer != NO_TIMER && timer == s.nfcTimer
    case EnterLegacy(draw) => HasTimer(draw) && !p.display && !p.nfc
  }

  function RunFrom(p: Platform, s: State, cs: seq<Callback>): Result<State>
    decreases |cs|
  {
    if cs == [] then Continues(s)
    else
      var t :- Step(p, s, cs[0]);
      RunFrom(p, t, cs[1..])
  }

  predicate AdmissibleRun(p: Platform, s: State, cs: seq<Callback>)
    decreases |cs|
  {
    cs == [] ||
    (Admissible(p, s, cs[0]) &&
     (Step(p, s, cs[0]).Continues? ==> AdmissibleRun(p, Step(p, s, cs[0]).state, cs[1..])))
  }
}
