# Verification of the HomeKit accessory and the CGuard access list

A Dafny model of the stateful parts of a HomeKit accessory over Bluetooth LE, with proofs about all
inputs, all runs and all reachable states, and of the access list that guards the MQTT commands.

Code that changes state is modelled as it is written: classes with the fields of the original, arrays
edited in place, loops with invariants. Each such method is proved against a specification function,
and the promises of the original are lemmas about those functions. A failed assertion, a failed
precondition and a fatal error of the original are outcomes of the specification, so that it can be
proved which runs reach them.

- `Advertising`, `AdvertisingServer`, `StoredRecords`: the global state number (GSN), the broadcast
  key, timers, connections and broadcasted events as a state machine, and the same as an object.
  `CallbackEffects`: what each callback does. `BroadcastHistory`: what is broadcast, told from the
  callbacks alone. `NonceUniqueness`: no two payloads under one key and nonce. `CutOffUpdates`: when
  exactly a start after an update that lost power spoils this. `GsnPeriods`: when the GSN advances and
  when exactly a key expires. `AssertionFreedom`: which runs abort. `AdvertisementFormat`: the bytes sent.
- `SetupInfo`, `SetupInfoServer`, `SetupInfoRuns`, `SetupInfoEffects`: the setup code, its display and NFC
  tag, over pairing attempts: which runs abort, what an attempt keeps, and what each callback does.
  `SetupPayload`: setup codes, packing, division by 36 and base-36 digits.
- `BroadcastConfiguration`: the packed sorted record refines a finite map.
- `Pdu`, `Transactions`: the serializer and the parsers are inverse; fragmented bodies arrive whole.
- `ServiceIndex`, `Firmware`, `Pairings`: the bookkeeping of the accessory server.
- `RequestCompaction`: the moves inside the buffer of a write request.
- `AccessList`: heap-linked lists refine a multiset for each right.

## Findings

Properties that one would expect and that do not hold of the code, each with a run that shows it and
the exact condition under which it does hold:

- The event timer and the broadcasted event survive a stop. A firmware update or a restoration of
  factory settings while they live leads to the assertions at
  `HAPBLEAccessoryServer+Advertising.c:1041-1042`; a removal of the last admin pairing over another
  transport while a broadcast is active leads to the fatal error at line 99
  (`AssertionFreedom.SafeExactlyWhenNoAbort`, `RestoreWithLiveTimerAborts`, `UnsafeCleanupAborts`).
- The assertion at `HAPAccessorySetupInfo.c:122` is reachable on platforms with a display, an NFC tag and
  a setup ID, and on no others (`SetupInfoRuns.NeverAbortsExactlyOnPlatforms`).
- `HAPAccessorySetupInfo.c:103` reads the category of the primary accessory, which is null before the
  first start and after a stop. A state update that is delivered after a stop dereferences it if and only
  if something shows the payload and the accessory is unpaired; entering NFC pairing mode before the start
  does as well (`SetupInfoRuns.LateStateUpdateAborts`, `EarlyNfcPairingModeAborts`).
  `SetupInfoRuns.RunContinuesExactlyWhenSafe` gives the exact condition for every run.
- A firmware update removes the GSN before it expires the broadcast key
  (`HAPAccessoryServer+Reset.c:70-91`). If power is lost in between and the new firmware starts, it
  completes the update. If the old firmware starts, a nonce may be reused, exactly when the key has been
  used under a GSN from 2 up to its expiration; and the key may be used under more than 32,766 GSNs,
  exactly when it expires at a GSN above 32,767: a key generated at GSN 30,000 then has 62,765 GSNs left
  (`CutOffUpdates.OldFirmwareAfterCutExactlyWhen`, `SpoiledLife`). For every other start the two results
  `NonceUniqueness.NonceNeverReused` and `KeyUsedForBoundedGsns` hold; `CutOffUpdates.FitExactlyWhenGood`
  says that their condition on starts is exact.
- An update that loses power before its version is written increments the configuration number again when
  it is repeated (`Firmware.ConfigurationCountsUpdates` counts exactly).
- An empty continuation that arrives between the fetching of a request and its answer is compared with the
  opcode, which shares memory with the transaction ID of the response (`HAPBLETransaction.c:113-134`); it
  is accepted if and only if the two are equal (`Transactions.ContinuationBeforeAnswer`). No caller in the
  repository takes that run: a request is fetched and answered within one GATT read
  (`HAPBLEProcedure.c:186`), or the link is terminated (`HAPBLEPeripheralManager.c:729-733`).
- A PDU with a body length and no body does not come back from the parser
  (`Pdu.RoundTripExactlyWhenProper`).
- The broadcast configuration holds 41 entries, where the comments at
  `HAPBLECharacteristic+Broadcast.c:161`, `:240` and `:294` speak of 42; the model follows the code.

## Assumptions about the environment

The runs quantified over are those of the predicates `Admissible`. For advertising: only live timers
expire and new handles differ from live ones; a controller connects to a running server and
disconnects when connected; keys and advertising identifiers are set over a connection, and a new key
has not encrypted anything before; the server starts, and settings are restored, when it is idle. A
write to the store and the purge of a domain are not cut off themselves. For the setup code: a timer
can be registered when one is needed; the pairing procedure is claimed while it is free and the
accessory unpaired, and a pairing is stored by the session that holds it; the server stops when no
session holds it.

Random setup codes, salts, timer handles, the success of a timer registration, the values read for a
broadcast, the order in which the store enumerates its keys and the availability of memory are
parameters. A record that is longer than the buffer it is read into is cut by the store.

## Model

| member | source | states |
|---|---|---|
| NonceUniqueness.NonceNeverReused | HomeKitADK-master/HAP/HAPBLEAccessoryServer+Advertising.c:85-182 | for every run from the factory with fit starts, two encryptions under the same key and the same nonce bytes have the same plaintext and the same associated data, across GSN wrap, key refresh and expiry, reconnection, restart, pairing removal, firmware update, factory reset and loss of power between the writes of an increment or an update |
| NonceUniqueness.KeyUsedForBoundedGsns | HomeKitADK-master/HAP/HAPBLEAccessoryServer+Broadcast.c:120-131 | in every run from the factory with fit starts, no key encrypts under more than 32,766 different GSNs |
| NonceUniqueness.RunKeepsRunInv | HomeKitADK-master/HAP/HAPBLEAccessoryServer+Advertising.c:451-1144 | for both aims: every run with fit starts keeps the log good and the current key fit, or the server idle |
| NonceUniqueness.StepKeepsRunInv | HomeKitADK-master/HAP/HAPBLEAccessoryServer+Advertising.c:451-1144 | the same for each callback and each loss of power |
| NonceUniqueness.IncrementKeepsKeyInv | HomeKitADK-master/HAP/HAPBLEAccessoryServer+Advertising.c:640-695 | after an increment no GSN ahead has been used under the current key, and the new one is unused and within its number |
| NonceUniqueness.BroadcastKeepsKeyInv | HomeKitADK-master/HAP/HAPBLEAccessoryServer+Advertising.c:774-1001 | a new event, with the cancelled one before it and any failure of the read or of the timer, keeps the invariant |
| NonceUniqueness.GenerateKeyKeepsKeyInv | HomeKitADK-master/HAP/HAPBLEAccessoryServer+Broadcast.c:98-212 | a key that has not encrypted anything keeps the invariant, whatever the GSN at which it is generated |
| NonceUniqueness.UpdateKeepsKeyInv | HomeKitADK-master/HAP/HAPBLEAccessoryServer.c:146-198 | fetching the advertisement again, any number of times, repeats the payload already sent under its nonce |
| NonceUniqueness.PowerLossKeepsKeyInv | HomeKitADK-master/HAP/HAPBLEAccessoryServer+Advertising.c:663-692 | a loss of power within an increment, or in an update once the key has expired, keeps the current key fit |
| NonceUniqueness.FitWithoutCut | HomeKitADK-master/HAP/HAPAccessoryServer+Reset.c:70-91 | in a run in which no update is cut off before the key has expired every start is fit |
| CutOffUpdates.OldFirmwareAfterCutExactlyWhen | HomeKitADK-master/HAP/HAPAccessoryServer+Reset.c:70-91 | an update is cut off between the removal of the GSN and the expiry of the key, and the old firmware starts: no nonce is ever reused after that if and only if the key has not been used under a GSN from 2 up to its expiration, and no key exceeds 32,766 GSNs if and only if it expires at 32,767 or before |
| CutOffUpdates.FitExactlyWhenGood | HomeKitADK-master/HAP/HAPAccessoryServer+Reset.c:70-91 | in every state that runs keep, a start is fit if and only if no run after it reuses a nonce, or exceeds the number of GSNs of a key |
| CutOffUpdates.SpoiledLife | HomeKitADK-master/HAP/HAPAccessoryServer+Reset.c:70-91 | from the factory there is a run that reuses a nonce, and one that uses a key under too many GSNs |
| GsnPeriods.KeyLifetimeIsExact | HomeKitADK-master/HAP/HAPBLEAccessoryServer+Broadcast.c:120-131 | for every GSN at which a key is generated and every run that neither replaces it nor loses power before a GSN is saved: the key is gone if and only if the GSN has advanced at least 32,767 times, and the GSN is the starting one advanced that often, skipping 0 |
| GsnPeriods.KeyLifetimeWithCuts | HomeKitADK-master/HAP/HAPBLEAccessoryServer+Advertising.c:663-692 | with increments that lose power before their GSN is saved, the key is there for 32,766 increments and gone with the 32,767th |
| GsnPeriods.StepExpiresKey | HomeKitADK-master/HAP/HAPBLEAccessoryServer+Advertising.c:663-670 | a callback that does not replace the key expires it exactly when it advances the GSN from the expiration GSN |
| GsnPeriods.StepAdvancesOnce | HomeKitADK-master/HAP/HAPBLEAccessoryServer+Advertising.c:640-695 | every callback leaves the GSN alone or moves it to its successor, and advances it exactly when it reaches the increment |
| GsnPeriods.ConnectedPeriodAdvancesOnce | HomeKitADK-master/HAP/HAPBLEAccessoryServer+Advertising.c:1109-1141 | over a connected period the GSN advances at most once, and exactly once when some event asks for it and it has not advanced before |
| GsnPeriods.LaterAdvancesAreBroadcasts | HomeKitADK-master/HAP/HAPBLEAccessoryServer+Advertising.c:1036-1048 | between two changes of the connection all advances but the first are broadcasts |
| GsnPeriods.GsnAfterRun | HomeKitADK-master/HAP/HAPBLEAccessoryServer+Advertising.c:672-677 | over every run that does not reset it the GSN moves by exactly the number of advances |
| GsnPeriods.PeriodStartsUnincremented | HomeKitADK-master/HAP/HAPBLEAccessoryServer+Advertising.c:546-564 | connecting and disconnecting start a period in which no advance has been made |
| AssertionFreedom.SafeRunsNeverAbort | HomeKitADK-master/HAP/HAPBLEAccessoryServer+Advertising.c:451-1144 | no safe run of a device reaches a failed assertion or precondition, the missing-key error or a fatal error |
| AssertionFreedom.SafeExactlyWhenNoAbort | HomeKitADK-master/HAP/HAPBLEAccessoryServer+Advertising.c:1036-1042 | a callback is safe if and only if neither it nor any run of safe callbacks after it aborts; unsafe are a firmware update or factory reset while the event timer is live and a removal of the last admin while a broadcast is active |
| AssertionFreedom.StepContinues | HomeKitADK-master/HAP/HAPBLEAccessoryServer+Advertising.c:451-1144 | a safe callback does not abort and keeps the machine invariant: an active event has a live timer, no connection and an unexpired key; a live timer means that the GSN has advanced; a connection means no timers and no event |
| AssertionFreedom.RestoreWithLiveTimerAborts | HomeKitADK-master/HAP/HAPAccessoryServer+Reset.c:9-30 | stopping leaves the event timer alive: the run raise, stop, restore, start, raise is admissible and ends at the assertion that no timer is live |
| AssertionFreedom.UnsafeCleanupAborts | HomeKitADK-master/HAP/HAPAccessoryServer.c:1020-1033 | purging the broadcast parameters under an active event leads to the missing-key fatal error at the next start |
| AssertionFreedom.UnsafeStartLeavesTimer | HomeKitADK-master/HAP/HAPAccessoryServer.c:567-573 | a firmware update with a live event timer leaves the timer with a GSN that has not advanced |
| BroadcastHistory.EveryBroadcastIsTrue | HomeKitADK-master/HAP/HAPBLEAccessoryServer+Advertising.c:85-182 | over every run from the factory each callback encrypts at most once, and then with the last key generated, the last identifier set since the factory or the last purge, or else the device ID, the stored GSN, and an ID and value with which an event was raised for broadcast |
| BroadcastHistory.IdentifierIsTold | HomeKitADK-master/HAP/HAPBLEAccessoryServer+Broadcast.c:80-82 | after an identifier has been set, by itself or with a key, everything encrypted by a run that neither sets another one nor purges it has it as associated data |
| BroadcastHistory.DeviceIdIsTold | HomeKitADK-master/HAP/HAPBLEAccessoryServer+Broadcast.c:83-91 | after a purge of the broadcast parameters everything has the device ID, until an identifier is set |
| BroadcastHistory.StepGrowsLog | HomeKitADK-master/HAP/HAPBLEAccessoryServer+Advertising.c:85-182 | a callback adds to what was encrypted the active event once, or nothing; an event that is active was so before or has just been raised |
| CallbackEffects.ValueIsBroadcast | HomeKitADK-master/HAP/HAPBLEAccessoryServer+Advertising.c:968-1001 | a value that was read is broadcast under the next GSN with its ID, its interval and zeros after its bytes, until the timer that was registered; without a timer only the GSN advances |
| CallbackEffects.FailedReadEndsBroadcast | HomeKitADK-master/HAP/HAPBLEAccessoryServer+Advertising.c:956-967 | when the value cannot be read, the current broadcast is over, and neither GSN nor key change |
| CallbackEffects.OtherEventAdvances | HomeKitADK-master/HAP/HAPBLEAccessoryServer+Advertising.c:1024-1087 | an event that is not for broadcast advances the GSN once in a period and starts the timer while unconnected; otherwise nothing at all changes |
| CallbackEffects.FastTimerExpires | HomeKitADK-master/HAP/HAPBLEAccessoryServer+Advertising.c:451-494 | the expiry of the fast timer repeats the payload of an active event and changes nothing else |
| CallbackEffects.EventTimerExpires | HomeKitADK-master/HAP/HAPBLEAccessoryServer+Advertising.c:451-494 | the expiry of the event timer ends the event; after a broadcast a timer for the period that follows is registered |
| CallbackEffects.ConnectionOpensPeriod | HomeKitADK-master/HAP/HAPBLEAccessoryServer+Advertising.c:519-572 | a connection leaves no timer, no event and no mark, and the same GSN and key |
| CallbackEffects.DisconnectionOpensPeriod | HomeKitADK-master/HAP/HAPBLEAccessoryServer+Advertising.c:574-630 | a disconnection starts the fast timer, clears the mark, and completes a stop that nothing else delays |
| CallbackEffects.DowngradeDoesNotStart | HomeKitADK-master/HAP/HAPAccessoryServer.c:540-553 | a start with downgraded firmware changes nothing |
| CallbackEffects.StartRuns | HomeKitADK-master/HAP/HAPAccessoryServer.c:465-624 | any other start runs the server: what is left of GSN, key and identifier after an update or without an admin, fast advertising with the first start only, and the active event encrypted once |
| CallbackEffects.StopIsComplete | HomeKitADK-master/HAP/HAPAccessoryServer.c:709-764 | a stop is complete at once if and only if there is no connection and no other delay, and changes nothing else |
| CallbackEffects.StopWaits | HomeKitADK-master/HAP/HAPAccessoryServer.c:709-764 | over any run after it a delayed stop is complete exactly when a disconnection, a second stop or the end of the delay has come; nothing is broadcast meanwhile or later |
| CallbackEffects.RestoreResets | HomeKitADK-master/HAP/HAPAccessoryServer+Reset.c:9-30 | a restoration of factory settings leaves GSN 1, no key, no identifier and the new device ID |
| CallbackEffects.OnlyRecordsSurvive | HomeKitADK-master/HAP/HAPAccessoryServer.c:146 | a new server object has no timer, event or connection; the records are the stored ones |
| CallbackEffects.CutRecords | HomeKitADK-master/HAP/HAPAccessoryServer+Reset.c:70-91 | GSN, key and identifier after a loss of power at each place within an increment or an update |
| AdvertisingServer.Server.constructor | HomeKitADK-master/HAP/HAPAccessoryServer.c:146 | a new device has no records, no timers, no connection and no event |
| AdvertisingServer.Server.ReadGsn | HomeKitADK-master/HAP/HAPBLEAccessoryServer+Advertising.c:11-45 | the stored GSN state, 1 when nothing is stored; a record that is too short is an error |
| AdvertisingServer.Server.ReadParameters | HomeKitADK-master/HAP/HAPBLEAccessoryServer+Broadcast.c:52-96 | the stored broadcast parameters, no key when nothing is stored; a record that is too short is an error |
| AdvertisingServer.Server.ExpireKey | HomeKitADK-master/HAP/HAPBLEAccessoryServer+Broadcast.c:256-294 | clears expiration GSN and key and keeps the advertising identifier |
| AdvertisingServer.Server.IncrementGsn | HomeKitADK-master/HAP/HAPBLEAccessoryServer+Advertising.c:640-695 | expires the key if this GSN was its last, then stores the successor of the GSN, 65535 being followed by 1, marked as advanced |
| AdvertisingServer.Server.ResetCoalescing | HomeKitADK-master/HAP/HAPBLEAccessoryServer+Advertising.c:599-617 | clears the mark and keeps the GSN |
| AdvertisingServer.Server.DidStartAdvertising | HomeKitADK-master/HAP/HAPBLEAccessoryServer+Advertising.c:496-517 | starts the fast timer once; aborts exactly when it is live already |
| AdvertisingServer.Server.GetAdvertisingParameters | HomeKitADK-master/HAP/HAPBLEAccessoryServer+Advertising.c:77-182 | inactive while connected; with an active event exactly one encryption of it, or the missing-key error; the rest of the state is untouched |
| AdvertisingServer.Server.UpdateAdvertisingData | HomeKitADK-master/HAP/HAPBLEAccessoryServer.c:146-198 | fetches the advertisement only while running and marks advertising as started only while not connected |
| AdvertisingServer.Server.AdvertisingTimerExpired | HomeKitADK-master/HAP/HAPBLEAccessoryServer+Advertising.c:451-494 | clears the timer that expired; the expiry of the event timer ends the event and starts a new period |
| AdvertisingServer.Server.DidConnect | HomeKitADK-master/HAP/HAPBLEAccessoryServer+Advertising.c:519-572 | ends both timers and the event and starts a period |
| AdvertisingServer.Server.DidDisconnect | HomeKitADK-master/HAP/HAPBLEAccessoryServer+Advertising.c:574-630 | starts the fast timer and a period, and goes on with a shutdown that was waiting |
| AdvertisingServer.Server.Stop | HomeKitADK-master/HAP/HAPAccessoryServer.c:709-764 | goes idle at once only without a connection and without other delays |
| AdvertisingServer.Server.StartBroadcast | HomeKitADK-master/HAP/HAPBLEAccessoryServer+Advertising.c:968-1001 | a new GSN, then the event with its padded value; without a timer the event stays inactive |
| AdvertisingServer.Server.BroadcastEvent | HomeKitADK-master/HAP/HAPBLEAccessoryServer+Advertising.c:774-1001 | cancels the current broadcast before the new value is read |
| AdvertisingServer.Server.GetBroadcastInterval | HomeKitADK-master/HAP/HAPBLEAccessoryServer+Advertising.c:734-774 | an event is broadcast exactly when its characteristic supports it and has it enabled, nobody is connected, and the key is neither missing nor at its last GSN |
| AdvertisingServer.Server.DisconnectedEvent | HomeKitADK-master/HAP/HAPBLEAccessoryServer+Advertising.c:1024-1087 | advances the GSN only once in a period, and starts the timer while disconnected |
| AdvertisingServer.Server.DidRaiseEvent | HomeKitADK-master/HAP/HAPBLEAccessoryServer+Advertising.c:697-1090 | takes the broadcast path or else the disconnected path |
| AdvertisingServer.Server.DidSendEventNotification | HomeKitADK-master/HAP/HAPBLEAccessoryServer+Advertising.c:1092-1144 | advances the GSN only once in a period |
| AdvertisingServer.Server.GenerateKey | HomeKitADK-master/HAP/HAPBLEAccessoryServer+Broadcast.c:98-212 | stores the key with the expiration GSN 32,766 increments ahead, in 1 to 65535, and a new advertising identifier only if there is one |
| AdvertisingServer.Server.SetAdvertisingId | HomeKitADK-master/HAP/HAPBLEAccessoryServer+Broadcast.c:214-254 | changes the advertising identifier only |
| AdvertisingServer.Server.HandleFirmwareUpdate | HomeKitADK-master/HAP/HAPAccessoryServer+Reset.c:51-94 | removes the GSN record and expires the key |
| AdvertisingServer.Server.Start | HomeKitADK-master/HAP/HAPAccessoryServer.c:465-624 | a downgrade does not start; an update resets GSN and key; without an admin the broadcast parameters go; then the first advertisement |
| AdvertisingServer.Server.CleanupPairings | HomeKitADK-master/HAP/HAPAccessoryServer.c:1020-1040 | without an admin the broadcast parameters are removed, otherwise nothing changes |
| AdvertisingServer.Server.RestoreFactorySettings | HomeKitADK-master/HAP/HAPAccessoryServer+Reset.c:9-30 | purges the records and leaves timers, event and connection as they are |
| StoredRecords.DecodeGsn | HomeKitADK-master/HAP/HAPBLEAccessoryServer+Advertising.c:11-45 | exactly the records of fewer than three bytes are refused; a longer one is cut |
| StoredRecords.EncodeGsn | HomeKitADK-master/HAP/HAPBLEAccessoryServer+Advertising.c:681-688 | decoding what was stored gives it back |
| StoredRecords.DecodeParameters | HomeKitADK-master/HAP/HAPBLEAccessoryServer+Broadcast.c:18-50 | exactly the records of fewer than 41 bytes are refused; a longer one is cut |
| StoredRecords.EncodeParameters | HomeKitADK-master/HAP/HAPBLEAccessoryServer+Broadcast.c:190-205 | decoding what was stored gives it back |
| StoredRecords.GsnRecord | HomeKitADK-master/HAP/HAPBLEAccessoryServer+Advertising.c:681-688 | the three bytes: GSN, lower byte first, and the mark |
| StoredRecords.ParametersRecord | HomeKitADK-master/HAP/HAPBLEAccessoryServer+Broadcast.c:190-205 | the 41 bytes: expiration GSN, key, flag and identifier at their places |
| AdvertisementFormat.RegularAdvertisementParses | HomeKitADK-master/HAP/HAPBLEAccessoryServer+Advertising.c:258-384 | for every name under 255 bytes and every capacity of at least 31, advertisement and scan response fit and parse as AD structures into exactly flags, identity and the complete name or its longest prefix that fits |
| AdvertisementFormat.ManufacturerRoundTrip | HomeKitADK-master/HAP/HAPBLEAccessoryServer+Advertising.c:277-339 | the manufacturer data, read by its own length and type fields, gives back status, device ID, category, GSN, configuration number and setup hash |
| AdvertisementFormat.AdvertisementTellsIdentity | HomeKitADK-master/HAP/HAPBLEAccessoryServer+Advertising.c:258-384 | a reader of the whole advertisement gets status, device ID, category, GSN and setup hash, and as configuration number n % 255 + 1 after n increments of a new accessory |
| AdvertisementFormat.AdvertisementBegins | HomeKitADK-master/HAP/HAPBLEAccessoryServer+Advertising.c:264-295 | the first ten bytes, with the company ID 0x004C |
| AdvertisementFormat.EncryptedAdvertisementParses | HomeKitADK-master/HAP/HAPBLEAccessoryServer+Advertising.c:125-185 | the encrypted format is exactly 31 bytes and parses into flags and manufacturer data with identifier, ciphertext and the tag cut to four bytes |
| AdvertisementFormat.NotificationIsReceived | HomeKitADK-master/HAP/HAPBLEAccessoryServer+Advertising.c:125-185 | for every cipher whose decryption undoes it, a controller with the key that takes the GSN as 64-bit nonce receives identifier, GSN, instance ID and value |
| AdvertisementFormat.WriteRegular | HomeKitADK-master/HAP/HAPBLEAccessoryServer+Advertising.c:258-384 | the moving-pointer code fills both buffers with exactly these bytes within their capacity |
| AdvertisementFormat.WriteEncrypted | HomeKitADK-master/HAP/HAPBLEAccessoryServer+Advertising.c:125-185 | the moving-pointer code with encryption in place fills the buffer with exactly these bytes |
| AdvertisementFormat.PutName | HomeKitADK-master/HAP/HAPBLEAccessoryServer+Advertising.c:341-381 | a name field, complete or shortened, within the room for it |
| SetupInfoRuns.RunContinuesExactlyWhenSafe | HomeKitADK-master/HAP/HAPAccessorySetupInfo.c:186-434 | a run dereferences the missing accessory or reaches a failed assertion or precondition if and only if it is not safe, and every other run keeps the invariant |
| SetupInfoRuns.StepContinues | HomeKitADK-master/HAP/HAPAccessorySetupInfo.c:186-559 | each event of the machine aborts if and only if it is not safe, and otherwise keeps the invariant: a live refresh timer means an accessory and an available code, unlocked and unpaired; locked means no refresh timer |
| SetupInfoRuns.NeverAbortsExactlyOnPlatforms | HomeKitADK-master/HAP/HAPAccessorySetupInfo.c:111-129 | with callbacks that keep to the time between start and stop, the assertion that no pairable payload is shown while paired, like every other check, is out of reach on a platform if and only if it lacks a display, an NFC tag or a setup ID |
| SetupInfoRuns.PairingOverNfcAborts | HomeKitADK-master/HAP/HAPAccessorySetupInfo.c:372-390 | the run that reaches it: pairing in NFC pairing mode, with the state update before the end of the attempt |
| SetupInfoRuns.LateStateUpdateAborts | HomeKitADK-master/HAP/HAPAccessorySetupInfo.c:96-103 | a state update delivered after the end of a stop dereferences the accessory that is no longer there if and only if the platform has an output and the accessory is unpaired |
| SetupInfoRuns.EarlyNfcPairingModeAborts | HomeKitADK-master/HAP/HAPAccessorySetupInfo.c:512-517 | NFC pairing mode entered before the first start dereferences the missing accessory |
| SetupInfoRuns.StepKeepsSetup | HomeKitADK-master/HAP/HAPAccessorySetupInfo.c:201-534 | during a pairing attempt every event keeps code and verifier; only a request for setup info that does not restore may discard a code kept from an earlier attempt |
| SetupInfoRuns.AttemptKeepsSetup | HomeKitADK-master/HAP/HAPAccessorySetupInfo.c:392-434 | a whole attempt sees one setup code and one verifier, under any interleaving of refresh, expiry, NFC events, state updates and requests with any flags, unless a request discards a code kept from an earlier attempt |
| SetupInfoRuns.RequestsOfAnAttemptAgree | HomeKitADK-master/HAP/HAPAccessorySetupInfo.c:298-337 | two requests of one attempt return the same salt and verifier, whatever lies in between, if the first one discards what was kept or all of them restore it |
| SetupInfoRuns.RequestsAgreeExactlyWhen | HomeKitADK-master/HAP/HAPAccessorySetupInfo.c:310-316 | the condition is exact: two requests agree for all codes that may be drawn if and only if the second does not discard a kept random code that the first restored |
| SetupInfoRuns.MessagesOfAnAttemptAgree | HomeKitADK-master/HAP/HAPPairingPairSetup.c:204-246 | messages M2 and M4 use the same salt and verifier for every combination of flags and method, although M2 ignores flags that M4 heeds |
| SetupInfoRuns.OutputsStayCurrent | HomeKitADK-master/HAP/HAPAccessorySetupInfo.c:77-180 | in every reachable state the verifier belongs to the code, the display shows the current code, and the tag carries it exactly in NFC pairing mode |
| SetupInfoRuns.LegacyDisplayKeepsExpiredCode | HomeKitADK-master/HAP/HAPAccessorySetupInfo.c:276-294 | the deprecated display goes on showing a code that has expired |
| SetupInfoEffects.CodeIsNotReused | HomeKitADK-master/HAP/HAPAccessorySetupInfo.c:409-434 | a random code that was given up by the end of an attempt, a refresh, an expiry, a stop or a request does not come back: whatever run follows, the code in use was drawn by the callback that gave it up or a later one |
| SetupInfoEffects.StartShowsCode | HomeKitADK-master/HAP/HAPAccessorySetupInfo.c:341-352 | a start gives an unpaired accessory with a display a new code, shows it and starts its refresh; otherwise the setup stays |
| SetupInfoEffects.StopForgetsSetup | HomeKitADK-master/HAP/HAPAccessorySetupInfo.c:354-370 | after a stop there is no code, verifier or timer, and nothing on display or tag |
| SetupInfoEffects.StateUpdateEffect | HomeKitADK-master/HAP/HAPAccessorySetupInfo.c:372-390 | a state update gives an unpaired accessory with a display a new code if it has none; it ends NFC pairing mode of a paired one and keeps its setup |
| SetupInfoEffects.PairingStartLocks | HomeKitADK-master/HAP/HAPAccessorySetupInfo.c:392-407 | an attempt starts with the code and verifier that were there, or a new code, locked and without a refresh timer |
| SetupInfoEffects.PairingStopEffect | HomeKitADK-master/HAP/HAPAccessorySetupInfo.c:409-434 | an attempt that keeps its code leaves it locked; one that does not gives it up, and a display of an unpaired accessory gets another |
| SetupInfoEffects.PairingRestartEffect | HomeKitADK-master/HAP/HAPPairingPairSetup.c:1243-1267 | a restart keeps code and verifier and does not mark them as kept |
| SetupInfoEffects.InfoEffect | HomeKitADK-master/HAP/HAPAccessorySetupInfo.c:298-337 | what a request for setup info returns: the verifier that was there, or one derived from the code and the salt drawn now; a new code in the place of one that was kept if it does not restore |
| SetupInfoEffects.RefreshReplacesCode | HomeKitADK-master/HAP/HAPAccessorySetupInfo.c:438-451 | with a live refresh timer the code is exactly the one drawn now, shown, without a verifier, unlocked and with its new timer; without one nothing changes |
| SetupInfoEffects.ExpiryReplacesCode | HomeKitADK-master/HAP/HAPAccessorySetupInfo.c:276-294 | the same for an expired code on a display; on the deprecated one none is left |
| SetupInfoEffects.EnterNfcEffect | HomeKitADK-master/HAP/HAPAccessorySetupInfo.c:479-518 | while unpaired the mode gets the new timer, a setup if there is none, and the code on the tag |
| SetupInfoEffects.ExitNfcEffect | HomeKitADK-master/HAP/HAPAccessorySetupInfo.c:455-534 | the end of the mode takes the code off the tag; the setup goes exactly when it is neither locked nor refreshed |
| SetupInfoEffects.EnterLegacyEffect | HomeKitADK-master/HAP/HAPAccessorySetupInfo.c:536-559 | deprecated pairing mode prepares and shows a setup exactly while nobody is pairing or paired |
| SetupInfoEffects.PairedTellsHistory | HomeKitADK-master/HAP/HAPPairingPairSetup.c:999-1024 | over every run, the accessory is paired as the last storing or removal of pairings says |
| SetupInfoServer.Server.SynchronizeDisplayAndNfc | HomeKitADK-master/HAP/HAPAccessorySetupInfo.c:77-180 | what display and tag receive, when the accessory is missing, and when the assertion on a pairable payload fails |
| SetupInfoServer.Server.ClearSetupInfo | HomeKitADK-master/HAP/HAPAccessorySetupInfo.c:186-199 | zeroes the setup and its timer only if a setup is available |
| SetupInfoServer.Server.LoadSetup | HomeKitADK-master/HAP/HAPAccessorySetupInfo.c:225-270 | a random code with a refresh timer unless locked, or the provisioned code and verifier |
| SetupInfoServer.Server.PrepareSetupInfo | HomeKitADK-master/HAP/HAPAccessorySetupInfo.c:201-274 | prepares a setup if there is none; locking ends the refresh timer |
| SetupInfoServer.Server.DynamicSetupInfoExpired | HomeKitADK-master/HAP/HAPAccessorySetupInfo.c:276-294 | the expired code goes, and a display gets a new one |
| SetupInfoServer.Server.GetSetupInfo | HomeKitADK-master/HAP/HAPAccessorySetupInfo.c:298-337 | discards a kept code unless restoring, and derives the verifier when it is first needed |
| SetupInfoServer.Server.HandleServerStart | HomeKitADK-master/HAP/HAPAccessorySetupInfo.c:341-352 | a display gets a code while unpaired |
| SetupInfoServer.Server.HandleServerStop | HomeKitADK-master/HAP/HAPAccessorySetupInfo.c:354-370 | ends both timers and zeroes the setup |
| SetupInfoServer.Server.HandleStateUpdate | HomeKitADK-master/HAP/HAPAccessorySetupInfo.c:372-390 | a new code when unpaired, the end of NFC pairing mode when paired |
| SetupInfoServer.Server.HandlePairingStart | HomeKitADK-master/HAP/HAPAccessorySetupInfo.c:392-407 | locks the setup |
| SetupInfoServer.Server.HandlePairingStop | HomeKitADK-master/HAP/HAPAccessorySetupInfo.c:409-434 | keeps or clears the setup |
| SetupInfoServer.Server.RefreshSetupPayload | HomeKitADK-master/HAP/HAPAccessorySetupInfo.c:438-451 | replaces the code only while its refresh timer is live |
| SetupInfoServer.Server.CompleteExitingNfcPairingMode | HomeKitADK-master/HAP/HAPAccessorySetupInfo.c:455-466 | clears a setup that is neither locked nor being refreshed |
| SetupInfoServer.Server.NfcPairingModeExpired | HomeKitADK-master/HAP/HAPAccessorySetupInfo.c:468-477 | ends NFC pairing mode |
| SetupInfoServer.Server.EnterNfcPairingMode | HomeKitADK-master/HAP/HAPAccessorySetupInfo.c:479-518 | starts or extends NFC pairing mode while unpaired |
| SetupInfoServer.Server.ExitNfcPairingMode | HomeKitADK-master/HAP/HAPAccessorySetupInfo.c:520-534 | ends NFC pairing mode if it is on |
| SetupInfoServer.Server.EnterLegacyPairingMode | HomeKitADK-master/HAP/HAPAccessorySetupInfo.c:536-559 | prepares a setup only while nobody is pairing or paired |
| SetupInfoServer.Server.ServerStart | HomeKitADK-master/HAP/HAPAccessoryServer.c:597-620 | the accessory is there before the setup code learns of the start; a second start is refused |
| SetupInfoServer.Server.ServerStop | HomeKitADK-master/HAP/HAPAccessoryServer.c:20-26 | the accessory goes only after the setup code has been cleared and shown as such |
| SetupInfoServer.Server.Handle | HomeKitADK-master/HAP/HAPAccessorySetupInfo.c:276-559 | every callback takes the object exactly as the step of the state machine says |
| SetupPayload.DivideBy36 | HomeKitADK-master/HAP/HAPAccessorySetup.c:145-162 | for every x below 2^48 the shifts and the correction give exactly x / 36 and x % 36 |
| SetupPayload.EightNinthsBounds | HomeKitADK-master/HAP/HAPAccessorySetup.c:149-154 | the sum of shifted copies is between 8x/9 - 5 and 8(x + 1)/9 |
| SetupPayload.RemainderIn32Bits | HomeKitADK-master/HAP/HAPAccessorySetup.c:155-158 | the remainder survives the reduction of both operands to 32 bits |
| SetupPayload.WriteBase36 | HomeKitADK-master/HAP/HAPAccessorySetup.c:143-177 | the nine characters are digits and capital letters that stand for the word in base 36, and the rest of the buffer is untouched |
| SetupPayload.AlphabetChar | HomeKitADK-master/HAP/HAPAccessorySetup.c:165-172 | the branch-free transformation gives the digits and capital letters |
| SetupPayload.WordFields | HomeKitADK-master/HAP/HAPAccessorySetup.c:123-141 | category, flags and setup code can be read back from the packed word |
| SetupPayload.PayloadIsUnambiguous | HomeKitADK-master/HAP/HAPAccessorySetup.c:102-193 | one payload stands for one category (eight bits), set of flags, valid setup code or none, and setup ID |
| SetupPayload.ZeroCodeIsAmbiguous | HomeKitADK-master/HAP/HAPAccessorySetup.c:102-141 | the format check alone would not do: code 000-00-000 has the payload of no code |
| SetupPayload.PayloadIsDetermined | HomeKitADK-master/HAP/HAPAccessorySetup.c:102-193 | a setup has exactly one payload |
| SetupPayload.ExpectedPayloadOverIp | HomeKitADK-master/Tests/HAPAccessorySetupGetSetupPayloadTest.c:10 | the payload that the test expects |
| SetupPayload.ExpectedPayloadOverBle | HomeKitADK-master/Tests/HAPAccessorySetupGetSetupPayloadTest.c:13 | the payload that the test expects |
| SetupPayload.ExpectedPayloadsWithoutCode | HomeKitADK-master/Tests/HAPAccessorySetupGetSetupPayloadTest.c:11-12 | the payloads that the test expects |
| SetupPayload.GetSetupPayload | HomeKitADK-master/HAP/HAPAccessorySetup.c:102-193 | prefix, nine digits and capital letters for the packed word, setup ID and terminator |
| SetupPayload.IsValidSetupCode | HomeKitADK-master/HAP/HAPAccessorySetup.c:10-39 | the counting loop accepts exactly the codes of the right format that are not trivial |
| SetupPayload.TrivialCodesAreRuns | HomeKitADK-master/HAP/HAPAccessorySetup.c:36-38 | the twelve trivial codes are exactly the runs of equal digits, of 1 up and of 8 down |
| BroadcastConfiguration.ConfigurationStore.Get | HomeKitADK-master/HAP/HAPBLECharacteristic+Broadcast.c:134-205 | lookup in the map; a record of an impossible length is an error |
| BroadcastConfiguration.ConfigurationStore.Enable | HomeKitADK-master/HAP/HAPBLECharacteristic+Broadcast.c:207-314 | map update, rejected exactly when the ID is new and 41 entries are stored, in which case nothing changes |
| BroadcastConfiguration.ConfigurationStore.Disable | HomeKitADK-master/HAP/HAPBLECharacteristic+Broadcast.c:316-395 | map removal; the record goes with its last entry |
| BroadcastConfiguration.ConfigurationStore.LoadInto | HomeKitADK-master/HAP/HAPBLECharacteristic+Broadcast.c:34-132 | the checks on length and accessory ID |
| BroadcastConfiguration.ConfigurationStore.Find | HomeKitADK-master/HAP/HAPBLECharacteristic+Broadcast.c:175-204 | the scan ends at the entry of an ID or where it belongs |
| BroadcastConfiguration.ConfigurationStore.InsertEntry | HomeKitADK-master/HAP/HAPBLECharacteristic+Broadcast.c:303-312 | the overlapping copy makes room, and no other byte changes |
| BroadcastConfiguration.ConfigurationStore.RemoveEntry | HomeKitADK-master/HAP/HAPBLECharacteristic+Broadcast.c:378-392 | the overlapping copy closes the gap |
| BroadcastConfiguration.ConfigurationStore.Replace | HomeKitADK-master/HAP/HAPBLECharacteristic+Broadcast.c:266-291 | only the interval byte changes, and the store is written only if it differs |
| BroadcastConfiguration.LookupAtPosition | HomeKitADK-master/HAP/HAPBLECharacteristic+Broadcast.c:175-204 | an ID is in the map if and only if the entry at its position has it |
| BroadcastConfiguration.InsertedRecord | HomeKitADK-master/HAP/HAPBLECharacteristic+Broadcast.c:294-313 | the edited bytes are an ascending record of the updated map |
| BroadcastConfiguration.ReplacedRecord | HomeKitADK-master/HAP/HAPBLECharacteristic+Broadcast.c:266-291 | the edited byte gives the record of the updated map |
| BroadcastConfiguration.RemovedRecord | HomeKitADK-master/HAP/HAPBLECharacteristic+Broadcast.c:354-394 | the edited bytes are an ascending record of the map without the ID |
| BroadcastConfiguration.AtMost41Entries | HomeKitADK-master/HAP/HAPBLECharacteristic+Broadcast.c:294 | no sequence of the operations that Enable and Disable are proved to perform stores more than 41 entries |
| BroadcastConfiguration.LastOperationHolds | HomeKitADK-master/HAP/HAPBLECharacteristic+Broadcast.c:134-395 | over every sequence of operations on at most 41 characteristics, a characteristic is enabled, and with which interval, exactly as the last operation on it says |
| BroadcastConfiguration.RecordBytes | HomeKitADK-master/HAP/HAPBLECharacteristic+Broadcast.c:34-132 | the bytes of a record: accessory ID 1, and for each entry of the map its ID, lower byte first, and its interval, in ascending order |
| Pdu.Deserialize | HomeKitADK-master/HAP/HAPBLEPDU.c:309-401 | accepts exactly the bytes of proper first fragments and returns the one that they encode |
| Pdu.DeserializeContinuation | HomeKitADK-master/HAP/HAPBLEPDU.c:403-475 | accepts exactly the bytes of continuations of the kind that fit what is left of the body |
| Pdu.DeserializeControlField | HomeKitADK-master/HAP/HAPBLEPDU.c:256-307 | accepts exactly the control fields of some header |
| Pdu.DeserializeFixedParams | HomeKitADK-master/HAP/HAPBLEPDU.c:336-361 | the fixed parameters, refused exactly when there are too few bytes |
| Pdu.Serialize | HomeKitADK-master/HAP/HAPBLEPDU.c:586-690 | writes exactly the encoding, and fails exactly when it does not fit |
| Pdu.DecodedOfEncode | HomeKitADK-master/HAP/HAPBLEPDU.c:309-401 | parse of serialize is the identity on proper first fragments |
| Pdu.DecodedContinuationOfEncode | HomeKitADK-master/HAP/HAPBLEPDU.c:403-475 | parse of serialize is the identity on continuations |
| Pdu.EncodeFirstInjective | HomeKitADK-master/HAP/HAPBLEPDU.c:586-690 | different first fragments have different bytes |
| Pdu.EncodedBytes | HomeKitADK-master/HAP/HAPBLEPDU.c:586-690 | the bytes of requests, responses and continuations with a body, one by one |
| Pdu.EncodedBytesWithoutBody | HomeKitADK-master/HAP/HAPBLEPDU.c:586-690 | the same without a body |
| Pdu.RoundTripExactlyWhenProper | HomeKitADK-master/HAP/HAPBLEPDU.c:638-658 | a first fragment comes back if and only if it does not claim a body length without a body |
| Transactions.SplitRequestIsReassembled | HomeKitADK-master/HAP/HAPBLETransaction.c:50-141 | any split of a body of up to 65535 bytes into a first fragment and continuations, empty ones included, is reassembled to the same header and body |
| Transactions.ReceivedWithinTotal | HomeKitADK-master/HAP/HAPBLETransaction.c:29-48 | whatever packets arrive, the receiver never takes more than the announced length, and keeps what it has |
| Transactions.RequestAcceptedExactlyWhen | HomeKitADK-master/HAP/HAPBLETransaction.c:56-83 | a first packet is accepted if and only if its bytes are a request header, alone or with a length and at most as many bytes; with the fields that it yields |
| Transactions.ContinuationAcceptedExactlyWhen | HomeKitADK-master/HAP/HAPBLETransaction.c:84-110 | a continuation is accepted if and only if it begins with 0x80 and the transaction ID and brings no more than is missing; then its bytes are appended |
| Transactions.ResponseIsCollected | HomeKitADK-master/HAP/HAPBLETransaction.c:210-314 | for any sequence of buffer sizes the controller collects exactly what was sent, and the whole body when there are enough buffers |
| Transactions.PacketIsCollected | HomeKitADK-master/HAP/HAPBLETransaction.c:210-314 | each packet extends what was collected to what was sent |
| Transactions.FragmentFillsBuffer | HomeKitADK-master/HAP/HAPBLETransaction.c:229-306 | a packet fills its buffer or is the last one |
| Transactions.SendRefusedExactlyWhen | HomeKitADK-master/HAP/HAPBLETransaction.c:229-306 | a buffer is refused if and only if it is smaller than the header and, in the first packet of a body, its length |
| Transactions.ContinuationsProgress | HomeKitADK-master/HAP/HAPBLETransaction.c:268-306 | with buffers of three bytes or more every packet carries a byte until the body is complete |
| Transactions.Transaction.HandleWrite | HomeKitADK-master/HAP/HAPBLETransaction.c:50-141 | takes a packet as the receiver specifies; after the request has arrived only an empty continuation, compared with the opcode until the response is set; nothing while the response is read |
| Transactions.ContinuationBeforeAnswer | HomeKitADK-master/HAP/HAPBLETransaction.c:113-134 | a request, its fetching and an empty continuation before the answer: the continuation is accepted if and only if its transaction ID is the opcode of the request |
| Transactions.Transaction.TryAppendBodyFragment | HomeKitADK-master/HAP/HAPBLETransaction.c:29-48 | appends to what was received, in the buffer as long as the whole body fits it |
| Transactions.Transaction.IsRequestAvailable | HomeKitADK-master/HAP/HAPBLETransaction.c:143-149 | a request is available exactly when the announced length has arrived |
| Transactions.Transaction.GetRequest | HomeKitADK-master/HAP/HAPBLETransaction.c:151-176 | the body as received, or none if it did not fit the buffer |
| Transactions.Transaction.SetResponse | HomeKitADK-master/HAP/HAPBLETransaction.c:178-208 | a response for the transaction of the request, with nothing sent yet |
| Transactions.Transaction.HandleRead | HomeKitADK-master/HAP/HAPBLETransaction.c:210-314 | writes the next fragment that fits, and tells whether it is the last; refused without effect when there is no response |
| ServiceIndex.LookupOfNumber | HomeKitADK-master/HAP/HAPAccessoryServer.c:1560-1660 | looking up the number of a listed service gives back service and accessory, and the number is below the instance count |
| ServiceIndex.NumberOfLookup | HomeKitADK-master/HAP/HAPAccessoryServer.c:1560-1660 | when every pair is listed once, the number of what a number looks up is that number |
| ServiceIndex.ListedInOrder | HomeKitADK-master/HAP/HAPAccessoryServer.c:1521-1660 | the services that are numbered: all of the primary accessory, then all of each bridged accessory, in order, and no others |
| ServiceIndex.GetNumServiceInstances | HomeKitADK-master/HAP/HAPAccessoryServer.c:1521-1558 | the count of services of a type, refused exactly when it exceeds 16 bits |
| ServiceIndex.GetServiceTypeIndex | HomeKitADK-master/HAP/HAPAccessoryServer.c:1560-1608 | the number of a service, refused exactly when it is not listed or exceeds 16 bits |
| ServiceIndex.GetServiceFromServiceTypeIndex | HomeKitADK-master/HAP/HAPAccessoryServer.c:1610-1660 | the service with a number, none exactly when there are not as many |
| Firmware.ParseVersionString | HomeKitADK-master/HAP/HAPAccessoryServer.c:332-381 | accepts exactly one to three decimal numbers of at most 32 bits between dots, and returns their values |
| Firmware.JoinOfSplit | HomeKitADK-master/HAP/HAPAccessoryServer.c:332-381 | the parts of a string and their dots are the string, so that the definition of a version is about the whole string |
| Firmware.VersionOfText | HomeKitADK-master/HAP/HAPAccessoryServer.c:332-381 | every version, written with one, two or three decimal numbers, is read back; numbers left out are zero |
| Firmware.AppendDigit | HomeKitADK-master/HAP/HAPAccessoryServer.c:364-373 | overflow is detected exactly |
| Firmware.NarrowedNumbersCount | HomeKitADK-master/HAP/HAPAccessoryServer.c:1100-1102 | after any number of increments, overflow to 1 included, the 16-bit number has counted 1 to 65535 and the 8-bit number 1 to 255 over and over without a skip |
| Firmware.RefusedExactlyWhenDowngraded | HomeKitADK-master/HAP/HAPAccessoryServer.c:540-595 | a start is refused, and changes nothing, if and only if the version is smaller by major, minor and revision number; any other start stores it, and the configuration number goes on exactly when it is newer |
| Firmware.VersionRecord | HomeKitADK-master/HAP/HAPAccessoryServer.c:580-583 | the twelve stored bytes: major, minor, revision, lowest byte first |
| Firmware.StoredVersionGrows | HomeKitADK-master/HAP/HAPAccessoryServer.c:490-595 | over any sequence of starts, completed or cut off, the stored version only grows and ends as the newest that was completed |
| Firmware.ConfigurationCountsUpdates | HomeKitADK-master/HAP/HAPAccessoryServer+Reset.c:64-68 | the configuration number is incremented exactly once for each update and once for each update that loses power before its version is written |
| Firmware.Bookkeeping.GetCn | HomeKitADK-master/HAP/HAPAccessoryServer.c:1045-1105 | the narrowed number; 1 is stored when there is none; a record that is too short is an error |
| Firmware.Bookkeeping.IncrementCn | HomeKitADK-master/HAP/HAPAccessoryServer.c:1107-1159 | the next number, 1 after the largest; bytes that a record lacks are those of the buffer |
| Firmware.Bookkeeping.CheckFirmware | HomeKitADK-master/HAP/HAPAccessoryServer.c:490-595 | fatal exactly for a malformed version or a record that is too short, no start, and nothing changed, exactly when the stored version is larger, an increment exactly for an update |
| Firmware.Bookkeeping.CheckFirmwareUntilCut | HomeKitADK-master/HAP/HAPAccessoryServer.c:567-595 | the check up to a loss of power: an update has incremented the configuration number and not stored its version |
| Pairings.AdminOrUnpaired | HomeKitADK-master/HAP/HAPAccessoryServer.c:1020-1033 | after any sequence of pair setup, additions, changes, removals and starts, the accessory is unpaired or has an admin, and never more pairings than slots |
| Pairings.PublicKeyStays | HomeKitADK-master/HAP/HAPPairingPairings.c:165-177 | a public key stays bound to its identifier as long as the identifier stays paired |
| Pairings.PairingIsLastAskedFor | HomeKitADK-master/HAP/HAPPairingPairings.c:149-280 | after any sequence of requests a pairing is what the last one asked for that was about its identifier and key |
| Pairings.AddingEffect | HomeKitADK-master/HAP/HAPPairingPairings.c:165-280 | a new identifier gets exactly the key and the permissions of the request while a slot is free; a known one with its key gets the permissions, and all pairings go if that leaves no admin; a refused request changes nothing |
| Pairings.RemovalEffect | HomeKitADK-master/HAP/HAPPairingPairings.c:468-505 | a removed pairing is gone; the others stay, or all go when none of them is an admin's |
| Pairings.PairingStore.AddPairing | HomeKitADK-master/HAP/HAPPairingPairings.c:149-280 | refines the map: only a paired admin may ask, and a controller without a record is refused as unknown; a known identifier changes its permissions, only with its own key; a new one gets a free slot, refused exactly when all are taken |
| Pairings.PairingStore.RemovePairing | HomeKitADK-master/HAP/HAPPairingPairings.c:468-505 | refines map removal, followed by the clean-up |
| Pairings.PairingStore.CleanupPairings | HomeKitADK-master/HAP/HAPAccessoryServer.c:988-1043 | without an admin no pairing and no broadcast parameters are left; otherwise nothing changes |
| Pairings.PairingStore.FindAdmin | HomeKitADK-master/HAP/HAPAccessoryServer.c:934-985 | in any order of enumeration an admin is found exactly when there is one |
| Pairings.PairingStore.Find | HomeKitADK-master/HAP/HAPPairing.c:55-137 | in any order of enumeration a pairing is found exactly when its identifier is paired |
| Pairings.PairingStore.FindSlot | HomeKitADK-master/HAP/HAPPairingPairings.c:211-241 | the lowest free slot; none exactly when there are as many pairings as slots |
| Pairings.PairingStore.StoreFirstPairing | HomeKitADK-master/HAP/HAPPairingPairSetup.c:999-1024 | the first controller becomes an admin in slot 0 |
| Pairings.BuildRecord | HomeKitADK-master/HAP/HAPPairingPairings.c:257-265 | the record of 70 bytes, with identifier, its length, public key and permissions at their places |
| RequestCompaction.ParseRequest | HomeKitADK-master/HAP/HAPBLECharacteristicParseAndWriteValue.c:36-217 | succeeds exactly on well-formed requests; value and authorization data keep their content and terminators, the authorization data are clear of the value and of the room after it, which is all that is left of the buffer |
| RequestCompaction.CompactBoth | HomeKitADK-master/HAP/HAPBLECharacteristicParseAndWriteValue.c:161-198 | both moves, in either order of the regions, preserve both contents |
| RequestCompaction.CompactValue | HomeKitADK-master/HAP/HAPBLECharacteristicParseAndWriteValue.c:198-211 | the single move preserves the value and leaves all the room behind it |
| AccessList.AccessLists.Append | CGuard.c:162-179 | one occurrence more at the front of the list of the right; the other list is untouched; refused exactly for a bad argument or without memory |
| AccessList.AccessLists.Check | CGuard.c:181-198 | succeeds exactly when the multiplicity is positive |
| AccessList.AccessLists.Delete | CGuard.c:200-229 | one occurrence less, or failure exactly when there is none, with both lists unchanged; the lists stay acyclic and disjoint |
| AccessList.RemoveFirstTakesOne | CGuard.c:205-224 | removing the first occurrence takes exactly one from the multiset |
| AccessList.DeleteUndoesAppend | CGuard.c:162-229 | whatever is appended and deleted of other entries in between, deleting an appended entry leaves the list as if it had never been appended |
| Bytes.CopyBytes | HomeKitADK-master/PAL/HAPBase+RawBuffer.c:20-36 | the copy between overlapping regions acts as if through a temporary buffer |
| Bytes.Little16 | HomeKitADK-master/PAL/HAPBase.h:377-392 | reading what was written gives it back |
| AdvertisingServer.Server.Create | HomeKitADK-master/HAP/HAPAccessoryServer.c:146 | the server object is zeroed, the stored records are not |
| AdvertisingServer.Server.LosePower | HomeKitADK-master/HAP/HAPAccessoryServer+Reset.c:70-91 | the writes up to a loss of power within an increment or an update, then a zeroed server |
| AdvertisingServer.Server.Handle | HomeKitADK-master/HAP/HAPBLEAccessoryServer+Advertising.c:451-1144 | every callback takes the object exactly as the step of the state machine says, so that the results about runs are about the object |
| Pdu.DeserializeBody | HomeKitADK-master/HAP/HAPBLEPDU.c:364-401 | the body of a first fragment, refused exactly when no proper first fragment with this header has these bytes |

## Left out

- Cryptography: authenticated encryption is an uninterpreted function that keeps the length; key derivation, SRP, signatures and hashes are inputs.
- Failures of the key-value store: its operations succeed. Records that are too short or too long are modelled.
- Real time and advertising intervals of the regular format: a timer is set, cleared or fired.
- The IP transport, its server engine and its sessions, except for what a removal of pairings over it does to the broadcast key.
- The BLE peripheral manager.
- AdvertisingServer.Server.DidRaiseEvent: leaves out the notification over a connection (lines 714-732), which is a run of DidSendEventNotification before it.
- AdvertisingServer.Server.HandleFirmwareUpdate: leaves out the configuration number, which Firmware.Bookkeeping.CheckFirmware increments.
- AdvertisingServer.Server.Start: takes the outcomes of the version comparison and of the search for an admin as parameters; they are modelled by Firmware.Bookkeeping.CheckFirmware and Pairings.PairingStore.FindAdmin.
- Broadcasts of characteristics of format string or TLV8, which abort the program, and read handlers that call back into the server.
- The TLV reader and writer and the validation of pairing requests; regions and requests are inputs in the form the reader guarantees.
- The AWS client, the MQTT commands, command-line parsing and everything in Python.
- HAPAccessoryValidation.c, signature and configuration responses, subscribe and unsubscribe dispatch, setup hash, logging and formatting.
- BroadcastConfiguration.ConfigurationStore.LoadInto: one record, because accessory IDs other than 1 are refused by a precondition of the original.
- Transactions.Transaction.HandleRead: requires a body for reads after the first, as the assertion at HAPBLETransaction.c:283 does.
- AccessList.AccessLists.Delete: requires a non-empty list, because the head is read without a test (CGuard.c:206-207).
- Pairings.PairingStore.StoreFirstPairing: requires an unpaired accessory, which pair setup checks in an earlier message.
- The pair-resume cache and the invalidation of sessions when a pairing is removed.
