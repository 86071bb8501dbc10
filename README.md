# A model of the shaas access-control node

The node is an Arduino board that guards a door and reports on a room. An RFID reader
checks cards against a whitelist kept in EEPROM. An MQTT broker delivers registration and
revocation requests, sensor configuration and relay commands. A climate/light/motion sensor
scheduler publishes readings; the motion sensors are read and the buzzers driven through a
16-channel multiplexer, while the light sensors are read from their own analog pins. A
serial link drives a relay board. Until the node has a configuration, it waits for one over Bluetooth.

This project models the node's core in Dafny and proves what each part promises. Each
component becomes a module:

- `Common`: 32-bit clock arithmetic, C strings, and the board's EEPROM as one shared byte
  array of 8192 bytes, written byte by byte.
- `WhitelistStore`: the persistent whitelist at EEPROM address 512. It holds up to five
  length-prefixed UID records packed back to back. The module covers the lookup
  (`is_whitelisted`), the save, and the delete, and relates the byte-level loops to
  functions over the EEPROM contents.
- `WhitelistManager`: the RFID service. It holds the last UID read and, on `update`, either
  answers the authentication topic or registers the UID and announces it.
- `SecurityService`: the door service. A card read starts an asynchronous authentication
  and a registration request starts a registration. Each ends when its answer arrives or
  after 5000 ms on the wrap-around millisecond clock.
- `Configs`: the configuration engine. It holds a 36-byte versioned record of up to 2
  climate, 2 light and 4 motion modules, stored at address 1024. The module has the record's
  byte image, its read-back, and the load, save, set and lookup operations.
- `ConfigManager`: the provisioning record at address 0. It is a 4-byte magic word
  followed by the JSON text received over Bluetooth.
- `CredentialStore`: Bluetooth provisioning of network credentials. It collects printable
  bytes until the text parses, and stores the text as a C string at address 1024.
- `Multiplexer`: the select pins spell out the channel in binary.
- `Relays`: the packed 4-byte command record sent to the relay board.
- `Sensors`: the sensor scheduler. Each group runs when its interval has passed and
  publishes one message per module present. The pin events it causes on the multiplexer
  (buzzer writes, channel selections for the motion sensors) are recorded as well.
- `Mqtt`: the broker client as an outbox of publications and subscriptions.
- `Routing`: the six topics a device subscribes to, exact-match dispatch, and the decoded
  message shapes.
- `Monitor`: the system monitor's lifecycle state machine (WAIT_CONFIG, CONNECT_WIFI,
  CONNECT_MQTT, READY) and the handlers for broker messages.

EEPROM layout, as the code uses it:
- From 0: the provisioning text, with up to 508 bytes after the magic word.
- From 512: the whitelist.
- From 1024: the configuration record. The credentials text uses the same address.

Outside inputs become method parameters: what the radio, the broker connection, the
serial link, the sensors, the card reader and the JSON/protobuf libraries report. The clock
(`millis()`) is a `now` parameter.

## Model

| member | source | states |
|---|---|---|
| Common.Elapsed | src/services/security.cpp:79-80 | `now - start` in unsigned 32-bit arithmetic: the plain difference, or the difference plus 2^32 when the clock wrapped |
| Common.CString | src/communication/credentials.cpp:203 | the text `String(buffer)` takes: a prefix of the buffer with no NUL, followed by a NUL unless the buffer ran out |
| Common.CStringOfTerminated | src/communication/credentials.cpp:183 | a NUL-free text written with its terminator reads back as exactly that text, whatever follows |
| Common.CStringOfNulFree | src/communication/credentials.cpp:202-203 | a NUL-free text filling the whole buffer reads back whole |
| Common.Overwrite | src/communication/credentials.cpp:178-181 | writing a run of bytes from an address puts exactly those bytes there and leaves every other address alone |
| Common.OverwriteExtend | src/communication/credentials.cpp:178-183 | writing a text and then one byte right after it is one write of the longer run |
| Common.OverwriteAdjacent | include/communication/config_manager.h:75-83 | the magic word followed by the adjacent text and NUL is one write of the whole image |
| Common.Zeroed | src/communication/credentials.cpp:242-245 | clearing an area sets exactly its bytes to 0 and nothing else |
| Common.Eeprom.Write | include/services/system_monitor.h:288 | `EEPROM.write` changes exactly one address |
| Common.Eeprom.Put | include/communication/config_manager.h:75 | a multi-byte put writes its bytes from the address on and nothing else |
| Common.Eeprom.Clear | src/communication/credentials.cpp:242-245 | zeroes exactly the given area |
| WhitelistStore.RecordAt | src/services/whitelist_manager.cpp:157-167 | the record at an address has as many UID bytes as its length byte says |
| WhitelistStore.Visited | src/services/whitelist_manager.cpp:153-175 | the scan visits at most five records, each at or after 512 and with a non-empty length byte |
| WhitelistStore.FindRecord | src/services/whitelist_manager.cpp:155-177 | a record found by the lookup lies inside the scanned area |
| WhitelistStore.FindRecordIsFirstMatch | src/services/whitelist_manager.cpp:155-177 | the lookup answers the first visited record equal to the UID, and nothing exactly when no visited record equals it |
| WhitelistStore.FreeSlot | src/services/whitelist_manager.cpp:137-148 | the free position the save finds has an empty (0 or 0xFF) length byte |
| WhitelistStore.FreeSlotFollowsVisited | src/services/whitelist_manager.cpp:137-148 | a free position exists exactly when the scan visits fewer than five records, and it follows the last one visited |
| WhitelistStore.InsertAt | src/services/whitelist_manager.cpp:140-145 | where there is a free position, the save writes the length byte and the UID bytes there |
| WhitelistStore.Insert | src/services/whitelist_manager.cpp:134-149 | a save never touches the bytes below the whitelist area, and leaves EEPROM unchanged when no free position is found |
| WhitelistStore.SavedUidIsWhitelisted | src/services/whitelist_manager.cpp:134-178 | a UID of 1 to 10 bytes saved where there is room is found by the next lookup |
| WhitelistStore.FoundAfterWrite | src/services/whitelist_manager.cpp:134-178 | after a record is written at the free position, a scan from any earlier point finds the UID |
| WhitelistStore.SaveKeepsWhitelisted | src/services/whitelist_manager.cpp:134-178 | saving a UID keeps every already whitelisted UID whitelisted, at the same record |
| WhitelistStore.FoundBeforeWrite | src/services/whitelist_manager.cpp:134-178 | a write at or after the free position does not change any lookup that succeeded before it |
| WhitelistStore.DeleteTruncates | src/services/whitelist_manager.cpp:151-178 | zeroing a visited record's length byte ends every later scan there: only matches before it are still found |
| WhitelistStore.DeletedUidNotWhitelisted | src/services/whitelist_manager.cpp:28-95 | after `delete_uid` removes its record, the UID is no longer whitelisted |
| WhitelistStore.FreeSlotAfterDelete | src/services/whitelist_manager.cpp:134-149 | after a delete, the next save reuses the deleted record's position |
| WhitelistStore.LongerSaveAfterDeleteOverwritesNextRecord | src/services/whitelist_manager.cpp:134-149 | saving a longer UID into a deleted record's position overwrites the length byte of the record after it with a UID byte |
| WhitelistStore.RecordByteAt | src/services/whitelist_manager.cpp:143-144 | UID byte `i` of a written record lands at the address after the length byte plus `i` |
| WhitelistStore.ScanReadsOnlyItsArea | src/services/whitelist_manager.cpp:153-175 | with records of at most 10 bytes, the scan reads only the first 55 bytes of the area, so writes elsewhere do not change it |
| WhitelistStore.WhitelistIgnoresWritesFrom1024 | src/services/whitelist_manager.cpp:151-178 | when every visited record is at most 10 bytes long, as saves write them, writes at address 1024 and beyond (configuration, credentials) never change which UIDs are whitelisted |
| WhitelistStore.CompareRecord | src/services/whitelist_manager.cpp:161-167 | the byte loop reports a match exactly when the record equals the UID, including its length |
| WhitelistStore.ScanAdvances | src/services/whitelist_manager.cpp:174 | moving on past a non-matching record leaves the lookup's answer unchanged |
| WhitelistStore.SlotAdvances | src/services/whitelist_manager.cpp:147 | moving on past an occupied record leaves the free-position answer unchanged |
| WhitelistStore.IsWhitelisted | src/services/whitelist_manager.cpp:151-178 | the loop answers exactly the specified lookup over the EEPROM contents |
| WhitelistStore.LocateFreeSlot | src/services/whitelist_manager.cpp:136-148 | the save's scan finds exactly the specified free position |
| WhitelistStore.WriteRecord | src/services/whitelist_manager.cpp:142-144 | writes the length byte and the UID bytes and changes nothing else |
| WhitelistStore.SaveToEeprom | src/services/whitelist_manager.cpp:134-149 | the EEPROM afterwards is the specified insertion; a full store is left unchanged |
| WhitelistStore.RecordMatches | src/services/whitelist_manager.cpp:58-71 | the delete's comparison reports a match exactly when the record equals the UID |
| WhitelistStore.LocateRecord | src/services/whitelist_manager.cpp:45-92 | the delete's scan stops at exactly the record the lookup finds |
| WhitelistStore.DeleteUid | src/services/whitelist_manager.cpp:28-95 | a missing, empty or over-long UID is refused; otherwise the first matching record's length byte is zeroed, and nothing changes when there is no match |
| WhitelistManager.WhiteListManager.constructor | include/services/whitelist_manager.h:29-35 | starts in authentication mode with no pending UID and no broker client |
| WhitelistManager.WhiteListManager.Init | src/services/whitelist_manager.cpp:8-12 | takes the broker client and device uid; the mode and pending UID are kept |
| WhitelistManager.WhiteListManager.SetModeRegistration | src/services/whitelist_manager.cpp:14-17 | switches to registration mode and changes nothing else |
| WhitelistManager.WhiteListManager.SetUid | src/services/whitelist_manager.cpp:19-26 | a UID longer than 10 bytes is ignored; otherwise it becomes the pending UID |
| WhitelistManager.WhiteListManager.ResetResponse | include/services/whitelist_manager.h:43 | clears the awaiting-response flag only |
| WhitelistManager.WhiteListManager.SetRegistrationRequestId | include/services/whitelist_manager.h:44 | stores the request id only |
| WhitelistManager.WhiteListManager.GetResponse | include/services/whitelist_manager.h:46 | between calls no registration is awaiting its answer, because `update` sets and clears the flag in one call |
| WhitelistManager.WhiteListManager.Update | src/services/whitelist_manager.cpp:96-132 | with nothing pending, nothing happens. In authentication mode it publishes "true" exactly when the UID is whitelisted. In registration mode a known UID is left alone, and an unknown one is inserted into the store and announced unless encoding fails. Once a pending UID is handled, the mode is authentication and nothing is pending |
| WhitelistManager.WhiteListManager.PublishUidForRegistration | src/services/whitelist_manager.cpp:180-215 | publishes the request id and the pending UID on `arduino/<uid>/rfid`, or nothing when encoding fails |
| SecurityService.Security.constructor | include/services/security.h:19-21 | no reader, lock or authenticator; nothing pending; start time 0 |
| SecurityService.Security.Init | src/services/security.cpp:11-24 | succeeds exactly when the authenticator is present and the reader and lock start; a failed reader leaves the lock absent |
| SecurityService.Security.ReadCard | src/services/security.cpp:26-50 | a card read starts an authentication, at time `now`, exactly when reader and authenticator exist and nothing is pending |
| SecurityService.Security.RegisterUid | src/services/security.cpp:52-69 | only a pending registration blocks a new one; an accepted card starts one and restarts the shared timer |
| SecurityService.Security.Handle | src/services/security.cpp:71-113 | each pending operation ends exactly when its answer is there or 5000 ms have passed on the wrap-around clock; the calls on the lock are exactly `HandleCalls`: the lock's own `handle`, an unlock on a successful authentication and a lock on a successful registration, through a possibly absent lock |
| SecurityService.HandleCalls | src/services/security.cpp:71-113 | at most three calls; `handle` is called on the lock exactly when there is one, `unlock` exactly on a successful authentication and `lock` exactly on a successful registration with a lock, and a call goes through the missing lock exactly when one of those succeeds without a lock |
| SecurityService.BothOperationsPending | src/services/security.cpp:26-63 | a card read followed by a registration request leaves both operations pending at once |
| SecurityService.RegistrationDelaysAuthTimeout | src/services/security.cpp:52-80 | the shared start time means a later registration pushes back the pending authentication's timeout |
| SecurityService.UnlockWithoutLock | src/services/security.cpp:18-86 | with a reader that failed to start, the lock is never created, yet a successful authentication still calls unlock on it |
| Configs.Serialize | include/services/config_engine.h:62-73 | the record's image is 36 bytes, as `sizeof(config_data)` |
| Configs.ParseAt | include/services/config_engine.h:62-73 | the record read from 36 bytes has tables of the fixed capacities |
| Configs.ParseCopy | src/services/config_engine.cpp:39-43 | reading the record from a copy of its 36 bytes equals reading it in place |
| Configs.ClimatesReadBack | include/services/config_engine.h:62-73 | the climate table reads back from its bytes in the image |
| Configs.LdrsReadBack | include/services/config_engine.h:62-73 | the LDR table reads back from its bytes in the image |
| Configs.MotionsReadBack | include/services/config_engine.h:62-73 | the motion table reads back from its bytes in the image |
| Configs.ParseSerialize | src/services/config_engine.cpp:39-69 | a saved record loads back unchanged |
| Configs.SerializeParse | src/services/config_engine.cpp:39-69 | a 36-byte image whose two bool bytes are 0 or 1 is the image of the record it holds |
| Configs.StoredAfterSave | src/services/config_engine.cpp:65-69 | after `save_config`, the record stored at 1024 is the saved one |
| Configs.ConfigEngine.constructor | src/services/config_engine.cpp:7-10 | the record starts all zero |
| Configs.ConfigEngine.Init | src/services/config_engine.cpp:27-31 | loads the stored record, resetting a bad header; afterwards memory and EEPROM agree |
| Configs.ConfigEngine.LoadConfig | src/services/config_engine.cpp:39-58 | a stored record with version 1 and size 36 is taken as it is and EEPROM is untouched. Any other record keeps its tables, gets version 1, size 36 and zero counts, and is saved back. Always succeeds |
| Configs.ConfigEngine.SaveConfig | src/services/config_engine.cpp:65-69 | writes the record's image at 1024 and nothing else |
| Configs.ConfigEngine.SetDefaultConfig | src/services/config_engine.cpp:76-83 | the record and its stored image become the default record |
| Configs.ConfigEngine.SetFullConfig | src/services/config_engine.cpp:91-102 | a record whose size field is 36 replaces the current one and is saved; any other is refused with nothing changed |
| Configs.ConfigEngine.SetClimateConfig | src/services/config_engine.cpp:110-117 | appends the entry and saves exactly when the table has room; otherwise nothing changes |
| Configs.ConfigEngine.SetLdrConfig | src/services/config_engine.cpp:125-132 | appends the entry and saves exactly when the table has room; otherwise nothing changes |
| Configs.ConfigEngine.SetMotionConfig | src/services/config_engine.cpp:140-147 | appends the entry and saves exactly when the table has room; otherwise nothing changes |
| Configs.ConfigEngine.GetClimateConfig | src/services/config_engine.cpp:155-163 | the first configured entry with the id, or the all-zero entry when none has it |
| Configs.ConfigEngine.GetLdrConfig | src/services/config_engine.cpp:171-179 | the first configured entry with the id, or the all-zero entry when none has it |
| Configs.ConfigEngine.GetMotionConfig | src/services/config_engine.cpp:187-195 | the first configured entry with the id, or the all-zero entry when none has it |
| Configs.DuplicateIdIsShadowed | src/services/config_engine.cpp:110-163 | appending a second climate entry with an id already present leaves lookups returning the first |
| ConfigManager.LeWord | include/communication/config_manager.h:32 | the 32-bit word `EEPROM.get` reads from four little-endian bytes fits in 32 bits |
| ConfigManager.MagicWordBytes | include/communication/config_manager.h:32-33 | the word at address 0 equals the magic exactly when its four bytes are the magic's little-endian bytes |
| ConfigManager.Copied | include/communication/config_manager.h:40-46 | the copy loop takes at most 512 NUL-free bytes from address 4 |
| ConfigManager.LoadBuffer | include/communication/config_manager.h:39-48 | the stack buffer holds 512 bytes after the copy and the forced final NUL |
| ConfigManager.SavedImage | include/communication/config_manager.h:75-83 | the image `save` writes is at most 513 bytes: magic, text cut to 508 bytes, NUL |
| ConfigManager.Save | include/communication/config_manager.h:72-85 | writes exactly the magic, the cut text and the NUL from address 0. Always succeeds |
| ConfigManager.Load | include/communication/config_manager.h:27-70 | a wrong magic word fails. Otherwise the parser is handed the C string of the buffer, and `load` succeeds exactly when it parses |
| ConfigManager.CopiedUpTo | include/communication/config_manager.h:40-46 | the copy loop stops at the first NUL, or after 512 bytes |
| ConfigManager.Clear | include/communication/config_manager.h:87-93 | zeroes the first 512 bytes and nothing else |
| ConfigManager.SaveThenLoad | include/communication/config_manager.h:27-85 | after `save` of a NUL-free text, `load` finds the magic word and copies the text cut to 508 bytes, and the parsed text starts with it |
| ConfigManager.LongerThanNulFreePrefix | include/communication/config_manager.h:48-49 | the string read from the buffer starts with any NUL-free prefix of it |
| ConfigManager.LoadedTextIsCopiedWhenBufferEnds | include/communication/config_manager.h:39-49 | the parsed text is exactly the copied text when the buffer byte after the copy is 0 |
| ConfigManager.StaleBytesExtendLoadedText | include/communication/config_manager.h:39-49 | otherwise the parsed text runs on into stale stack bytes, because the copy never writes the terminator |
| ConfigManager.ClearedAreaDoesNotLoad | include/communication/config_manager.h:87-93 | after `clear` the next `load` fails |
| ConfigManager.LongSaveEmptiesWhitelist | include/communication/config_manager.h:72-85 | a text of 508 bytes or more puts its NUL on address 512, and then no UID is whitelisted |
| CredentialStore.Printable | src/communication/credentials.cpp:139-146 | the kept bytes are the chunk's printable ones, in order, so they are NUL-free |
| CredentialStore.PrintableAppend | src/communication/credentials.cpp:139-146 | filtering two chunks equals filtering their concatenation, so the buffer does not depend on how the writes are split |
| CredentialStore.PrintableKeepsText | src/communication/credentials.cpp:139-146 | a printable chunk is kept whole |
| CredentialStore.SavedText | src/communication/credentials.cpp:177-183 | the stored image is the text cut to 511 bytes plus a NUL |
| CredentialStore.LoadedText | src/communication/credentials.cpp:195-203 | the loaded text is shorter than 512 bytes and NUL-free |
| CredentialStore.Credentials.constructor | src/communication/credentials.cpp:15-23 | not connected, no configuration received, empty buffer |
| CredentialStore.Credentials.Init | src/communication/credentials.cpp:29-32 | stores the Bluetooth name only |
| CredentialStore.Credentials.OnConnect | src/communication/credentials.cpp:110-117 | connected, trigger cleared, buffer emptied |
| CredentialStore.Credentials.OnDisconnect | src/communication/credentials.cpp:123-128 | disconnected; the partial buffer stays |
| CredentialStore.Credentials.HandleBytes | src/communication/credentials.cpp:136-170 | the printable bytes are appended. A buffer that then parses becomes the configuration, is saved at 1024 and is emptied. Otherwise only the buffer grows |
| CredentialStore.Credentials.SaveToEeprom | src/communication/credentials.cpp:175-186 | writes exactly the cut text and its NUL from 1024 |
| CredentialStore.Credentials.LoadFromEeprom | src/communication/credentials.cpp:193-206 | the text is the C string of the area's first 511 bytes, accepted exactly when it has more than 5 bytes |
| CredentialStore.Credentials.LoadSavedConfig | src/communication/credentials.cpp:212-234 | a stored text that is long enough and parses becomes the configuration; otherwise nothing changes |
| CredentialStore.Credentials.ResetConfig | src/communication/credentials.cpp:240-247 | zeroes the 512-byte area and nothing else |
| CredentialStore.ReadBackText | src/communication/credentials.cpp:196-203 | the copy loop and the forced final NUL give the C string of the area's first 511 bytes |
| CredentialStore.StoppedReadBack | src/communication/credentials.cpp:199-200 | a copy that stopped at a NUL reads as the area's text |
| CredentialStore.FullReadBack | src/communication/credentials.cpp:202 | a full copy cut by the forced NUL reads as the first 511 bytes |
| CredentialStore.SaveThenLoad | src/communication/credentials.cpp:175-206 | saving a NUL-free text of at most 511 bytes and loading it gives the same text |
| CredentialStore.LongSaveThenLoad | src/communication/credentials.cpp:175-206 | a longer text loads back as its first 511 bytes |
| CredentialStore.ResetThenLoadFails | src/communication/credentials.cpp:240-247 | after `reset_config` the loaded text is empty, so loading fails |
| CredentialStore.SavedTextBreaksConfigHeader | src/communication/credentials.cpp:175-186 | saving a printable text at 1024 overwrites the configuration record's version byte, so its header no longer checks out |
| CredentialStore.ConfigReceivedIsSticky | src/communication/credentials.cpp:136-234 | one run through a received configuration, a disconnect and reconnect, more bytes, a reset and a reload keeps the flag set. In general each operation's own contract keeps the flag once set |
| Multiplexer.SelectLevelsEncodeChannel | src/modules/mux.cpp:79-83 | the levels written to the select pins, read as binary with pin 0 lowest, give back the channel |
| Multiplexer.DistinctChannelsDistinctLevels | src/modules/mux.cpp:79-83 | two different channels never drive the select pins alike |
| Multiplexer.SelectWrites | src/modules/mux.cpp:79-83 | one digital write per select pin, pin `i` getting bit `i` of the channel |
| Multiplexer.Mux.constructor | src/modules/mux.cpp:10-18 | uninitialised, signal pin and channel -1, no select pins |
| Multiplexer.Mux.Init | src/modules/mux.cpp:29-56 | takes the pins and modes, enables 2^n channels, and makes the signal pin an output exactly for a digital output and every select pin an output |
| Multiplexer.Mux.SelectChannel | src/modules/mux.cpp:71-84 | a channel in range on an initialised mux is selected and written to the select pins; anything else changes nothing |
| Multiplexer.Mux.MMode | src/modules/mux.cpp:90-93 | sets the mode only |
| Multiplexer.Mux.SMode | src/modules/mux.cpp:99-102 | sets the signal direction only |
| Multiplexer.Mux.Read | src/modules/mux.cpp:108-114 | the pin level for an initialised digital input, 0 otherwise |
| Multiplexer.Mux.Write | src/modules/mux.cpp:120-133 | nothing before `init`; a digital write for a digital output, an analog write otherwise |
| Relays.DecodeEncode | include/devices/relay_control.h:18-24 | a command decoded from its 4 packed bytes is the command sent |
| Relays.EncodeDecode | include/devices/relay_control.h:18-24 | any 4 bytes are the packing of the command they decode to |
| Relays.RelayControl.constructor | src/devices/relay_control.cpp:6-8 | no serial module, uninitialised, nothing sent |
| Relays.RelayControl.Init | src/devices/relay_control.cpp:23-33 | succeeds exactly when a module is given; a missing one changes nothing |
| Relays.RelayControl.ToggleRelay | src/devices/relay_control.cpp:42-53 | before `init` nothing is sent and the answer is false; otherwise one toggle frame with the type, port and state is sent and the link's answer returned |
| Relays.RelayControl.GetRelayState | src/devices/relay_control.cpp:61-78 | as the toggle, with the state-query command and state 0 |
| Relays.RelayControl.HandleResponses | src/devices/relay_control.cpp:84-108 | true exactly when initialised, data is available and a response is received, whatever its command |
| Relays.ToggleFrameCarriesRequest | src/devices/relay_control.cpp:47-52 | the relay board reads back exactly the toggle requested |
| Routing.TopicsDistinct | include/services/system_monitor.h:253-258 | a device's six topics are pairwise different |
| Routing.Route | include/services/system_monitor.h:259-292 | every handler run has the incoming topic as its own, and each device topic runs its handler |
| Routing.RouteIsExact | include/services/system_monitor.h:259-292 | an incoming topic runs at most one handler, and a device's own topic runs exactly its handler |
| Routing.UnknownTopicRunsNothing | include/services/system_monitor.h:259-292 | a topic that is none of the six runs nothing |
| Routing.FullConfigRecord | include/services/system_monitor.h:447-478 | the assembled record has a valid header and the message's counts. Its tables start with the message's entries and keep stale entries after them. The relay count is left unset |
| Sensors.ClimateStep | src/services/sensor_manager.cpp:185-208 | one more climate entry adds its message and its buzzer events after what the entries before it produced |
| Sensors.NoModulesNoMotionMessages | src/services/sensor_manager.cpp:249-253 | with no motion module present, nothing is published and no mux channel is selected |
| Sensors.MotionMessagesAreRelayLevels | src/services/sensor_manager.cpp:249-267 | every motion message goes to the relay of a present entry with level HIGH or LOW, at most one per entry |
| Sensors.ChannelEvents | src/sensors/pir.cpp:59-67 | selecting a channel writes one select pin per select line, only on an initialised mux and only for a channel it has, and writes nothing else |
| Sensors.MotionStep | src/services/sensor_manager.cpp:249-267 | one more motion entry adds its relay message and its channel selection after what the entries before it produced |
| Sensors.SensorManager.constructor | include/services/sensor_manager.h:33-40 | no collaborators, no modules, read times 0 |
| Sensors.SensorManager.Init | src/services/sensor_manager.cpp:49-128 | refused with nothing stored when a collaborator is missing. Otherwise a climate slot is filled exactly when its module started, and every configured LDR and motion slot is filled |
| Sensors.SensorManager.SetBuzzerState | src/services/sensor_manager.cpp:133-143 | switches the mux to digital output, selects the buzzer's channel and writes the level |
| Sensors.SensorManager.ReportClimate | src/services/sensor_manager.cpp:192-207 | one climate publication, then the buzzer sounded for an alarming reading and silenced otherwise, when the entry has one |
| Sensors.SensorManager.ProcessClimateSensors | src/services/sensor_manager.cpp:176-209 | one climate message per configured entry whose module exists, in order, with the matching buzzer events; nothing before `init` |
| Sensors.SensorManager.ProcessLdrSensors | src/services/sensor_manager.cpp:214-235 | one light reading per present module, in order; nothing before `init` |
| Sensors.SensorManager.DetectMovement | src/sensors/pir.cpp:59-67 | switches the mux to digital input, selects the sensor's channel and reads it: movement exactly when the mux is initialised and the sensor output is HIGH |
| Sensors.SensorManager.ProcessMotionSensors | src/services/sensor_manager.cpp:240-268 | HIGH or LOW to each present sensor's relay, by whether it reads as moving through the mux (never before the mux's `init`); the mux events are exactly one channel selection per present sensor, the mux is left in digital input mode when a sensor was read, and its wiring is unchanged; nothing before `init` |
| Sensors.SensorManager.Update | src/services/sensor_manager.cpp:148-171 | each group runs exactly when its interval (5000, 5000, 100 ms) has passed on the wrap-around clock and restarts its interval; the publications are exactly the due messages in the order climate, light, motion (`DuePublications`), and the mux events exactly the due buzzer events followed by the due motion channel selections (`DueEvents`) |
| Sensors.SensorManager.RunClimateGroup | src/services/sensor_manager.cpp:152-157 | the climate block: when due, the climate messages and buzzer events, and the interval restarts |
| Sensors.SensorManager.RunLdrGroup | src/services/sensor_manager.cpp:159-164 | the light block: when due, the light messages, and the interval restarts |
| Sensors.SensorManager.RunMotionGroup | src/services/sensor_manager.cpp:166-170 | the motion block: when due, the relay messages and channel selections, and the interval restarts |
| Sensors.SensorManager.Destroy | src/services/sensor_manager.cpp:13-44 | every module slot is emptied |
| Monitor.Subscriptions | include/services/system_monitor.h:212-223 | the six subscriptions made before READY |
| Monitor.SubscriptionsReachEveryHandler | include/services/system_monitor.h:212-258 | every handler's topic is among the subscriptions |
| Monitor.SubscribedTopicsRunOneHandler | include/services/system_monitor.h:218-292 | a message on any subscribed topic runs exactly one handler |
| Monitor.EnteringReady | include/services/system_monitor.h:173-226 | READY is entered only from CONNECT_MQTT with both links up, the sync encoded and security in place, or kept from READY with both links up |
| Monitor.WifiLossFirst | include/services/system_monitor.h:174-234 | losing WiFi always goes back to WAIT_CONFIG, even when the broker is lost too |
| Monitor.WaitConfigIsAbsorbing | include/services/system_monitor.h:159-164 | `update` alone never leaves WAIT_CONFIG |
| Monitor.ReadyHasSecurity | include/services/system_monitor.h:202-244 | in READY the security service always exists |
| Monitor.FailedSecurityInitIsNotRetried | include/services/system_monitor.h:202-210 | a failed security `init` is not retried: the next pass reaches READY with a reader that never started |
| Monitor.GoodLinksReachReady | include/services/system_monitor.h:166-224 | with every link up and every call succeeding, a configured node is READY after two updates |
| Monitor.NextState | include/services/system_monitor.h:152-249 | one update moves forward at most one stage (WiFi to broker, broker to READY), drops from READY to CONNECT_MQTT, or goes back to WAIT_CONFIG, and the last only on a WiFi loss |
| Monitor.NextHasSecurity | include/services/system_monitor.h:202-210 | the security service is never released, and is created only in CONNECT_MQTT with WiFi and the broker up |
| Monitor.Run | include/services/system_monitor.h:152-249 | over any run of updates the security service, once created, is never released |
| Monitor.RevokedUidNotWhitelisted | src/services/whitelist_manager.cpp:28-95 | deleting the UID a revoke request carries, as intended, leaves it not whitelisted, whether or not it was before |
| Monitor.Revoked | src/services/whitelist_manager.cpp:28-95 | deleting a carried UID changes only bytes from the whitelist address 512 on, only to 0, and changes nothing when the UID is not whitelisted |
| Monitor.RevokeLeavesUidWhitelisted | include/services/system_monitor.h:374-405 | as written, a revoke request for a whitelisted UID leaves it whitelisted, where deleting the carried UID would have removed it |
| Monitor.AppliedKeepsTables | include/services/system_monitor.h:420-479 | no config message takes the counts past the tables, and a full configuration always has a header `load_config` keeps |
| Monitor.Applied | include/services/system_monitor.h:420-479 | an entry message appends its entry after the existing ones when its table has room and changes nothing otherwise. The other tables and the header stay. An empty payload changes nothing |
| Monitor.CopyOver | include/services/system_monitor.h:449-470 | the copy loop puts the message's entries at the start of the table and keeps the rest |
| Monitor.AssembleFullConfig | include/services/system_monitor.h:447-477 | the record the handler builds is the specified full-config record |
| Monitor.ProvisioningKeepsStoredConfig | include/communication/config_manager.h:72-85 | saving the provisioning text never touches the configuration record at 1024 |
| Monitor.AnnounceRelayState | include/services/system_monitor.h:198-200 | the relay sync on `arduino/<uid>/relay/full`, then the test message |
| Monitor.ApplyConfigTopic | include/services/system_monitor.h:420-482 | the record becomes the specified result of the message, and EEPROM is either unchanged or holds the new record's image |
| Monitor.AddEntry | include/services/system_monitor.h:422-445 | one entry appended by the engine's setter for its kind |
| Monitor.SubscribeAll | include/services/system_monitor.h:212-223 | the six subscriptions in the order made, nothing published |
| Monitor.SystemMonitor.constructor | include/services/system_monitor.h:33-48 | WAIT_CONFIG, no Bluetooth, WiFi, broker client or security; fresh owned components |
| Monitor.SystemMonitor.ConfigureBasicConfig | include/services/system_monitor.h:74-91 | creates the broker client, loads the configuration record, hands the client to the whitelist manager, and moves to CONNECT_WIFI |
| Monitor.SystemMonitor.Init | include/services/system_monitor.h:94-150 | a stored configuration that loads and parses configures the node (CONNECT_WIFI, sensors set up). The configuration record is then the stored one (its header reset when invalid), and EEPROM changes only at 1024 to 1059, so the whitelist is kept. Otherwise Bluetooth starts and EEPROM and the record are untouched. A configured node fills each climate slot exactly when its module started and every configured LDR and motion slot. The relay control starts when the serial link does, and the mux gets 16 channels on pin 3 with select pins 10, 5, 8, 9 |
| Monitor.SystemMonitor.LoadStoredConfig | include/services/system_monitor.h:100-114 | the load-or-provision half of `init`: on a loaded configuration the record is the stored one (its header reset when invalid) and EEPROM changes only at 1024 to 1059; otherwise Bluetooth starts and EEPROM and the record are untouched |
| Monitor.SystemMonitor.SetUpPeripherals | include/services/system_monitor.h:116-149 | the peripheral half of `init`: the sensor manager is set up exactly when the node is past WAIT_CONFIG, with the slots `SensorManager.Init` fills, and the slots are untouched otherwise; the relay control and the mux as in `init` |
| Monitor.SystemMonitor.OnProvisioned | include/services/system_monitor.h:107-112 | keeps the received configuration, saves its text below 1024 and configures. EEPROM changes only below 1060, and the stored record loads as at boot. The sensor manager is not set up |
| Monitor.SystemMonitor.Update | include/services/system_monitor.h:152-249 | the state moves as the transition function says and security is created as specified. CONNECT_MQTT polls once while WiFi is up and publishes the sync and the test message once the sync encodes, then subscribes six topics on entering READY. In READY one poll, the whitelist, security and sensors run: the lock calls are exactly `HandleCalls`, the publications exactly the due sensor messages and the mux events exactly the due sensor events, and the whitelist mode and request id are kept. EEPROM never changes |
| Monitor.SystemMonitor.ConnectMqtt | include/services/system_monitor.h:173-226 | the CONNECT_MQTT branch: one poll while WiFi is up. With the broker up and the sync encoded it publishes the sync and the test message, creates security if missing, and subscribes six topics on reaching READY. Nothing else is published or subscribed |
| Monitor.SystemMonitor.CreateSecurity | include/services/system_monitor.h:202-210 | the service is created and kept even when its `init` fails; it has the whitelist manager as authenticator and a reader, a lock exactly when the reader started, nothing pending and no lock calls |
| Monitor.SystemMonitor.RunReady | include/services/system_monitor.h:228-247 | the READY branch: on a lost link, the state drops and nothing else changes. Otherwise there is one poll, no pending UID, the security timers, the lock calls of `HandleCalls`, and the sensor read times. EEPROM, the whitelist mode and the request id are unchanged, the publications are exactly the due sensor messages and the mux events exactly the due sensor events |
| Monitor.SystemMonitor.ServeReady | include/services/system_monitor.h:242-246 | the READY branch with both links up, with the same effects as `RunReady` states for that case |
| Monitor.SystemMonitor.ServeLinks | include/services/system_monitor.h:242-245 | one poll with nothing published, no EEPROM change, the whitelist mode and request id kept, and security's timers and lock calls as `Security.Handle` states |
| Monitor.SystemMonitor.HandleSecurity | include/services/system_monitor.h:374-405 | a register request sets the request id and registration mode. A revoke request hands `delete_uid` the empty shared UID, so EEPROM never changes. Anything else changes nothing |
| Monitor.SystemMonitor.HandleConfigManager | include/services/system_monitor.h:407-486 | a decoded message is applied to the record, which is then saved whatever the payload was; an undecodable one changes nothing |
| Monitor.SystemMonitor.HandleRelayToggle | include/services/system_monitor.h:358-372 | on an initialised relay control, a decoded relay state becomes one toggle frame; otherwise nothing is sent |
| Monitor.SystemMonitor.EraseAndRestart | include/services/system_monitor.h:284-292 | every EEPROM address becomes 0, then the board restarts |
| Monitor.SystemMonitor.HandleMessage | include/services/system_monitor.h:251-356 | exactly the handler whose topic matches runs: WiFi credentials and config removal restart on a decoded payload, a message on the RFID topic never changes EEPROM, a decoded configuration message writes exactly the new record's image at 1024, and the others act as specified. Relay frames are sent only for the relay topic, and the whitelist mode and request id change only on a register request. An unknown topic changes nothing |

## Left out

- The JSON and protobuf libraries are parameters (`parseJson`, the `Decodings` record, and the `...EncodeOk` flags). Their wire formats and the payload bytes they produce are not modelled. A protobuf publication is recorded as the message it encodes.
- Float readings and the alarm test (`temperature > 35`, `humidity > 80`, `aqi > 300`) are the `alarm` parameter. Light and motion readings are parameters too.
- The RFID reader, the lock, the authenticator, the WiFi link, the MQTT client library, Bluetooth (`begin`, `poll`, `end`, advertising) and the serial module are outside the core. What they report arrives as parameters, and calls on them are recorded as events.
- The monitor calls an MQTT client interface (`update`, `set_callback`, a three-argument `publish`) that `src/communication/mqtt_manager.cpp` does not declare. `Mqtt.MqttManager` therefore only records the calls the monitor makes, in order. Connection checks, dropped publications and the wire protocol are not modelled.
- `NVIC_SystemReset` becomes the `restarted` flag. The board's behaviour after a restart is not modelled.
- `configManager.update_config` (called by the WiFi-credentials handler) and `configEngine.delete_climate_config`, `delete_ldr_config` and `delete_motion_config` (called by the removal handler) are not defined in the source. The model keeps only the restart that follows them.
- `new Security(&whitelistManager)` calls a constructor the class does not declare. The model uses the default constructor with the whitelist manager as authenticator.
- `Security.read_card` is never called by the monitor, so `Update` does not read cards. `SecurityService.Security.ReadCard` models it on its own.
- `SystemMonitor::update` in WAIT_CONFIG calls `bt->update()`. Its configuration callback is `Monitor.SystemMonitor.OnProvisioned`. Bluetooth message reassembly belongs to `BluetoothManager`, which is not part of this model.
- Nothing in the repository calls `WhiteListManager::set_uid`, so in the monitor no UID is ever pending (`Monitor.SystemMonitor.Valid`). The whitelist manager's `update` then does nothing, and `update` never changes EEPROM.
- `CredentialStore` is not used by the monitor. It is modelled on its own on the shared EEPROM.
- Monitor.SystemMonitor.Init, Monitor.SystemMonitor.ConfigureBasicConfig and Monitor.SystemMonitor.OnProvisioned require the stored configuration's counts to fit its tables (`StoredCountsFit`). The source indexes fixed arrays by the stored counts without checking them, and out-of-range counts would be undefined behaviour.
- Monitor.SystemMonitor.HandleMessage and Monitor.SystemMonitor.HandleConfigManager require a decoded full configuration to fit the tables (`FitsTables`), as the decoder's fixed-size arrays guarantee.
- The revoke handler copies `uid_length` bytes from the shared record's `uid_buffer`. No decode callback sets either field, so the copy is empty (`Monitor.SHARED_UID`) and the 10-byte buffer cannot overflow. The UID the revoke request carries on the wire is kept in `Routing.RfidEnvelope` but never used.
- The 128-byte string decode into 32-byte buffers in the WiFi-credentials handler is not modelled, because the handler's effect is only the restart.
- Configs.ConfigEngine.Init: states only that EEPROM is unchanged for a valid stored header and otherwise changes only at addresses 1024 to 1059, not the exact bytes written. `Configs.ConfigEngine.LoadConfig` states the exact bytes.
- Monitor.SystemMonitor.ConfigureBasicConfig: states EEPROM changes in the same weaker form as `Configs.ConfigEngine.Init`.
- Configs.ConfigEngine.GetClimateConfig, Configs.ConfigEngine.GetLdrConfig and Configs.ConfigEngine.GetMotionConfig require the record's count to be within its table. The source's loop would read past the array for a larger count, which is undefined behaviour, and the record the monitor keeps always satisfies the bound.
- `PIR::detect_movement` falls back to `pinMode` and `digitalRead` on its own pin when it has no mux. The sensor manager always hands its PIR modules the mux, so `Sensors.SensorManager.DetectMovement` models only the mux path.
- Sensors.SensorManager.ProcessClimateSensors: the climate module's own reads go through the mux (`read_climate_data`), and their pin events are not modelled. Only the buzzer's mux events are.
- Each `Monitor.SystemMonitor.ConfigureBasicConfig` allocates a new broker client and never frees the old one. The model allocates a fresh client in the same way, but memory is not modelled.
- The mux keeps a pointer to a stack array from `init`, and its destructor frees it. The model copies the pin numbers, and the destructor is not modelled. Destructors of `RelayControl` and `SystemMonitor` only free memory.
- `WhiteListManager::delete_uid` and `save_to_eeprom` are split into a scan (`LocateRecord`, `LocateFreeSlot`) and a write. The scans read the same bytes in the same order as the source loops.
- `is_connected`, `config_available`, `get_config`, `get_mode`, `getSelectedChannel` and `getSignalPin` are plain field reads. They are modelled as functions without contracts.
- Fixed-width integer fields (`uint8_t` ids, ports and counts) are bytes, and the clock is `uint32`. Other arithmetic in the core does not reach the width limits.

## Findings

| source | as written | input that shows it | evidently intended | confidence | as-written member | corrected member |
|---|---|---|---|---|---|---|
| include/services/system_monitor.h:391-395 | the revoke branch copies `shared_data.uid_length` bytes from `shared_data.uid_buffer`, which no decode callback fills, so `delete_uid` gets length 0 and refuses | a decoded revoke request for a UID of 1 to 10 bytes that the whitelist holds | delete the UID the revoke request carries | not executed | Monitor.RevokeLeavesUidWhitelisted | Monitor.RevokedUidNotWhitelisted |
