# nfc2ble core, modelled in Dafny

nfc2ble is ESP32 firmware that reads an NFC tag through a PN532 reader and
"types" the tag's UID into the paired host by acting as a Bluetooth LE HID
keyboard. This project models the logic of `src/Main.cpp` as pure Dafny
functions over immutable datatypes and proves what that logic guarantees:

- **UID decoder** (`Uid`, from `nfc_read`): each UID byte is printed with
  `"%d"` and the pieces are concatenated in array order.
- **Poll loop** (`PollLoop`, from `loop`): one iteration is a transition over
  `(last_read_time, nfc_tag_uid, session flags)`. A detected tag is skipped
  when it comes less than 200 000 µs after the previous detection. Otherwise
  it is typed, followed by CR LF, provided a host is connected. The timestamp
  is overwritten and the buffer cleared after every detection.
- **Keystroke synthesizer** (`Keystrokes`, from `hid_type_text`): a string
  becomes a key-down report and an all-zero release report for every
  character the keyboard table covers. Each report is followed by a 5 ms
  pause.
- **Report layout** (`Reports`, `ReportMap`): `InputValue` (8 bytes) and
  `OutputValue` (1 byte) have explicit serializations. The report descriptor
  `REPORT_MAP` is a list of main items. Reading a serialized report through
  the descriptor gives back exactly the struct's fields. The report layout is
  the boot keyboard report of Appendix B.1 of the USB Device Class
  Definition for HID 1.11.
- **Session flags** (`Session`, from `BleKeyboardCallbacks` and
  `OutputCallbacks`): `onConnect` sets "connected" and "notifications
  enabled". `onDisconnect` clears both. `onWrite` changes neither.

Modelling choices:

- C strings are `seq<byte>`. `strlen` is `Bytes.CLength`.
- The clock is read twice in `loop`. The model gives these two readings as
  parameters: `now` (line 55) and `now2` (line 71). Trace lemmas assume the
  clock never goes backwards (`PollLoop.ClockFrom`).
- The keyboard table `keymap` is a parameter `seq<KeymapEntry>` whose length
  is `KEYMAP_SIZE`. Its contents live in `HIDKeyboardTypes.h`, which is not
  part of this model.
- Calls to the hardware and the BLE stack become parameters or event
  datatypes: card detection with its UID bytes, and connect, disconnect and
  output-write events (host writes to the notification descriptor are not
  modelled; see Left out). `input->setValue` / `notify` / `delay(5)` become a
  `Notification(report, pauseMs)` in the emitted sequence.
- `hid_type_text` guards with `val > KEYMAP_SIZE`, which lets
  `val == KEYMAP_SIZE` read one entry past the table (see Findings). Only
  `Keystrokes.TypeCharsAsWritten` and `Keystrokes.HidTypeTextAsWritten`
  keep that guard as written. Everything else uses the corrected guard
  `val >= KEYMAP_SIZE`, which skips that character: `Keystrokes.TypeChars`,
  `Keystrokes.HidTypeText`, the loop `Keystrokes.TypeText`,
  `PollLoop.LoopStep` and `PollLoop.Loop`. The two guards agree on every
  text the loop types when the table covers `'9'`
  (`PollLoop.ScanTextAvoidsGuardBug`). With a smaller table they can differ:
  with exactly 13 entries, every scan makes the firmware read past the
  table at the CR (`PollLoop.ScanHitsGuardBug`), where the model skips the
  CR.

Notes on the code's behaviour:

- `"%d"` prints each UID byte with 1 to 3 digits and no padding, and the
  pieces are concatenated with no separator. As a result, distinct UIDs can
  type the same text (`Uid.DecodeUidNotInjective`).
- The debounce test is `now - last_read_time < 200000`, so a detection
  exactly 200 000 µs after the last one is accepted.
- `last_read_time` starts at 0, so a tag detected during the first 200 ms
  after boot is skipped (`PollLoop.NoScanDuringFirstWindow`).
- `onConnect` sets both `bt_client_connected` and the notification flag in
  one callback, and `onDisconnect` clears both. So, over connects,
  disconnects and LED writes, "connected, notifications off" never occurs
  between events (`Session.SessionAlwaysConsistent`). The loop checks only
  `bt_client_connected`, which is then equivalent to "ready to transmit"
  (`PollLoop.SentOnlyWhenReady`). A host that writes the notification
  descriptor itself can break this agreement; that event is outside the
  model (see Left out).

## Model

| member | source | states |
|---|---|---|
| Bytes.CLength | src/Main.cpp:284 | `strlen`: the result is within the buffer, no byte before it is NUL, and the byte at it is NUL unless the buffer is exhausted |
| Uid.DecimalText | src/Main.cpp:122 | `"%d"` of a byte is a non-empty digit string with no leading zero, 1 digit iff < 10, at most 2 iff < 100, at most 3 iff < 1000 |
| Uid.DecimalRoundTrip | src/Main.cpp:122 | reading the printed digits back as a number gives the number printed |
| Uid.CanonicalRoundTrip | src/Main.cpp:122 | every digit string without a leading zero is the printed text of its value, so printing is a bijection onto such strings |
| Uid.DecimalTextInjective | src/Main.cpp:122 | different byte values print differently |
| Uid.DecodeUid | src/Main.cpp:117-124 | the decoded UID text consists only of digits, and its length is between the UID length and three times it |
| Uid.DecodeUidAppend | src/Main.cpp:120-124 | decoding the concatenation of two UIDs gives the concatenation of their decoded texts, in array order |
| Uid.DecodeUidPiece | src/Main.cpp:120-124 | byte `i` contributes exactly its own decimal text, placed after the text of the bytes before it |
| Uid.DecodeUidNotInjective | src/Main.cpp:120-124 | with no separators, two different 4-byte UIDs (1.23.4.5 and 12.3.4.5) type the same text |
| Uid.NfcRead | src/Main.cpp:107-128 | returns the card-detected flag; on detection the buffer gains the decoded UID, otherwise it is unchanged (loop invariant over the byte loop) |
| Reports.ParseInput | src/Main.cpp:132-137 | a buffer holds an `InputValue` exactly when it has `sizeof(InputValue)` = 8 bytes |
| Reports.InputRoundTrip | src/Main.cpp:132-137 | parsing the serialized report gives the report back |
| Reports.InputBytesRoundTrip | src/Main.cpp:132-137 | a buffer that parses is the serialization of what it parses to |
| Reports.InputBytesInjective | src/Main.cpp:132-137 | different reports differ on the wire |
| Reports.InputBytes | src/Main.cpp:132-137 | the memory image `setValue` sends (lines 303 and 309) is `sizeof(InputValue)` = 8 bytes; `Reports.InputRoundTrip` and `Reports.InputBytesRoundTrip` make it the inverse of `Reports.ParseInput` |
| Reports.NoKeyPressedIsZero | src/Main.cpp:190 | the zero-initialised `NO_KEY_PRESSED` is eight zero bytes on the wire |
| Reports.ParseOutput | src/Main.cpp:140-143 | a buffer holds an `OutputValue` exactly when it has `sizeof(OutputValue)` = 1 byte |
| Reports.OutputRoundTrip | src/Main.cpp:140-143 | parsing the serialized LED report gives it back |
| Reports.OutputBytesRoundTrip | src/Main.cpp:140-143 | a one-byte buffer that parses is the serialization of its LED report |
| Reports.OutputBytes | src/Main.cpp:140-143 | the LED report is `sizeof(OutputValue)` = 1 byte; `Reports.OutputRoundTrip` makes it the inverse of `Reports.ParseOutput` |
| ReportMap.ReportMapItems | src/Main.cpp:152-185 | the input items of `REPORT_MAP` are the modifier, reserved and key-array items, and the output items are the LED and padding items |
| ReportMap.ReportMapMatchesStructs | src/Main.cpp:132-143 | the input items declare 8·1 + 1·8 + 6·8 = 64 bits, i.e. 8·sizeof(InputValue); the output items declare 5·1 + 1·3 = 8 bits, i.e. 8·sizeof(OutputValue); every item is well formed (one usage per variable field, an array's logical range indexes its usage range, each field is wide enough for its logical maximum) |
| ReportMap.InputBufferFields | src/Main.cpp:152-172 | any 8-byte buffer read through the descriptor yields the 8 bits of byte 0, then byte 1, then bytes 2..7 |
| ReportMap.ReportMapWidths | src/Main.cpp:158-185 | the input items declare eight 1-bit fields followed by seven 8-bit fields (reserved byte and six key slots); the output items declare five 1-bit LED fields followed by one 3-bit padding field |
| ReportMap.FieldWidthsSum | src/Main.cpp:158-185 | the widths of the fields the items declare (REPORT_COUNT fields of REPORT_SIZE bits each) add up to the report's total bit count |
| ReportMap.InputReportLayout | src/Main.cpp:132-137 | reading a serialized `InputValue` through `REPORT_MAP` yields the modifier bits (Left Control first), the reserved byte, then the six key slots: the descriptor and the struct agree field by field |
| ReportMap.OutputReportLayout | src/Main.cpp:174-185 | reading a serialized `OutputValue` through `REPORT_MAP` yields the five LED bits (Num Lock first), then the three padding bits |
| ReportMap.InputConformsIff | src/Main.cpp:166-172 | an input report is legal for the descriptor exactly when every key slot holds a usage at most 0x65 |
| Keystrokes.MappedChars | src/Main.cpp:287-292 | the characters that are typed are exactly those of the text that the table covers |
| Keystrokes.KeyDown | src/Main.cpp:295-300 | the key-down report goes on the wire as the entry's modifier byte, a zero reserved byte, the entry's usage, then five zero key slots |
| Keystrokes.TypeChars | src/Main.cpp:285-312 | two notifications per covered character, and every odd-position notification is the release report |
| Keystrokes.TypeCharsShape | src/Main.cpp:293-311 | the `k`-th covered character gives the key-down report of its table entry at position `2k` and the release report at `2k+1`; every notification pauses 5 ms |
| Keystrokes.HidTypeText | src/Main.cpp:282-313 | `hid_type_text` with the corrected guard types only the bytes before the NUL: an even number of notifications, at most two per such byte |
| Keystrokes.HidTypeTextStopsAtNul | src/Main.cpp:284-286 | once a string holds a NUL, nothing appended after it changes the reports, because the loop runs to `strlen` only |
| Keystrokes.TypeCharsStep | src/Main.cpp:287-311 | one loop iteration appends the character's key-down and release reports when the table covers it, and nothing otherwise |
| Keystrokes.TypeCharsAppend | src/Main.cpp:285-312 | typing a concatenation types the parts in order, with no state carried between characters |
| Keystrokes.MappedCharsAppend | src/Main.cpp:285-292 | the covered characters of a concatenation are those of its parts |
| Keystrokes.MappedCharsAll | src/Main.cpp:289-292 | a text the table fully covers types every character; a text it does not cover at all types nothing |
| Keystrokes.KeyDownIsRelease | src/Main.cpp:295-310 | a key-down report equals the release report exactly when the table entry is all zero |
| Keystrokes.KeyDownLegalIff | src/Main.cpp:295-300 | a key-down report is legal for `REPORT_MAP` exactly when its usage is at most 0x65; the release report is always legal |
| Keystrokes.TypedReportsConform | src/Main.cpp:293-310 | every report typed for a text is legal for `REPORT_MAP` exactly when every table entry it uses has usage at most 0x65 |
| Keystrokes.TypeText | src/Main.cpp:282-313 | the loop over the string, with the corrected guard `val >= KEYMAP_SIZE`, sends exactly the reference notification sequence for the text before its NUL |
| Keystrokes.AsWrittenReadsPastEnd | src/Main.cpp:289-293 | with the guard as written, a one-character string whose code is the table size reads `keymap` one past its end |
| Keystrokes.AsWrittenAgrees | src/Main.cpp:289-293 | the written guard goes wrong exactly on texts containing the code equal to the table size; on every other text it types what the corrected guard types |
| Keystrokes.TypeCharsAsWritten | src/Main.cpp:287-311 | the loop with the guard as written, `val > KEYMAP_SIZE`: when no lookup leaves the table, it sends an even number of notifications, at most two per character |
| Keystrokes.HidTypeTextAsWritten | src/Main.cpp:282-313 | `hid_type_text` as written reads past the table exactly when a byte before the NUL has the table size as its code, and otherwise sends what the corrected version sends |
| Session.OnConnect | src/Main.cpp:198-207 | after a connect, the session is connected with notifications enabled |
| Session.OnDisconnect | src/Main.cpp:209-218 | after a disconnect, neither flag is set |
| Session.OnWrite | src/Main.cpp:231-235 | a host's LED write changes neither flag |
| Session.HandleLink | src/Main.cpp:195-236 | the stack's callback for an event: after a connect the session is ready to transmit, after a disconnect neither flag is set, an LED write changes nothing |
| Session.RunSessionFollowsLastChange | src/Main.cpp:195-236 | after any event sequence, both flags equal "the last connect/disconnect was a connect", or are unchanged when there was none |
| Session.SessionAlwaysConsistent | src/Main.cpp:32 | from the initial state the two flags always agree, so "connected" means "ready to transmit" |
| Session.HandleLinkKeepsConsistent | src/Main.cpp:198-235 | every transport event keeps the two flags in agreement |
| PollLoop.LoopStep | src/Main.cpp:48-76 | no tag: nothing changes and nothing is sent. Detected tag: the timestamp becomes the second clock reading, the buffer is emptied, and the session is untouched. Nothing is sent inside the window or while disconnected. Otherwise the buffer, the UID text and CR LF are typed, with the corrected table guard |
| PollLoop.Loop | src/Main.cpp:48-76 | `loop` through `nfc_read` and `hid_type_text` (with the corrected guard) produces exactly the step above |
| PollLoop.RunKeepsInvariant | src/Main.cpp:67-72 | in every reachable state the tag buffer is empty and the session flags agree |
| PollLoop.SentOnlyWhenReady | src/Main.cpp:52-72 | from any reachable state, reports are sent only for an accepted detection while the session is ready to transmit, and the text is the UID's decimal text followed by CR LF |
| PollLoop.ScanTypesUid | src/Main.cpp:64-68 | with a table covering `'0'`..`'9'`, CR and LF and an empty tag buffer, an accepted scan while connected sends 2·(length of the UID text + 2) notifications, pressing and releasing each character of the text in order |
| PollLoop.ScanTextAvoidsGuardBug | src/Main.cpp:67-68 | with a table covering `'9'`, the written guard and the corrected guard type the same reports for every scan text |
| PollLoop.ScanHitsGuardBug | src/Main.cpp:67-68 | with a table of exactly 13 entries, the guard as written reads past the table at the CR of every scan text |
| PollLoop.AcceptedScansSpaced | src/Main.cpp:16 | over any trace with a non-decreasing clock, accepted scans are at least 200 000 µs apart and at least 200 000 µs after the stored timestamp, because skipped detections also refresh it |
| PollLoop.NoScanDuringFirstWindow | src/Main.cpp:30 | since `last_read_time` starts at 0, no scan is accepted before 200 000 µs after boot |

## Left out

- `setup`, `nfc_setup`, `ESP.restart` and the PN532 I2C calls (`readPassiveTargetID`, `SAMConfig`, firmware version printing) are hardware I/O. Card detection and the UID bytes are inputs.
- `bluetooth_setup` (BLE device, server, HID services, advertising, security, `delay(portMAX_DELAY)`) is vendor-stack bring-up with no logic of its own.
- The FreeRTOS task and the cross-context access to `bt_client_connected` are left out, because their only point is concurrency. Callbacks are sequential events interleaved with loop iterations.
- `delay(100)` at the end of `loop` is not modelled, because timing is only visible through the clock parameters. `delay(5)` is kept only as the pause recorded in each `Notification`.
- `Serial` logging is left out, because it has no effect on the modelled state.
- The contents of `keymap` and the byte encodings of the HID item macros come from headers that are not part of this model. The table is a parameter. The descriptor is a list of main items with their global and local state (count, size, flags, logical range, usages), not bytes.
- The Generic Desktop `USAGE_PAGE`/`USAGE`, `COLLECTION`, `REPORT_ID` and `END_COLLECTION` items are not modelled. They declare no report bits, and the report ID byte is not part of the `InputValue`/`OutputValue` buffers.
- Host writes to the client characteristic configuration descriptor (0x2902) are not events here. In GATT the host turns notifications on and off by writing it, and the firmware only overrides it in `onConnect`/`onDisconnect` (src/Main.cpp:203-204, 214-215). `Session.SessionAlwaysConsistent`, `Session.HandleLinkKeepsConsistent`, `PollLoop.RunKeepsInvariant` and `PollLoop.SentOnlyWhenReady` hold relative to the modelled events only: on the device a host can disable notifications while staying connected, and the loop still calls `notify()`.
- `esp_timer_get_time` returns `int64_t`. The model uses unbounded integers because the counter cannot overflow within the device's lifetime.
- `uid[]` has 7 entries and the driver reports a length of 4 or 7. The model takes the UID as a byte sequence of any length and does not model a driver that reports a longer length than the buffer holds.

## Findings

| source | as written | input that shows it | evidently intended | confidence | as-written member | corrected member |
|---|---|---|---|---|---|---|
| src/Main.cpp:289 | `if (val > KEYMAP_SIZE) continue;` then `keymap[val]`, where `keymap` has `KEYMAP_SIZE` entries | a string containing the character whose code is `KEYMAP_SIZE` (any table shorter than 256 entries), e.g. the one-character string of that code; with a 13-entry table, the CR of every scan text | `val >= KEYMAP_SIZE`, so that only codes inside the table are looked up and all others are skipped | high that the bound is off by one; not executed; the loop's own scan texts reach it only when the table size is the code of a digit, CR or LF | Keystrokes.TypeCharsAsWritten, Keystrokes.HidTypeTextAsWritten, Keystrokes.AsWrittenReadsPastEnd, Keystrokes.AsWrittenAgrees, PollLoop.ScanHitsGuardBug | Keystrokes.TypeChars, Keystrokes.TypeCharsShape, Keystrokes.HidTypeText, Keystrokes.TypeText, PollLoop.LoopStep, PollLoop.Loop |
