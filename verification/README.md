# RepOne companion app: sensor data path in Dafny

This project models the sensor data path of the RepOne velocity-training companion app
(a React Native app) and proves properties of it. The model covers:

- the telemetry decoder, which turns a characteristic notification into a `Rep`;
- the valid-rep filter on range of motion (ROM) and the "new set" action;
- the low-velocity beep with its one-slot "last alerted rep" marker;
- the device session of `useDevice`: scanning, connecting, liveness checks,
  notifications and disconnecting;
- the display arithmetic: the RSSI-to-percent table and signal label, the
  last-rep panel (set average and "since last rep" timer) and the set-table rows.

Every transport call (connect, service discovery, priority request, `isConnected`,
`readRSSI`, `cancelConnection`) is an input outcome: `Ok(value)` or `Threw(message)`.
The clock (`Date.now()`) is an input `now`. A notification payload is the bytes its
base64 text decodes to. A value that is `null`, `undefined` or the empty string is
`NoValue`.

Files, one module each:

- `wrappers.dfy`: `Option` and `Attempt` (a transport call's outcome).
- `text.dfy`: JavaScript `String(n)` for integers, a decimal reader that inverts it, and `includes`.
- `types.dfy`: `byte`, `u16`, the `Rep` record with optional 16-bit fields, devices.
- `repone.dfy`: `getRepDataFromChar`.
- `validity.dfy`: the `validReps` filter.
- `negative_beep.dfy`: the effect of `useNegativeBeep`.
- `signal_strength.dfy`: `signalStrengthMap` and the `sensorStrength` label.
- `last_rep.dfy`: the `lastRep` and `avgSetVelocity` memos and `updateClock`.
- `set_table.dfy`: the header and data rows.
- `device_session.dfy`: the session record and one transition per event.
- `app.dfy`: how the session's reps feed the filter, the alert and the panel.

The model follows the code as written. These points are easy to misread:

- Starting a scan does not clear the candidate list.
- `uniqBy([device, ...prev])` keeps the newest device of a name, at the head.
  The older entry is dropped.
- A scan error does not clear `scanning`.
- A liveness check that finds the link down still schedules the next check.
- A rep with ROM 0 is not valid: the filter tests ROM for truthiness, not only for null.
- There is no relative velocity-drop alert: no code implements one.
- The notification listener is not removed when the sensor goes away.
  It is replaced only when the next sensor is watched.

## Model

| member | source | states |
|---|---|---|
| RepOne.GetRepDataFromChar | devices/repone.ts:14-37 | No value gives no rep. An odd byte count throws the typed-array error. Otherwise field k is the little-endian word of bytes 2k and 2k+1, or absent past the payload's end. `recordedAt` is the supplied clock. The log line is the JSON of all words. |
| RepOne.RepOfWords | devices/repone.ts:21-33 | Word k becomes the field at wire position k, a missing word leaves its field absent, and `recordedAt` is the clock. |
| RepOne.WordsJson | devices/repone.ts:20 | The log line is braced, and is "{}" for no words. |
| RepOne.WordsJsonListsEveryWord | devices/repone.ts:20 | The log line lists every word as `"k":value` under its index. |
| RepOne.WordsOfWordBytes | devices/repone.ts:19 | Reading 16-bit words back from the little-endian bytes of any word sequence gives that sequence. |
| RepOne.WordBytesOfWords | devices/repone.ts:19 | Every even-length byte string is the little-endian encoding of its 16-bit view. |
| RepOne.FullPayloadRoundTrip | devices/repone.ts:18-33 | A 20-byte payload sent for ten words decodes to a rep whose ten fields are exactly those words, in wire order. |
| RepOne.ShortPayloadLeavesOther3Absent | devices/repone.ts:19-31 | An even-length payload under 20 bytes leaves `other3` absent. |
| RepOne.LongPayloadIgnoresTail | devices/repone.ts:19-31 | After 20 bytes, an even number of further bytes never changes the rep. |
| Validity.ValidReps | App.tsx:43-49 | The valid reps are an order-preserving subsequence of `reps`. Each one passes the ROM test. A rep is in them iff it is in `reps` and passes the test. |
| Validity.IsValidByEffectiveMin | App.tsx:46 | A rep is valid iff its ROM is present, non-zero and at least the minimum, where an unset or zero minimum counts as 0. |
| Validity.ValidRepsAppend | App.tsx:45-47 | Filtering a concatenation is concatenating the filtered parts: each rep is judged on its own. |
| Validity.ValidRepsCompose | App.tsx:45-48 | Filtering under a lower minimum and then a higher one equals filtering under the higher one alone. |
| Validity.ValidRepsIdempotent | App.tsx:45-47 | Filtering the valid reps again returns them unchanged. |
| Validity.RaisingMinNeverAdds | App.tsx:46 | The reps valid under a higher minimum are a subsequence of those valid under a lower one. |
| Validity.UnsetMinKeepsNonZeroRom | App.tsx:46 | With no minimum the valid reps are exactly the reps with non-zero ROM, the same as with minimum 0. A ROM of 0 is dropped under every minimum. |
| NegativeBeep.Evaluate | hooks/useNegativeBeep.ts:13-25 | A beep plays iff there is a valid rep, the threshold is set and non-zero, the newest rep's velocity is present, non-zero and below the threshold, and its id differs from the marker. The marker becomes that id exactly when a beep plays and is unchanged otherwise. |
| NegativeBeep.NoBeepOnceMarked | hooks/useNegativeBeep.ts:19-22 | Once the marker holds the newest rep's id, no number of re-runs beeps. |
| NegativeBeep.AtMostOneBeep | hooks/useNegativeBeep.ts:16-23 | Any number of re-runs with the same valid reps, under any thresholds, beep at most once in total. |
| NegativeBeep.OnlyNewestExamined | hooks/useNegativeBeep.ts:15 | Two valid-rep lists with the same head give the same decision and marker. |
| NegativeBeep.SilentCases | hooks/useNegativeBeep.ts:14-17 | No valid reps, an unset or zero threshold, or a zero or absent newest velocity never beeps. |
| NegativeBeep.SlowRepBeepsOnce | hooks/useNegativeBeep.ts:14-23 | Threshold 500 with a newest rep of velocity 480 and id 7: the first run beeps and marks 7. The next run is silent, and three runs beep once. |
| SignalStrength.TablePercent | lib/signalStrengthMap.ts:1-102 | Every percent listed in the table is at most 100. |
| SignalStrength.KeyTextLastChar | lib/signalStrengthMap.ts:93-101 | A key text ends in a space exactly for RSSI -9 to -1. |
| SignalStrength.KeyTextInjective | lib/signalStrengthMap.ts:2-101 | No two RSSI values share a key text. |
| SignalStrength.SignalStrengthMap | lib/signalStrengthMap.ts:1-102 | Each RSSI from -100 to -1 has an entry under its key text, holding the decimal text of its percent. Every key is one of these. |
| SignalStrength.DisplayPercent | components/Connect.tsx:44 | The percent a reading stands for is between 0 and 100. |
| SignalStrength.KeyFoundExactly | lib/signalStrengthMap.ts:2-101 | A reading's decimal text is a key iff the reading is between -100 and -10, and then it is that reading's key. |
| SignalStrength.Lookup | components/Connect.tsx:44 | A numeric lookup finds an entry iff the reading is between -100 and -10. The trailing-space keys make -9 to -1 miss. A hit is the decimal text of the table percent. |
| SignalStrength.TableValuesArePercents | lib/signalStrengthMap.ts:2-101 | Every value in the map reads back as a whole number from 0 to 100. |
| SignalStrength.TablePercentStepUp | lib/signalStrengthMap.ts:2-101 | Each key's percent is at most the next stronger key's. |
| SignalStrength.DisplayPercentMonotone | lib/signalStrengthMap.ts:2-92 | Over -100 to -10 the percent never decreases as RSSI rises. |
| SignalStrength.DisplayPercentEnds | lib/signalStrengthMap.ts:2-92 | -100 to -95 show 0 percent, and -21 to -10 show 100. |
| SignalStrength.SensorStrength | components/Connect.tsx:40-45 | The label is empty without a sensor. It is "0% ( 0 )" for an absent or zero reading. Otherwise it is the reading's percent, 0 outside -100..-10, then "% ( ", the reading and " )". |
| LastRep.LastRep | components/LastRep.tsx:20-22 | The last rep is present iff the list is non-empty, and then it is the head. |
| LastRep.AvgSetVelocity | components/LastRep.tsx:24-29 | Blank iff no reps; NaN iff no rep carries a velocity. Otherwise v is the velocity sum over the rep count rounded half up: 2nv <= 2sum+n < 2nv+2n. |
| LastRep.SumWithin | components/LastRep.tsx:28 | When every velocity lies between lo and hi, the sum lies between n·lo and n·hi, and every rep counts as carrying a velocity. |
| LastRep.AverageWithinRange | components/LastRep.tsx:24-29 | When every rep's velocity lies between lo and hi, the shown average is a number between lo and hi. |
| LastRep.ElapsedSeconds | components/LastRep.tsx:36 | The elapsed seconds are the nearest whole second to the elapsed milliseconds, with halves rounded up. |
| LastRep.JsRem60 | components/LastRep.tsx:38 | The seconds remainder differs from the dividend by a multiple of 60. It lies in 0..59 for a non-negative dividend and in -59..0 for a negative one. |
| LastRep.TwoDigitsRoundTrip | components/LastRep.tsx:40 | The zero-padded two-digit text of a number below 100 reads back as that number. |
| LastRep.TimerText | components/LastRep.tsx:37-41 | For non-negative seconds the text is the minutes capped at 99, a colon, and the seconds within the minute as exactly two digits. It starts with "-" exactly when the seconds are negative. |
| LastRep.SecondsTextPads | components/LastRep.tsx:40 | For seconds 0 to 59 the padded seconds text is exactly two digits. |
| LastRep.UpdateClock | components/LastRep.tsx:32-44 | No text while the last rep time is absent or 0. Otherwise, for a non-negative elapsed time: capped minutes, colon, two-digit seconds. |
| LastRep.TimerTextReadsBack | components/LastRep.tsx:37-41 | The minutes part reads back as min(seconds div 60, 99) and the seconds part as seconds mod 60. |
| LastRep.TimerSaturates | components/LastRep.tsx:39 | From 99 minutes on the text is "99:" plus the two-digit seconds, and it repeats every 60 seconds. |
| SetTable.Show | components/SetTable.tsx:18-20 | A present field reads back as its value. An absent one is the text "undefined", which does not read as a number. |
| SetTable.Header | components/SetTable.tsx:12 | The header row: "Rep", "Velocity (mm/s)", "ROM (mm)", "Duration (ms)". |
| SetTable.RowsMatchHeader | components/SetTable.tsx:12-21 | Every data row has one cell per header column, with velocity, ROM and duration under their titles. |
| SetTable.Row | components/SetTable.tsx:16-21 | A row has four columns. The first reads back as the row number; the rest are velocity, ROM and duration. |
| SetTable.Rows | components/SetTable.tsx:13-23 | One row per rep, in list order. The row at index i is rep i's row, numbered count minus i. |
| SetTable.RowNumbersCountDown | components/SetTable.tsx:17 | Row numbers read back as n - i: n for the newest, 1 for the oldest, all distinct. |
| SetTable.PrependAddsTopRow | components/SetTable.tsx:13-23 | A new rep at the head adds a top row numbered one above the old count. Every existing row stays as it was. |
| Text.IntToString | components/SetTable.tsx:17 | `String(i)` of an integer is non-empty, starts with '-' iff the integer is negative, and is otherwise all digits. |
| Text.ParseIntToString | components/SetTable.tsx:17 | Reading back an integer's decimal text gives the integer. |
| Text.ParseNatToString | components/SetTable.tsx:18-20 | Reading back a natural number's decimal text gives the number. |
| DeviceSession.StopScan | hooks/useDevice.ts:35-38 | Stopping clears `scanning` and changes nothing else. |
| DeviceSession.ScanForDevices | hooks/useDevice.ts:157-160 | Starting a scan sets `scanning` and empties the errors. Every other field is kept, the candidates included. |
| DeviceSession.UniqByName | hooks/useDevice.ts:179 | `uniqBy` by name gives distinct names and only input devices, and it keeps the first device of every name. The devices kept stay in input order (a subsequence of the input). |
| DeviceSession.UniqByNameFrom | hooks/useDevice.ts:179 | The result has distinct names. It keeps only input devices, none with a skipped name. |
| DeviceSession.UniqByNameKeepsEveryName | hooks/useDevice.ts:179 | Every device whose name is not skipped has a namesake in the result. |
| DeviceSession.UniqFromIsSubsequence | hooks/useDevice.ts:179 | `uniqBy` keeps the devices in the order they were listed: the result is a subsequence of the input. |
| DeviceSession.UniqByNameKeepsFirst | hooks/useDevice.ts:179 | A device with an unskipped name and no earlier namesake is kept: the first device of each name wins. |
| DeviceSession.UniqFromGrow | hooks/useDevice.ts:179 | Skipping a name that occurs nowhere in the list does not change the result. |
| DeviceSession.UniqFromUnique | hooks/useDevice.ts:179 | On a list with distinct names, skipping one name drops exactly the devices with that name. |
| DeviceSession.NewestCandidateFirst | hooks/useDevice.ts:179 | When the list's names are distinct, a new candidate goes to the head. An older entry with its name is dropped and the rest keep their order. |
| DeviceSession.WithoutName | hooks/useDevice.ts:179 | The devices kept are exactly the listed ones with another name, in input order (a subsequence of the input). |
| DeviceSession.OnScanResult | hooks/useDevice.ts:161-181 | A permission error replaces the errors with the permission notice; any other error is appended. A "RepOne" device goes to the head and replaces its older namesake; other devices are ignored. |
| DeviceSession.Settle | hooks/useDevice.ts:45-57 | The connect chain succeeds iff all three calls resolve, with the priority call's device. Otherwise it fails with the first error thrown. |
| DeviceSession.ConnectBegin | hooks/useDevice.ts:42-44 | Connecting is set and scanning cleared before any transport call. Every other field is untouched. |
| DeviceSession.ConnectSettled | hooks/useDevice.ts:45-57 | On success the sensor is set, its identity stored and the old connect error kept. On any failure the error is recorded, the sensor cleared and nothing stored. Either way connecting is cleared and every other field is kept. |
| DeviceSession.ConnectDirectBegin | hooks/useDevice.ts:65-69 | Without a stored non-empty id nothing changes. With one, connecting is set, scanning cleared and every other field kept. |
| DeviceSession.ConnectDirectSettled | hooks/useDevice.ts:65-88 | Without a stored id nothing changes. Success sets the sensor and clears the connect error; failure records it and clears the sensor. The identity is never re-stored, and no other field changes. |
| DeviceSession.CheckConnection | hooks/useDevice.ts:90-112 | No sensor clears the sensor. Alive updates the RSSI; not alive clears the sensor; both schedule the next check for that sensor. A throw appends its message and schedules nothing. Each branch changes only the fields named. |
| DeviceSession.WatchForData | hooks/useDevice.ts:114-121 | With a sensor the subscription is for it, and from one listener it stays at one: the old one is removed first. Without a sensor nothing changes. Only the subscription and listener count ever change. |
| DeviceSession.OnNotification | hooks/useDevice.ts:123-150 | An error logs "Error monitoring" and its message; no value logs one line; nothing else changes in either. A payload appends one log line. Even length prepends exactly the rep the decoder returns, logs its JSON line and records now as the last rep time; odd length only logs the error. |
| DeviceSession.Disconnect | hooks/useDevice.ts:184-195 | Without a sensor nothing changes. A successful cancel only clears the sensor. A failed one only logs "Failed to disconnect" and the message. |
| DeviceSession.OnDisconnected | hooks/useDevice.ts:200-207 | Only a disconnect carrying an error is logged, as "Disconnected" and its message. Nothing else changes. |
| DeviceSession.NewSet | App.tsx:128 | New set empties the reps and changes nothing else. |
| DeviceSession.Step | hooks/useDevice.ts:35-207 | Each event runs its handler. Only a scan result changes the candidates; only a notification or a new set changes the reps, and a new set empties them; a notification never changes the sensor or the subscription. |
| DeviceSession.DecodedRepHasPrefixFields | devices/repone.ts:19-31 | In a decoded rep, a present field implies all earlier wire fields are present. |
| DeviceSession.ScanResultKeepsValid | hooks/useDevice.ts:161-181 | A scan result keeps the candidates of the product family with distinct names. |
| DeviceSession.NotificationKeepsValid | hooks/useDevice.ts:123-150 | A notification keeps the session invariant. |
| DeviceSession.StepKeepsValid | hooks/useDevice.ts:114-181 | Every event keeps candidates distinct and of the product family and at most one listener, and keeps every rep cut short, never holed. |
| DeviceSession.RunKeepsValid | hooks/useDevice.ts:114-181 | Any sequence of events from a valid session ends in a valid session. |
| DeviceSession.ReachableValid | hooks/useDevice.ts:117-121 | Every session reachable from the initial one is valid, with at most one notification listener. |
| DeviceSession.StepKeepsRepOrder | hooks/useDevice.ts:142 | Apart from new set, an event leaves the reps as they were or adds one rep at the head, with the old list after it. |
| DeviceSession.DisconnectIdempotent | hooks/useDevice.ts:184-195 | After a successful disconnect, calling disconnect again, whatever the transport does, changes nothing. |
| DeviceSession.RomImpliesVelocity | devices/repone.ts:24-25 | In a reachable session every rep that has a ROM also has an average velocity. |
| App.NotificationFeedsValidReps | App.tsx:43-49 | A decoded notification puts its rep at the head of the valid reps when valid and leaves them unchanged otherwise. |
| App.NewValidRepDrivesPanelAndAlert | hooks/useNegativeBeep.ts:14-22 | A valid new rep is the panel's last rep. It beeps iff the threshold is set, it is slow and its id is not the marker. |
| App.SetAverageIsNumber | components/LastRep.tsx:24-29 | In any reachable session the set average over the valid reps is never NaN. |
| App.NewSetClearsEverything | App.tsx:128 | After a new set there are no valid reps and no last rep, and the alert stays silent with its marker unchanged. |

## Left out

- The wireless transport (`react-native-ble-plx`, `bluetoothManager`) is a foreign library. Each call is an `Attempt` input.
- Base64 decoding of the characteristic text is done by the `buffer` library. A present value is represented by the bytes it decodes to.
- `new Uint16Array(buffer.buffer)` (devices/repone.ts:19) views the whole backing store of the decoded `Buffer`, not only its bytes. The model reads exactly the decoded bytes. That holds for the `buffer` package imported at devices/repone.ts:2, which allocates a fresh store of exactly the decoded length. A pooled `Buffer` (Node's own, for short inputs) would add the pool's other bytes and shift the offset; that case is not modelled.
- `Date.now()` is an input. `console.log` and `playBeep` (audio) are side effects with no state.
- Promise interleaving, `setTimeout`/`setInterval`/`clearTimeout`, and React effect and batching order are scheduling, not logic.
  - `connect` and `connectDirect` are split into a begin and a settle step. The `Step` function runs them back to back.
  - `SensorChanged` stands for the effect's `watchForData(sensor)` call.
  - Clearing the pending liveness timer on effect cleanup is not modelled.
- DeviceSession.OnDisconnected: the `DisconnectedCallback` event is one invocation of one registered callback. The effect at `hooks/useDevice.ts:197-214` calls `sensor.onDisconnected` on every run with a sensor and drops the returned subscription; the cleanup only clears the timer. Registrations therefore pile up, one per run with a sensor. After a reconnect, one error disconnect logs "Disconnected" once per stored callback. The model keeps no count of registrations.
- Storage (`useLocalStorage`) is JSON over AsyncStorage. The stored identity is a session field; reading it back is an input to `connectDirect`.
- JSX, styling and layout: the device list sorting and rendering in `Connect.tsx`, `Modal`, `DataBox`, `DataRow`, `Log`, `Settings`, `useMakeStyles`.
- The ROM minimum and the alert threshold are JavaScript numbers, which may be fractional or NaN. Here they are optional integers.
- RepOne.GetRepDataFromChar: the odd-length error text is the engine's typed-array message, fixed here to one wording.
- LastRep.AvgSetVelocity: uses exact rational rounding. JavaScript's floating-point division agrees for sums below 2^52.
- LastRep.ElapsedSeconds: the same exactness holds for elapsed times below 2^53 ms.
- The app's call sites differ from the hooks' signatures: `useNegativeBeep` is passed `settings`, and `Settings`/`useLocalStorage` get mismatched setters. The callees are modelled as written.
