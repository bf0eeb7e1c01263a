# Passport firmware: verified model

A Dafny 4.11 model of the firmware's stateful and arithmetical core, and proofs about it. `dafny verify dfyconfig.toml` checks all of it.

| file | what it models |
|---|---|
| `Bytes.dfy` | machine integers, byte strings, C division, `Option` and `Result` |
| `Calendar.dfy`, `IsoTime.dfy` | civil dates and serial days; time stamps, ISO 8601 texts and the per-day query window |
| `Utf8.dfy` | the title validator and the display decoder, against RFC 3629 |
| `JsonGuard.dfy` | the guard in front of the JSON parser, against the tokens of JSON |
| `Todo.dfy`, `TodoLaws.dfy`, `TodoReminders.dfy` | the bounded to-do list, changed in place; the laws of its runs; recurring reminders |
| `Crc32.dfy`, `TodoWire.dfy` | CRC-32 on 32-bit words; the framed store format |
| `TodoController.dfy`, `TodoTransactions.dfy` | the voice request and the reminder ticks that run inside it; memory against the store |
| `Base64Stream.dfy` | the streaming base64 upload, against RFC 4648 |
| `Ndef.dfy`, `NdefReader.dfy`, `NdefTwin.dfy` | the bounded NDEF writer, a reader of NDEF and Type 2 tags, and the second writer in Python |
| `NfcTag.dfy` | the multi-block update of the tag, with every bus failure |
| `UsageAggregate.dfy`, `UsageLaws.dfy` | exact per-day token totals and their shares |
| `DeviceLink.dfy` | device-link polling, against RFC 8628 |
| `Transcript.dfy`, `TranscriptText.dfy` | the fail-closed transcript collector; what its text holds and what it refuses |

Code that changes state in the source is a method here, on a class or on arrays, proved equal to a function of the old state; the laws are lemmas about those functions over every input, run or interleaving. Failures of the network, flash, I2C bus, clock and allocator are inputs, so every outcome is covered. A C string is the sequence of bytes before its terminator.

## What the proofs found

Where a promise does not hold of the code, the code is kept and the exact condition is proved, with an example.

- The finishing group of the base64 stream is put into the buffer without asking for room. It fits exactly when the call's whole groups do not end on a full buffer (`Base64Stream.FinishFitsIff`, `Base64Stream.Stream.WriteBase64`); 386 bytes in one call overrun it (`Base64Stream.FinishOverruns`). A finishing call without input, the only one the firmware makes, always fits.
- Draining the reminders leaves nothing due exactly when no overdue item has its next due time past the supported range (`TodoReminders.DrainEndsIffAlertsSucceed`); an item added so that it falls due at the very last instant is then reported for ever (`TodoReminders.LastInstantSticks`).
- "Voice cancelled" is never said of a stored change, but a reminder may have been stored meanwhile (`TodoTransactions.CancelledYetStored`). A request that commits nothing leaves the store untouched exactly when no tick of the exchanges it gets to passes the guards of an alert (`TodoTransactions.CancelledStore`).
- A factory reset that clears the store and then stops before the restart leaves memory out of step, unless memory holds the initial list (`TodoTransactions.ResetKeepsSyncIff`); it is the only event that does (`TodoTransactions.EveryRunInSync`).
- `vibe_date_from_epoch` narrows the year to `int`. For every second short of its overflow guard it is right if and only if the year does not wrap, that is, lies in 1 to 9999 or does not look so in its low 32 bits (`IsoTime.DateFromEpochCounts`); year 4294967600 wraps (`IsoTime.FarEpochWraps`).
- The two Type 2 writers agree except on the empty message, which only the firmware refuses (`NdefTwin.Type2Agrees`).

One assumption is made by the polling law: a slow-down raises the interval by five seconds or more exactly when the sum fits 32 bits (`DeviceLink.SlowDownGrows`). The client always adds five, so only a granted interval of 136 years can wrap (`DeviceLink.IntervalWraps`).

## Model

| member | source | states |
|---|---|---|
| Calendar.SuccessorAddsOne | components/vibe_usage/src/vibe_date.c:50-61 | the calendar successor of any date, by the leap rule and month lengths, has the next serial day |
| Calendar.PredecessorSubtractsOne | components/vibe_usage/src/vibe_date.c:50-61 | the calendar predecessor has the previous serial day |
| Calendar.WalkAddsDays | components/vibe_usage/src/vibe_date.c:50-61 | walking n days through the calendar, either way, moves the serial day by n |
| Calendar.EpochIsDayZero | components/vibe_usage/src/vibe_date.c:50-61 | 1970-01-01 is serial day 0 |
| Calendar.YearRange | components/vibe_usage/src/vibe_date.c:118-118 | years 1 to 9999 are exactly one interval of serial days |
| Calendar.YearRecovered | components/vibe_usage/src/vibe_date.c:66-72 | the nested divisions recover the year of the 400-year era from any of its days |
| Calendar.CivilOfDays | components/vibe_usage/src/vibe_date.c:63-81 | converting a date to its serial day and back gives the date, its year narrowed to `int`, for every date |
| Calendar.CivilFromDaysCounts | components/vibe_usage/src/vibe_date.c:63-81 | every serial day converts to the date reached by counting from 1970-01-01, its year narrowed to `int` |
| Calendar.CivilFromDaysExact | components/vibe_usage/src/vibe_date.c:63-81 | the conversion counts calendar days exactly on one interval of serial days |
| Calendar.IntYearRange | components/vibe_usage/src/vibe_date.c:72-79 | that interval is the days whose year fits `int` |
| Calendar.SumsFitInRange | components/vibe_usage/src/vibe_date.c:72-79 | behind a year in 1 to 9999 neither sum in `int` has overflowed |
| Calendar.KeysAreDates | components/vibe_usage/src/vibe_date.c:40-47 | keys accepted by the splitter and dates of years 1 to 9999 correspond one to one |
| Calendar.AddDaysWalks | components/vibe_usage/src/vibe_date.c:108-121 | adding days walks the calendar and fails exactly when the walk leaves years 1 to 9999 |
| Calendar.AddDaysComposes | components/vibe_usage/src/vibe_date.c:108-121 | adding a and then b is adding a + b, failures included |
| Calendar.AddDaysRefuses | components/vibe_usage/src/vibe_date.c:110-113 | exactly the keys of no date of years 1 to 9999 are refused as invalid |
| IsoTime.FloorDivIsFloor | components/vibe_usage/src/vibe_date.c:83-88 | the corrected truncating division is the floor for all signs |
| IsoTime.DateFromEpochNarrows | components/vibe_usage/src/vibe_date.c:123-140 | what is reported for every second is its calendar date, the year narrowed to `int`, or that this lies outside years 1 to 9999 |
| IsoTime.DateFromEpochCounts | components/vibe_usage/src/vibe_date.c:123-140 | a second's local date, or that it lies outside years 1 to 9999, is found by counting calendar days from 1970-01-01, if and only if its year does not wrap |
| IsoTime.WrappedDate | components/vibe_usage/src/vibe_date.c:72-72 | where the year wraps, the date reported has the month and day of the true one |
| IsoTime.FarEpochWraps | components/vibe_usage/src/vibe_date.c:72-72 | a second of year 4294967600 wraps, and the date it is given |
| IsoTime.ParseDigits | components/vibe_usage/src/vibe_date.c:90-101 | the digit loop reads the number a fixed-width field denotes, or fails on a non-digit |
| IsoTime.FourDigits | components/vibe_usage/src/vibe_date.c:90-101 | four-digit fields and numbers below 10000 correspond one to one |
| IsoTime.StampsAreRendered | components/vibe_usage/src/vibe_date.c:142-199 | the parser accepts exactly the rendered stamps and reads back the stamp rendered, for every text |
| IsoTime.ParseHeadAt | components/vibe_usage/src/vibe_date.c:145-162 | the fixed-place scan reads exactly the separators, fields and ranges of the grammar |
| IsoTime.ParseOffsetAt | components/vibe_usage/src/vibe_date.c:174-192 | the offset scan accepts exactly `Z` or a signed hour and minute at the end of the text, and gives its seconds, negative after '-' |
| IsoTime.Iso8601ToEpoch | components/vibe_usage/src/vibe_date.c:142-199 | the cursor loop gives the second, or the error, of the stamp the text spells; `NumericOffsetReads` and `ZuluReads` say which second that is |
| IsoTime.IsoEpochFits | components/vibe_usage/src/vibe_date.c:194-198 | every accepted text names a second that fits 64 bits |
| IsoTime.NumericOffsetReads | components/vibe_usage/src/vibe_date.c:177-197 | the clock fields of an accepted text are what a clock shows that is ahead of UTC by the hours and minutes after '+', or behind by those after '-' |
| IsoTime.ZuluReads | components/vibe_usage/src/vibe_date.c:174-197 | those of a text ending in `Z` are what a clock on UTC shows |
| IsoTime.AcceptedTexts | components/vibe_usage/src/vibe_date.c:145-192 | only texts of these two forms are accepted, within 64 characters |
| IsoTime.OwnOffsetKeepsDate | components/vibe_usage/src/vibe_date.c:201-208 | a clock time written with the offset of Shanghai falls there on the date written |
| IsoTime.Iso8601ToDate | components/vibe_usage/src/vibe_date.c:201-208 | a text's local date is the date of its second |
| IsoTime.FormatIso | components/vibe_usage/src/vibe_date.c:210-227 | ten characters and a terminator, or an untouched buffer for a key that is no date |
| IsoTime.ApiBounds | components/vibe_usage/src/vibe_date.c:12-31 | both texts of the day's window and which error otherwise; on error neither buffer changes |
| IsoTime.WindowInstants | components/vibe_usage/src/vibe_date.c:12-31 | the two bounds parse to the first and the last second of the local day |
| IsoTime.WindowIsTheDay | components/vibe_usage/src/vibe_date.c:12-31 | every second lies between a date's parsed bounds exactly when it falls on that date; such seconds are put on it, and no others but those whose year wraps |
| IsoTime.WindowsAdjoin | components/vibe_usage/src/vibe_date.c:12-31 | the windows of consecutive days meet without overlap or gap |
| Utf8.FirstIsEncoded | components/smart_todo/smart_todo.c:10-31 | the character read is the one whose encoding stands at the front |
| Utf8.EncodedIsFirst | components/smart_todo/smart_todo.c:10-31 | every encoded character at the front is read |
| Utf8.DecodeInvertsSpelling | components/smart_todo/smart_todo.c:6-33 | reading character by character gives exactly the characters whose encoding the bytes are |
| Utf8.TextValid | components/smart_todo/smart_todo.c:6-33 | accepts exactly well-formed UTF-8 of the allowed length without control characters and not all spaces |
| Utf8.Utf8Next | components/vibe_ui/vibe_i18n.c:23-39 | one call always advances inside the text, never past its terminator, by a character or by one byte shown as `?` |
| Utf8.TitlesDisplayAsWritten | components/vibe_ui/vibe_i18n.c:23-39 | the display decoder run over an accepted title gives the characters that encode to it |
| Utf8.DisplayIsFaithful | components/vibe_ui/vibe_i18n.c:23-39 | on any bytes the displayed characters encode back to the text if and only if it is well-formed |
| JsonGuard.JsonSafe | components/smart_todo/smart_todo.c:35-54 | of all byte strings of 1 to 8192 bytes the loop accepts exactly the safe texts: closed strings, balanced brackets nested at most twelve deep, no string hiding a NUL |
| JsonGuard.ScanDecides | components/smart_todo/smart_todo.c:35-54 | the scan of any bytes succeeds if and only if they are such a text |
| JsonGuard.TextScanned | components/smart_todo/smart_todo.c:35-54 | on a token sequence, well-formed JSON or not, the scan decides nesting and hidden NULs |
| Crc32.Compute | components/smart_todo/smart_todo.c:235-239 | the byte loop computes the complemented state after all bytes |
| Crc32.StateOfWindow | components/smart_todo/smart_todo.c:235-239 | over at most four bytes the state depends on them through one word, by linear steps |
| Crc32.StateInjective | components/smart_todo/smart_todo.c:235-239 | absorbing the same bytes keeps different states different |
| Crc32.BurstDetected | components/smart_todo/smart_todo.c:235-239 | two texts that differ only within four neighbouring bytes have different checksums |
| Crc32.ChecksumOfLetterA | components/smart_todo/smart_todo.c:235-239 | the checksum of the text "a" is the CRC-32 of RFC 1952, section 8 |
| Todo.TodoList.constructor | components/smart_todo/smart_todo.c:56-59 | a new list is empty, with the next id 1 |
| Todo.TodoList.Valid | components/smart_todo/smart_todo.c:61-74 | the nested loops decide the list's invariant: capacity, ids, titles, due times and intervals |
| Todo.IdsAreValid | components/smart_todo/smart_todo.c:142-150 | either one id or a non-empty list of them, each usable |
| Todo.RequestsId | components/smart_todo/smart_todo.c:152-157 | an id is requested if it is in the list, or is the single id when the list is empty |
| Todo.TodoList.ApplyAdd | components/smart_todo/smart_todo.c:163-176 | the new item is last and takes the next id, or the first failing check is reported |
| Todo.TodoList.ApplyComplete | components/smart_todo/smart_todo.c:180-187 | exactly the requested open items are closed where they stand |
| Todo.TodoList.Compact | components/smart_todo/smart_todo.c:188-194 | the two-pointer loop leaves the stable filter of the original items |
| Todo.TodoList.ApplyDelete | components/smart_todo/smart_todo.c:188-200 | the kept items numbered 1 to count, vacated slots cleared; nothing changes if all are kept |
| Todo.TodoList.Apply | components/smart_todo/smart_todo.c:159-203 | the status and the whole new list for every action, valid or not |
| Todo.TodoList.Due | components/smart_todo/smart_todo.c:205-213 | the id of the first of the earliest overdue items, or 0 |
| Todo.TodoList.Remind | components/smart_todo/smart_todo.c:215-231 | the status and the whole new list after an alert |
| TodoLaws.RevisionCounts | components/smart_todo/smart_todo.c:159-231 | a success raises the revision by one, any failure leaves the list unchanged |
| TodoLaws.StepKeepsValid | components/smart_todo/smart_todo.c:159-231 | every action and alert keeps the list valid, and ids 1 to count with the next id after them |
| TodoLaws.RunKeepsValid | components/smart_todo/smart_todo.c:159-231 | the same over any run, whose revision counts its successes |
| TodoLaws.EveryRunIsNumbered | components/smart_todo/smart_todo.c:56-231 | every run from the initial list is valid and numbered 1 to count |
| TodoLaws.ApplyRefuses | components/smart_todo/smart_todo.c:160-162 | the errors of an invalid list, of no action and at the last revision |
| TodoLaws.AddAnswers | components/smart_todo/smart_todo.c:163-175 | which fields, clocks and lists make an addition fail and how; otherwise the one item appended, its due time included |
| TodoLaws.ChangeAnswers | components/smart_todo/smart_todo.c:176-201 | which fields a completion or deletion refuses, and that it otherwise fails exactly when no item it names is left to change |
| TodoLaws.CompleteCloses | components/smart_todo/smart_todo.c:180-187 | a completion closes every item whose id is in the action and changes no other |
| TodoLaws.KeptAreItems | components/smart_todo/smart_todo.c:188-194 | a deletion keeps exactly the items whose ids are not in the action |
| TodoLaws.DeleteOne | components/smart_todo/smart_todo.c:188-200 | deleting one id of a numbered list takes out that item and renumbers the rest |
| TodoLaws.BatchDeleteIsOneByOne | components/smart_todo/smart_todo.c:142-200 | a batch deletion leaves the items left by single deletions from the highest id down, duplicates and unknown ids ignored |
| TodoLaws.DeleteFailsIffUnknown | components/smart_todo/smart_todo.c:188-200 | a deletion fails exactly when no item has an id that is in the action |
| TodoReminders.NextDueIsLeast | components/smart_todo/smart_todo.c:222-226 | the next due time is the least instant after now in step with the first one |
| TodoReminders.AlertsDoNotDrift | components/smart_todo/smart_todo.c:222-226 | alerting at one time and again later gives the due time of the later alert alone |
| TodoReminders.RemindersDoNotDrift | components/smart_todo/smart_todo.c:215-231 | the same for the list, two alerts against one |
| TodoReminders.DueIsEarliest | components/smart_todo/smart_todo.c:205-213 | the item reported is overdue, none is due before it, and those listed before it are due later; none is reported only if none is overdue |
| TodoReminders.DueAnswers | components/smart_todo/smart_todo.c:205-213 | the id asked for is that of the first of the earliest open items whose time has come, or 0 exactly when there is none |
| TodoReminders.RemindAnswers | components/smart_todo/smart_todo.c:218-229 | an alert succeeds exactly for an open item whose time has come and that does not recur or has a later instant in range; its new due time is none, or the least such instant |
| TodoReminders.RemindRefuses | components/smart_todo/smart_todo.c:216-217 | the errors of an unusable list or clock and of an unknown id |
| TodoReminders.DrainStep | components/smart_todo/smart_todo.c:205-231 | one alert takes exactly its item out of the overdue ones, and fails exactly when the next due time is out of range |
| TodoReminders.DrainAlertsEachOnce | components/smart_todo/smart_todo.c:205-231 | draining at one instant alerts every overdue item once, in order of due time, advances them and no others, and leaves nothing due |
| TodoReminders.AlertsSucceedInTime | components/smart_todo/smart_todo.c:215-231 | up to one interval before the end of time no alert fails |
| TodoReminders.DrainEndsIffAlertsSucceed | components/smart_todo/smart_todo.c:205-231 | nothing is left due if and only if no overdue item's alert fails |
| TodoReminders.LastInstantSticks | components/smart_todo/smart_todo.c:215-231 | a list reached by one addition, whose item then stays due for ever |
| TodoWire.Encode | components/smart_todo/smart_todo.c:240-250 | the buffer holds the framed bytes of a valid list, or is untouched |
| TodoWire.Decode | components/smart_todo/smart_todo.c:251-265 | the target takes the decoded list, or is left exactly as it was |
| TodoWire.WireRoundTrip | components/smart_todo/smart_todo.c:240-265 | decoding an encoded valid list gives the list |
| TodoWire.ItemLayout | components/smart_todo/smart_todo.c:243-246 | where the fields of each item lie in the stored bytes |
| TodoWire.Put32IsLittleEndian | components/smart_todo/smart_todo.c:233-234 | the bytes of a number, least significant first, add up to it |
| TodoWire.DecodedIsStable | components/smart_todo/smart_todo.c:251-265 | only valid lists are decoded, and storing one again keeps it |
| TodoWire.BurstRejected | components/smart_todo/smart_todo.c:251-265 | changing anything within four neighbouring payload bytes makes decoding fail |
| TodoWire.DamagedChecksumRejected | components/smart_todo/smart_todo.c:251-265 | so does changing the stored checksum |
| TodoController.Controller.constructor | components/app_controller/app_controller.c:1478-1479 | start-up takes the stored list, or an empty one marked unusable |
| TodoController.Controller.Save | components/smart_todo/smart_todo_store.c:18-32 | the store takes the whole encoding of a valid list, or keeps what it had |
| TodoController.Controller.SmartReminders | components/app_controller/app_controller.c:313-342 | one tick alerts on a copy and takes it over only once saved; the gates and retry delay |
| TodoController.Controller.RunCallback | components/app_controller/app_controller.c:209-224 | the HTTP callbacks serve reminders unless the microphone is on |
| TodoController.Controller.Commit | components/app_controller/app_controller.c:267-285 | apply to a copy of the present list, save, take over; each failure and cancellation in its place |
| TodoController.Controller.HandleVoice | components/app_controller/app_controller.c:226-311 | the whole request: every exit, its notice and the state it leaves |
| TodoTransactions.TickLaw | components/app_controller/app_controller.c:313-342 | a tick keeps memory and store in step, stores alerts only, and leaves the items' ids and titles |
| TodoTransactions.CallbacksLaw | components/app_controller/app_controller.c:209-224 | so do any number of callbacks |
| TodoTransactions.CommitLaw | components/app_controller/app_controller.c:267-285 | the last step stores the requested change and reports it, or changes nothing |
| TodoTransactions.RequestLaw | components/app_controller/app_controller.c:226-286 | a committed request stores the change applied after every alert saved in flight, to a list whose ids still name what the model was shown |
| TodoTransactions.VoiceLaw | components/app_controller/app_controller.c:226-311 | a change is stored if and only if it is reported; "cancelled" is never said of one |
| TodoTransactions.CommittedIff | components/app_controller/app_controller.c:236-283 | a request is committed if and only if storage, settings, button, memory, recognition, network and clock are good, the model answers, nobody cancels before or after the change is applied, it applies, and the store takes it |
| TodoTransactions.CommittedReport | components/app_controller/app_controller.c:284-285 | which report each kind of change gets |
| TodoTransactions.CancelledIff | components/app_controller/app_controller.c:245-295 | exactly which cancellations are reported |
| TodoTransactions.FailureNotices | components/app_controller/app_controller.c:236-281 | exactly what leads to each other notice |
| TodoTransactions.TickWaits | components/app_controller/app_controller.c:313-334 | what holds a tick back, and that the next may alert two seconds after an alert, a minute after a failed one |
| TodoTransactions.MicrophoneSilences | components/app_controller/app_controller.c:209-224 | from the microphone going on until it goes off nothing alerts and nothing is stored |
| TodoTransactions.BootAnswers | components/app_controller/app_controller.c:1478-1479 | start-up takes a readable stored list, starts empty without one, and otherwise marks storage unusable |
| TodoController.Controller.FactoryReset | components/app_controller/app_controller.c:1146-1173 | the store is cleared or kept, memory is kept, and the device restarts only if every step succeeds |
| TodoController.Controller.PrepareSleep | components/app_controller/app_controller.c:1213-1221 | from here on reminders are gated |
| TodoTransactions.TickStoresIffFires | components/app_controller/app_controller.c:313-334 | a tick stores an alert exactly when it is let through, finds an item due with a next due time in range, and memory, revision, speaker and store allow it |
| TodoTransactions.CancelledStore | components/app_controller/app_controller.c:209-215 | a request that is not committed leaves the stored bytes alone exactly when no tick of the exchanges it gets to alerts |
| TodoTransactions.CancelledYetStored | components/app_controller/app_controller.c:209-215 | a cancelled request during which a reminder is stored |
| TodoTransactions.EventKeepsSync | components/app_controller/app_controller.c:226-342 | each tick, request, reset, shutdown or restart keeps memory equal to a reload of the store, if and only if it is not a reset stopped half-way with a list to forget |
| TodoTransactions.EveryRunInSync | components/app_controller/app_controller.c:226-342 | a run from start-up has memory equal to a reload throughout, if and only if it has no such reset |
| TodoTransactions.RestartKeepsList | components/app_controller/app_controller.c:1478-1479 | so a restart keeps the list |
| TodoTransactions.ResetKeepsSyncIff | components/app_controller/app_controller.c:1146-1173 | a factory reset keeps memory and store in step unless it clears the store, does not restart, and memory holds other than the initial list |
| Base64Stream.EncodedLength | components/smart_todo/smart_todo_llm.c:256-256 | the length formula is the length of the RFC 4648 encoding |
| Base64Stream.QuantumByShifts | components/smart_todo/smart_todo_llm.c:90-93 | the shifts and masks cut the four symbols of a 24-bit group |
| Base64Stream.LastQuantumByShifts | components/smart_todo/smart_todo_llm.c:96-104 | so for the padded last group |
| Base64Stream.EncodeOfConcat | components/smart_todo/smart_todo_llm.c:75-106 | whole groups encode independently of what follows |
| Base64Stream.FinishFitsIff | components/smart_todo/smart_todo_llm.c:96-105 | when the finishing group has room in the buffer, and that it has without input |
| Base64Stream.FinishOverruns | components/smart_todo/smart_todo_llm.c:82-105 | a finishing call of 386 bytes has none, whatever the connection does |
| Base64Stream.WriteAll | components/smart_todo/smart_todo_llm.c:60-70 | all bytes are sent in order, or a proper prefix; it fails only if the connection was cancelled or refused a write |
| Base64Stream.Stream.TakeByte | components/smart_todo/smart_todo_llm.c:83-94 | one byte keeps what is sent and buffered the encoding of the whole groups taken, the index within 512 and the carry below 3 |
| Base64Stream.Stream.TakeAll | components/smart_todo/smart_todo_llm.c:82-95 | so does any input, and sending can only fail after a full buffer |
| Base64Stream.Stream.WriteBase64 | components/smart_todo/smart_todo_llm.c:75-106 | a call sends the encoding of the whole groups so far and carries the rest; a finishing call sends all, or overruns the buffer only where the last group has no room |
| Base64Stream.SendParts | components/smart_todo/smart_todo_llm.c:75-106 | any split into calls and one empty finishing call sends the encoding of the whole, of the declared length, and never overruns the buffer |
| Base64Stream.Upload | components/smart_todo/smart_todo_llm.c:247-285 | a completed upload has sent prefix, encoding of header and recording, and suffix, as many bytes as declared; it fails only by the connection or a flash read |
| Ndef.Writer.Append | components/board_services/board_ndef.c:5-9 | the buffer holds all that was asked for, or it does not fit; bytes past the length are untouched |
| Ndef.Writer.PutUriRecord | components/board_services/board_ndef.c:26-32 | appends the URI record |
| Ndef.ValidUrl | components/board_services/board_ndef.c:15-25 | the scan accepts exactly the URLs that fit a record |
| Ndef.BoardNdefUri | components/board_services/board_ndef.c:33-41 | succeeds exactly when the URL is valid and the record fits; then the bytes, nothing past them |
| Ndef.BoardNdefWifi | components/board_services/board_ndef.c:42-76 | succeeds exactly when inputs are valid and both records fit; then the bytes, nothing past them |
| Ndef.BoardNdefType2 | components/board_services/board_ndef.c:77-88 | succeeds exactly for 1 to 65535 bytes that fit with their TLV; then the bytes, nothing past them |
| NdefReader.CredentialRead | components/board_services/board_ndef.c:53-61 | an attribute parser reads the six attributes of the credential in order |
| NdefReader.CardRead | components/board_services/board_ndef.c:42-76 | a parser of NDEF recovers SSID, key, security and URL from the two records |
| NdefReader.UrlMessageRead | components/board_services/board_ndef.c:33-41 | and the URL from the single record |
| NdefReader.Type2Read | components/board_services/board_ndef.c:77-88 | a reader of the tag finds the message, whatever follows the terminator |
| NdefTwin.BuildNdefAgrees | tools/nfc-setup.py:17-42 | on every pair of strings the tool accepts what the firmware accepts for an empty password, and builds the same bytes |
| NdefTwin.Type2Agrees | tools/nfc-setup.py:45-48 | the tool's TLV is the firmware's for all lengths, and it alone accepts the empty message |
| NdefTwin.PrefixEncoded | tools/nfc-setup.py:21-21 | an ASCII prefix of a text is a prefix of its encoding, and only then |
| NdefTwin.PrintableEncoded | tools/nfc-setup.py:21-21 | no character is blank or a control one exactly when no encoded byte is |
| NfcTag.Tag.WriteBlock | components/board_services/board_nfc_note.cc:69-79 | a write stores the block whole or not at all, never while a phone is near, and fails only if the bus did |
| NfcTag.Tag.WriteChecked | components/board_services/board_nfc_note.cc:80-90 | at most one block changes; success means that it holds the data, and comes if the bus has no trouble |
| NfcTag.WriteImage | components/board_services/board_nfc_note.cc:103-107 | every content on the way reads as the old message, the empty one or the whole new one; success means all 55 blocks are the image |
| NfcTag.Publish | components/board_services/board_nfc_note.cc:91-111 | the same for the zero-filled image of a message; one that does not fit touches nothing, and one that does fails only with the bus |
| NfcTag.EmptyReads | components/board_services/board_nfc_note.cc:101-104 | the empty first block hides whatever the other blocks hold |
| NfcTag.ImageReads | components/board_services/board_nfc_note.cc:91-107 | the published image reads as its message |
| NfcTag.Service.SetWifi | components/board_services/board_nfc_note.cc:114-122 | after success the tag reads as the Wi-Fi message; invalid inputs touch nothing; over all calls the tag has only read as its first, the empty or a requested message, this one the only one added |
| NfcTag.Service.SetUrl | components/board_services/board_nfc_note.cc:123-130 | the same for a URL and its message |
| NfcTag.Service.Stop | components/board_services/board_nfc_note.cc:131-145 | power goes off only after the safe URL has replaced every byte of the message, the one message it asks for |
| UsageAggregate.DayCandidate.constructor | components/vibe_usage/src/vibe_aggregate.c:6-11 | a new day has no sources and no tokens |
| UsageAggregate.SourceLengthBounded | components/vibe_usage/src/vibe_aggregate.c:13-20 | the length, capped at the slot size |
| UsageAggregate.DayCandidate.Find | components/vibe_usage/src/vibe_aggregate.c:37-43 | the first slot with the name |
| UsageAggregate.DayCandidate.Add | components/vibe_usage/src/vibe_aggregate.c:22-75 | the whole new day; the full-table and per-slot overflow returns are never taken |
| UsageAggregate.AddedIsConsistent | components/vibe_usage/src/vibe_aggregate.c:22-75 | names stay distinct, the last slot is only ever the other one, and the total is the sum of the slots |
| UsageLaws.AddedIsTruthful | components/vibe_usage/src/vibe_aggregate.c:22-75 | a bucket added to a truthful day leaves it truthful, slots taken earlier keeping their sources |
| UsageLaws.RunIsTruthful | components/vibe_usage/src/vibe_aggregate.c:22-75 | after any run the total and each slot are exact sums of the accepted tokens, each source's in one slot, and the collapsed flag says whether any went to the other one |
| UsageLaws.SourcesHaveSlots | components/vibe_usage/src/vibe_aggregate.c:32-66 | a source whose name fits has its own slot until 23 are taken; it and those too long are otherwise counted as other |
| UsageLaws.NamedSlotHoldsAll | components/vibe_usage/src/vibe_aggregate.c:36-66 | a named slot holds every accepted token of exactly its name |
| UsageLaws.RefusedIff | components/vibe_usage/src/vibe_aggregate.c:25-30 | a bucket is refused as invalid exactly for an empty name, and as an overflow exactly for an exact total beyond 64 bits |
| UsageLaws.BasisPoints | components/vibe_usage/src/vibe_aggregate.c:77-97 | the 10000-step loop is the floored share for all 64-bit inputs and never leaves 64 bits |
| UsageLaws.SharesNearlyWhole | components/vibe_usage/src/vibe_aggregate.c:77-97 | the shares of a day's sources sum to at most 10000 and fall short by fewer points than there are sources |
| DeviceLink.LinkController.ClearPublicLink | components/app_controller/app_controller.c:408-421 | no code is left to poll for |
| DeviceLink.LinkController.StartDeviceLink | components/app_controller/app_controller.c:547-598 | a new session with the granted code, interval and deadline, first due one interval later |
| DeviceLink.LinkController.PollDeviceLink | components/app_controller/app_controller.c:600-698 | one request before the deadline and none after; which answers end the code; the interval and the exact time of the next request after any other |
| DeviceLink.AskedAgain | components/app_controller/app_controller.c:624-659 | a live code is asked for again on the first free turn on line after the interval, or after the wait that follows a failure |
| DeviceLink.LinkController.RunDueActions | components/app_controller/app_controller.c:1240-1262 | a request is sent exactly when it is due, online, with a code that has not expired |
| DeviceLink.PollsApart | components/app_controller/app_controller.c:600-698 | in any orderly history two requests for one code are at least the interval then in force apart |
| DeviceLink.TerminalIsLast | components/app_controller/app_controller.c:661-697 | a code whose request had a final answer is never asked for again |
| DeviceLink.IntervalNeverShrinks | components/app_controller/app_controller.c:652-657 | the interval never decreases and grows by five seconds for every slow-down, without 32-bit overflow |
| DeviceLink.SlowDownGrows | components/app_controller/app_controller.c:652-657 | one slow-down grows the interval by at least five exactly when 32 bits can hold it |
| DeviceLink.IntervalWraps | components/app_controller/app_controller.c:652-657 | a run of the controller in which they cannot |
| Transcript.TranscriptCollector.Ingest | services/codex_gateway/voice.py:79-128 | the whole new state and the error raised, for every notification, as the laws below describe them |
| TranscriptText.OtherErrors | services/codex_gateway/voice.py:80-94 | which notifications that are no turns raise which error |
| TranscriptText.TurnErrors | services/codex_gateway/voice.py:95-100 | turns of others are ignored, and ids of the user's have 1 to 256 characters |
| TranscriptText.CreatedErrors | services/codex_gateway/voice.py:101-108 | a turn that begins is refused only as the thirty-third |
| TranscriptText.DoneErrors | services/codex_gateway/voice.py:101-116 | the end of a turn breaks the protocol exactly when it is a thirty-third, comes without a usable text, or contradicts the text kept; repeating the kept text raises nothing |
| TranscriptText.FirstDoneKept | services/codex_gateway/voice.py:101-128 | a turn that ends for the first time keeps its stripped text and takes the next place unless it has one |
| TranscriptText.FirstDoneErrors | services/codex_gateway/voice.py:101-128 | such a turn raises which error exactly when, too long meaning more than 512 bytes of texts and spaces, and nothing else |
| TranscriptText.JoinedLength | services/codex_gateway/voice.py:131-132 | the transcript is as long as its texts and one space between each two |
| TranscriptText.JoinedHolds | services/codex_gateway/voice.py:131-132 | every turn's text stands in it, in order, after those before it and a space |
| TranscriptText.JoinedBytes | services/codex_gateway/voice.py:127-132 | and so for its bytes |
| TranscriptText.ReadyIff | services/codex_gateway/voice.py:134-136 | ready means that some turn has a text, none is open and nothing is pending |
| TranscriptText.RunRemembers | services/codex_gateway/voice.py:101-126 | over any run that raises nothing the turns are in order of first appearance, and each that ended has the text it ended with |
| Transcript.EventIsCovered | services/codex_gateway/voice.py:109-126 | a first final adds one cover, a beginning of its canonical text |
| Transcript.EventIsAccounted | services/codex_gateway/voice.py:83-126 | one notification keeps the observed text equal to the covered parts and the pending text |
| Transcript.RunIsAccounted | services/codex_gateway/voice.py:64-140 | over any run that raises nothing: open and final turns are disjoint and are those seen, limits hold, and the observed text is one part of each final, in order of arrival, then the pending text |
| Transcript.ReadyIsComplete | services/codex_gateway/voice.py:134-136 | ready means that every turn seen is final and every delta is covered |
| Transcript.RepeatedTurnIgnored | services/codex_gateway/voice.py:101-116 | repeating a turn notification changes nothing and raises nothing |

## Left out

- The HTTP client, TLS, Wi-Fi, NVS, I2C, audio, FreeRTOS and WebRTC drivers: their outcomes are inputs. A stored list and a 16-byte block are written whole or not at all, and a successful read returns what is stored.
- Null pointers, where the source checks for them, and clearing of key material from local buffers.
- Reading an action out of the model's JSON answer (`smart_todo_parse_action`), prompts and request building: JSON library and text.
- The `has_any_data` flag of a day and the parser, cache and refresh planning of `vibe_usage` beyond aggregation.
- C leaves the overflow of an `int` sum undefined; `Calendar.CivilFromDays` wraps it, as the casts beside it do. No date it reports as being in years 1 to 9999 depends on this.
- View fields, status strings other than the notices of a voice request, language and volume handling.
- The gates of `run_due_actions` before the link check (shutdown, clock, settings page, an imminent reminder) are one input, `free`.
- The clock of `DeviceLink` is unbounded: a 64-bit microsecond counter does not wrap within 290000 years.
- Unicode case folding, alphanumeric classes and stripping are parameters of the transcript collector; its laws hold for any of them.
- TodoReminders.DrainAlertsEachOnce: needs room for one revision an alert, since the source refuses every alert at the last revision.
- DeviceLink.IntervalNeverShrinks: assumes that no slow-down overflows 32 bits, the condition of `DeviceLink.SlowDownGrows`.
