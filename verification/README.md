# A model of the keyboard transmitter firmware

This project models the firmware of a wireless keyboard transmitter and proves what its parts
promise: the firmware update over UART and over USB serial, the pairing store on NOR flash, the
slot machine and its keystroke counters, the cooperative tasks with their shared flags and queues,
the streaming UART parser, and the acknowledged sending of the radio driver. `dafny verify
dfyconfig.toml` checks all of it.

Code that computes is modelled by functions. Code that changes state is modelled twice: by a class
or a method with the source's fields, loops and branches, and by a specification function that the
method's `ensures` ties it to; the properties are then lemmas about the specification. Bytes on a
wire are characters, bytes of data are 8-bit vectors, the CRC register is a 32-bit vector, and the
32-bit numbers of the protocol are natural numbers with explicit bounds or wrap-around.

- `Text`, `Bytes`: tokens, hexadecimal numbers, little-endian words.
- `Crc32`, `CrcPolynomial`: the CRC register, and its meaning as a polynomial remainder over GF(2).
- `UartLink`, `Commands`: the line parser and its agreement with the command handler.
- `Ota`, `OtaSafety`, `OtaDelivery`: the UART update, what no line sequence can do to it, and that a
  whole image arrives over a lossy link.
- `AppendLog`, `Storage`, `Layout`, `ProfileMap`, `Wear`: the page log, the store on AND-only flash, its
  bytes, the map it refines, and how often its pages are erased.
- `Slots`, `UnifyingState`, `Counters`, `KeyReports`: the slot machine, the same on the real flash, counter
  freshness, and what is said on the air and kept.
- `Tasks`, `TaskSafety`, `Reception`, `StaleSession`, `Executor`: the tasks as atomic stretches, safety over
  every interleaving, which received lines become requests and run, what a session that has just ended can
  still do, and the stretches as code.
- `CdcUpload`: the USB upload through the staging buffer. `Esb`: the radio driver and its receiver.
- `Device`: the tasks with both updates on one flash partition.

What the environment does enters as parameters and is otherwise free: which storage operations
succeed, which transmissions are heard or answered, what a pairing attempt yields, in which order
the tasks run, what the hosts send. The assumptions are these. Every call of the library's encrypted
send uses the counter `c` and leaves `c + 1` modulo 2^32 (docs/TECHNICAL.md:118); pairing, connecting
and keep-alives send nothing under the old key; a report has six key codes. A receiver acknowledges
only what it has heard. Session epochs and fault generations do not wrap. Power is lost between
commands, not inside a flash write. In `Slots` and above the flash operations succeed.

Some promises are false of the code as it stands. For each of these there is the exact condition, in
terms that can be looked up beforehand, and an input that shows the failure:

- Two firmware uploads never run at once: they can, exactly when a UART update opens while the serial
  task is still in the upload of a session that has ended (`TaskSafety.OverlapBeginsExactly`,
  `TaskSafety.OverlapOnlyWhenStale`; a run: `StaleSession.UploadsOverlap`). The shared marks do exclude
  each other, but the USB mark goes down before its upload ends (`StaleSession.StaleUploadOutlivesMark`).
- The 512 counters added at boot cover any power loss (docs/TECHNICAL.md:400): they do exactly when the
  live counter is at most 512 ahead of the stored one (`Counters.BootFreshExactly`,
  `Counters.RunFreshExactly`; 26 unheard all-ups: `Counters.MarginOvershot`).
- The counter is saved every 128 frames (docs/TECHNICAL.md:392): only a press whose attempts end on a
  multiple of 128 saves it (`Counters.KeyDownSavesExactly`, `Counters.StepsOverExactly`; three unheard
  attempts: `Counters.RetriesStepOver`).
- Counters survive pairing into another slot: exactly when the departing counter is stored
  (`Counters.DepartureExactly`; a run: `Counters.UnstoredDepartureRepeats`).
- A saved profile is loaded again, on a page in any condition: exactly when no other readable log follows
  its place (`ProfileMap.SaveThenLoadExactly`; a page: `ProfileMap.StaleRecordWins`).
- Every accepted line is claimed by a handler: exactly when it is not a bare `OTA`
  (`Commands.OnlyBareOtaIsUnclaimed`).
- Every size that BEGIN accepts can be uploaded: exactly when it is more than 256 bytes
  (`OtaDelivery.SmallestImageNeverFits`).
- A lost answer can be asked for again: not that of COMMIT, which finds no session any more
  (`OtaDelivery.CommitAnswersOnce`); for every other line see `OtaDelivery.EventKeepsStep`.
- An acknowledged radio call has been delivered: exactly when it is not a multiple of four behind the last
  call heard with the same checksum (`Esb.AckedButLost`; five calls: `Esb.FifthIsLost`).

## Model

| member | source | states |
|---|---|---|
| Crc32.CrcUpdate | app/src/uart_ota.rs:8-11 | the shift-and-mask loops compute the register function on which all CRC results rest |
| Crc32.CrcConcat | app/src/uart_ota.rs:56-57 | reading an image back in pieces gives the CRC of the whole image |
| Crc32.CrcLinear | app/src/uart_ota.rs:8-11 | the CRC is linear over GF(2) in register and message together |
| Crc32.CrcBijective | app/src/uart_ota.rs:8-11 | for every fixed input the update is a bijection of the 32-bit register, with an explicit inverse |
| Crc32.ShortKernel | app/src/uart_ota.rs:8-11 | a message of at most four bytes that leaves a zero register zero is itself all zero |
| Crc32.BurstDetected | app/src/uart_ota.rs:54-61 | two images that differ only inside some four consecutive bytes never share a CRC |
| CrcPolynomial.DivisionUnique | app/src/uart_ota.rs:8-11 | quotient and remainder under the generator of section 3.2.9 of IEEE 802.3 are unique |
| CrcPolynomial.FeedBitsDivides | app/src/uart_ota.rs:8-11 | a register fed bit by bit performs the long division of the message polynomial |
| CrcPolynomial.BitsCrc | app/src/uart_ota.rs:8-11 | the byte-wise register is the bit-wise one, each byte entering least significant bit first |
| CrcPolynomial.CrcIsRemainder | app/src/uart_ota.rs:8-11 | a word is the CRC of a message if and only if it is the reflected remainder of the message polynomial |
| CrcPolynomial.DeclaredCrcExactly | app/src/uart_ota.rs:56-58 | a word is the CRC that an image has to declare if and only if each of its 32 bits differs from that bit of the remainder of the message polynomial, with the register starting at all ones |
| CrcPolynomial.CheckValue | app/src/uart_ota.rs:8-11 | the CRC of the digits 1 to 9 is 0xcbf43926, the check value of the standard CRC-32 |
| Ota.Session.ReadBackCrc | app/src/uart_ota.rs:56-57 | the 64-byte read-back gives the CRC of the first size bytes, for every size, or reports the read that failed |
| Ota.Session.CheckVector | app/src/uart_ota.rs:45-50 | the first eight bytes are accepted exactly when stack pointer and Thumb reset address fit RAM and the image |
| Ota.Session.HandleData | app/src/uart_ota.rs:31-53 | a DATA line changes session, cells and the record of operations as the specification says, and nothing else |
| Ota.Session.HandleCommit | app/src/uart_ota.rs:54-61 | a COMMIT line marks the image, or refuses and closes the session, as the specification says |
| Ota.Session.Handle | app/src/uart_ota.rs:20-65 | every line, well formed or not, is answered and acted upon as the specification says |
| OtaSafety.StepIsSafe | app/src/uart_ota.rs:20-65 | from any state that agrees with what an observer saw, one line keeps the agreement and does only operations that are in order |
| OtaSafety.RunIsSafe | app/src/uart_ota.rs:20-65 | over any lines and storage behaviour every write is whole words, continues the last one and stays inside the image, and every mark is on a complete image with a sound vector and the declared CRC |
| OtaSafety.OneMarkPerBegin | app/src/uart_ota.rs:54-61 | between two markings of the image there is an accepted BEGIN |
| OtaSafety.CommitMarksExactly | app/src/uart_ota.rs:54-61 | COMMIT marks the image if and only if the session is open and complete, the image can be read, and the inverted declared word is the remainder of its message polynomial |
| OtaSafety.AcknowledgedIsStored | app/src/uart_ota.rs:39-52 | a DATA line acknowledged has its bytes in the flash, inside what counts as received, and a repetition is acknowledged exactly if they are the same |
| OtaSafety.VectorExactly | app/src/uart_ota.rs:46-49 | the first little-endian word is the stack pointer, in RAM and a multiple of 8, the second the Thumb address of the reset handler, inside the image and behind its first 256 bytes |
| OtaSafety.StepActivity | app/src/uart_ota.rs:20-65 | one line leaves a session open if and only if it is an acceptable BEGIN, or one was open and neither ABORT, a failed write or vector, nor any COMMIT but an early one closed it |
| OtaSafety.ActiveExactly | app/src/uart_ota.rs:20-65 | over any lines a session is open if and only if some acceptable BEGIN opened it and no line closed it since |
| OtaSafety.PrefixIsPayload | app/src/uart_ota.rs:51-52 | with faithful storage the stored prefix is always the payloads accepted since the last BEGIN |
| OtaSafety.MarkedImageIsWhatWasSent | app/src/uart_ota.rs:54-61 | what is marked for booting is exactly the payloads accepted since the last BEGIN, and has the declared size and CRC |
| OtaSafety.BurstNeverCommits | app/src/uart_ota.rs:54-61 | COMMIT refuses a stored image that differs from the declared one only inside four consecutive bytes |
| OtaSafety.CarriageReturnIsInert | app/src/main.rs:544-560 | a line with an inner carriage return, which the update branch accepts against the transport's verdict, changes nothing |
| OtaDelivery.BytesRoundTrip | app/src/uart_ota.rs:35-36 | every payload survives its hexadecimal spelling |
| OtaDelivery.WordRoundTrip | app/src/uart_ota.rs:12-15 | every 32-bit number survives its eight-digit spelling |
| OtaDelivery.BeginExactly | app/src/uart_ota.rs:22-30 | BEGIN with any spelled size and CRC is accepted if and only if the size is a multiple of 4 from 256 to 491520, and means just these numbers |
| OtaDelivery.DataExactly | app/src/uart_ota.rs:31-38 | DATA with any spelled offset and bytes means just these if there are one to sixteen whole words, and is refused otherwise |
| OtaDelivery.NumberedLineArrives | app/src/uart_link.rs:45-125 | a numbered printable line within the limit, ended by LF or by CR LF and fed byte by byte, yields one frame with its number and canonical text |
| OtaDelivery.LineToFlash | app/src/uart_ota.rs:31-38 | every number, offset and payload of one to sixteen words, with any spacing that fits and either line end, arrives as one clean frame that decodes to just those |
| OtaDelivery.SenderLineArrives | app/src/uart_link.rs:104-125 | each line of the sender, with either line end, comes out of the parser as the one frame that the update decodes to what the sender meant |
| OtaDelivery.NextBlock | app/src/uart_ota.rs:44-52 | the block at the receiver's boundary is stored and extends the image prefix to the next boundary |
| OtaDelivery.OldBlock | app/src/uart_ota.rs:39-43 | a repeated block is acknowledged again and changes nothing |
| OtaDelivery.EventKeepsStep | app/src/uart_ota.rs:25-61 | lost requests, lost answers and repeats keep the receiver on a block boundary holding exactly that much of the image |
| OtaDelivery.LossyLinkDelivers | app/src/uart_ota.rs:25-61 | over any such exchange no compliant line draws an error, and once the last line is answered the flash holds the whole image and its marking was the last storage operation and the only marking |
| OtaDelivery.CommitAnswersOnce | app/src/uart_ota.rs:54-61 | a COMMIT sent again after its first answer was lost is refused and touches nothing |
| OtaDelivery.AnyStartWillDo | app/src/uart_ota.rs:25-30 | the exchange may begin in any earlier session state |
| OtaDelivery.SmallestImageNeverFits | app/src/uart_ota.rs:49-49 | a size that BEGIN accepts admits an image with a sound vector if and only if it is more than 256 |
| UartLink.HexByte | app/src/uart_link.rs:72-77 | one or two digits of either case give their value, anything else nothing |
| UartLink.Validate | app/src/uart_link.rs:79-102 | the token loop gives the verdict that the token list deserves |
| UartLink.Canonicalize | app/src/uart_link.rs:112-121 | the fixed buffer ends up with the tokens joined by single spaces and is never overrun |
| UartLink.ParseNumber | app/src/uart_link.rs:106-111 | exactly eight digits of upper case are read as the request number |
| UartLink.ParseLine | app/src/uart_link.rs:104-125 | one line gives the frame that its text means; what that is, see UartLink.FrameExactly and UartLink.CrIsOptional |
| UartLink.FrameExactly | app/src/uart_link.rs:106-125 | a line without a final carriage return gives a frame if and only if it is an at sign, the number in eight capital digits, a space and a text, which the frame holds in canonical form with its verdict |
| UartLink.CrIsOptional | app/src/uart_link.rs:105-105 | one carriage return at the end of a line makes no difference |
| UartLink.RefusalExactly | app/src/uart_link.rs:79-102 | the verdict is unknown command if and only if the first token is none of the six and there is no carriage return; any other refusal is about arguments |
| UartLink.LineYieldsExactly | app/src/uart_link.rs:45-60 | a line fed byte by byte yields its frame exactly if it has at most 256 bytes, all printable ASCII or carriage return |
| Text.DigitsExactly | app/src/uart_link.rs:62-70 | the sixteen digits in either case have the values 0 to 15, no other character has one |
| Text.FirstDigitWeighsMost | app/src/uart_ota.rs:12-15 | the first digit of a number weighs sixteen to the power of the digits behind it |
| UartLink.Parser.Damaged | app/src/uart_link.rs:32-35 | damage leaves the parser waiting for a line end |
| UartLink.Parser.SessionChanged | app/src/uart_link.rs:38-43 | cancellation moves the parser to a line start or to waiting for one |
| UartLink.Parser.Push | app/src/uart_link.rs:45-60 | one byte moves the parser and yields at most one frame, as the specification says |
| UartLink.PushAll | app/src/main.rs:709-710 | a packet of bytes yields the frames of the byte-wise run, in order |
| UartLink.StreamingIsBatch | app/src/uart_link.rs:45-60 | for every stream the frames are those of its line-feed terminated segments of at most 256 legal bytes, in order |
| UartLink.DamageIsContained | app/src/uart_link.rs:31-35 | after damage no byte before the next line feed has any effect on any frame |
| UartLink.DamageCostsOneLine | app/src/uart_link.rs:31-60 | damage inside a stream costs exactly the line it falls in |
| UartLink.CancellationIsExact | app/src/uart_link.rs:37-43 | the parser is at a line start after cancelling bytes exactly when parsing them would have ended on one |
| UartLink.NewSessionFrames | app/src/uart_link.rs:37-60 | bytes of the new session never complete an old line, and no line that begins with them is lost |
| UartLink.CanonicalForm | app/src/uart_link.rs:112-121 | canonical text keeps the tokens, is its own canonical form and is never longer |
| UartLink.EncodeReply | app/src/uart_link.rs:128-137 | the wire holds number and unchanged body, the rest of the buffer is untouched, and a small buffer is refused |
| UartLink.ReplyCarriesNumber | app/src/uart_link.rs:127-137 | the peer reads back the number of its request and the whole body |
| Commands.ParseU8Hex | app/src/main.rs:1498-1513 | the handler's own number parser agrees with the transport's |
| Commands.ParseKeys | app/src/main.rs:1343-1373 | modifier and at most six codes are read, zero padded, or the line is refused |
| Commands.AcceptedIsUnderstood | app/src/main.rs:1086-1373 | the transport accepts a line exactly when it is an update line or a sound command, and the handler reads its canonical form as that very command |
| Commands.PlainCommands | app/src/main.rs:1045-1244 | what the handler makes of each command without arguments |
| Commands.SlotCommands | app/src/main.rs:1097-1254 | UPAIR, UDELETE and USWITCH with a token mean the slot it spells, or draw the slot error |
| Commands.KeyCommands | app/src/main.rs:1283-1373 | UKEY and UKEYDOWN mean the report that their tokens spell, or draw the argument error |
| Commands.TextCommand | app/src/main.rs:1386-1386 | UTYPE means the rest of its line as it stands |
| Commands.ReportExactly | app/src/main.rs:1343-1373 | tokens spell a report if and only if they are one to seven bytes; the first is the modifier, the others are the keys in order, zeros fill up to six |
| Commands.OnlyBareOtaIsUnclaimed | app/src/main.rs:544-544 | an accepted line reaches the command list if and only if it is a bare OTA |
| Bytes.LeRoundTrip | app/src/storage.rs:78-95 | every 32-bit number survives its little-endian bytes |
| AppendLog.SaveThenLatest | app/src/storage.rs:105-163 | on a tidy page the entry just saved is read back and the page stays tidy, dirty tails included |
| AppendLog.SaveThenLatestExactly | app/src/storage.rs:137-161 | on any page it is read back if and only if no other readable log follows its place |
| AppendLog.WearIsExact | app/src/storage.rs:129-163 | from an erased page each erase stands for one whole page of entries used up before it |
| Storage.RecordRoundTrip | app/src/storage.rs:76-102 | every profile survives its record |
| Storage.SlotRoundTrip | app/src/storage.rs:187-243 | every slot number survives its word |
| Storage.BlankWord | app/src/storage.rs:226-228 | a word is free if and only if it reads as the largest 32-bit number |
| Layout.RecordExactly | app/src/storage.rs:87-102 | 32 bytes of the flash decode if and only if they begin with 31 4B 46 55, and to a profile if and only if address, channel, key and little-endian counter stand at 4, 9, 12 and 28 |
| Layout.EncodedExactly | app/src/storage.rs:76-85 | what is written for a profile has every field in its place and zeros at 10 and 11 |
| Layout.LoadedExactly | app/src/storage.rs:105-126 | slot n loads a profile if and only if it stands in the last of the gapless records from 0xF8000 + 0x1000 n on, 32 bytes each, and nothing if the first bears no mark |
| Layout.ActiveExactly | app/src/storage.rs:188-208 | the active slot is the last of the little-endian words below four from 0xFC000 on, 4 bytes each, before the first that is not |
| Storage.Nvmc.Erase | app/src/storage.rs:154-157 | erasing sets whole pages to ones and is recorded page by page |
| Storage.Nvmc.Write | app/src/storage.rs:145-147 | programming only clears bits, and meeting a cleared bit is recorded |
| Storage.Load | app/src/storage.rs:105-126 | the scan returns the last record before the first that does not decode |
| Storage.FreeRecord | app/src/storage.rs:137-151 | the scan finds the place behind the log, or none when it is missing or not all ones |
| Storage.WriteRecord | app/src/storage.rs:160-161 | the record lands in its place, no other byte changes and no cleared bit is met |
| Storage.Save | app/src/storage.rs:129-163 | a save leaves the page that the log says, other pages alone, erases only when it must and never programs a dirty word |
| Storage.LoadActiveSlot | app/src/storage.rs:188-208 | the scan returns the last valid slot before the first invalid word |
| Storage.SaveActiveSlot | app/src/storage.rs:211-243 | the active-slot page is saved like a profile page |
| Storage.ClearSlot | app/src/storage.rs:166-175 | one profile page becomes blank, no other byte changes |
| Storage.ClearAll | app/src/storage.rs:178-185 | all profile pages and the active-slot page become blank, no other byte changes |
| ProfileMap.StepRefines | app/src/storage.rs:105-243 | every operation moves the flash as it moves the plain map and keeps every page tidy |
| ProfileMap.HistoryRefines | app/src/storage.rs:105-243 | any history of saves and clears loads as the map from slot to latest profile does |
| ProfileMap.RefinementIsUnique | app/src/storage.rs:105-126 | a flash refines at most one map |
| ProfileMap.SaveThenLoadExactly | app/src/storage.rs:129-163 | on an arbitrary page a saved profile is loaded again if and only if no other readable log follows its place |
| ProfileMap.StaleRecordWins | app/src/storage.rs:137-161 | one such page: an erased place followed by an old record |
| ProfileMap.ContentsStep | app/src/storage.rs:105-243 | what a tidy flash holds moves with every operation as the map does |
| ProfileMap.ErasedHoldsNothing | app/src/storage.rs:19-22 | an erased flash is tidy and holds no profile and no active slot |
| Wear.Perform | app/src/storage.rs:129-243 | every operation erases exactly the pages it must and programs only blank places |
| Wear.PerformAll | app/src/storage.rs:129-243 | over any history the flash records exactly the history's erasures, and no cleared bit is ever programmed |
| Wear.PageUsage | app/src/storage.rs:129-175 | over any mixture of operations a profile page is erased exactly as often as the saves and clears of its own slot require |
| Wear.ProfileWear | app/src/storage.rs:129-163 | n saves of a slot, between any other operations but its clears, erase its page exactly (n - 1) / 128 times, rounded down |
| Wear.ActivePageUsage | app/src/storage.rs:178-243 | the same count for the active-slot page |
| Wear.ActiveSlotWear | app/src/storage.rs:211-243 | n saves of the active slot, between any other operations but a clear of everything, erase its page exactly (n - 1) / 1024 times, rounded down |
| Slots.StepConsistent | app/src/main.rs:139-181 | one command, poll or boot keeps the connection state consistent |
| Slots.RunConsistent | app/src/main.rs:139-181 | over all command and reboot sequences connected implies paired, and paired implies that the active slot is the persisted one and holds the pairing in use |
| Slots.FailedPairRestores | app/src/main.rs:1110-1147 | a failed pairing attempt leaves the previous target exactly as it was, and one that finds no radio changes nothing at all |
| Slots.DeleteEmpties | app/src/main.rs:1221-1244 | deleting empties the slot or the whole store, unpairs if the live pairing goes, and leaves everything else as it was |
| Slots.EmptySlotStaysEmpty | app/src/main.rs:1086-1277 | no event but a successful pairing into it fills an empty slot |
| Slots.DeletedStaysEmpty | app/src/main.rs:1086-1277 | over any run without such a pairing a deleted slot stays empty |
| UnifyingState.Worker.constructor | app/src/main.rs:408-427 | power-on restores the persisted slot from the real flash and stores the raised counter |
| UnifyingState.Worker.RestoreFrom | app/src/main.rs:412-426 | restoring a slot applies its profile with the margin and writes it back |
| UnifyingState.Worker.SwitchSlot | app/src/main.rs:162-181 | switching stores the departing counter, persists the choice and loads the new profile, or nothing for the same slot |
| UnifyingState.Worker.OnSwitch | app/src/main.rs:1247-1277 | USWITCH moves state and flash as the slot machine says |
| UnifyingState.Worker.OnPairInto | app/src/main.rs:1110-1148 | UPAIR stores a new pairing or restores the old one, state and flash together |
| UnifyingState.Worker.OnConnect | app/src/main.rs:1152-1179 | UCONNECT connects only a paired keyboard that was answered |
| UnifyingState.Worker.OnDelete | app/src/main.rs:1221-1244 | UDELETE moves state and flash as the slot machine says |
| UnifyingState.Worker.OnSleep | app/src/main.rs:1195-1207 | USLEEP disconnects and stores the live counter |
| UnifyingState.Worker.SendBurst | app/src/main.rs:1462-1484 | the loop sends the report as often as KeyReports.BurstExactly says, each time under a counter of its own, and reports whether it was heard |
| UnifyingState.Worker.OnKeyDownReport | app/src/main.rs:1374-1384 | UKEYDOWN sends its report up to three times, or once with the link down, and stores the counter on a multiple of 128 |
| UnifyingState.Worker.OnKeyStroke | app/src/main.rs:1321-1329 | UKEY moves state, flash and air as the slot machine says, and answers whether the press was heard; see KeyReports.StrokeIsPressAndRelease |
| UnifyingState.Worker.OnTypeText | app/src/main.rs:1386-1419 | UTYPE does the same character by character, storing the counter once at the end, and counts the characters sent and those heard; see KeyReports.TextIsStrokes |
| UnifyingState.Worker.Strike | app/src/main.rs:1448-1453 | a press until heard or given up, then in any case the release of all keys |
| UnifyingState.Worker.TypeChar | app/src/main.rs:1427-1445 | a character is a stroke of its one key, with the left shift if the key is shifted |
| UnifyingState.Worker.OnAllUp | app/src/main.rs:492-501 | releasing all keys sends under the live pairing and stores nothing |
| UnifyingState.Worker.OnPoll | app/src/main.rs:331-351 | the poll follows the link, and a power warning stores the live counter |
| UnifyingState.Perform | app/src/main.rs:1034-1423 | any event moves the code on the flash as it moves the slot machine |
| UnifyingState.Live | app/src/main.rs:408-598 | from an erased flash through any events the code is where the slot machine is, and after a safe life the counters of every slot ascend |
| Counters.NewKeyboardOk | app/src/main.rs:117-137 | a new keyboard on an erased store meets all the conditions that the counter results start from |
| Counters.MarginCovers | docs/TECHNICAL.md:386-400 | three unsaved multiples of 128 hide at most 511 counters, which the margin covers; one counter beyond the margin passes a fourth |
| Counters.BootFreshExactly | app/src/main.rs:411-426 | booting resumes above every counter used if and only if the live counter was at most 512 ahead of the stored one |
| Counters.StepFreshExactly | app/src/main.rs:162-181 | one event keeps every slot's next counter above all it has sent if and only if it is no power loss beyond the margin and no departure by pairing with the counter not stored |
| Counters.StepTracked | app/src/main.rs:1374-1381 | every event, safe or not, keeps the stored counter at or below the live one, and what lies between was sent |
| Counters.RunFreshExactly | docs/TECHNICAL.md:384-400 | over any run counters stay fresh all along if and only if every power loss and every departure in it was safe |
| Counters.CountersAscend | docs/TECHNICAL.md:384-400 | over any such run, of key commands, all-ups, sleeps, switches, pairings and power losses, the counters sent in a slot strictly ascend |
| Counters.UnsafeBootRepeats | app/src/main.rs:411-426 | after a power loss beyond the margin, connecting and one press send a counter that does not ascend |
| Counters.MarginOvershot | app/src/main.rs:499-501 | 26 unheard all-ups after a save put the live counter beyond the margin with nothing stored |
| Counters.UnstoredDepartureRepeats | app/src/main.rs:1130-1137 | pairing into another slot with the counter not stored, going back and pressing one key sends a counter that does not ascend |
| Counters.DepartureExactly | app/src/main.rs:1130-1137 | leaving by pairing elsewhere is harmless for every safe continuation if the stored counter is the live one, and otherwise going back repeats a counter at once |
| Counters.KeyDownSavesExactly | app/src/main.rs:1376-1381 | a press leaves its counter stored if and only if the live counter and its attempts add up to a multiple of 128 |
| Counters.StepsOverExactly | app/src/main.rs:1462-1473 | a press passes a multiple of 128 without a save if and only if its attempts step over it |
| Counters.RetriesStepOver | app/src/main.rs:1462-1473 | three unheard attempts from 126 modulo 128 do |
| KeyReports.BurstExactly | app/src/main.rs:1462-1495 | a report goes out up to and including its first acknowledgement, or as often as allowed if there is none |
| KeyReports.SentExactly | app/src/main.rs:1034-1495 | after any event a slot has sent what it had sent before, in the active slot the reports of the command more, in order and under consecutive counters, and nothing if newly paired |
| KeyReports.StrokeIsPressAndRelease | app/src/main.rs:1321-1329 | UKEY is the burst of its report, then just what releasing all keys sends, and the result is stored |
| KeyReports.HeardStroke | app/src/main.rs:1448-1453 | heard at once, UKEY sends its report and the empty one under the next two counters and leaves the third stored |
| KeyReports.TextIsStrokes | app/src/main.rs:1386-1419 | typing a text and one character more is typing the text, then a stroke of the key of that character, if it has one |
| KeyReports.StaysReleased | app/src/main.rs:1427-1453 | no event but UKEYDOWN leaves a key pressed in a slot that had none, whatever was heard |
| KeyReports.EndsReleased | app/src/main.rs:1427-1495 | UKEY, an all-up, and UTYPE of any character with a key end with the empty report, whatever was pressed before |
| KeyReports.NothingStaysPressed | app/src/main.rs:1034-1495 | over any run without a press by UKEYDOWN every slot ends with no key pressed, however many frames were lost |
| KeyReports.EndsStored | app/src/main.rs:1195-1329 | USLEEP, UKEY, UTYPE and a power warning leave the very profile in use stored for its slot and no other slot touched |
| KeyReports.SwitchExactly | app/src/main.rs:162-181 | changing slots stores what was live, takes up what is stored for the new slot, and connects exactly if that is something and the radio is ready |
| KeyReports.SwitchRoundTrip | app/src/main.rs:162-181 | switching away and back resumes at the very same profile |
| KeyReports.BootExactly | app/src/main.rs:408-427 | power-on restores the persisted slot, 512 counters on and stored at once, or is unpaired if it is empty, and is never connected |
| KeyReports.SleepThenBoot | app/src/main.rs:1195-1207 | a keyboard put to sleep comes back after a power loss with its pairing, 512 counters on |
| KeyReports.PairThenBoot | app/src/main.rs:1124-1137 | a pairing survives a power loss at once |
| KeyReports.DeleteThenBoot | app/src/main.rs:1221-1244 | a deleted pairing does not come back with the power |
| KeyReports.ConnectsExactly | app/src/main.rs:1110-1277 | a keyboard gets connected if and only if it is paired and was answered, was paired anew, or changed to a slot that holds a pairing, the radio being ready |
| KeyReports.LinkFollows | app/src/main.rs:331-351 | the link mark tells whether the last report, connection attempt or poll was heard, and decides between three attempts and one |
| Tasks.PassesHistory | app/src/main.rs:526-541 | a UART request that passes the checks has had an idle session since its first byte, and the same fault generation since the packet that completed it |
| Tasks.CurrentNotDropped | app/src/main.rs:520-525 | a request of the USB session in force is never dropped |
| Tasks.ControlKeeps | app/src/main.rs:447-472 | a change of ownership keeps the invariant of all tasks |
| Tasks.UnavailableKeeps | app/src/main.rs:252-265 | losing USB at any moment keeps the invariant of all tasks |
| Tasks.WorkerTakeKeeps | app/src/main.rs:506-581 | taking and judging a request keeps the invariant of all tasks |
| Tasks.RxBytesKeeps | app/src/main.rs:700-727 | a packet from the ring, in an old or a new session, keeps the invariant of all tasks |
| Tasks.ReachableOk | app/src/main.rs:447-956 | every state that any interleaving reaches satisfies the invariant |
| TaskSafety.OwnerKeepsEpoch | app/src/main.rs:447-472 | within an epoch the owner of the radio is fixed; epochs and fault generations never go back |
| TaskSafety.UsbNeedsReason | app/src/main.rs:252-301 | USB is available, and the DTR mark set, only if configuration, and a line state with DTR, came after USB was last lost |
| TaskSafety.HostNeedsReason | app/src/main.rs:447-453 | a USB host is active only since a moment at which both held, and neither was USB lost nor the host let go since |
| TaskSafety.HostIsServed | app/src/main.rs:488-498 | once the worker and the serial task have come round, a new host has been noticed and is read from |
| TaskSafety.LineIsServed | app/src/main.rs:520-596 | a line of the current host is run, and its answer gets the serial task back to reading |
| Reception.PacketIsStream | app/src/main.rs:709-727 | the frames of a packet join the queue in order while there is room; one too many is a fault, and without one the parser ends where the bytes lead it |
| Reception.FaultExactly | app/src/main.rs:690-754 | the fault generation rises, and the damage is marked, if and only if a read fails, a transmission fails, or a packet completes more frames than the queue has room for |
| Reception.SessionExactly | app/src/main.rs:252-453 | the epoch moves on by one if and only if USB is lost or the ownership of the host changes |
| Reception.UartFateExactly | app/src/main.rs:526-541 | a UART request is dropped if and only if one of those faults came with its last packet or later, and passes if and only if, besides, no host was active at its first byte and none came or went since |
| Reception.StartsExactly | app/src/main.rs:519-581 | when a request starts, by its source, the barrier, the uploads and the verdict of the transport, in both directions; one with an error starts only as an update line |
| Reception.UartStartsExactly | app/src/main.rs:519-581 | the same for a UART request in terms of the events since its first and its last byte |
| Reception.UartRunsUndisturbed | app/src/main.rs:526-541 | a UART request that starts: from its last packet on no read error, no failed transmission and no overflow, from its first byte on no USB host and no change of session, under the barrier it is the clear VER, and it is a line that was received |
| Reception.PendingIsWire | app/src/main.rs:676-728 | over any interleaving the parser is where the received bytes lead it, with a mark of damage wherever a read failed, the queue overflowed or a session began inside a line |
| Reception.RequestsAreLines | app/src/main.rs:700-727 | every UART request in the queue is one whole line of those bytes, from line end to line end, with its number, text and verdict, and the times of its first and last byte are true |
| Reception.TakenInOrder | app/src/main.rs:506-582 | over any interleaving the worker takes up the requests in the order in which they joined the queue, leaving out none |
| Reception.ErrorSilences | app/src/main.rs:690-697 | nothing comes of the rest of the line in which a read failed |
| Reception.DamagedExactly | app/src/main.rs:499-501 | damage is marked if and only if the worker has not come round since the last fault |
| Reception.AllUpsExactly | app/src/main.rs:488-501 | all keys are released for a newly noticed host and for marked damage, each under a connected pairing, and on no other occasion |
| Reception.DamageIsAnswered | app/src/main.rs:499-501 | the first time the worker comes round after a fault under a connected pairing, it tries to release all keys for a generation that counts the fault |
| TaskSafety.OnlyVersionLifts | app/src/main.rs:535-541 | the barrier goes down if and only if the worker takes up a clear VER that passes all checks |
| TaskSafety.BarrierRisesExactly | app/src/main.rs:457-487 | it goes up if and only if an abandoned UART update is closed or a USB host takes over |
| TaskSafety.BarrierHolds | app/src/main.rs:535-541 | whenever the barrier is down, a VER lifted it after power-on and no USB host has been active since |
| TaskSafety.SeenMeansReleased | app/src/main.rs:488-498 | the worker has noticed an active epoch only on the branch that, under a connected pairing, tries to release all keys for it |
| TaskSafety.UsbRunsAfterRelease | app/src/main.rs:520-525 | a USB request starts only in the current active epoch, and after that attempt has been made for it if the pairing was connected |
| TaskSafety.UploadsExclude | app/src/main.rs:544-568 | the two upload marks exclude each other; the UART mark is exact, the USB mark while its session is the current one |
| TaskSafety.OverlapOnlyWhenStale | app/src/main.rs:544-568 | two uploads run at once only while the serial task works for a session that has ended, its mark down |
| TaskSafety.OverlapBeginsExactly | app/src/main.rs:544-568 | they begin to, from any reachable state, if and only if the worker opens a UART update while an ended session is in the middle of an upload |
| TaskSafety.BootedImageUntouched | app/src/main.rs:895-909 | an image that BOOT would mark in the current session was completed in it, and since then no UART update was open and none of its lines has run |
| StaleSession.StaleUploadOutlivesMark | app/src/main.rs:322-328 | one run in which an ended session still uploads with its mark already down |
| StaleSession.SendLine | app/src/main.rs:700-727 | a whole line from the ring becomes one request with its number, canonical text and verdict |
| StaleSession.UploadsOverlap | app/src/main.rs:544-568 | the same run continued by a clear VER and an OTA BEGIN, both from the ring: two uploads at once |
| TaskSafety.ReplyNeverLost | app/src/main.rs:582-596 | while the serial task waits, exactly one request or reply is on its way, and the worker finds room for the reply |
| TaskSafety.AnsweredOnceInOrder | app/src/main.rs:582-596 | every UART request taken up is answered exactly once, and the answers leave in that order |
| TaskSafety.SessionsAscend | app/src/main.rs:774-778 | a USB session is entered at most once, so a broken one stays closed until the epoch moves on |
| Executor.Application.OnLost | app/src/main.rs:252-265 | the code of the USB loss path is its event |
| Executor.Application.ControlTask | app/src/main.rs:447-472 | the code of the control task is its event |
| Executor.Application.TopOfLoop | app/src/main.rs:484-501 | the top of the worker's loop is its event, the attempts to release all keys included |
| Executor.Application.TakeRequest | app/src/main.rs:519-581 | the worker's cascade of checks gives exactly the judgement of the request and its effects |
| Executor.Application.SendReply | app/src/main.rs:582-596 | a reply goes out only to the session it belongs to, or waits for room on the UART side |
| Executor.Application.TakeReady | app/src/main.rs:776-787 | the serial task begins to serve a session only on its own ready signal |
| Executor.Application.Command | app/src/main.rs:861-931 | WRITE, ABORT and forwarded lines change the marks and the serial task as their event |
| Executor.Application.UploadPacket | app/src/main.rs:805-845 | the end of an upload takes both marks down together |
| Executor.Application.TakeReply | app/src/main.rs:933-939 | only the reply of its own session ends the serial task's wait |
| Executor.Application.EndSession | app/src/main.rs:952-954 | the end of a session takes the mark down and drops its replies |
| Executor.Receiver.PushByte | app/src/main.rs:709-727 | one byte moves the parser, queues its frame, or records the overflow; what that means for a packet, see Reception.PacketIsStream |
| Executor.Receiver.NextRead | app/src/main.rs:679-685 | before each read the parser is brought to the current session |
| Executor.Receiver.ReceiveError | app/src/main.rs:690-697 | a hardware error damages the line and is a fault in the sense of Reception.FaultExactly |
| Executor.Receiver.Receive | app/src/main.rs:700-728 | a packet is parsed in its session, or cancelled if the session changed meanwhile |
| Executor.Application.BeginSession | app/src/main.rs:771-774 | the serial task takes the epoch of an active host as its session |
| Executor.Application.SendRequest | app/src/main.rs:926-932 | a line is queued only when there is room, and the serial task then waits |
| Executor.Application.OnConfigured | app/src/main.rs:277-284 | configuration makes USB available and nothing else |
| Executor.Application.OnLineState | app/src/main.rs:286-303 | the line state request sets the DTR mark and nothing else |
| Executor.Perform | app/src/main.rs:447-956 | the code of any event, whichever task it belongs to, takes the whole state where the event takes it |
| Executor.PerformAll | app/src/main.rs:447-956 | from power-on through any events the code is in the state the events lead to, and in it the invariant holds, the marks exclude each other and the barrier is up under a USB host |
| CdcUpload.PacketKeepsStep | app/src/main.rs:795-847 | one packet keeps partition and staging equal to the stream so far, completes the upload, or ends it on a refused write |
| CdcUpload.FinishCompletes | app/src/main.rs:823-845 | padding the last word completes the image and writes at most 66 bytes more than its size |
| CdcUpload.FinishPads | app/src/main.rs:823-845 | at the end every byte that came is stored, the rest of its last word is 0xff, and what lies behind is untouched |
| CdcUpload.AbortForgets | app/src/main.rs:910-917 | after ABORT there is neither an upload nor an image before the next accepted WRITE |
| CdcUpload.RefusalEnds | app/src/main.rs:802-815 | neither is there after a refused write |
| CdcUpload.UploadFollowsStream | app/src/main.rs:795-847 | from any point in step a run of packets goes on, completes with the stream's prefix in place, or failed for a refused write |
| CdcUpload.PacketsDoNotMatter | app/src/main.rs:795-847 | however the stream is cut, the upload completes exactly when enough bytes came, the partition starts with them, and contiguous whole-word writes stay inside the partition |
| CdcUpload.ReadyImageIsTheStream | app/src/main.rs:823-845 | whatever the flash refuses, an image counts as ready only if it is the stream's |
| CdcUpload.BootedImageIsTheStream | app/src/main.rs:877-917 | over any run of WRITE, ABORT and packets a ready image is exactly the bytes since the last READY |
| CdcUpload.ExcessAttained | app/src/main.rs:823-839 | the bound of 66 excess bytes is attained |
| CdcUpload.Uploader.StartUpload | app/src/main.rs:877-894 | WRITE starts an upload of an acceptable size unless a UART update is open, and otherwise changes nothing |
| CdcUpload.Uploader.AbortUpload | app/src/main.rs:910-917 | ABORT ends the upload and forgets the image and what is staged |
| CdcUpload.Uploader.Stage | app/src/main.rs:796-797 | the packet goes behind what is staged and fills at most 67 of the 68 places |
| CdcUpload.Uploader.KeepRest | app/src/main.rs:817-821 | at most three bytes stay, moved to the front |
| CdcUpload.Uploader.Receive | app/src/main.rs:795-847 | the loop over the real staging array does what the packet function says to state, partition and reply |
| CdcUpload.Uploader.Conclude | app/src/main.rs:823-845 | the last partial word is padded, written and counted, or ends the upload |
| CdcUpload.Uploader.Boot | app/src/main.rs:895-909 | BOOT reboots only with a ready image, no UART update and a successful mark |
| CdcUpload.Serve | app/src/main.rs:789-949 | a whole session on the real staging buffer: after any WRITE, ABORT and packets a ready image is what came since the last READY |
| Device.LinkedNext | app/src/main.rs:474-956 | every input keeps the tasks' marks equal to the state of both updates, and the partition in step with the stream of the session in force |
| Device.BootsTheStream | app/src/main.rs:895-909 | with UART updates writing to the same partition, an image that BOOT would mark in the current session is in it byte for byte |
| Device.UartMarksDeclaredImage | app/src/uart_ota.rs:54-61 | whatever a stale upload wrote in between, what a UART update marks has the size and CRC its BEGIN declared |
| Esb.EsbRadio.TxOnce | app/src/esb_radio.rs:144-221 | one attempt puts the loaded frame on the air and keeps the reply of a sound acknowledgement only |
| Esb.EsbRadio.SendPacket | app/src/esb_radio.rs:268-299 | the retry loop repeats one frame under one identity as often as Esb.TriesExactly says; what the frame holds, see Esb.FrameCarries |
| Esb.EsbRadio.TransmitPayload | app/src/esb_radio.rs:268-299 | after any calls the air holds what they amount to; each makes at most count + 1 attempts, asks for 250 microseconds times the delay but no more than 1500 between two of them, and leaves no reply after a failure |
| Esb.EsbRadio.ReceivePayload | app/src/esb_radio.rs:301-306 | a reply is handed out once and never beyond the room given |
| Esb.TriesExactly | app/src/esb_radio.rs:283-298 | a call is sent up to and including its first acknowledged attempt, or as often as allowed if there is none |
| Esb.FrameCarries | app/src/esb_radio.rs:268-281 | a frame is the length, the identity with the request for an acknowledgement, and the first 32 bytes of the payload, and a receiver takes just these from it |
| Esb.AirCarries | app/src/esb_radio.rs:268-299 | after any calls every frame on the air has the length, the identity and the very payload of its call |
| Esb.DeliveredIsSent | app/src/esb_radio.rs:268-299 | what a receiver delivers for a call is the payload of that call |
| Esb.ReplyArrives | app/src/esb_radio.rs:206-221 | a reply in the same format is handed out whole |
| Esb.CallIsBounded | app/src/esb_radio.rs:283-296 | attempts and waiting time of a call are bounded by the retry settings alone |
| Esb.CallHeardOnce | app/src/esb_radio.rs:283-288 | however many attempts of one call are heard, the receiver takes them as one |
| Esb.LastKey | app/src/esb_radio.rs:271-279 | the receiver remembers the last call heard, whether it delivered it or not |
| Esb.DeliveredInOrder | app/src/esb_radio.rs:268-299 | no call is delivered twice, and calls are delivered in order |
| Esb.DeliveredExactly | app/src/esb_radio.rs:268-299 | a call is delivered if and only if it was heard and not a multiple of four behind the last call heard with the same checksum |
| Esb.AckedIsDelivered | app/src/esb_radio.rs:283-298 | an acknowledged call is delivered exactly once when at most two calls just before it went unheard |
| Esb.AckedButLost | app/src/esb_radio.rs:283-298 | an acknowledged call is lost if and only if it is mistaken for a repetition |
| Esb.FifthIsLost | app/src/esb_radio.rs:271-298 | five calls with one payload, the middle three unheard: the fifth is acknowledged and lost |
| Esb.SendAll | app/src/esb_radio.rs:268-322 | the driver, given any settings and payloads, reports exactly the acknowledged calls, and its air gives a receiver the payloads of the calls delivered |

## Left out

- Registers and timing of RADIO, UARTE, NVMC, USB and DWT, and all waiting in real time. A timeout, a
  wake-up or a poll is an event that may come at any moment.
- The protocol library: pairing, encryption and keep-alives are results that may be anything within
  the assumptions above. The library and the bootloader library are not part of this model.
- The bootloader's swap and revert, and erasing on demand inside a firmware write: a DFU partition is an
  array of bytes whose writes may be refused. What a refused write leaves in the cells is taken to be
  what was there; nothing relies on it, since the upload ends.
- Torn records: power is lost between commands only.
- Flash operations that fail inside the store: `Slots`, `UnifyingState` and `Counters` take them to succeed.
- Executor.Application.TakeRequest: what an update line does to the update session enters as the
  parameter `otaAfter`; `Device` computes it from the line.
- Executor.Application.Command: the size test of WRITE and the flash's answer to BOOT enter as
  parameters; `Device` computes the first from the size. Lines of one packet are one event each, so more
  interleavings are covered than occur.
- Executor.Application.UploadPacket: how far a packet brings the upload enters as a parameter; `Device`
  computes it from the bytes.
- Executor.Application.TopOfLoop: an attempt to release all keys is history here, and the poll of the radio
  is no part of the state; `UnifyingState` has both with their counters.
- CdcUpload.BootedImageIsTheStream: nothing but the session writes to its partition; `Device.BootsTheStream`
  lifts this.
- Tasks.ReachableOk: the worker is also allowed to be interrupted between its reply and the top of its
  loop, which the code does not allow; every claim holds with the additional interleavings.
- The text of replies between the worker and the transports: in `Tasks` a reply is the request it belongs
  to; `UartLink.EncodeReply` covers its form on the wire.
- The order "all keys up before the next command after damage": the worker may take a waiting request
  first, so it is not claimed.
- The instant at which a USB session that has ended stops its serial task: it is polled, so a stretch of
  stale work is part of the model and of its claims.
- Counters.CountersAscend: power losses beyond the margin and departures with the counter not stored are
  excluded, because the code then does not keep the promise; `Counters.RunFreshExactly` states both
  directions. A counter that passes 2^32 is excluded throughout.
- UnifyingState.Worker.OnKeyStroke: the keep-alives before and between the sends have no state of their own;
  the channel they end on is a parameter.
- 32-bit overflow of offset plus length in a DATA line: it exceeds every size, so it is the same refusal.
- The initial channel is 0 in place of the first channel of the library's table.
- The keymap: which key a character has, and whether it is shifted, enters with the text. The formatting of
  replies, the self-test and diagnostic builds, the host scripts and the build scripts: they would add
  only easy members.
