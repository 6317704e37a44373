# Smart door: models and proofs

A Dafny model of the stateful parts of a Bluetooth door lock and of its server:

* the **UART driver** of the door (`SerialRing`, `SerialTx`, `SerialRx`, `SerialOverrun`,
  `SerialTiming`): two 256-byte rings, each shared between a thread and an interrupt handler;
* the **door state** (`DoorState`), written by the MQTT callback and by a timer interrupt;
* the **device reports** (`DeviceReports`, `MacText`): the ring of discovered devices and the
  table of reported ones, checked against the full log of reports;
* the **operator-list parser** (`Strtok`, `OperatorList`), which scans a buffer that `strtok` is
  cutting up, with a printer for the answer to `AT+COPS=?` (section 7.3 of 3GPP TS 27.007);
* the **LCD text pipeline** (`Lcd`, `LcdScreen`): in-place removal of a character, line
  splitting, greedy word wrap and the row cursor;
* the **device store** of the server (`DeviceStore`), which deletes lapsed records only when they
  are looked up, and the **strings behind the bot's buttons** (`Decimal`, `CallbackCodec`,
  `CallbackBot`).

`dafny verify dfyconfig.toml` checks everything.

## Conventions

Code that works in place is a class or a method on arrays. Its contract ties the new state to a
function of the old one, and lemmas say what that function is good for.

*Interrupts.* Each statement of a thread that touches shared state is one step, and each handler
is one step. Between any two steps an `Interrupts` method runs the handlers any number of times.
`pendingBytes++` and `pendingBytes--` are assumed to be single steps. A busy-wait is given a
fairness assumption: an enabled TX interrupt is served with the transmitter ready, and the clock
ticks, after finitely many rounds. The number of rounds is unbounded (`patience`).
`RxLine.burst` bounds how many bytes arrive between two adjacent statements; it is arbitrary, and
only the question whether a receive may exceed its buffer depends on it.

*Time.* The firmware reads a 32-bit millisecond counter that wraps. Real time is a natural
number; the code sees it modulo 2^32. `RxLine.gap` bounds how long a receive goes without looking
at the clock.

*Ghost history.* `accepted`, `wire`, `heard` and `log` are everything that was queued,
transmitted, received and published; `ticks` and `history` are when the door's timer ticked and
everything that happened to the door; `rows` is every row drawn on the LCD, with its line and
whether the screen was blank before it.

## Where the code does not do what one would expect

* **An interrupted flush.** `SerialFlushInputBuff` clears the index, the count and the flag one
  after the other. Bytes that arrive between the first two stores stay in the ring uncounted: the
  reader lags by so many bytes until the next flush, and the ring may lap it without the overflow
  flag being set. `SerialRx.FlagTellsExactlyAfterCleanFlush` gives the exact condition under which
  the flag can be trusted.
* **A receive can exceed the caller's buffer.** `UartGetData` reads `pendingBytes` once to compare
  and once more to assign. A call exceeds the room exactly if the count is below what was asked for
  at the first reading and above the room at the second (`SerialOverrun.OverrunExactlyIf`). So no
  receive exceeds its buffer if and only if at most one byte can arrive between two adjacent
  statements (`SerialOverrun.ReceivesFitExactlyIf`). From any state a flush, 9 bytes, a receive for
  10 and 3 more bytes store 12 (`SerialOverrun.OverrunAfterFlush`).
* **Looks at the clock that are too far apart.** A wait to which no byte comes notices its timeout
  if and only if the look interval plus the timeout is at most 2^32
  (`SerialTiming.WaitEndsExactlyIf`). The loop around it sees the real interval if and only if
  twice the look interval plus the timeout is at most 2^32; otherwise it may start a new turn when
  the timeout has long passed (`SerialTiming.IntervalIsRealExactlyIf`).
* **The list of supported modes** that the standard lets a modem append to the operators is taken
  for an operator. `CellularGetOperators` then fails exactly if the caller's array has room for
  more operators than the modem lists (`OperatorList.TrailerNeedsFullArray`).
* **`normal` opens an unlocked door** for 30 seconds; the project's documentation says that it
  returns to scanning. It leaves the door closed exactly if it was closed or locked
  (`DoorState.NormalClosesExactly`), and an unlocked door scans again only after the 30 seconds and
  at most one timer period (`DoorState.NormalScansAgain`).
* **A timer tick during the callback.** Every interleaving ends as if the callback were one step
  after all the ticks. It ends as if the tick between the callback's two stores came after it
  exactly if that tick comes less than 30 seconds, on the wrapping clock, after the callback read
  the clock (`DoorState.ChronologicalExactlyWhenPrompt`).
* **The empty slot of the sent table** looks like a report of the zero address at time 0, so that
  address is withheld in the first 34 seconds of each lap of the clock
  (`DeviceReports.WithheldExactlyIf`).
* **Lapsed devices come back.** `add_device` and `update_until_time` do not look whether the record
  they find has lapsed. `DeviceStore.StepAgrees` says exactly when that revives a record, and
  `DeviceStore.LazyIsEager` that nothing else tells the store from one that deletes on time.

## Model

| member | source | states |
|---|---|---|
| Words.ElapsedAcrossWrap | smartDoor/timer.c:32-34 | The difference of two readings of the clock is the real difference modulo 2^32, however often the counter wrapped in between. |
| Words.AsInt32 | smartDoor/serial_io_EFR32BG1P232F256GM48.c:175 | The conversion of an unsigned word to `int` keeps the word, and the number itself below 2^31. |
| SerialRing.FreeCell | smartDoor/serial_io_EFR32BG1P232F256GM48.c:33-34 | While fewer than 256 bytes are queued, storing at the write index disturbs none of them and appends to the queue. |
| SerialRing.CircularBuf.constructor | smartDoor/serial_io_EFR32BG1P232F256GM48.c:10-16 | A ring starts zeroed, empty and without overflow. |
| SerialTx.TxLine.constructor | smartDoor/serial_io_EFR32BG1P232F256GM48.c:10-16 | A new line has sent nothing, holds nothing, and has its interrupt off. |
| SerialTx.TxLine.TxIrqHandler | smartDoor/serial_io_EFR32BG1P232F256GM48.c:222-234 | With the transmitter ready, the handler puts exactly the oldest queued byte on the wire, and turns itself off exactly when nothing is queued any more; the ring invariant holds after it. |
| SerialTx.TxLine.Interrupts | smartDoor/serial_io_EFR32BG1P232F256GM48.c:222-234 | Any number of handler runs keeps the ring invariant and turns the interrupt off only by emptying the ring. |
| SerialTx.TxLine.WaitRound | smartDoor/serial_io_EFR32BG1P232F256GM48.c:29 | A busy-wait that finds the ring non-empty and the interrupt on makes progress in every round. |
| SerialTx.TxLine.PutByte | smartDoor/serial_io_EFR32BG1P232F256GM48.c:33-35 | One byte is appended to the queue, with the handler running, or turning itself off, between the store, the index and the count; the ring never holds more than 256 bytes. |
| SerialTx.TxLine.Fill | smartDoor/serial_io_EFR32BG1P232F256GM48.c:31-37 | The fill loop appends exactly the caller's bytes, in order. |
| SerialTx.TxLine.AwaitRoom | smartDoor/serial_io_EFR32BG1P232F256GM48.c:28-30 | The wait for room ends, because the interrupt is on whenever its condition holds, and there is room when it does. |
| SerialTx.TxLine.UartPutData | smartDoor/serial_io_EFR32BG1P232F256GM48.c:24-39 | Queues exactly the given bytes, or nothing if there are more than 256, and leaves the interrupt on if anything is queued. |
| SerialTx.TxLine.Drain | smartDoor/serial_io_EFR32BG1P232F256GM48.c:174 | The last wait ends, with every accepted byte on the wire. |
| SerialTx.TxLine.SerialSend | smartDoor/serial_io_EFR32BG1P232F256GM48.c:162-176 | For any buffer and any interleaving the call returns, the wire has grown by exactly the bytes that were pending followed by the buffer, the ring is empty, and the result is the size, as itself below 2^31. |
| SerialRx.NewestLike | smartDoor/serial_io_EFR32BG1P232F256GM48.c:208-209 | Of the received bytes that share a cell there is one newest; it is the byte itself if at most 256 are unread. |
| SerialRx.RingHoldsNewest | smartDoor/serial_io_EFR32BG1P232F256GM48.c:205-216 | After any number of bytes, each cell holds the newest received byte whose index is congruent to it modulo 256. |
| SerialRx.RingStartsZero | smartDoor/serial_io_EFR32BG1P232F256GM48.c:10-16 | A cell that no byte has reached is zero. |
| SerialRx.ArrivalKeeps | smartDoor/serial_io_EFR32BG1P232F256GM48.c:205-216 | The receive handler keeps the invariant at every point of the thread: indices and count match the history, and after an undisturbed flush a clear flag means that nothing was lost, even while a read has advanced the index but not yet the count. |
| SerialRx.AdvanceKeeps | smartDoor/serial_io_EFR32BG1P232F256GM48.c:62-63 | Copying a byte and advancing the read index keeps the invariant, with the count one too high. |
| SerialRx.CountDownKeeps | smartDoor/serial_io_EFR32BG1P232F256GM48.c:64 | Counting down keeps the invariant. |
| SerialRx.FlushKeeps | smartDoor/serial_io_EFR32BG1P232F256GM48.c:182-186 | Each of the three stores of a flush keeps the invariant. |
| SerialRx.ArrivalsKeep | smartDoor/serial_io_EFR32BG1P232F256GM48.c:205-216 | So does any run of receive interrupts. |
| SerialRx.ArrivalsHeard | smartDoor/serial_io_EFR32BG1P232F256GM48.c:205-216 | A run of receive interrupts only extends the received stream, and loses something exactly if more than 256 bytes are then unread. |
| SerialRx.ArrivalsCounted | smartDoor/serial_io_EFR32BG1P232F256GM48.c:210-213 | As long as the count stays within 256, a run of receive interrupts counts its bytes and leaves the flag alone. |
| SerialRx.FlushOutcome | smartDoor/serial_io_EFR32BG1P232F256GM48.c:182-186 | A flush during which k bytes arrive between its first two stores, and m between the last two, clears the flag, leaves k + m bytes unread and counts m of them. |
| SerialRx.FlagTellsExactlyAfterCleanFlush | smartDoor/serial_io_EFR32BG1P232F256GM48.c:182-213 | After a flush, a clear flag means that nothing was lost, for every run of arrivals, if and only if no byte arrived between its first two stores and at most 256 between the last two. |
| SerialRx.UntoldLoss | smartDoor/serial_io_EFR32BG1P232F256GM48.c:210-213 | With bytes held back there is a run of arrivals that loses a byte without setting the flag. |
| SerialRx.CountIsHonest | smartDoor/serial_io_EFR32BG1P232F256GM48.c:57-59 | Between operations the count never promises a byte that is not there. |
| SerialRx.ReadInOrder | smartDoor/serial_io_EFR32BG1P232F256GM48.c:60-66 | While nothing was lost, what was read since the last flush is the received stream, in order and without gaps. |
| SerialRx.SkewIsHeld | smartDoor/serial_io_EFR32BG1P232F256GM48.c:61-66 | At every step, write index minus read index minus count is, modulo 256, the number of bytes held back. |
| SerialRx.HeldBack | smartDoor/serial_io_EFR32BG1P232F256GM48.c:61-66 | Bytes held back delay the reader without reordering: exactly they are unread when the count is zero. |
| SerialRx.OneArrivalFits | smartDoor/serial_io_EFR32BG1P232F256GM48.c:132-153 | If at most one byte arrives between two statements, no receive exceeds its buffer, whatever its calls read. |
| SerialRx.ReceivedShort | smartDoor/serial_io_EFR32BG1P232F256GM48.c:132-153 | A receive that falls short because its last wait found the ring empty has moved everything that had been counted until then; one that moves nothing although the count was not zero had no time to look. |
| SerialOverrun.ClampIsOnRing | smartDoor/serial_io_EFR32BG1P232F256GM48.c:57-59 | What the receive's contract says of the two readings is what the ring holds before and after the bytes that arrive between them. |
| SerialOverrun.OverrunExactlyIf | smartDoor/serial_io_EFR32BG1P232F256GM48.c:57-59 | In any state between operations, with the bytes `bs` arriving between the readings, the clamp exceeds the room if and only if the count is below what was asked for and those bytes lift it above the room. |
| SerialOverrun.ReceivesFitExactlyIf | smartDoor/serial_io_EFR32BG1P232F256GM48.c:132-153 | Over all states and all receives, none exceeds its buffer if and only if at most one byte arrives between two adjacent statements. |
| SerialOverrun.ReadAllInOrder | smartDoor/serial_io_EFR32BG1P232F256GM48.c:60-66 | The read loop on the ring gives the received stream from where the reader stands, and keeps the invariant. |
| SerialOverrun.OverrunAfterFlush | smartDoor/serial_io_EFR32BG1P232F256GM48.c:48-68 | From any state, a flush, 9 bytes, a clamp to 10 and 3 more bytes move 12 bytes, all of them in order. |
| SerialOverrun.ReceivesLoseNothing | smartDoor/serial_io_EFR32BG1P232F256GM48.c:132-153 | A run of receives loses nothing as long as no more than a ringful is unread during any of them, counted from where it began. |
| SerialOverrun.HeldBackThroughReceives | smartDoor/serial_io_EFR32BG1P232F256GM48.c:132-186 | After a flush disturbed by k and then m bytes, any run of receives in which no byte is overwritten unread reads the stream from the flush on, in order, and leaves the reader exactly k bytes behind the count. |
| SerialTiming.NoticedInTime | smartDoor/serial_io_EFR32BG1P232F256GM48.c:49-56 | With the look interval plus the timeout at most 2^32, a wait that has not noticed its timeout has really not reached it, across clock wrap. |
| SerialTiming.WaitEndsExactlyIf | smartDoor/serial_io_EFR32BG1P232F256GM48.c:49-56 | A wait to which no byte comes notices its timeout if and only if the look interval plus the timeout is at most 2^32; otherwise it can go on for any time. |
| SerialTiming.IntervalIsRealExactlyIf | smartDoor/serial_io_EFR32BG1P232F256GM48.c:137-151 | The interval at the head of the next turn is the real one, and below twice the look interval plus the timeout, for all schedules of looks if and only if that sum is at most 2^32. |
| SerialRx.RxLine.constructor | smartDoor/serial_io_EFR32BG1P232F256GM48.c:10-16 | A new line has heard and read nothing. |
| SerialRx.RxLine.RxIrqHandler | smartDoor/serial_io_EFR32BG1P232F256GM48.c:205-216 | The handler stores the byte, moves the write index, counts, and sets the flag when the count passes 256; the invariant holds after it. |
| SerialRx.RxLine.SysTickHandler | smartDoor/timer.c:11-13 | The counter stays real time modulo 2^32. |
| SerialRx.RxLine.CurTime | smartDoor/timer.c:32-34 | A clock reading is real time modulo 2^32. |
| SerialRx.RxLine.Interrupts | smartDoor/serial_io_EFR32BG1P232F256GM48.c:205-216 | Between two statements bytes arrive and time passes; the invariant holds and nothing else changes. |
| SerialRx.RxLine.LoadByte | smartDoor/serial_io_EFR32BG1P232F256GM48.c:62 | A read gives the newest received byte that shares the cell, which is the next byte of the stream unless it was overwritten. |
| SerialRx.RxLine.TakeByte | smartDoor/serial_io_EFR32BG1P232F256GM48.c:62-64 | One turn of the read loop consumes exactly one byte, with interrupts between its statements. |
| SerialRx.RxLine.StepIndex | smartDoor/serial_io_EFR32BG1P232F256GM48.c:63 | The read index moves by one while the count does not. |
| SerialRx.RxLine.StepCount | smartDoor/serial_io_EFR32BG1P232F256GM48.c:64 | The count follows. |
| SerialRx.RxLine.WaitRound | smartDoor/serial_io_EFR32BG1P232F256GM48.c:51-55 | A round of the receive wait looks at the clock, and time goes on after finitely many rounds; so does the line, for a wait that may never notice its timeout. |
| SerialRx.RxLine.LookAgain | smartDoor/serial_io_EFR32BG1P232F256GM48.c:51-55 | One turn of the wait, which begins with the ring found empty, so that the count is zero at the bytes received by then; it notices the timeout exactly if the interval since the first look, on the wrapping clock, has reached it. |
| SerialRx.RxLine.AwaitByte | smartDoor/serial_io_EFR32BG1P232F256GM48.c:49-56 | For every timeout the wait ends, either with a byte to read or after at least the timeout in real time. It looks at the clock again only when it has found the ring empty: there is a number of received bytes, between those at its start and at its end, at which the count was zero before its last look. Its looks are the ones the timing results speak of: never more than a look interval apart, none but the last noticing the timeout. With the look interval plus the timeout at most 2^32, the last one comes at most two look intervals beyond the timeout. |
| SerialRx.RxLine.ClampLength | smartDoor/serial_io_EFR32BG1P232F256GM48.c:57-59 | The length is the given one or, if the count was smaller when some number of bytes had been received, the count at the end, with at most `burst` bytes received in between; that many bytes are there. |
| SerialRx.RxLine.MoveBytes | smartDoor/serial_io_EFR32BG1P232F256GM48.c:60-67 | The read loop stores exactly the bytes it consumes, in order, from the caller's position on, and nothing else; a byte is lost during it only if more than a ringful is unread. |
| SerialRx.RxLine.UartGetData | smartDoor/serial_io_EFR32BG1P232F256GM48.c:48-68 | Either the timeout has really passed and the ring was found empty before the look that noticed it, nothing is consumed and the result is -1 as an unsigned word, or as many bytes are consumed, stored and returned as the counts at the two readings say. |
| SerialRx.RxLine.Since | smartDoor/serial_io_EFR32BG1P232F256GM48.c:138 | The interval is the real time since the start, if that is below 2^32. |
| SerialRx.RxLine.ReceiveRound | smartDoor/serial_io_EFR32BG1P232F256GM48.c:137-151 | One turn of the receive loop: it moves what the counts at its two readings say for the room that is left, and ends the loop only once the timeout has really passed. Its looks at the clock make up a turn in the sense of the timing results. |
| SerialRx.RxLine.ReceiveTurn | smartDoor/serial_io_EFR32BG1P232F256GM48.c:137-151 | The turn as a part of a whole receive: what has been stored and read so far goes on. |
| SerialRx.RxLine.SerialRecv | smartDoor/serial_io_EFR32BG1P232F256GM48.c:132-153 | The bytes moved are exactly what the counts at the readings of its calls add up to, so they stay within max_len if at most one byte arrives between two statements; then a contiguous run of the received stream is stored, also after a disturbed flush, unless more than a ringful became unread; their number is returned. Fewer than asked for come only after the timeout since the call, and then either a look at the head of a turn noticed it, or a wait found the ring empty, in which case everything counted until then has been moved. So a call that finds something in the ring returns something, if its look interval is below the timeout. The last look at the clock comes within the timeout plus two look intervals of the call. |
| SerialRx.RxLine.FlushReadIndex | smartDoor/serial_io_EFR32BG1P232F256GM48.c:183 | The first store of a flush, and the bytes that arrive after it. |
| SerialRx.RxLine.FlushPending | smartDoor/serial_io_EFR32BG1P232F256GM48.c:184 | The second store of a flush, and the bytes that arrive after it. |
| SerialRx.RxLine.SerialFlushInputBuff | smartDoor/serial_io_EFR32BG1P232F256GM48.c:182-186 | After a flush disturbed by k and then m bytes, the reader stands at the end of the stream as it was, with the flag clear and k bytes held back; the flush was clean exactly if k is 0 and m at most 256. |
| SerialRx.RxLine.FlushAndRecv | smartDoor/cellular.c:318-324 | A flush that k bytes disturbed, a command during which any number of bytes may arrive, and a receive: as long as no byte is overwritten unread, the receive starts with those k bytes and the reader stays k bytes behind the count; a ringful since the flush overwrites none. If anything beyond those k bytes has arrived when the receive begins, it comes back with something. |
| DoorState.TicksOnlyClose | smartDoor/smart_door.c:476-491 | Any number of timer ticks changes a door at most from open to closed. |
| DoorState.OpensEitherWay | smartDoor/smart_door.c:145-150 | A message that opens the door opens it whether or not ticks come first. |
| DoorState.YoungDoorStaysOpen | smartDoor/smart_door.c:477-480 | Ticks leave an open door open if and only if each reads less than 30 seconds since it was opened. |
| DoorState.ChronologicalExactlyWhenPrompt | smartDoor/smart_door.c:145-150 | The ticks between the two stores of an opening callback could as well have come after it if and only if each comes, on the wrapping clock, within 30 seconds of the clock reading. |
| DoorState.RunOfTicks | smartDoor/smart_door.c:476-491 | The ticks of the timer, as events of a run at their real times, do what they do on the wrapping clock. |
| DoorState.RunOfMessage | smartDoor/smart_door.c:135-164 | So do some ticks and then a callback. |
| DoorState.HistoryGrows | smartDoor/smart_door.c:135-164 | After a callback the door is where a run of its whole history leads, the callback being one event in it. |
| DoorState.AnswerSays | smartDoor/smart_door.c:145-162 | What each message does to the state and the opening time, for every state before and every interleaving. |
| DoorState.TextIs | smartDoor/smart_door.c:139-145 | A payload that holds a text of at most 512 characters, and nothing or a NUL behind it, is that text. |
| DoorState.TextOfLong | smartDoor/smart_door.c:139-145 | A longer payload is cut off at 512 characters. |
| DoorState.DoorLock.constructor | smartDoor/smart_door.c:476-491 | The door starts closed, with an empty history. |
| DoorState.DoorLock.PeriodicTimeout | smartDoor/smart_door.c:476-491 | The timer handler leaves a locked, an unlocked and a freshly opened door alone, and closes every other. |
| DoorState.DoorLock.Interrupts | smartDoor/smart_door.c:476-491 | Between two accesses to the door time passes and the timer ticks any number of times, each tick on record with its real time. |
| DoorState.DoorLock.More | smartDoor/smart_door.c:476-491 | Further ticks in the middle of a callback continue the earlier ones, and change the door at most from open to closed. |
| DoorState.DoorLock.OpenUp | smartDoor/smart_door.c:147-149 | Reading the clock and storing time and state, with ticks between them, opens the door at the time that was read. |
| DoorState.DoorLock.Obey | smartDoor/smart_door.c:151-162 | The other branches, with ticks between their tests and stores, end as the whole callback in one step after those ticks; what that is, message by message, is `AnswerSays`. |
| DoorState.DoorLock.MqttMessageCb | smartDoor/smart_door.c:135-164 | For every state before and every interleaving with the timer, `lock` leaves the door locked, `unlock` leaves it unlocked, `open_door` leaves it open at the clock reading unless it was locked, `normal` closes a locked and opens an unlocked door, and with any other text, or `normal` on the rest, only the ticks have changed it. State and opening time end as if exactly the ticks that happened during the callback had come first and the whole callback had been one step that read the clock at a real time between its start and its end, in order among those ticks; the history grows by just those ticks and the message. |
| DoorState.DoorLock.Idle | smartDoor/smart_door.c:476-491 | Between callbacks the door runs through exactly the ticks that happen. |
| DoorState.AnswerOpens | smartDoor/smart_door.c:145-150 | A callback with `open_door`, on a door that is not locked, leaves it open since the clock reading, whatever ticks come during it. |
| DoorState.OpenThroughTicks | smartDoor/smart_door.c:476-491 | Through the ticks after it, the door is open until 30 seconds after that reading and closed after 30 seconds and a timer period. |
| DoorState.DoorLock.OpenThenIdle | smartDoor/smart_door.c:135-164 | After a callback with `open_door` on a door that is not locked, the door is open until 30 seconds after the callback read the clock, and closed once 30 seconds and a timer period have passed. |
| DoorState.LockedStaysLocked | smartDoor/smart_door.c:145-162 | Over every run, a locked door stays locked if and only if neither `unlock` nor `normal` comes. |
| DoorState.LockedFromLockOn | smartDoor/smart_door.c:145-162 | After a `lock` in any state, a door is locked through every run if and only if neither `unlock` nor `normal` comes. |
| DoorState.OpenForHalfAMinute | smartDoor/smart_door.c:476-491 | Without an effective message, the door is open through every event earlier than 30 seconds after it was opened, across clock wrap. |
| DoorState.ClosedAfterwards | smartDoor/smart_door.c:476-491 | With ticks at most p apart, and 30000 + p below 2^32, it is closed by 30000 + p, across clock wrap. |
| DoorState.ClosedStaysClosed | smartDoor/smart_door.c:476-491 | An undisturbed closed door stays as it is. |
| DoorState.NormalClosesExactly | smartDoor/smart_door.c:145-158 | `normal` leaves the door closed if and only if it was closed or locked; it opens an unlocked door. |
| DoorState.NormalScansAgain | smartDoor/smart_door.c:145-158 | An unlocked door that gets `normal` is closed again within 30000 + p, across clock wrap. |
| MacText.BytesRoundTrip | smartDoor/smart_door.c:413-416 | The printed text of a byte string gives the bytes back. |
| MacText.MacRoundTrip | smartDoor/smart_door.c:413-416 | The 17-character text of an address gives its six bytes back. |
| MacText.MacCharacters | smartDoor/smart_door.c:413-416 | The text holds upper-case hexadecimal digits and colons only. |
| MacText.MacLayout | smartDoor/smart_door.c:413-416 | Colons stand between the pairs and nowhere else; the pairs are the bytes, last first, as two upper-case hexadecimal digits. |
| DeviceReports.LatestIndex | smartDoor/smart_door.c:409 | The latest report of a slot, in the full log. |
| DeviceReports.NoEarlyDuplicate | smartDoor/smart_door.c:405-421 | Over every run, two reports of one address with no other address of its slot reported between them are at least 34000 ms apart, from the first's discovery to the second's publication. |
| DeviceReports.GoodLogGrows | smartDoor/smart_door.c:417-418 | A report that is far enough from the previous one in its slot keeps the log free of early duplicates. |
| DeviceReports.MirrorGrows | smartDoor/smart_door.c:418 | Storing a report in its slot keeps the table the image of the log. |
| DeviceReports.WithheldExactlyIf | smartDoor/smart_door.c:367-374 | The table withholds an address if and only if the latest report of its slot is of that address and was discovered, on the wrapping clock, under 34000 ms ago, or the slot is empty and the address is zero early in a lap of the clock. |
| DeviceReports.WithheldForAReason | smartDoor/smart_door.c:367-374 | In runs under 2^32 ms a non-zero address is withheld only if it really was published, with a discovery under 34000 ms ago. |
| DeviceReports.WithheldByTable | smartDoor/smart_door.c:410 | While the table is the image of the log, it withholds an address exactly if the log does. |
| DeviceReports.LeftForAReason | smartDoor/smart_door.c:410 | In runs under 2^32 ms, a dated device with a real address that is not due uses the slot of the previous publication, or really was published with a discovery under 34000 ms ago. |
| DeviceReports.StoredDeviceFits | smartDoor/smart_door.c:394-397 | Storing an accepted device keeps entries of one address at least 34000 ms apart. |
| DeviceReports.PublishFits | smartDoor/smart_door.c:410-418 | Publishing an available device keeps ring, table and log in step. |
| DeviceReports.PassConserves | smartDoor/smart_door.c:405-421 | A pass leaves each entry either unchanged and unpublished, or empty and published once, in index order. |
| DeviceReports.PassAlternates | smartDoor/smart_door.c:410-411 | Successive publications of a pass use different slots. |
| DeviceReports.PassFillsTable | smartDoor/smart_door.c:418 | After a pass a slot holds the last device published from it in the pass, or what it held before. |
| DeviceReports.Reporter.constructor | smartDoor/smart_door.c:102-103 | Ring and table start empty. |
| DeviceReports.Reporter.IsAvailable | smartDoor/smart_door.c:367-374 | True exactly if the addresses differ or 34000 ms have passed on the wrapping clock. |
| DeviceReports.Reporter.NoneFresh | smartDoor/smart_door.c:385-393 | The scan of the ring passes only if every entry of this address is at least 34000 ms old, while the clock goes on, and fails only at an entry of it that is not. |
| DeviceReports.Reporter.CopyAddress | smartDoor/smart_door.c:394-396 | The byte loop stores the whole address in the one entry. |
| DeviceReports.Reporter.AddBtDevice | smartDoor/smart_door.c:382-399 | An accepted device is stored under the old cursor with the time of the store, and no entry of its address is fresh; a rejected one has met a fresh entry and changes nothing; the cursor moves in both cases. |
| DeviceReports.Reporter.SendEntry | smartDoor/smart_door.c:408-419 | One turn, by the real time of its look at the clock, publishes the entry if and only if it is due: it has a timestamp, does not use the slot of the previous publication, and the latest report of its slot in the log of that moment does not withhold it. Then it empties the entry and stores it in its slot; otherwise it changes nothing. |
| DeviceReports.Reporter.SendDevice | smartDoor/smart_door.c:405-421 | A pass publishes exactly those entries that are due at its real, ordered looks at the clock, each judged by the log as it stands at that turn; so a pass over an empty ring publishes nothing. There is one report, of the right address, discovery time and text, for each entry published; ring and table after it are those of the pass as a function of the looks. |
| DeviceReports.SurvivesPass | smartDoor/smart_door.c:405-421 | A pass leaves an accepted device in its entry or puts it on the log. |
| DeviceReports.Reporter.SurvivesFourCalls | smartDoor/smart_door.c:382-421 | A device that is accepted is still in its entry after any mix of passes and up to four further calls, accepted or not, unless a pass has published it. |
| Strtok.TokenizeFrame | smartDoor/cellular.c:260-264 | A call of strtok changes nothing before its start and nothing that is still to be scanned. |
| Strtok.TokenAt | smartDoor/cellular.c:260-264 | A token ends at the first delimiter behind it, which becomes a NUL, and the next call goes on behind that. |
| Strtok.TokenIsField | smartDoor/cellular.c:260-264 | A call finds the first stretch free of delimiters, as long as it goes, makes a string of it and goes on one behind it; it finds none exactly if there is none. |
| Strtok.CallsFindFields | smartDoor/cellular.c:260-264 | For every text, calls in a row, each with delimiters of its own, find the fields that follow each other in it, and leave each as a string of its own. |
| Strtok.LastFindsAll | smartDoor/cellular.c:260-264 | If the last of them finds a token, the text does hold such fields. |
| Strtok.Tokenizer.Strtok | smartDoor/cellular.c:260-264 | strtok with its hidden position: the scan in place does to the buffer and the position what the function on values says. |
| OperatorList.ParseOp | smartDoor/cellular.c:259-298 | A parsed operator leaves the buffer terminated and of the same length, so the scan may go on. |
| OperatorList.TokensAreFields | smartDoor/cellular.c:260-264 | For every text, the four tokens are its first, second, fourth and fifth field, up to the delimiters of each. |
| OperatorList.MissingExactlyIf | smartDoor/cellular.c:266-267 | One of them is missing if and only if the text does not hold five such fields. |
| OperatorList.ParseOpFailsExactlyIf | smartDoor/cellular.c:266-297 | An operator fails if and only if a token is missing or reaches beyond it, its status is not 0 to 3, or its technology is neither 0 nor 2, and then at most the status has changed. Otherwise the structure holds the name without its quotes, the technology, the number and the status, and the rest of the text fields stays; a name that does not fit is exactly what C leaves undefined. |
| OperatorList.ParseFromFrame | smartDoor/cellular.c:331-348 | Whatever was received, a success reports no more operators than asked for and touches only the structures it counts; a failure reports none. |
| OperatorList.Past | smartDoor/cellular.c:335 | The scan stops behind the first occurrence of the character, or at the limit. |
| OperatorList.ParsOp | smartDoor/cellular.c:259-298 | pars_op in place: five calls of strtok, the length check, and the filling of one structure, exactly as on values; the other structures stay as they are. |
| OperatorList.FillOperator | smartDoor/cellular.c:269-297 | The structure after the two switches and the copies, including the partly filled one that an error leaves behind. |
| OperatorList.FiveTokens | smartDoor/cellular.c:260-264 | The five tokens and what the calls leave of the buffer. |
| OperatorList.ScanPast | smartDoor/cellular.c:329 | The scanning loop stops where the function says. |
| OperatorList.ParseOperators | smartDoor/cellular.c:331-348 | The loop that scans a buffer while strtok rewrites it has the outcome of the parser on values. |
| OperatorList.CellularGetOperators | smartDoor/cellular.c:310-349 | Result, array and count for every received text and every array: nothing changes for a maxops of 0, which gives 0, or below, which gives -1; a success touches only the structures it counts, at most maxops; a failure gives -1 and a count of 0. |
| OperatorList.StrtolIsCode | smartDoor/cellular.c:295 | The number read from a numeric name is the value of its digits, up to the largest int. |
| OperatorList.StrtolOfNumeral | smartDoor/cellular.c:295 | Every number below 2^31 is read back from its decimal numeral. |
| OperatorList.StrtolSigned | smartDoor/cellular.c:295 | A minus sign negates the numeral behind it, down to the smallest int, a plus sign does not, and what follows the digits does not count. |
| OperatorList.StrtolSkipsSpace | smartDoor/cellular.c:295 | White space in front does not count. |
| OperatorList.StrtolWithoutDigits | smartDoor/cellular.c:295 | Without digits the number is 0. |
| OperatorList.OperatorText | smartDoor/cellular.c:260-264 | The printed form of two operators, letter by letter. |
| OperatorList.AnswerText | smartDoor/cellular.c:327-335 | The printed answer: header, list, modes and formats, and final result code. |
| OperatorList.TokensOfPrinted | smartDoor/cellular.c:260-264 | On a printed operator the five tokens are its fields. |
| OperatorList.ParsePrinted | smartDoor/cellular.c:259-298 | Parsing a printed operator gives that operator, and damages only its own text. |
| OperatorList.NoCloseInside | smartDoor/cellular.c:335 | The closing parenthesis of a printed operator is its last character. |
| OperatorList.ParsesFirst | smartDoor/cellular.c:333-346 | One turn of the loop stores the first printed operator and leaves the rest of the list intact behind it. |
| OperatorList.ParsesList | smartDoor/cellular.c:333-346 | From any point of a printed list the loop stores what is left, in order, as far as there is room. |
| OperatorList.RoundTrip | smartDoor/cellular.c:310-349 | For every printable list of operators within 1023 bytes, parsing its print into a zeroed array gives exactly the first min(n, maxops) operators, with the values of their numeric names, and that number. |
| OperatorList.TrailerNeedsFullArray | smartDoor/cellular.c:333-346 | With the standard's list of modes and formats behind any number of operators, the call succeeds if and only if the array has no room for a further operator, and then gives the same operators; otherwise it returns -1 and reports none, though it has stored them all. |
| OperatorList.OnlyTrailerFails | smartDoor/cellular.c:333-346 | An answer that holds only modes and formats makes the call fail and leaves the array unchanged. |
| OperatorList.BadStatusFails | smartDoor/cellular.c:269-284 | A parenthesis in place of the status makes the operator fail and leaves its structure unchanged. |
| Lcd.WithoutHasOnly | smartDoor/EFR32Print/print.c:68-79 | Filtering keeps exactly the characters that are not to be removed. |
| Lcd.SkipRemoved | smartDoor/EFR32Print/print.c:71-74 | The inner loop passes over a run of removed characters and never the terminator. |
| Lcd.Compact | smartDoor/EFR32Print/print.c:70-76 | The outer loop, whose bound shrinks while its scan runs ahead, moves exactly the kept characters to the front. |
| Lcd.RemoveChar | smartDoor/EFR32Print/print.c:68-79 | The string ends as itself without the character, in order, the result is its length, and nothing behind the old terminator changes. |
| Lcd.LineLength | smartDoor/EFR32Print/print.c:106 | A line reaches to the first line feed. |
| Lcd.LastBreak | smartDoor/EFR32Print/print.c:117-121 | The last place within a window where a row may end: behind a space or at the end of the line. |
| Lcd.RowLength | smartDoor/EFR32Print/print.c:122-125 | A row is never empty, longer than the display, or longer than what is left. |
| Lcd.RowLengthIsProper | smartDoor/EFR32Print/print.c:117-125 | It is the one length that takes all of a rest that fits, or else ends at the last space of the window, or fills the window if that has none. |
| Lcd.WrapIsTheProperDivision | smartDoor/EFR32Print/print.c:113-127 | A line has exactly one division into such rows, and wrapping finds it. |
| Lcd.WrapKeepsText | smartDoor/EFR32Print/print.c:113-127 | The rows of a line concatenate to the line, and each has 1 to LINE_SIZE characters. |
| Lcd.LinesKeepText | smartDoor/EFR32Print/print.c:106-131 | The lines of a text concatenate to the text without line feeds. |
| Lcd.OneLine | smartDoor/EFR32Print/print.c:106-131 | A text without line feeds is one line, unless it is empty. |
| Lcd.LinesSplitAtFeeds | smartDoor/EFR32Print/print.c:106-131 | Each line feed separates the lines in front of it from those behind it; so the lines of every text are known. |
| Lcd.RowsKeepText | smartDoor/EFR32Print/print.c:105-132 | So do all the rows. |
| Lcd.PlacedOnScreen | smartDoor/EFR32Print/print.c:112 | Every row is drawn on a line below NUM_OF_LINES, none is left out, and they keep their order. |
| Lcd.PlacedOneBelowTheOther | smartDoor/EFR32Print/print.c:86-115 | Each row is on the line below the one before, or on line 0 if that is off the screen, the first one at the counter; the screen is cleared in front of exactly the rows that find it full. |
| Lcd.CursorBelowLast | smartDoor/EFR32Print/print.c:86-91 | The counter ends one below the last row. |
| Lcd.TokenIsFirstLine | smartDoor/EFR32Print/print.c:106 | strtok on line feeds takes exactly the first line off the text that is left, and finds none exactly when none is left. |
| LcdScreen.PrintsTheText | smartDoor/EFR32Print/print.c:98-134 | What is drawn for a text concatenates to the part of it that fits the buffer, without carriage returns and line feeds; every row lies on the screen and has 1 to LINE_SIZE characters. |
| LcdScreen.Kept | smartDoor/EFR32Print/print.c:99-104 | The whole text if it has fewer than 1024 characters, or else its first 1023. |
| LcdScreen.PrintedInOrder | smartDoor/EFR32Print/print.c:86-134 | Rows that were printed stand one below the other behind those that were there. |
| LcdScreen.Screen.constructor | smartDoor/EFR32Print/print.c:5-7 | The screen starts empty with the cursor at line 0. |
| LcdScreen.Screen.CleanScreen | smartDoor/EFR32Print/print.c:54-57 | The cursor returns to line 0 of a blank screen. |
| LcdScreen.Screen.LcdPuts | smartDoor/EFR32Print/print.c:86-91 | The string is drawn at the cursor, which is one byte wide and moves on; the screen is blank no more. |
| LcdScreen.Screen.PutRow | smartDoor/EFR32Print/print.c:115-124 | The row goes on the next line, and on line 0 of a cleared screen exactly if the screen is full (`PrintedInOrder` says so without the function named here). |
| LcdScreen.Screen.FindBreak | smartDoor/EFR32Print/print.c:117-121 | The innermost loop finds the last break of the window, or keeps the stale pointer, which never runs past the position. |
| LcdScreen.Screen.CopyRow | smartDoor/EFR32Print/print.c:116-123 | Zeroing and copying makes the row a string of its own. |
| LcdScreen.Screen.WrapRow | smartDoor/EFR32Print/print.c:114-126 | One row is drawn and the position advances by its length. |
| LcdScreen.Screen.WrapLine | smartDoor/EFR32Print/print.c:114-126 | A long line is drawn as its rows; the stale pointer stays within the line. |
| LcdScreen.Screen.PrintLine | smartDoor/EFR32Print/print.c:111-130 | Any line is drawn as its rows. |
| LcdScreen.Screen.PrintAndScan | smartDoor/EFR32Print/print.c:110-132 | One turn of the loop draws a line and takes the next one off what is left. |
| LcdScreen.Screen.Prepare | smartDoor/EFR32Print/print.c:99-105 | The buffer holds what is to be shown: the kept part of the text without carriage returns. |
| LcdScreen.Screen.PrintLines | smartDoor/EFR32Print/print.c:110-132 | From its first token on, the loop draws the rows of all the lines that are left. |
| LcdScreen.Screen.PrintShown | smartDoor/EFR32Print/print.c:106-132 | The first token and the loop together draw the rows of the whole text. |
| LcdScreen.Screen.LcdPrintf | smartDoor/EFR32Print/print.c:98-134 | For every formatted text, exactly its rows are drawn. The first is on the line of the counter, or on line 0 if that is off the screen, and each further one on the line below the one before, or on line 0 likewise; the screen is cleared in front of exactly those rows that find it full, and the counter ends one below the last. |
| DeviceStore.StepAgrees | server/db.py:27-76 | After any operation the answer is that of a store that deletes on time, and the live records are the same if and only if the operation revived none. |
| DeviceStore.RevivalShows | server/db.py:41-68 | A revival shows in the next lookup of the device. |
| DeviceStore.LookupsShow | server/db.py:27-38 | Lookups agree for all devices if and only if the live records are the same. |
| DeviceStore.LazyIsEager | server/db.py:17-76 | Over every run with a non-decreasing clock, no lookup, list or removal tells the store from one that deletes records the moment they lapse, if and only if no operation of the run revives a record. |
| DeviceStore.LookingFirstIsEnough | server/db.py:27-68 | It is enough to look a device up right before every write to it. |
| DeviceStore.LimitAfterUpdate | server/db.py:55-68 | After an extension by some days, a stored device is found exactly until so many days after its old limit or, without one, after now; after 0 days at any time. Its name and registration and all other devices stay. |
| DeviceStore.ExtensionsAddUp | server/db.py:55-68 | Over any run, the limit is the old limit or, without one, the time of the first extension, plus all the days added since, whenever the later extensions come. |
| DeviceStore.FoundAfterAdd | server/db.py:41-52 | A new device is found at any time, registered now and without a limit; a stored one is found as long as before under its new name; no other is touched. |
| DeviceStore.GoneAfterRemove | server/telegram.py:95-99 | A removed device is not found at any time; no other is touched. |
| DeviceStore.LookupLeavesNoTrace | server/db.py:27-38 | No later lookup of any device notices an earlier one. |
| DeviceStore.ListShowsTheFound | server/db.py:71-76 | The list shows exactly the devices that a lookup would find, with their names and limits, and changes nothing. |
| DeviceStore.Database.constructor | server/db.py:79-85 | The store starts empty. |
| DeviceStore.Database.GetBtDevice | server/db.py:27-38 | A live record is found; a lapsed one is deleted and not found. |
| DeviceStore.Database.AddDevice | server/db.py:41-52 | A stored record, lapsed or not, gets the name; otherwise a new record without time limit is stored. |
| DeviceStore.Database.UpdateUntilTime | server/db.py:55-68 | The limit is then exactly so many days of 86400 seconds after the old one or, without one, after now, and absent exactly for 0 days; name, registration and all other records stay, and an unknown device is ignored. |
| DeviceStore.Database.ListDevices | server/db.py:71-76 | Exactly the live records, with name and limit. |
| DeviceStore.Database.RemoveDevice | server/telegram.py:95-99 | Looking a device up and deleting what was found leaves no record of it. |
| Decimal.NumeralRoundTrip | server/telegram.py:69-72 | A printed number gives the number back. |
| CallbackCodec.SplitGivesWords | server/telegram.py:91 | Splitting at whitespace gives non-empty words without whitespace. |
| CallbackCodec.SplitFirst | server/telegram.py:93 | A word in front of a space is split off. |
| CallbackCodec.DecodesAskName | server/telegram.py:88-91 | The Add button gives its device back if and only if the identifier is a word. |
| CallbackCodec.DecodesSaveAs | server/telegram.py:92-94 | The Accept button gives device and name back if and only if both are words. |
| CallbackCodec.DecodesRemove | server/telegram.py:95-99 | The Remove button gives its device back if and only if the identifier is a word. |
| CallbackCodec.DecodesUntil | server/telegram.py:100-102 | The time-limit buttons give number and device back if and only if the identifier is a word. |
| CallbackCodec.CodecRoundTrip | server/telegram.py:82-107 | Every button's string decodes to the action it was built for if and only if its identifier and name are words and a bare identifier does not look like a command. |
| CallbackCodec.MacsAreSendable | server/telegram.py:175 | The addresses that the door prints are words and look like no command. |
| CallbackCodec.KeyboardsDecode | server/telegram.py:48-72 | For such an address and a name without whitespace, every button of every keyboard decodes to its own action. |
| CallbackBot.NamingStoresTheName | server/telegram.py:88-133 | Add, a typed name and Accept store that name for that device and leave no trace otherwise; Cancel leaves none at all; Edit asks again. |
| CallbackBot.RemoveButton | server/telegram.py:95-99 | After Remove no lookup finds the device; nothing else changes. |
| CallbackBot.LimitButtons | server/telegram.py:100-102 | The four buttons let the device be found for one, three and seven more days, and for ever; nothing else changes. |
| CallbackBot.AcceptButton | server/telegram.py:92-94 | After Accept the device is found under the name; nothing else changes. |
| CallbackBot.ShowButton | server/telegram.py:103-107 | No lookup notices that the settings of a device were shown. |
| CallbackBot.NewDeviceButtons | server/telegram.py:82-91 | Ignore changes nothing, Open opens once, Add makes the device the one that the next name is for. |
| CallbackBot.PressesDoTheirActions | server/telegram.py:76-107 | Through the strings and back, a run of presses does to the store what its actions ask, in order, and opens the door as often as asked. |
| CallbackBot.Bot.constructor | server/telegram.py:17 | No device waits for a name at first. |
| CallbackBot.Bot.CallbackHandler | server/telegram.py:76-107 | The handler performs the decoded action on the store, the waiting devices and the door, and offers the settings of a live device only. It raises an exception exactly for a new name without exactly two arguments and for a limit without a number and an identifier, and then changes nothing. |
| CallbackBot.Bot.GetDeviceName | server/telegram.py:115-133 | The device that was asked about last gets the name and is asked about no more; a command, a name that is not alphanumeric, and any text when no device waits change nothing and get no keyboard. |

## Left out

- SerialRx.RxLine.SerialRecv: what is said about the result is for calls with fewer than 2^31 bytes waiting or arriving, because the driver converts its unsigned counts to `int`.
- SerialRx.RxLine.AwaitByte: where the looks at the clock are so far apart that the wait may never notice its timeout, it is assumed that a byte arrives after finitely many rounds.
- SerialRx.RxLine.MoveBytes: C leaves stores past the end of the caller's array undefined; in the model they have no effect, and the contracts say exactly when they happen.
- SerialRx.RxLine.UartGetData: the returned words that mean -1 and a count of 2^32 - 1 are told apart by a flag of the model.
- OperatorList.CellularGetOperators: NULL arguments and a failing send are not modelled; what the modem answers is a parameter, and where C leaves the behaviour undefined (names shorter than their quotes or longer than the field, a scan that leaves the buffer) the outcome is marked undefined.
- OperatorList.RoundTrip: the name fields may hold quotes and may be empty, which the modem does not send; commas, closing parentheses and NULs in them are excluded because the parser cannot handle them.
- LcdScreen.PrintsTheText: for texts without NUL characters; `LcdPrintf` itself covers all texts.
- LcdScreen.Screen.LcdPrintf: formatting is not modelled (the formatted text is the parameter, an empty one standing for a failed format as well), nor the drawing of glyphs, nor displays with no or more than 255 lines.
- DoorState.ClosedAfterwards: the timer period is a parameter, because its unit depends on the sleep timer.
- DeviceReports.Reporter.SendDevice: a message callback that runs inside a publication is not modelled, nor a publication that fails; the pass starts in the closed state.
- DeviceReports.Reporter.AddBtDevice: the variable `contains`, which nothing reads, is not modelled.
- DeviceStore.Database.AddDevice: the database's own checks, such as refusing an empty name, are not modelled, nor its sessions; each function is one step.
- DeviceStore.Database.UpdateUntilTime: dates beyond the range of the date type, which raise an exception, are not modelled.
- CallbackCodec.Decode: `int()` is modelled on unsigned digits, which is what the buttons hold; signs and underscores are not.
- CallbackBot.Bot.GetDeviceName: what `isalnum` says about the text is a parameter.
- Register setup, LEDs, the Bluetooth stack, the MQTT and chat libraries, log messages and screens are hardware and library calls.
- The rest of `smartDoor/cellular.c` (signal quality, registration, ICCID, IMEI and the chains of AT commands) is straight-line input and output.
- `smartDoor/MQTTClient.c`, `smartDoor/socket_linux_modem.c`, `server/mqtt.py` and `server/main.py` are wrappers and configuration.
- `mqtt_get_packetid` and the conversion of signal strengths would only add easy members.
