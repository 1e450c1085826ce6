# PEAK CAN driver: verified models

This project models the algorithmic parts of the PEAK-System CAN driver for Linux in Dafny 4.11
and proves what they promise. `dafny verify dfyconfig.toml` checks everything.

| files | subject |
|---|---|
| `Can.dfy`, `Common.dfy` | bytes, words and the transmitted frame; shared arithmetic |
| `TxEngine.dfy`, `TxDevice.dfy` | the transmit path: all interleavings of senders, hardware completions and bus events as a step system, and the driver's routines refining its steps |
| `BitSplit.dfy`, `BitSearch.dfy`, `BitTiming.dfy`, `BitTables.dfy` | bit timing: sample point, search for prescaler and bit length, normalisation, and the tables of the controllers (bit timing of the Bosch CAN Specification 2.0, Part B, section 10) |
| `UsbPro.dfy`, `UsbProRecords.dfy`, `UsbProDecode.dfy`, `UsbProEncode.dfy` | PCAN-USB Pro: record streams decoded in place across packets, the records that are received, and the encoder |
| `PcanUsb.dfy`, `PcanUsbEncode.dfy` | PCAN-USB: telegrams, their decoder and encoder |
| `Ticks.dfy` | PCAN-USB: 16-bit and 8-bit time stamps unwrapped |
| `TimeSync.dfy` | host time and device time, clock drift, delivered time stamps |
| `RingFifo.dfy` | the pointer ring |
| `RxPolicy.dfy`, `RxSteps.dfy` | what is put into the read queue: repeated status messages and overflow; and all interleavings of its posters, readers and timer as a step system |
| `MsgText.dfy`, `LineInput.dfy` | the text interface: printer, parser, lines out of pieces |

Code that changes things step by step is a class or a method with loops, proved against
specification functions; what is promised is then proved of those functions, for every input, every
run or every reachable state. Logs of what was accepted, handled or sent are ghost.

Some properties one might expect are false of the code. For each of them a lemma gives an input and
another one the exact condition.

- Frames queued while the bus is unknown are not sent when the bus leaves that state through
  `pcan_handle_error_status` (`FrameStrandedAfterErrorStatus`). This is harmless if and only if nothing is
  queued or a start is owed (`LeavingUnknownUnstarted`), and between calls if and only if no frame was
  ever accepted (`LeavingUnknownBetweenCalls`).
- A start of the SJA1000 is given up with -EIO when its transmit buffer stays busy, at three places: after the
  last put of a call, before its sender waits, and in the bus handler. The last two ignore the error. A frame is
  then left behind (`FrameStrandedAfterGivenUpStart`) if and only if one is queued and nobody else owes a start
  (`GivingUpStart`, `GivingUpHandlerStart`). Three frames sent in one call through a FIFO of two entries can leave
  their sender asleep for ever beside a full queue and an idle controller (`SenderStrandedAfterGivenUpStart`): a
  sleeper can be woken, without a signal to it and without bus-off, if not all senders wait in that
  state (`SleeperIsWoken`), and in that state nothing else ends it (`StrandedForEver`).
- In both cases the next call, if there is one, sends what was left behind (`NextCallSendsThem`).
- The newest entry of an overrun read queue does not always tell of the overflow. The queue is locked for one
  call at a time, and readers can take entries between the refused put and the mark. Beside readers only, the
  queue is full and marked if and only if no entry was taken in that time, and empty if and only if all were
  (`OverflowBesideReaders`; with other posters and the timer, `OverflowOutcome`). Then the overrun bit can be
  set beside an empty queue, where nothing is received any more but bus loads (`StuckForEver`); an overrun
  can end if and only if an entry is left (`OverrunEndsIffEntryLeft`). One interrupt and one reader lead
  there, with a queue of any size (`QueueGetsStuck`).
- The same status can follow itself in the read queue, because the test for a repetition and the put are two
  steps: an interrupt and a task that post it at once both put it in (`SameStatusTwice`). Exactly a put behind
  the same status does this (`StepRepeats`), and it never happens unless a put overtakes another task that
  holds the same status behind its test (`NothingIsRepeated`).
- The search for a bit timing divides by zero for some requested rates, which are not checked before: the
  multiples of 2^28 bit/s on an SJA1000, and of 2^24 and 2^27 bit/s in the two phases of a CAN FD controller, and no
  other ones (`ZeroDivisorIff`). A request of nearly 2^32 bit/s is accepted by an SJA1000
  (`HugeRateIsAccepted`), because the difference of two rates is taken for a signed number; a successful
  request yields sound registers only if the rate is below 2^31 (`SoundIffFeasible`, `RecommendedIsSound`).
- A successful request can leave registers out of range: with a sample point of 20 % and 55172 bit/s on an
  SJA1000 the first segment gets length 0 (`EarlyNominalLeavesRange`, `EarlyIsUnsound`), and with 50 % and
  347826 bit/s no split is accepted at all (`SuccessWithoutSplit`, `UnsplitIsUnsound`). For
  a rate below 2^31 the registers are sound if and only if the bit length that the request leads to has a feasible
  split (`SoundIffFeasible`), which every request for a recommended sample point, or for one from 68 % on, has
  (`RecommendedIsSound`).
- The drift of the clocks is a divisor of 32 bits. When a device is 32768 s ahead after one second of the host, its
  low 32 bits are 0 and a stamp is divided by zero (`RacingDeviceDividesByZero`). No run in which the device's
  clock runs at most 32767 times as fast as the host's does that (`PacedStampsAreOrdered`).
- Frames do not always come back from their text: data frames do if and only if they change the bit rate
  exactly when they are CAN FD frames (`RoundTrip`, `SlowFdComesBackAsCan20`), remote frames if and only if they
  are CAN 2.0 frames without that change (`RemoteRoundTrip`).
- A line that is rejected stays at the front of the write buffer, so that every later write meets it
  again (`RejectedLineStays`). A text is handled completely if and only if all of its lines are accepted
  (`HandledIffAccepted`).
- A printed line can be longer than the 80 bytes of the read buffer: the line of a CAN FD frame of 9 bytes
  is (`NineBytesDoNotFit`), and a line with its time fits if and only if it shows at most 8 data bytes
  (`LineFitsTheBuffer`). What is promised of reading is promised for lines that fit.

`pcan_fifo_init` refuses a FIFO of fewer than two entries; `OneEntryFifoLosesTheSleeper` shows that the
transmit path of the SJA1000 needs this.

## Model

| member | source | states |
|---|---|---|
| TxEngine.QueuedFramesAreStarted | driver/src/pcanfd_core.c:887-933 | in every run: if frames are queued, the engine is stopped and the bus is known, then a sender stands between its put and its start, or the bus handler between its state change and its start, or since the last write a start was given up with -EIO or the bus left UNKNOWN without one |
| TxEngine.SingleWriterInOrder | driver/src/pcan_usb_core.c:429-553 | in every run: the engine is started exactly while one write is under way, and frames completed, frames in flight and frames queued, in this order, are the frames accepted, in order |
| TxEngine.RunKeepsInv | driver/src/pcanfd_core.c:992-1062 | every interleaving of puts, locked starts, starts that are given up, refusals, sleeps, wake-ups, completions and bus events keeps all invariants of the transmit path |
| TxEngine.StepKeepsNoLostStart | driver/src/pcan_usb_core.c:171-215 | each single step keeps that a queued frame has somebody who owes its start, or that the last start was missed |
| TxEngine.StepKeepsOrder | driver/src/pcan_sja1000.c:816-872 | each single step keeps the order of the frames between sender, hardware and bus |
| TxEngine.StepKeepsSleepers | driver/src/pcanfd_core.c:1020-1062 | each single step keeps that a sleeper whose queue has room is about to be signalled |
| TxEngine.EveryHardwareTurnWakes | driver/src/pcan_usb_core.c:153-215 | while the engine runs or the queue has room, every run in which the hardware gets its turn (a URB completes; the transmit interrupt comes and its handler ends) wakes a sleeping sender, whatever else happens in it |
| TxEngine.EveryStartAndTurnWakes | driver/src/pcanfd_core.c:992-1062 | on a known bus, every run in which somebody starts the engine and the hardware then gets its turn wakes a sleeping sender |
| TxEngine.SignalWakes | driver/src/pcan_main.c:2117-2142 | every run that signals, for instance because the bus goes off, wakes all sleepers, and only their own steps put senders to sleep |
| TxEngine.SleeperIsWoken | driver/src/pcanfd_core.c:992-1062 | on a known bus a sleeper can be woken within five steps, none of them its own, no signal to a task and no loss of the bus, unless every sender waits beside a full queue with nobody due to empty it |
| TxEngine.StrandedForEver | driver/src/pcanfd_core.c:34-38 | in that state every run without a signal to a task and without bus-off stays: nothing is sent and all senders keep waiting, for the wait has no timeout |
| TxEngine.SenderStrandedAfterGivenUpStart | driver/src/pcanfd_core.c:1059-1062 | three frames sent in one call through a FIFO of two entries reach it, when the start before the wait is given up |
| TxEngine.EveryRunOfCompletionsDrains | driver/src/pcan_usb_core.c:171-215 | completions by themselves, in batches of any size, come to an end, and every such run that cannot go on has sent everything that was accepted |
| TxEngine.LeavingUnknownUnstarted | driver/src/pcan_main.c:2117-2239 | leaving UNKNOWN without a start leaves frames behind if and only if some are queued and no start is owed |
| TxEngine.LeavingUnknownBetweenCalls | driver/src/pcan_main.c:2207-2239 | when no sender is inside a call, it leaves frames behind if and only if a frame has ever been accepted |
| TxEngine.NextCallSendsThem | driver/src/pcanfd_core.c:1150-1185 | from every reachable state with a stopped engine and a bus that is up, the next call of an idle sender can send all that was accepted, whether its own frame finds room or not |
| TxEngine.GivingUpStart | driver/src/pcan_sja1000.c:758-776 | a start that a sender gives up, after its last put or before it waits, leaves frames behind if and only if some are queued and nobody else owes a start |
| TxEngine.GivingUpHandlerStart | driver/src/pcan_main.c:2176-2185 | a start that the bus handler gives up leaves frames behind if and only if some are queued and no sender owes a start |
| TxEngine.FrameStrandedAfterGivenUpStart | driver/src/pcan_sja1000.c:758-776 | one frame on an idle SJA1000 is enough to reach the bad case |
| TxEngine.FrameStrandedAfterErrorStatus | driver/src/pcan_main.c:2207-2239 | one frame sent before the bus is known is enough to reach the bad case |
| TxEngine.OneEntryFifoLosesTheSleeper | driver/src/pcan_fifo.c:69-76 | with a FIFO of one entry an SJA1000 sender can be left asleep beside an empty queue and an idle controller |
| TxDevice.PcanDev.UsbWrite | driver/src/pcan_usb_core.c:429-553 | the URB gets the longest prefix of the queue that its packets hold; the device takes the write step for just that number of frames |
| TxDevice.PcanDev.EncodePacket | driver/src/pcan_usb_core.c:444-481 | frames taken and frames left are the old queue; ENODATA exactly when the queue ran out first |
| TxDevice.PcanDev.SjaWrite | driver/src/pcan_sja1000.c:730-776 | takes one frame, or answers ENODATA, or EIO when the transmit buffer stays busy, and changes nothing then |
| TxDevice.PcanDev.SjaTransmitInterrupt | driver/src/pcan_sja1000.c:816-872 | is the interrupt step of the step system |
| TxDevice.PcanDev.UsbRefillAfterNotify | driver/src/pcan_usb_core.c:190-215 | is the refill step of the step system |
| TxDevice.PcanDev.DevStartWriting | driver/src/pcanfd_core.c:887-918 | writes if and only if the bus is known and the engine stopped; an empty queue is no error, a busy transmit buffer is, and the start is then missed |
| TxDevice.PcanDev.HandleErrorActive | driver/src/pcan_main.c:2144-2186 | changes the state first and, from UNKNOWN only, starts writing then: the two steps of the step system, the second of which is given up when the controller is stuck |
| TxDevice.PcanDev.HandleErrorStatus | driver/src/pcan_main.c:2207-2239 | is the step to WARNING or PASSIVE of the step system, also out of UNKNOWN, where no writing starts; without an error bit it changes nothing |
| TxDevice.PcanDev.HandleBusoff | driver/src/pcan_main.c:2117-2142 | is the two bus-off steps of the step system, state first and signal second, unless the bus is off already |
| TxDevice.PcanDev.SendMsg | driver/src/pcanfd_core.c:935-1062 | a frame is queued if and only if it is of type CAN 2.0 or CAN FD, has at most 8 bytes (64 as a CAN FD frame of a CAN FD device), has a standard identifier where only those are allowed, the device is there, the bus is not off and there is room; which error each failure gives, and as which type the frame is queued |
| TxDevice.PcanDev.SendMsgs | driver/src/pcanfd_core.c:1150-1185 | the longest prefix of such frames that finds room is queued behind what was queued, nothing when the bus is off or the device is gone, and the engine runs if the bus is known and the controller is not stuck |
| TxDevice.AdmittedLength | driver/src/pcanfd_core.c:945-988 | the admission switch lets through exactly the frames of at most 8 bytes, or 64 for a CAN FD frame on a CAN FD device, that have an allowed identifier, and tells a wrong type or length before a wrong identifier |
| BitSplit.UpdateSamplePoint | driver/src/pcan_timing.c:520-576 | the loop over two candidates, with wrapped 32-bit differences, reports the better accepted one; without one the pointers' targets stay as they were |
| BitSplit.TwoCandidatesSuffice | driver/src/pcan_timing.c:520-576 | given a feasible split and no underflow, the two clamped candidates yield an in-range split of the bit with the latest sample point not above nominal among all in-range splits |
| BitSplit.AcceptedInRangeIff | driver/src/pcan_timing.c:537-563 | an accepted pair is in range if and only if some in-range split samples not above nominal |
| BitSplit.LateAcceptedIsSplit | driver/src/pcan_timing.c:520-576 | with a nominal that leaves room for tseg1_min in the shortest bit, an accepted pair is always an in-range split, and one is accepted if and only if one is feasible |
| BitSplit.UpdateIsExact | driver/src/pcan_timing.c:520-576 | for every nominal from 0 to 100 %: the update yields the best split if there is a feasible one, and otherwise nothing or a first segment that is too short; also when a candidate underflows, if tseg2 is nowhere longer than tseg1 may be |
| BitSplit.EveryLengthFeasible | driver/src/pcan_timing.c:537-563 | all bit lengths have a split not above nominal if and only if the shortest and the longest have |
| BitSplit.DefaultsAreLate | driver/src/pcan_timing.c:606-626 | every nominal from two thirds up, hence every recommended one, leaves that room |
| BitSearch.Search | driver/src/pcan_timing.c:644-700 | the loop in 32-bit arithmetic, with its early break, returns a lexicographic minimum of bit rate error and sample point error over all usable lengths, and among equals the longest exact one or else the shortest, or finds none exactly when there is none; no divisor may be zero |
| BitSearch.ChosenIsUnique | driver/src/pcan_timing.c:644-700 | the request alone decides which length that is |
| BitSearch.RateErrorBounded | driver/src/pcan_timing.c:650-671 | the bit rate error of a usable length is not larger than the requested rate |
| BitTiming.BitrateToBittiming | driver/src/pcan_timing.c:582-742 | success gives the optimum's registers with a computed error below 0.51 %, EDOM means that no length is usable or that the optimum is too far off, EINVAL a sample point above 100 % |
| BitTiming.NothingFoundIsRejected | driver/src/pcan_timing.c:702-717 | the sentinel of a search without result, cut to 32 bits, is rejected for every rate |
| BitTiming.RecommendedPointsFall | driver/src/pcan_timing.c:606-626 | the sample point of a request without one falls with the rate: 87.5 % exactly up to 500 kbit/s, 80 % up to 800 kbit/s, 75 % above |
| BitTiming.Normalize | driver/src/pcanfd_core.c:78-127 | each given register becomes the nearest value of its range, and rate, sample point and quantum are what these registers mean; otherwise the registers come from the search, and the jump width is the user's as far as the limits allow |
| BitTiming.RateOfRegistersIsFound | driver/src/pcanfd_core.c:50-76 | the rate computed from in-range registers is found again without error when it is requested, unless the prescaler that then belongs to their bit length is too large |
| BitTiming.RegistersNormalizeOnce | driver/src/pcanfd_core.c:78-105 | given registers are clamped once and for all, in-range ones stay as they are, and only the jump width is not limited |
| BitTiming.SoundIffFeasible | driver/src/pcanfd_core.c:78-127 | after success, for every sample point from 0 to 100 %: all registers are in range, sjw is at most tseg2, the real rate is off by less than 0.51 %, and normalising again changes the requested rate only, if and only if the bit length of the request has a feasible split and the rate is below 2^31 |
| BitTiming.RateErrorIsDistance | driver/src/pcan_timing.c:669-671 | the error that the search computes is the distance of the two rates below 2^31, and from there on no usable length comes near the request |
| BitTiming.SplitIffRequestHasOne | driver/src/pcan_timing.c:644-722 | a split is accepted if and only if the request has one at some length with the nearest rate |
| BitTiming.NormalizedIsSound | driver/src/pcanfd_core.c:78-127 | with a nominal that leaves room for tseg1_min: the registers are sound if and only if the sample point is not 0 and the rate below 2^31, and the sample point is not 0 if and only if the request has a feasible split at some length with the nearest rate |
| BitTiming.ExactRateIsFound | driver/src/pcan_timing.c:644-700 | with a prescaler step of 1, if any prescaler and length divide the clock exactly to the requested rate, the result has error 0 |
| BitTables.LateEnough | driver/src/pcan_sja1000.c:224-237 | every bit length of every controller has a feasible split if and only if the nominal is at least 68 % |
| BitTables.RecommendedIsSound | driver/src/pcan_timing.c:606-626 | on every controller a successful request for a recommended sample point, or for one from 68 % to 100 %, yields sound registers if and only if the rate is below 2^31 |
| BitTables.ZeroDivisorIff | driver/src/pcan_timing.c:650 | some bit length makes the 32-bit divisor zero if and only if the requested rate is a multiple of 2^28, 2^24 or 2^27, by controller |
| BitTables.HugeRateIsAccepted | driver/src/pcan_timing.c:670 | on an SJA1000 a request of 2^32 - 1 bit/s is never rejected for its error |
| BitTables.SuccessWithoutSplit | driver/src/pcan_timing.c:719-742 | on an SJA1000 a request of 347826 bit/s at 50 % fits 23 quanta and no other length, and ends in success with no accepted split |
| BitTables.UnsplitIsUnsound | driver/src/pcan_timing.c:719-742 | it leaves sample point 0 and unsound registers |
| BitTables.EarlyNominalLeavesRange | driver/src/pcan_timing.c:537-563 | on an SJA1000 a request of 55172 bit/s at 20 % fits five quanta and no other length, and the accepted first segment has length 0 |
| BitTables.EarlyIsUnsound | driver/src/pcan_timing.c:719-742 | the registers of that request are out of range |
| UsbPro.WalkResumes | driver/src/pcan_usbpro.c:1878-1951 | a walk over records may be interrupted and go on in a copy of the rest: same records, same end |
| UsbProRecords.SizeIsOfFields | driver/src/pcan_usbpro_fw.h:196-238 | the size table agrees with the fields of every record that the device sends |
| UsbProRecords.FieldsReadBack | driver/src/pcan_usbpro_fw.h:196-238 | where client, time stamp, identifier, status, bus load and data stand in these records |
| UsbProRecords.SizeOfCommand | driver/src/pcan_usbpro_fw.h:240-446 | the size table agrees with the fields of the commands and their answers, and knows no other record |
| UsbProRecords.ReceivedStreamWalks | driver/src/pcan_usbpro.c:1878-1951 | a message of such records, one behind the other, holds exactly these records |
| UsbProDecode.UsbInterface.MsgDecode | driver/src/pcan_usbpro.c:1839-1972 | any packet: records are handled in order until a handler fails, an unknown record comes, the next record does not end in the packet, or none is left; what then stands in the buffer and where the next packet begins; under four bytes nothing happens |
| UsbProDecode.WholeMessage | driver/src/pcan_usbpro.c:1878-1951 | on a well-formed message nothing is unknown, and simulated header and fragment offset describe exactly the rest of the message |
| UsbProDecode.UsbInterface.ReadNotify | driver/src/pcan_usb_core.c:391-419 | messages cut anywhere into the packets of a URB: the records of the unsplit messages are handled, all of them and in order, and the offset ends at 0 |
| UsbProDecode.MessageGoesOn | driver/src/pcan_usbpro.c:1919-1951 | a packet that ends inside a message leaves a simulated message whose records are the ones still to come |
| UsbProDecode.MessageDone | driver/src/pcan_usbpro.c:1919-1951 | a packet in which the message ends leaves the next message at the next packet boundary untouched |
| UsbProEncode.RecordRoundTrip | driver/src/pcan_usbpro.c:342-369 | a transmit record reads back as channel, identifier, flags, length and data of its frame |
| UsbProEncode.RecordIsSmallest | driver/src/pcan_usbpro.c:2044-2051 | a frame gets the smallest record that holds its data, none for remote frames, and its client byte tells self reception |
| UsbProEncode.PacketReadsBack | driver/src/pcan_usbpro.c:2018-2103 | walking the packet with the size table visits as many records as the counter says, stops exactly at its end, and gives the sent frames back in order |
| UsbProEncode.UsbProPort.AddRec | driver/src/pcan_usbpro.c:342-531 | appends one record, bumps the counter, and touches at most 16 bytes behind the message |
| UsbProEncode.UsbProPort.MsgEncode | driver/src/pcan_usbpro.c:1986-2106 | the packet holds the frames taken, without the status messages, lies within its size, is filled until 16 bytes or the queue are used up, and nothing around it changes |
| PcanUsb.DecodeMessage | driver/src/pcan_usb.c:706-1118 | the loop over a telegram sees the rounds of the format in order and stops at the first unknown function, refused message or overrun |
| PcanUsb.FrameReadsBack | driver/src/pcan_usb.c:794-893 | one round on an echoed frame gives the frame with its time stamp, its data filled up with zeroes, and stops right behind it |
| PcanUsb.EchoRoundTrip | driver/src/pcan_usb.c:751-893 | with a 16-bit and then 8-bit time stamps put in behind the identifiers, encoded frames decode into the same frames in order, for all in-range identifiers, flags, lengths and data |
| PcanUsb.LayoutReadsBack | driver/src/pcan_usb.c:794-893 | the same of every frame that can be received, with up to 15 bytes, of which eight are told, and any client handle |
| PcanUsb.StatusReadsBack | driver/src/pcan_usb.c:895-1048 | one round on a status record gives its function, number, stamp and payload: as many bytes as it counts for functions 1 and 5, two for 2 and 4, one for 3, none for 10 |
| PcanUsb.RecordsGoOn | driver/src/pcan_usb.c:751-1118 | frames and status records in any mix, with or without stamps, are told one after the other, and decoding goes on behind them |
| PcanUsb.TelegramReadsBack | driver/src/pcan_usb.c:740-1118 | a telegram of up to 255 such records decodes into exactly these |
| PcanUsb.UnknownFunctionEnds | driver/src/pcan_usb.c:1050-1062 | behind such records, a status record of any other function ends the decoding as out of sync |
| PcanUsb.CutTelegramIsNoticed | driver/src/pcan_usb.c:1090-1116 | a telegram that is cut inside a record never decodes as a whole one |
| PcanUsb.FrameSize | driver/src/pcan_usb.c:1175-1234 | a frame takes 3 to 14 bytes, and 14 only as an extended self-received data frame of 8 bytes |
| PcanUsbEncode.PcanUsbPort.EncodeMessage | driver/src/pcan_usb.c:1129-1255 | the packet holds prefix, count, the frames taken, and the telegram counter in its last byte; the frames are a maximal prefix of the queue; bytes behind the packet do not change |
| PcanUsbEncode.FourteenIsEnough | driver/src/pcan_usb.c:1134-1242 | for every queue and packet size, header and frames end before the last byte, and filling stops early only when the queue is empty |
| PcanUsbEncode.ThirteenIsTooFew | driver/src/pcan_usb.c:1134 | with a margin of 13 bytes some queue fills the last byte, if and only if the firmware knows self reception and the packet has 16 or at least 19 bytes |
| PcanUsbEncode.EchoedTelegramReadsBack | driver/src/pcan_usb.c:1149-1245 | what the encoder made, returned with time stamps in it, is decoded into the frames it was made of |
| Ticks.UsbTime.FromWord | driver/src/pcan_usb.c:172-239 | is the 16-bit event step of the runs: its count in 32-bit arithmetic as microseconds, and no stamp before the first calibration |
| Ticks.UsbTime.FromByte | driver/src/pcan_usb.c:241-263 | is the 8-bit event step of the runs |
| Ticks.UsbTime.SyncTimes | driver/src/pcan_usb.c:265-308 | is the calibration step of the runs |
| Ticks.TicksToTs | driver/src/pcan_usb.c:158-170 | microseconds are the ticks times 42.667, rounded up, in two words |
| Ticks.MicrosIncrease | driver/src/pcan_usb.c:158-170 | later ticks become later microseconds, at least 42 apart |
| Ticks.CountsFromReset | driver/src/pcan_usb.c:172-308 | in every run whose calibrations are under 65536 ticks apart and whose events are in reach, each item gets the device's true count since the window of the first calibration, modulo 2^32 |
| Ticks.StampsFromReset | driver/src/pcan_usb.c:158-308 | and each time stamp is the time that this count of ticks lasts, rounded up to whole microseconds; before the first calibration there is none |
| Ticks.CountsAreTrue | driver/src/pcan_usb.c:172-308 | the same from any state that agrees with the device |
| Ticks.SyncIsExact | driver/src/pcan_usb.c:270-296 | a calibration is counted exactly if and only if it comes under 65536 ticks after the last one |
| Ticks.EventIsExact | driver/src/pcan_usb.c:182-216 | an event of this window or the next is counted exactly if and only if the test for a wrap tells the two apart |
| Ticks.ReachIsExact | driver/src/pcan_usb.c:182-216 | it does so from 18662 ticks before the last calibration to 23437 after it |
| Ticks.ReachIsTight | driver/src/pcan_usb.c:182-216 | one tick farther on either side it may not |
| Ticks.WidenIsExact | driver/src/pcan_usb.c:241-263 | an 8-bit stamp under 256 ticks after the previous one becomes the true 16 bits |
| TimeSync.AddUs | driver/src/pcan_common.h:137-148 | the loop adds microseconds and normalises |
| TimeSync.Subtract | driver/src/pcan_main.c:1454-1507 | the borrowing subtraction is the difference, or 0 for a time before the start |
| TimeSync.PcanTime.SyncTimes | driver/src/pcan_main.c:1224-1358 | which calls are accepted, the new synchronisation point, and whether the elapsed times are accumulated or restarted; an ignored call changes nothing |
| TimeSync.DecodedStampsAreOrdered | driver/src/pcan_main.c:1196-1218 | in every mode, events that are decoded and read in the order of their device times, with no synchronisation between their decoding, are delivered in that order |
| TimeSync.PacedStampsAreOrdered | driver/src/pcan_main.c:1094-1114 | the same after every run from a reset in which the device's clock runs at most 32767 times as fast as the host's: the drift is then never a divisor of 0 |
| TimeSync.RacingDeviceDividesByZero | driver/src/pcan_main.c:1110 | two calls that make the divisor 0 |
| TimeSync.PcanTime.SyncTimestamps | driver/src/pcan_main.c:1066-1194 | the delivered time keeps the interval since the synchronisation, on its side of it: exactly in host mode and without a drift, and otherwise scaled by the drift and rounded down towards the synchronisation; it is cut off at the present, told from 100 us on, and counted |
| TimeSync.PcanTime.SyncDecode | driver/src/pcan_main.c:1196-1218 | an event keeps device time, point and drift of the last synchronisation, or the present when there is none |
| TimeSync.CorrectedIsInStep | driver/src/pcan_main.c:1094-1114 | the same of the corrected time, for every event within 2^46 microseconds |
| TimeSync.StampsFollowTheHost | driver/src/pcan_main.c:1094-1326 | after any calls from a reset, an interval of the device becomes the interval of the host at the ratio of their clocks since the origin: never longer, and shorter by less than one microsecond and the rounding of the drift |
| TimeSync.RunTelescopes | driver/src/pcan_main.c:1224-1352 | in every run the accumulated host and device times are the way from the origin to the last synchronisation point |
| TimeSync.DriftIsTheRatio | driver/src/pcan_main.c:1298-1326 | after any calls from a reset the drift is the ceiling of the scaled ratio of these times, except right behind the first synchronisation or a restart |
| TimeSync.SyncTimesIncrease | driver/src/pcan_main.c:1262-1296 | once synchronised, device time never decreases and host time strictly increases with every accepted call, even if the host's clock is set back |
| TimeSync.ReadStampsAreOrdered | driver/src/pcan_main.c:1082-1187 | events of one synchronisation get normalised stamps, never in the future, monotone in device time and read order |
| TimeSync.CorrectedMonotone | driver/src/pcan_main.c:1094-1114 | the drift correction keeps the order, on both sides of the synchronisation point |
| TimeSync.DriftInverts | driver/src/pcan_main.c:1104-1112 | scaling the accumulated device time by the drift never exceeds the accumulated host time, and falls short of it by less than the rounding of the drift |
| RingFifo.Fifo.Init | driver/src/pcan_fifo.c:69-93 | refuses exactly the bad layouts; when the entries divide the buffer the ring is empty and well laid out |
| RingFifo.StepIsWhole | driver/src/pcan_fifo.c:76-78 | the step is the whole part of the room an entry may take |
| RingFifo.Fifo.Reset | driver/src/pcan_fifo.c:51-65 | empties the ring and its count |
| RingFifo.Fifo.Put | driver/src/pcan_fifo.c:128-172 | appends; a full ring drops its oldest element first when circular and refuses otherwise; the total counts successful puts |
| RingFifo.Fifo.Get | driver/src/pcan_fifo.c:174-201 | returns and removes the oldest element, ENODATA if there is none |
| RingFifo.Fifo.Peek | driver/src/pcan_fifo.c:236-256 | returns the oldest element without removing it |
| RingFifo.Fifo.ForeachBack | driver/src/pcan_fifo.c:203-234 | the callback sees the elements from newest to oldest until it returns an error, and its edits reach exactly those |
| RingFifo.StoredSlot | driver/src/pcan_fifo.c:153-160 | writing an entry changes no other one |
| RingFifo.RatioIsTheFillLevel | driver/src/pcan_fifo.c:258-261 | the fill level, and full if and only if 10000 |
| RingFifo.FirstInFirstOut | driver/src/pcan_fifo.c:128-202 | in every run what has left followed by what is stored is what was taken in |
| RxPolicy.RxDevice.StatusRx | driver/src/pcan_main.c:1563-1628 | EEXIST if and only if neither state nor counters have changed; the counters are noted unless they contradict the state |
| RxPolicy.RxDevice.ErrorRx | driver/src/pcan_main.c:1630-1648 | a known bus error is told again only with new counters |
| RxPolicy.Normalized | driver/src/pcan_main.c:1654-1684 | a state is never told better than its counters |
| RxPolicy.FitsTheLeastAllowed | driver/src/pcan_main.c:1580-1620 | the counters fit exactly one bus state, the least one they allow |
| RxPolicy.RxDevice.Prepare | driver/src/pcan_main.c:1878-1994 | the counters and the time put into a message, which is given up if and only if it is a state or a bus error the user knows with the counters he knows, or a filtered frame; what is noted |
| RxPolicy.RxDevice.TryPatch | driver/src/pcan_main.c:1978-1984 | is the patch step of the runs: the newest entry is replaced if and only if it is the same status |
| RxPolicy.RxDevice.PutRx | driver/src/pcan_main.c:2001-2003 | is the put step of the runs |
| RxPolicy.RxDevice.HandleOverflow | driver/src/pcan_main.c:2288-2313 | is the step that sets the overrun bit, and makes the mark of the lost message |
| RxPolicy.RxDevice.ReplaceNewest | driver/src/pcan_main.c:2013-2014 | is the mark step of the runs: the newest entry is replaced, if there is one |
| RxPolicy.RxDevice.Store | driver/src/pcan_main.c:1976-2033 | patch of a repeated status, put, or overflow mark, one after the other, are what the posting function says |
| RxPolicy.RxDevice.ChardevRx | driver/src/pcan_main.c:1695-2034 | which messages of each kind pass; a bus state is posted as it is, unless valid counters contradict it, and then as the least state not better than it that they allow, every other message with its identifier; what the queue becomes, what is answered and noted |
| RxPolicy.RxDevice.PushBusLoadInd | driver/src/pcan_main.c:1363-1426 | is the timer step of the runs: the mean bus load since the last time is posted if and only if the bus is known, the user wants it and it has changed, and goes in if there is room |
| RxPolicy.RxDevice.ClearOverrun | driver/src/pcan_main.c:2350-2379 | the overrun ends, and the state of the bus, as its counters show it, is posted whenever status messages are wanted: it is never filtered as a repetition |
| RxPolicy.RxDevice.RecvMsg | driver/src/pcanfd_core.c:778-829 | the oldest entry leaves and an overrun ends; ENODEV without the device or an open path, EAGAIN without an entry |
| RxPolicy.NewestOnly | driver/src/pcan_main.c:1515-1561 | the patch callbacks touch the newest entry and no other |
| RxPolicy.SameButForContents | driver/src/pcan_main.c:1515-1543 | two messages repeat each other if and only if they differ in counters, data and time only |
| RxPolicy.FlagBits | driver/pcan.h:101-102 | which bits mark extended identifiers and remote frames |
| RxPolicy.OverflowTouchesTheNewest | driver/src/pcan_main.c:2001-2014 | when nobody comes in between: a message is lost if and only if the queue is full and it does not repeat the newest entry; then only the newest entry is replaced, by the mark |
| RxPolicy.ReadEndsOverrun | driver/src/pcan_main.c:2350-2379 | the read that ends an overrun keeps the mark, and the state of the bus follows it |
| RxSteps.UndisturbedPost | driver/src/pcan_main.c:1849-2033 | the steps of a post with nobody in between are the post of the device's contracts |
| RxSteps.UndisturbedRead | driver/src/pcanfd_core.c:795-799 | the steps of a read with nobody in between are the read of the device's contracts |
| RxSteps.OverrunIsTold | driver/src/pcan_main.c:1849-2014 | in every run of posters, readers and timer: the queue keeps its size, and while the overrun bit is set the queue holds a mark, or somebody is between setting the bit and the mark or between taking an entry and clearing the bit, or somebody found no entry to mark |
| RxSteps.StepKeepsInv | driver/src/pcan_main.c:1978-2014 | each single step keeps that |
| RxSteps.CalmRunsMark | driver/src/pcan_main.c:2001-2014 | in every run in which no entry is taken between a refused put and its mark, an overrun queue is full with the mark as its newest entry, but while somebody is in between |
| RxSteps.OverflowOutcome | driver/src/pcan_main.c:2001-2014 | whatever others do between a refused put and its mark: the newest entry, if there is one, is the mark; the queue is full and marked if and only if as many entries were added as taken, empty if and only if all and all added ones were taken, and what becomes of the overrun bit |
| RxSteps.OverflowBesideReaders | driver/src/pcan_main.c:2001-2014 | beside readers only: marked if and only if nothing was taken, empty if and only if everything was |
| RxSteps.StuckForEver | driver/src/pcan_main.c:1849-1852 | an overrun bit beside an empty queue stays, with nothing received, in every run without an entry of the bus-load timer |
| RxSteps.OverrunEndsIffEntryLeft | driver/src/pcan_main.c:2350-2379 | when nobody is under way, some run without the timer ends an overrun if and only if an entry is left |
| RxSteps.QueueGetsStuck | driver/src/pcan_main.c:2001-2014 | one poster and one reader reach the stuck state, for every size of the queue |
| RxSteps.FullQueueGetsStuck | driver/src/pcan_main.c:2001-2014 | from every full queue: one read in between loses the full mark, as many as there are entries get it stuck |
| RxSteps.OverrunWaitsForARead | driver/src/pcan_main.c:1849-1852 | until a read, an overrun queue stays as it is, whatever arrives |
| RxSteps.StepRepeats | driver/src/pcan_main.c:1978-2003 | a step makes two neighbours the same status if and only if it puts a status behind the same status, overflow marks and bus loads apart |
| RxSteps.NothingIsRepeated | driver/src/pcan_main.c:1978-2003 | this happens in no run in which no put of a status overtakes another task with the same one between its test and its put |
| RxSteps.SameStatusTwice | driver/src/pcan_main.c:1978-2003 | two posters of the same status, one behind the other's test, put it in twice |
| MsgText.MakeOutput | driver/src/pcan_parse.c:45-123 | the printed line |
| MsgText.ParseInputMessage | driver/src/pcan_parse.c:211-306 | what the parser finds and returns, for every text |
| MsgText.ParsedIsInRange | driver/src/pcan_parse.c:211-306 | whatever the text: at most 64 bytes, no more of them than the length says, and a length only behind an identifier in range |
| MsgText.RoundTrip | driver/src/pcan_parse.c:45-306 | data frames are read as they were printed (type, flags, identifier, length), with a time or without, if and only if they change the bit rate exactly when they are CAN FD frames; the data always come back |
| MsgText.HeadParses | driver/src/pcan_parse.c:211-290 | kind, flags, identifier and length of every framed line are read back, whatever follows |
| MsgText.RemoteRoundTrip | driver/src/pcan_parse.c:45-306 | a remote frame comes back but for its data, with a time or without, if and only if it is a CAN 2.0 frame without a change of the bit rate |
| MsgText.SlowFdComesBackAsCan20 | driver/src/pcan_parse.c:70-86 | a CAN FD frame that keeps its bit rate is read as a CAN 2.0 frame |
| MsgText.TimeReadsBack | driver/src/pcan_parse.c:108-118 | the two numbers of a printed time are its milliseconds and the microseconds left over |
| MsgText.StatusIsNotRead | driver/src/pcan_parse.c:50-66 | status and other messages have their own letters, by their source, and are never read as frames |
| MsgText.LineLength | driver/src/pcan_parse.c:90-122 | the length of every line, and when it is at most 80 |
| LineInput.LineWriter.WriteLine | driver/src/pcan_fops_linux.c:1240-1306 | a handled line leaves the buffer and the rest moves to its front; a line that fails stays |
| LineInput.LineWriter.Write | driver/src/pcan_fops_linux.c:1308-1365 | data that find room are taken, complete lines are handled in order, a full buffer without an end of line is emptied |
| LineInput.CutInTwo | driver/src/pcan_fops_linux.c:1338-1353 | a text may be cut before its end is known: same lines, same rest |
| LineInput.HandleConserves | driver/src/pcan_fops_linux.c:1338-1353 | lines handled followed by what is left are the text, and an end of line is left if and only if a line failed |
| LineInput.WritesDoNotMatter | driver/src/pcan_fops_linux.c:1308-1365 | however a text is split into writes, if its lines fit 512 bytes and are accepted, exactly its lines are handled, in order, and its open line is in the buffer |
| LineInput.RoomAfterWrite | driver/src/pcan_fops_linux.c:1324-1364 | after a successful write the buffer has room and no end of line, and no byte is lost |
| LineInput.OnlyTheLeadIsHandled | driver/src/pcan_fops_linux.c:1308-1365 | for verdicts that do not change with the calls: exactly the lines in front of the first rejected one are ever handled, however the text is split into writes |
| LineInput.HandledIffAccepted | driver/src/pcan_fops_linux.c:1308-1365 | so the whole text is handled if and only if every line of it is accepted |
| LineInput.RejectedLineStays | driver/src/pcan_fops_linux.c:1262-1305 | a line that is always rejected stays at the front, and no write succeeds any more |
| LineInput.LineReader.Read | driver/src/pcan_fops_linux.c:1184-1238 | a read gives the next part of the line in the 80-byte buffer, and prints a new one, which must fit, when nothing is left |
| LineInput.ReadsDoNotMatter | driver/src/pcan_fops_linux.c:1184-1238 | whatever the sizes of the reads, if the lines fit the buffer the text read followed by the text left is the text of the lines |
| LineInput.LineFitsTheBuffer | driver/src/pcan_main.h:865 | a line with its time fits the read buffer if and only if it shows at most 8 data bytes |
| LineInput.NineBytesDoNotFit | driver/src/pcan_fops_linux.c:1203-1205 | the line of a CAN FD frame of 9 bytes is one character longer than the buffer |

## Left out

- Submission failures of URBs, unplugging and resets while frames are in flight: the driver drops frames there.
- Probing, hot-plug, register access, module set-up, sysfs and proc output, socket-CAN and the real-time variants: plumbing of the operating system.
- Copying from and to user space, the option tables and the 32-bit layer: marshalling.
- The filter chain and the acceptance masks: parameters of the read queue.
- BTR0BTR1 conversion and the older variant of the timing search, which is not compiled.
- Big-endian branches and handlers of the single USB records, beyond whether they fail.
- TxEngine.QueuedFramesAreStarted: the locked routine that starts a write is one step, as its comment demands.
- TxDevice.PcanDev.SendMsgs: no other task runs in between; TxEngine has the interleavings.
- TxEngine.SingleWriterInOrder: a frame with the status flag counts as sent here, while the PCAN-USB Pro encoder takes it from the queue and drops it (driver/src/pcan_usbpro.c:2033-2042); UsbProEncode.Sent says which frames are left.
- TxDevice.PcanDev.SendMsg: one pass of a caller that does not wait; sleeping is a step of TxEngine. The type of a frame is told, but not part of the queue.
- BitSearch.Search: requests for which the code divides by zero are left out (ZeroDivisorIff); abs is the kernel's, which takes a 32-bit difference for a signed number and is not part of this repository.
- BitTiming.BitrateToBittiming: the same.
- BitTiming.Normalize: the same.
- BitTiming.SoundIffFeasible: for tables whose tseg2 may be longer than tseg1, which no controller of the driver has, both candidates are required not to underflow.
- UsbProDecode.UsbInterface.ReadNotify: messages are whole and well formed and their handlers succeed; everything else is in the contract of MsgDecode, where handlers that cannot stop the decoding report no error of their own.
- UsbProEncode.UsbProPort.MsgEncode: bytes of the data array behind the frame's length, which the copied record may hold, are taken as zero, and the single-shot bit is not part of a record because its macro is not defined there.
- PcanUsb.DecodeMessage: the effects of status records on the bus state are not modelled, only the records; whether a message is refused is a parameter; bytes behind the transfer read as zero, and a telegram that reaches them is refused.
- Ticks.CountsFromReset: a calibration at a multiple of 65536 does not start the counting, because the driver takes a stored 0 as not started; the run waits for the next one.
- TimeSync.PcanTime.SyncTimes: the nanosecond field is left out, and the accumulated times are unbounded; the shift of the drift is in 64 bits.
- TimeSync.PcanTime.SyncTimestamps: a drift that the driver would divide by zero with is excluded (PacedStampsAreOrdered, RacingDeviceDividesByZero).
- TimeSync.DriftIsTheRatio: for device times up to 2^45 microseconds, about one year, where the shift cannot wrap.
- TimeSync.ReadStampsAreOrdered: for events within 2^46 microseconds of their synchronisation.
- RingFifo.Fifo.Init: when the entries do not divide the buffer evenly nothing is said about the ring.
- RxPolicy.RxDevice.RecvMsg: one pass of a reader that does not wait, with nobody in between; the handlers that prepare status messages are left out.
- RxPolicy.RxDevice.ChardevRx: nobody else posts or reads in between, and nobody else changes the counters that are noted; RxSteps has the interleavings of the queue and the overrun bit. The queue is a sequence here, as the contracts of RingFifo allow.
- RxPolicy.RxDevice.Store: the same.
- RxPolicy.RxDevice.ClearOverrun: the same.
- RxSteps.OverrunIsTold: each change of the status word is one step, and close and reset, which clear the overrun bit and the queue, are not steps of the runs.
- MsgText.ParseInputMessage: the number scanner is the kernel's, by its documented behaviour for base 0, and is not part of this repository; fields the parser does not reach are given as 0.
- MsgText.RemoteRoundTrip: which of the digits of the time are taken for data is not said.
- LineInput.LineWriter.Write: what a line does is a parameter, and the harmless look at the byte behind the used part of the buffer is left out.
