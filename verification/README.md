# EMS heating-bus collector, verified

The repository connects a heating system's EMS bus to a computer. A
microcontroller (`framer/main.c`) listens to the bus, checks each frame and
forwards it over a serial line; a collector process (`collector/`) takes the
serial stream apart, decodes telegrams, keeps a history in a database and lets
clients read and write settings.

This project models the protocol code of both sides and proves what it does on
all inputs, all interleavings and all runs:

- **From the bus to the message layer.** `Framer` is the interrupt handler, the
  250-octet ring and the main loop, step by step; `Deframer` is the byte machine of
  the collector. `Pipeline` puts them together: for every interleaving of
  interrupts and main-loop steps and every way the stream is cut into reads, the
  collector delivers exactly the accepted payloads, in order. `BusDelivery` says
  which octets on the bus these are. `BusChecksum` says which bus errors the
  checksum sees, for frames of any length (bit-vector facts are in `Octets`,
  `ShiftRegister` and `Parity`).
- **Telegrams.** `Telegram` encodes and decodes classic and "plus" telegrams,
  `TransmitStack` follows a message through encoding, framing, deframing and
  decoding, `SerialFrame` is the frame format both sides share.
- **The command scheduler.** `Scheduler` is the machine, `CommandSender` the object.
  Requests leave the queue in order, each is sent exactly once, and the scheduler
  never wedges. `SendOrder` says exactly when they also reach the wire in order.
  `Spacing` says exactly when requests to one address octet keep their distance,
  `DeviceSpacing` when those to one device do, which has two addresses.
- **Sessions.** `Session` is a client's request, reassembled from telegrams;
  `ApiParser` is the object. `Fetch` says which raw and contact-information reads
  complete, `HistoryRead` which reads of the error history do, `DeviceQueries` what
  the version query and the active errors print; `RecordStream` that the error
  history does not depend on how its telegrams are cut; `ContactInfo` that contact
  lines read back as written.
- **Scheduler and sessions together.** `Collector` proves that on a silent bus
  everything comes to an end; `Clients` what each client's responses hold and what
  its commands cost over whole runs; `SilentReads` and `SilentWrites` what read and
  write commands cost on a silent bus; `Verdicts` what clients are told in the end;
  `Stranding` all the ways in which a client is left behind for good.
  `Bookkeeping` counts requests by client.
- **Values.** `Readings` decodes numbers and reports them from telegrams that
  start anywhere, `Settings` follows a client's number to the device and back,
  `Calendar` parses and prints dates and schedule entries.
- **The database.** `IntervalHistory` is one kind of value with its table and
  caches, `Database` the three kinds with the rate limit, `RateLimit` which
  samples are stored, `SensorDatabase` the object.

State-changing code of the repository appears twice: as a class whose methods
follow the source statement by statement, and as a function on values that the
methods are proved to compute; the theorems are about the functions and so
hold of the classes. Where a class has a method `Execute`, its contract says so
for whole runs.

Where the code does not do what one would hope for, it is said exactly when it
does: `BusChecksum.SwapMissed`, `Deframer.HarmlessNoise`,
`Deframer.HarmlessIfEven`, `Telegram.CodecRoundTrip`,
`TransmitStack.RoundTrip`, `SendOrder.InOrderExactly`, `Spacing.SpacedExactly`,
`DeviceSpacing.DeviceSpacedExactly`, `Fetch.Completes`,
`HistoryRead.HistoryCompletes`, `Stranding.LeftBehindExactly`,
`Stranding.StrandedExactly`, `Settings.HonestIffRangeFits`,
`Calendar.DatesAccepted`, `Calendar.DoubledDash`. Inputs that show the failure
are in `Deframer.StrayMarkerLosesFrame`, `SendOrder.LateTimerReorders`,
`SendOrder.OtherDeviceOvertakes`, `Spacing.RearmingBreaksSpacing`,
`Spacing.LateTimerBreaksSpacing`, `DeviceSpacing.WriteFollowsRead`,
`DeviceQueries.ActiveErrorsTwice` and `Calendar.SecondSpelling`.

## Model

| member | source | states |
|---|---|---|
| BusChecksum.CalcChecksum | framer/main.c:41-58 | The loop over the mutable register computes the checksum function that all results below are about. |
| BusChecksum.CrcLinear | framer/main.c:41-58 | The checksum of a string with some bits flipped is the checksum of the string XOR that of the flips. |
| BusChecksum.MissedErrorsAreFrames | framer/main.c:151-152 | Whether an error is noticed does not depend on what was sent: it is missed if and only if the error pattern itself would be accepted as a frame. |
| BusChecksum.OddErrorsNoticed | framer/main.c:151-152 | Any odd number of flipped bits, in a frame of any length, is rejected. |
| BusChecksum.OneOctetNoticed | framer/main.c:151-152 | Any damage confined to one octet, payload or checksum, is rejected. |
| BusChecksum.TwoOctetsMissed | framer/main.c:151-152 | Damage to two neighbouring payload octets is missed in exactly one case for each first error. |
| BusChecksum.SwapMissed | framer/main.c:151-152 | Two neighbouring payload octets that change places are missed if and only if they are equal or differ by 0xf7. |
| BusChecksum.SwapWithChecksumMissed | framer/main.c:151-152 | Swapping the last payload octet with the checksum octet is never noticed. |
| ShiftRegister.AdvanceInjective | framer/main.c:46-53 | No two register contents are merged by a step, on the machine's own octets. |
| ShiftRegister.AdvanceFixed | framer/main.c:46-53 | The step leaves exactly 0 and 0xf7 unchanged. |
| Parity.OnesMix | framer/main.c:46-54 | A round of the loop keeps the parity of the register plus the octet mixed in. |
| Framer.BusInterface.CopyToTxBuffer | framer/main.c:60-66 | Writing at the wrapping write position appends to the queue, and overwrites nothing that is still queued. |
| Framer.BusInterface.StartTxFrame | framer/main.c:68-72 | Appends the two marker octets. |
| Framer.BusInterface.AddTxData | framer/main.c:74-85 | Appends length, data and their XOR. |
| Framer.BusInterface.EnoughTxSpace | framer/main.c:87-99 | In both branches of the position comparison the free space is seen exactly; no 8-bit arithmetic wraps. |
| Framer.BusInterface.ForwardPayload | framer/main.c:155-161 | A payload goes into the ring as one whole frame or not at all. |
| Framer.BusInterface.EndOfFrame | framer/main.c:147-165 | Only a frame whose checksum agrees is forwarded, without its checksum. |
| Framer.BusInterface.ReceiveOne | framer/main.c:134-177 | One pass of the interrupt handler's loop is one step of the machine on queues. |
| Framer.BusInterface.UartReceive | framer/main.c:129-179 | So is a whole interrupt, whatever octets and breaks the UART has ready. |
| Framer.BusInterface.AdvanceReadPos | framer/main.c:219-224 | Releasing a slot takes one octet off the front of the queue. |
| Framer.BusInterface.MainStepOnce | framer/main.c:211-225 | Each piece of the main loop between two possible interrupts is one step of the machine. |
| Framer.BusInterface.Execute | framer/main.c:129-225 | Under any schedule of interrupts and main-loop pieces the arrays and 8-bit positions behave as an unbounded FIFO queue would. |
| Framer.RunKeepsInv | framer/main.c:129-225 | In every run: at most 249 octets are queued, an octet main has loaded is still the front of the queue when it is written, and sent plus unsent octets are exactly the frames of the accepted payloads. |
| Framer.CollectsSinceBreak | framer/main.c:142-177 | The handler holds exactly the octets since the last break, cut to its buffer, and nothing before the first break. |
| Framer.RunTracksBus | framer/main.c:129-179 | Accepted payloads are those that stand between two breaks in front of their checksum, in bus order, and none is dropped while all of them fit into the ring together. |
| Framer.MainLoopDrains | framer/main.c:211-225 | Left alone, the main loop takes a known number of steps to empty the ring. |
| Deframer.IoHandler.ReadComplete | collector/IoHandler.cpp:43-111 | One read, of any size and in any state, advances the machine over exactly its octets and delivers what the machine says. |
| Deframer.ChunkingIrrelevant | collector/IoHandler.cpp:64-108 | How the stream is cut into reads does not matter. |
| Deframer.ReadSplit | collector/IoHandler.cpp:64-108 | Reading in two goes is reading once, from every state. |
| Deframer.AlwaysExplained | collector/IoHandler.cpp:64-108 | At every point of every run the position is the size of the data, the checksum their XOR, and the data the tail of what was read. |
| Deframer.DeliveredWasFramed | collector/IoHandler.cpp:92-102 | On arbitrary input: whatever is delivered stood on the line as a complete frame with the right length and checksum. |
| Deframer.ReadFrame | collector/IoHandler.cpp:78-106 | One frame with arbitrary payload and checksum octets returns the machine to its start, and delivers if and only if the checksum is right. |
| Deframer.ReadFrames | collector/IoHandler.cpp:64-108 | Any run of good frames is delivered whole and in order. |
| Deframer.DamagedFrameRecovery | collector/IoHandler.cpp:92-106 | A frame with one damaged payload or checksum octet is dropped, and all frames after it are delivered. |
| Deframer.NoiseThenFrames | collector/IoHandler.cpp:68-77 | Noise without 0xaa before frames changes nothing. |
| Deframer.HarmlessNoise | collector/IoHandler.cpp:68-77 | Any noise that leaves the machine searching, and any frames behind it: all of them are delivered if and only if the machine has not just taken an octet for half a marker. |
| Deframer.HarmlessIfEven | collector/IoHandler.cpp:68-77 | For noise without a full marker: the frames behind it are delivered if and only if it ends with an even number of 0xaa. |
| Deframer.NothingFromNothing | collector/IoHandler.cpp:64-108 | On any input the delivered frames, with the one in progress, never account for more octets than were read. |
| Deframer.FrameRunsOut | collector/IoHandler.cpp:84-106 | A frame that has begun is over when the octets it announced are read, whatever they are, and not before. |
| Deframer.DamageIsBounded | collector/IoHandler.cpp:84-106 | Noise that ends inside a frame spoils at most the 256 octets behind it and yields at most one payload; when what it cuts into leaves no 0xaa behind, all frames after that are delivered. |
| Deframer.StrayMarkerLosesFrame | collector/IoHandler.cpp:69-76 | A single 0xaa right before a frame in which no other follows loses just that frame. |
| Pipeline.DeliveredIsPrefix | collector/IoHandler.cpp:64-108 | For every interleaving on the microcontroller and every cutting of the stream: the delivered payloads are a prefix of the accepted ones. |
| Pipeline.DrainedDeliversAll | collector/IoHandler.cpp:64-108 | With the ring drained and the line read, they are all of them: none lost, altered, doubled or overtaken. |
| Pipeline.EventuallyDelivered | framer/main.c:211-225 | Letting the main loop run on brings that about, after any history. |
| Pipeline.DeliveredCameFromBus | framer/main.c:129-179 | What is delivered are payloads that stand between two breaks in front of their checksum, in bus order. |
| Pipeline.BurstDelivered | framer/main.c:87-99 | A burst of such frames that fits the ring is delivered in full even if the main loop got no time while it came in. |
| BusDelivery.DeliveredStood | framer/main.c:146-165 | Over every run and every way of reading the line: each payload that is delivered stood on the bus between two breaks, cut to 64 octets, directly followed by its checksum. |
| BusDelivery.IntactIsAccepted | framer/main.c:147-161 | The converse: a payload between two breaks, directly followed by its checksum, is accepted in every run if there is room for it. |
| BusDelivery.AtBreak | framer/main.c:142-177 | At each break exactly that decides whether the payload is accepted. |
| BusDelivery.DamagedIsDropped | framer/main.c:151-158 | A frame with one damaged octet or an odd number of flipped bits adds nothing. |
| BusDelivery.DamageIsNeverDelivered | framer/main.c:151-158 | Where all frames are damaged nothing is ever delivered. |
| Telegram.EmsMessage.Received | collector/EmsMessage.cpp:144-175 | The decoding constructor, erasing header and extended type from the data in place, leaves what the decoder function says. |
| Telegram.EmsMessage.Request | collector/EmsMessage.cpp:177-191 | The fields of a telegram the collector builds; what they mean on the line is WireForm and CodecRoundTrip. |
| Telegram.EmsMessage.GetSendData | collector/EmsMessage.cpp:193-245 | The octets of a telegram, with and without sender address. |
| Telegram.WireForm | collector/EmsMessage.cpp:177-232 | Octet by octet, from the arguments: a classic telegram, a plus read and a plus write, the destination's bit 7 set exactly if an answer is expected. |
| Telegram.CodecRoundTrip | collector/EmsMessage.cpp:144-232 | The decoded telegram has source 0x8b, the given 16-bit type, offset and data, is to the given device, and asks for an answer if and only if one is expected, exactly when it is classic, a plus read with one data octet, or a plus write with at least one. |
| TransmitStack.SendingSerialHandler.SendMessageImpl | collector/SendingSerialHandler.cpp:31-61 | What goes on the line is the frame of the telegram, if the port is active. |
| TransmitStack.RoundTrip | collector/SendingSerialHandler.cpp:31-61 | The same over the serial line, cut into reads in any way: exactly classic telegrams of up to 251 data octets, plus writes of 1 to 249 and plus reads of one arrive as what was to be sent. |
| TransmitStack.TooLongNeverArrives | collector/SendingSerialHandler.cpp:46 | A telegram of 256 octets or more cannot arrive in any frame. |
| CommandSender.EmsCommandSender.SubmitMessage | collector/CommandScheduler.cpp:36-44 | Submitting is the machine's submission step. |
| CommandSender.EmsCommandSender.OnPcMessage | collector/CommandScheduler.cpp:24-34 | So is a message from the bus, with whatever the client's callback submits. |
| CommandSender.EmsCommandSender.ScheduleResponseTimeout | collector/CommandScheduler.cpp:46-81 | Arms the response timer: 200 ms for a made-up answer, 1000 ms for a timeout. |
| CommandSender.EmsCommandSender.ArmSendTimer | collector/CommandScheduler.cpp:94-96 | Arming a send timer that waits puts its old handler, aborted, into the event loop's queue, where it still sends. |
| CommandSender.EmsCommandSender.SendMessage | collector/CommandScheduler.cpp:83-102 | Sends at once, or arms the send timer if the device was spoken to or heard too recently. |
| CommandSender.EmsCommandSender.DoSendMessage | collector/CommandScheduler.cpp:104-113 | Sends, arms the response timer and notes the time. |
| CommandSender.EmsCommandSender.ContinueWithNextRequest | collector/CommandScheduler.cpp:115-127 | Takes the next request off the queue, or becomes idle. |
| CommandSender.EmsCommandSender.RunCompletion | collector/CommandScheduler.cpp:46-81 | Timer handlers, including the made-up answer that moves the queue on twice. |
| CommandSender.EmsCommandSender.Execute | collector/CommandScheduler.cpp:24-127 | Every run of the object is a run of the machine. |
| Scheduler.RunExactlyOnce | collector/CommandScheduler.cpp:24-127 | Over every run: what was submitted is what was dispatched followed by what is queued, in order; and each dispatched telegram is on the wire, on the send timer or in an aborted handler still to run, exactly once. |
| Scheduler.RunLive | collector/CommandScheduler.cpp:24-127 | Between any two events: no current client means an empty queue, and a current client means a timer or handler that will act. |
| Scheduler.EventShape | collector/CommandScheduler.cpp:24-127 | Every event is something quiet, and then the queue moves on: not at all, once, or twice for a made-up answer. |
| SendOrder.InOrderExactly | collector/CommandScheduler.cpp:83-127 | At every point of a run the wire, then handlers about to send, then the send timer hold the dispatched requests in order, if and only if in every event no request goes out at once while a different one waits, and no handler runs while a different message is ahead of its own. |
| SendOrder.StepInOrder | collector/CommandScheduler.cpp:83-127 | The same event by event. |
| SendOrder.InOrderOnWire | collector/CommandScheduler.cpp:36-44 | On such runs the wire carries the submitted requests in the order they came, and at rest all of them. |
| SendOrder.LateTimerReorders | collector/CommandScheduler.cpp:94-96 | A run in which a late send timer puts the third read on the wire before the second. |
| SendOrder.OtherDeviceOvertakes | collector/CommandScheduler.cpp:86-101 | A run without a late timer in which a request for another device overtakes one that waits. |
| Spacing.SpacedExactly | collector/CommandScheduler.cpp:83-113 | With a clock that never goes back: any two sends to one address octet are at least 100 ms apart if and only if every handler of the send timer that runs, expired or aborted, finds all earlier sends to its destination that old. |
| Spacing.StepSpacedExactly | collector/CommandScheduler.cpp:83-113 | Event by event: requests sent at once never come too early for their address octet, although receipts write to the same map; only a handler of the send timer can. |
| Spacing.CalmRunsAreSpaced | collector/CommandScheduler.cpp:83-113 | So the distance is kept on all runs where no send timer is armed again while it waits and no request overtakes a waiting one. |
| Spacing.RearmingBreaksSpacing | collector/CommandScheduler.cpp:94-95 | A run in which arming the timer again makes two sends to one device 5 microseconds apart. |
| Spacing.LateTimerBreaksSpacing | collector/CommandScheduler.cpp:83-113 | A run in which a handler that runs late does the same without being armed again. |
| DeviceSpacing.DeviceSpacedExactly | collector/CommandScheduler.cpp:83-113 | With a clock that never goes back: any two sends to one device, at either of its addresses, are at least 100 ms apart if and only if every handler of the send timer finds its device rested, and every request sent at once finds the device's other address rested. |
| DeviceSpacing.StepDeviceExactly | collector/CommandScheduler.cpp:86-101 | The same event by event. |
| DeviceSpacing.WriteFollowsRead | collector/CommandScheduler.cpp:112 | A run that keeps the rest of every address, in which a write reaches a device 5 microseconds behind a read. |
| ApiParser.ApiCommandParser.SendTelegram | collector/ApiCommandParser.cpp:1215-1235 | sendCommand sets five retries, remembers the telegram and submits it. |
| ApiParser.ApiCommandParser.AskNext | collector/ApiCommandParser.cpp:1198-1213 | continueRequest asks for the rest behind what was received, or says there is none. |
| ApiParser.ApiCommandParser.Begin | collector/ApiCommandParser.cpp:1172-1196 | startRequest starts a session over, and asks. |
| ApiParser.ApiCommandParser.LoopOver | collector/ApiCommandParser.cpp:932-957 | The record loop parses what is complete, prints it and asks for more. |
| ApiParser.ApiCommandParser.Handle | collector/ApiCommandParser.cpp:827-930 | The cases of handleResponse. |
| ApiParser.ApiCommandParser.PrintContactLines | collector/ApiCommandParser.cpp:864-880 | One line for every 40 octets. |
| ApiParser.ApiCommandParser.OnIncoming | collector/ApiCommandParser.cpp:769-825 | The object does on every telegram what the session function says: state, telegrams sent, lines printed, result. |
| ApiParser.ApiCommandParser.TimedOut | collector/ApiCommandParser.cpp:959-973 | A timeout repeats the telegram, or gives up and is reported. |
| ApiParser.ApiCommandParser.SetContactLine | collector/ApiCommandParser.cpp:241-251 | The buffer loop sends the two halves of the line, as two telegrams of 20 octets. |
| Session.ResponseIsSlice | collector/ApiCommandParser.cpp:788-801 | Under truthful replies that may be late, doubled, reordered, too long or for someone else, and any timeouts: the response is always the stretch of the device's memory that begins at the requested offset. |
| Session.StartHoldsSlice | collector/ApiCommandParser.cpp:1172-1196 | Every fresh request starts out that way. |
| Session.ShortTelegram | collector/EmsMessage.cpp:155-157 | A telegram too short for its header answers no device's request. |
| Session.RespondBudget | collector/ApiCommandParser.cpp:769-973 | No reply and no timeout lets a session send more than it pays for with octets received and retries. |
| Session.RequestCost | collector/ApiCommandParser.cpp:788-801 | A request for n octets costs at most 5 n telegrams, whatever comes back and whatever times out; a version query at most 15 more for each further device it goes on to. |
| Fetch.Completes | collector/ApiCommandParser.cpp:1198-1213 | With a device that answers the telegrams addressed to it, never with more octets than they ask for, a raw read or one of the contact information, of at most 255 octets, completes with exactly the memory asked for if and only if the device is addressed with bit 7 set and the last answer starts at an offset below 256. |
| HistoryRead.HistoryCompletes | collector/ApiCommandParser.cpp:896-957 | With such a device a read of the error history ends with the report of the memory asked for, up to its first empty record, if and only if the device is addressed with bit 7 set and every telegram until then asks at an offset below 256. |
| HistoryRead.LowIsAnswerable | collector/ApiCommandParser.cpp:142 | So all reads within the first 256 octets of the history complete. |
| Clients.HistoryCommand | collector/ApiCommandParser.cpp:140-143 | The command prints that report, numbered from one, whatever the session did before. |
| DeviceQueries.VersionSweep | collector/ApiCommandParser.cpp:831-860 | The version query asks 0x88, 0x90 and 0xb8 and prints their versions in that order. |
| DeviceQueries.ActiveErrors | collector/ApiCommandParser.cpp:887-894 | Active errors in one telegram: up to two records from octet 3 on, numbered from one, until an empty one. |
| DeviceQueries.ActiveErrorsTwice | collector/ApiCommandParser.cpp:889 | In two telegrams the first error is printed twice. |
| Fetch.Stuck | collector/ApiCommandParser.cpp:788-793 | Beyond offset 255, and for an address with bit 7 clear, no answer is ever accepted again. |
| Fetch.StartWaits | collector/ApiCommandParser.cpp:1172-1196 | A fresh raw or contact-information request is in the state those results start from. |
| RecordStream.PrintedIsReport | collector/ApiCommandParser.cpp:896-957 | For types 0xc0 and 0xc2, after any telegrams in any sizes: each 20-octet record was reported once, in order, numbered from one, up to the first empty one. |
| RecordStream.ReportUnique | collector/ApiCommandParser.cpp:932-957 | There is only one such report of given octets. |
| RecordStream.ChunksDoNotMatter | collector/ApiCommandParser.cpp:932-957 | Two requests that received the same octets in different pieces have printed the same lines. |
| ContactInfo.LastWriteWins | collector/ApiCommandParser.cpp:215-252 | With a device that stores only write telegrams to itself for this record, decoded from their octets: after any series of writes each line reads as last written, and a line never written as before. |
| ContactInfo.ContactRoundTrip | collector/ApiCommandParser.cpp:862-882 | getcontactinfo after any series of setcontactinfo, the device answering in pieces of any size: three lines, each decoding to what was last written to it. |
| Collector.RunInv | collector/CommandScheduler.cpp:24-127 | Scheduler and sessions stay in order over every run. |
| Collector.RunIsScheduled | collector/CommandScheduler.cpp:24-127 | With real sessions calling back, the scheduler goes through one of its own runs, so all that is proved of those holds. |
| Collector.AllSentAtRest | collector/CommandScheduler.cpp:36-44 | Once nothing is under way, everything ever submitted is on the wire, exactly once. |
| Collector.SilentStepProgress | collector/CommandScheduler.cpp:46-81 | On a silent bus every step makes a measure of queue, retries and waits smaller. |
| Collector.SilentRunsEnd | collector/ApiCommandParser.cpp:959-973 | So silent runs end, within as many steps as the measure says. |
| Collector.EndIsIdle | collector/CommandScheduler.cpp:115-127 | Where no silent step is left the scheduler is idle, its queue empty, and no timer is armed. |
| Collector.ReachableSilentRunsEnd | collector/CommandScheduler.cpp:24-127 | Both, from any state that commands, telegrams and timers of any number of clients can lead to. |
| Clients.StartedInv | collector/CommandScheduler.cpp:24-127 | The start satisfies what all results about runs of scheduler and sessions require. |
| Clients.SessionStep | collector/CommandScheduler.cpp:24-81 | A client's session obeys its accepted commands, responds to what comes in while it is current, and is changed by nothing else. |
| Clients.ResponsesAreSlices | collector/ApiCommandParser.cpp:788-801 | Over every run with truthful devices and any number of clients: each client's response is the stretch of memory at the offset it asked for. |
| Clients.ClientCost | collector/ApiCommandParser.cpp:959-973 | Over every run: a client submits at most five telegrams for each octet its commands read, fifteen for each further device of a version query and five for each write, beyond what a write before any read may resume. |
| SilentReads.ReadsCost | collector/ApiCommandParser.cpp:959-973 | On a silent bus, read commands only, from rest to rest: a command of k telegrams takes k + 4 turns of its client in the queue and brings exactly one timeout report, clients interleaved in any way. |
| SilentReads.ReadsOnWire | collector/CommandScheduler.cpp:104-127 | And those are what goes out: the wire carries each of the k + 4 telegrams of each command exactly once, and nothing else. |
| SilentWrites.WritesCost | collector/CommandScheduler.cpp:46-63 | On a silent bus, write commands only, from rest to rest, any number of clients: a command of k writes puts exactly k telegrams on the wire; nobody is told FAIL or ERRTIMEOUT; each client is told OK once for each command but for one it still waits on, and it does if and only if it was left behind. |
| SilentWrites.WriterAlone | collector/CommandScheduler.cpp:46-63 | A client on its own is never left behind: it ends up idle, with one OK for each command. |
| SilentWrites.WriteTakes200ms | collector/CommandScheduler.cpp:46-63 | A single write is sent at once, to the address with bit 7 clear; for 200 ms nothing comes of it, and then its client is told OK and all is at rest. |
| SilentWrites.ReadTakesASecond | collector/CommandScheduler.cpp:65-78 | A single read is repeated after 1000 ms, and not before. |
| Verdicts.AcknowledgedOnce | collector/ApiCommandParser.cpp:783-786 | In every state: a telegram of type 0xff or a made-up answer that reaches an active current client tells it FAIL at offset 4 and otherwise OK, exactly once, and settles its request. |
| Verdicts.ParameterReply | collector/ApiCommandParser.cpp:910-927 | Replies with parameters settle the request with OK; those of a type that is not handled bring FAIL and leave it. |
| Verdicts.OneVerdictEach | collector/CommandHandler.cpp:138-156 | Over every run, whatever is on the bus: a client is told OK, FAIL or ERRTIMEOUT exactly once for each command that sent anything, but for one it may still wait on. |
| Stranding.LeftBehindExactly | collector/CommandScheduler.cpp:24-127 | In every reachable state, any event: a client is left behind if and only if the event is a telegram that the client's session passes over, or a made-up answer that moves the queue past its request, and nothing else of the client is queued. |
| Stranding.StrandedExactly | collector/CommandScheduler.cpp:24-127 | Over whole runs: a client is behind at the end if and only if it was at the start or one of those events happened. |
| Stranding.NobodyLeftBehind | collector/CommandScheduler.cpp:24-127 | Without those events every client with an active request is current or queued. |
| Stranding.StrandedByMessage | collector/CommandScheduler.cpp:24-34 | A telegram leaves the current client behind if and only if it does not fit the client's request, or the request is for a type that is neither handled nor output raw, and nothing else of the client is queued. |
| Stranding.StrandedByWrite | collector/CommandScheduler.cpp:52-62 | The made-up answer to one client's write leaves another client behind if and only if that client's only queued request is the first in the queue: it is sent and passed over at once. |
| Stranding.TimeoutStrandsNobody | collector/CommandScheduler.cpp:69-78 | A timeout never leaves a client behind. |
| Stranding.StrandedForever | collector/CommandScheduler.cpp:115-127 | Once left behind, no event ever touches that client's request again. |
| Stranding.StrandedStep | collector/ApiCommandParser.cpp:62-64 | And every further command of the client is refused as busy. |
| Readings.DecodeNumeric | collector/EmsMessage.cpp:34-79 | The shifting loop and the sign test compute two's complement, big-endian, of 1 to 3 octets; not available is the lowest number, all ones if unsigned, or a mark of the format. |
| Readings.IsMarked | collector/EmsMessage.cpp:65-72 | The search for marks compares over the length of the data. |
| Readings.SignedReadsBack | collector/EmsMessage.cpp:41-57 | Every number in range is decoded from its wire form, and from that only. |
| Readings.IntegerReadsBack | collector/EmsMessage.h:395-398 | An undivided unsigned number reads back as itself, and all but the highest are valid. |
| Readings.TemperatureMissing | collector/EmsMessage.cpp:28-32 | A temperature is in tenths, and not available at exactly three raw readings. |
| Readings.ParseNumeric | collector/EmsMessage.cpp:345-355 | A numeric field is decoded out of the telegram's window, or not reported. |
| Readings.WindowReportsMemory | collector/EmsMessage.h:407-409 | Whatever window of the device's memory a telegram shows: a numeric, enum or bit field is reported if and only if the window covers it, and then with the device's value. |
| Settings.WhatIsAccepted | collector/ApiCommandParser.cpp:667-675 | The inputs a setting accepts, exactly; truncation lets in a little more than the range, away from zero. |
| Settings.HonestIffRangeFits | collector/ApiCommandParser.cpp:655-680 | Every accepted input reads back valid, in range and less than one step off if and only if the range fits a signed octet without the lowest. |
| Settings.SettingReadsBack | collector/ApiCommandParser.cpp:578-749 | The fourteen settings written and read back as signed octets: any telegram that shows the octet afterwards reports such a reading. |
| Settings.SettingIsField | collector/EmsMessage.cpp:368-448 | What a setting's command writes is what exactly one field of the parsers shows, in the same format. |
| Settings.TemporaryIsField | collector/EmsMessage.cpp:442 | So is the temporary temperature. |
| Settings.TemporaryTempReadsBack | collector/ApiCommandParser.cpp:625-631 | The temporary temperature, read unsigned: missing if and only if the input was not accepted and switched it off. |
| Calendar.DatesAccepted | collector/ApiCommandParser.cpp:1141-1170 | Exactly these strings are dates: three numbers with dashes between them, all in range. |
| Calendar.DateReadsBack | collector/ApiCommandParser.cpp:1132-1139 | What is printed of a date parses to it if it is a valid one, and not at all otherwise. |
| Calendar.DateShape | collector/ApiCommandParser.cpp:1135-1136 | Valid dates are printed ten characters long. |
| Calendar.DoubledDash | collector/ApiCommandParser.cpp:1155-1157 | A day with a minus sign is taken modulo 2^32: behind a second dash exactly the digits of the day's complement are accepted. |
| Calendar.SecondSpelling | collector/ApiCommandParser.cpp:1155-1157 | So every date has a second spelling that is accepted. |
| Calendar.ParseScheduleEntry | collector/ApiCommandParser.cpp:1071-1130 | The parser finds the one entry a command means, with all fields in range, or there is none. |
| Calendar.MeaningIsUnique | collector/ApiCommandParser.cpp:1101-1108 | A command means one entry at most. |
| Calendar.EntryReadsBack | collector/ApiCommandParser.cpp:1056-1069 | What is printed of a set entry means that entry up to the bits the text does not show. |
| Calendar.AcceptedEntryReadsBack | collector/ApiCommandParser.cpp:1056-1130 | Every set entry that was accepted is printed as a command for exactly itself. |
| Calendar.TimesAccepted | collector/ApiCommandParser.cpp:1113-1127 | Exactly these strings are times: an hour up to 23, a colon, and a multiple of ten minutes up to 50. |
| IntervalHistory.CacheAgreesWithTable | collector/Database.cpp:456-475 | Whatever queries fail: value cache and last insert id of every sensor belong together and point at its newest row. |
| IntervalHistory.RowsNeverOverlap | collector/Database.cpp:462-475 | With a clock that never goes back one sensor's rows never overlap, whatever queries fail. |
| IntervalHistory.TableIsHistory | collector/Database.cpp:447-476 | With successful queries each sensor's rows are the run-length encoding of its samples: one row for each run of equal values, every sample inside a row with its value. |
| IntervalHistory.HistoryIsContiguous | collector/Database.cpp:462-475 | In such a history rows follow each other without a gap and neighbours differ. |
| Database.RunSplits | collector/Database.h:39-107 | The three kinds share one map of ids but never an entry: the database is three separate ledgers. |
| Database.CachesAgreeWithTables | collector/Database.cpp:447-538 | Under any pattern of failing queries each sensor's cache and id point at its newest row in the right one of the three tables. |
| Database.RowsDisjoint | collector/Database.cpp:447-538 | No table has overlapping rows of one sensor. |
| RateLimit.RateBound | collector/Database.cpp:286-307 | n rows of a numeric sensor span at least (n - 1) times the rate limit, failing queries or not. |
| RateLimit.TablesKeepSamples | collector/Database.cpp:286-307 | From the samples alone: a numeric sensor's rows are the history of its first sample and then of each one at least the limit after the last that was stored; those of the other kinds are the histories of all their samples. |
| RateLimit.NewestRowIsFresh | collector/Database.cpp:297-306 | Right after a sample at t the sensor's newest row ends later than t minus the limit, and at t if there is no limit. |
| RateLimit.NothingUnconnected | collector/Database.cpp:450-453 | Without a connection nothing is stored or remembered. |
| SensorDatabase.SensorDatabase.CheckAndUpdateRateLimit | collector/Database.cpp:286-307 | The sample passes if and only if the last write of its sensor is at least the limit ago, and only then is the write noted. |
| SensorDatabase.SensorDatabase.EndRow | collector/Database.cpp:462-466 | The update query ends the row with that id. |
| SensorDatabase.SensorDatabase.Store | collector/Database.cpp:456-475 | The two queries, and what is remembered when the insertion succeeds. |
| SensorDatabase.SensorDatabase.AddNumericValue | collector/Database.cpp:447-476 | A numeric sample is the machine's step. |
| SensorDatabase.SensorDatabase.AddBooleanValue | collector/Database.cpp:478-507 | A boolean sample is the machine's step; no rate limit applies. |
| SensorDatabase.SensorDatabase.AddStateValue | collector/Database.cpp:509-538 | A state text is the machine's step; no rate limit applies. |
| SensorDatabase.SensorDatabase.Execute | collector/Database.cpp:447-538 | Every run of the object is a run of the machine. |

## Left out

- Sockets, the serial port itself, asio, MQTT, options, the PHP pages and scripts: I/O. Timers are events that arm, expire and are aborted; a database query is an outcome given with the sample.
- LEDs, watchdog and UART registers of the microcontroller. The serial line is assumed lossless, and the interrupt handler runs as one piece between two steps of the main loop.
- Which delivered telegrams are passed on to the scheduler (those addressed to the PC): the scheduler is proved against arbitrary telegrams.
- TcpHandler's connection to a remote collector: the serial handler's framing is modelled.
- One scheduler event reads the clock once; the source may read it two or three times while handling one event.
- Aborted response waits: their handlers do nothing, so they are not kept.
- Requests of more than 255 octets: no command starts one, and a telegram could not ask for them.
- Deframer.DamageIsBounded: noise is taken up to the length octet, which may be the first octet of what follows; a frame of length zero is never over, and what an 0xaa left over from a frame it cut into does to the frames behind is as Deframer.HarmlessNoise says.
- Reads of type 0xbf in more than two telegrams: they are part of the session model, with no theorem on what they print.
- Devices answer from the address that has bit 7 set, as the addresses of EmsMessage.h do; Fetch and HistoryRead say what becomes of requests to the other one.
- The request fields of a session that has made no request are unset in the source; the model lets them have any values.
- Frames of length zero: the deframer's position would count through its whole integer range. Its results about frames are for payloads of 1 to 255 octets; AlwaysExplained and DeliveredWasFramed are for all inputs.
- Telegrams of six octets with a type of 0xf0 or more and bit 7 of the destination set: the decoder reads past their end, so the model requires they are not of that form. The same holds for encoding a plus read without a length octet.
- A version answer of fewer than three octets: the source reads behind the end of its buffer; the model prints a version line with no more than what is there.
- Contact information that is not a multiple of 40 octets long: the source fills the last line up from an uninitialised buffer; the model keeps only the octets received.
- Conversion between UTF-8 and UTF-16: contact lines are sequences of 16-bit units, already split into words and cut to 20.
- The words of a command line, name tables, help texts and the mapping of readings to sensors: a command is the sequence of reads and writes it amounts to, an error record is its 20 octets.
- Numbers of four octets: the source's shifts leave the range of its integers.
- Rounding of floats: readings, settings and numeric samples are reals; conversions truncate toward zero as in the source.
- A schedule entry that the parser rejects may have been written in part; the model returns nothing.
- Rows are numbered 1, 2, 3, ... in each table, tables start out empty, and no one else writes to them.
- Calendar.DateReadsBack: about dates whose fields fit an unsigned int, which the fields of a record always do.
