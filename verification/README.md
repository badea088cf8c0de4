# Fetchline: takeover, framing and codecs, verified in Dafny

Fetchline is ESP32-C3 firmware and a Linux host that let several network sessions share one
half-duplex STS servo bus. This project models the parts of it whose correctness depends on
interleavings, loops over byte streams, or two programs agreeing with each other, and proves what
they promise for every run and every input.

`dafny verify dfyconfig.toml` checks everything; the Dafny version is 4.11.

| component | modules |
|---|---|
| controller takeover: admission record, claim loop, sessions, watch channels | `AdmissionControl`, `Takeover`, `TakeoverRuns`, `TakeoverSteps`, `TakeoverLedger`, `TakeoverCrowding` |
| raw tunnel switch and the two UART mutexes | `RawTunnel`, `UartLocks` |
| all of the above running together | `FirmwareTasks`, `DrainProgress`, `StuckDrain` |
| STS framing: encoder, decoder, firmware reader, host reader, incremental scanner | `Sts`, `StsReaders`, `StsScanner` |
| servo commands and the bus scan, firmware and host | `ServoCommands`, `ServoScan` |
| WebSocket frames (sections 5.2, 5.3 and 5.5 of RFC 6455), server and client | `WebSocket`, `WebSocketExchange`, `Utf8` |
| Wi-Fi flash record with its FNV-1a checksum, writer and reader | `WifiRecord` |
| local-echo filter of the UART bridge, alone and on STS traffic | `EchoFilter`, `EchoReplies` |
| host JSON-RPC client and the bridge it keeps or drops | `HostRpc` |
| bytes, words, exclusive or, buffers | `Bytes` |

## How the system is modelled

- **Concurrency.** The executor is cooperative, so one event takes a task from one `await` to the
  next and events of different tasks interleave freely. Two futures that would complete in the same
  poll are separate events. For what holds in every run this only adds interleavings. The two
  existence claims say how their runs come about: in `TakeoverCrowding` every task is suspended only
  where it can wait for its peer, and in `StuckDrain` both sessions are polled before the tunnel
  service within one pass of the executor. `select` polls its first arm first: a command is polled before the ownership change, and the tunnel's other arms need an empty signal.
  The number of controller slots is a parameter `n`; the firmware uses three. Slots that close or
  reconnect carry one bit of history the firmware does not keep: whether they come from a session.
- **Watch, Signal, Mutex** are a last value with a counter, one overwriting slot, and exclusive
  holding. Watch counters are unbounded. The controller epoch is a wrapping 64-bit word: runs are
  those with fewer than 2^64 claims, and `GenerationsCollideExactlyAfterACycle` says exactly when
  two claims share a generation.
- **Streams.** A UART or socket is a byte sequence; running out of it is a timeout (STS readers) or
  a closed connection (WebSocket). A failing transport is part of the input: a socket accepts a
  given number of non-empty writes, and a bus transaction says whether its packet was accepted,
  which bytes then arrive behind those still unread, and how many a drain would find.
- **Words.** Bytes and 16/32-bit words are bounded integers, and every wrap-around is written out.
- **Time** is a parameter of the echo filter's operations; everywhere else a timeout is the end of
  the input or an outcome of the exchange.
- Where the source changes state in place there is a class or an array method, proved equal to a
  function of the old state; the theorems are about that function.

## Where code and prose differ

- The comment at `src/controller.rs:145-146` says that a session is granted only when no predecessor
  is still returning its transport to listening mode. The code clears the flag when *any* slot
  listens again. `TakeoverLedger.NoPredecessorReturningExactlyWhen` gives the exact condition: every
  session granted so far, except the active one, has been followed by a `listener_ready` call of its
  own slot. `TakeoverRuns.ListenerReturnsBetweenGrants` is what the flag does guarantee.
- The comment at `src/bin/main.rs:63-66` says that three sockets preserve one listener throughout a
  handover. `TakeoverLedger.ListenerLeftExactlyWhen` and `TakeoverLedger.EverySlotTakenExactlyWhen`
  say exactly when a listener is left and when every slot is taken by a client.
- `TakeoverCrowding.EverySlotCanBeBusy` refutes both: for any number of slots, a run that admits a
  session in every slot while all its predecessors are still in theirs.
- The comment at `src/bin/main.rs:191-194` says that the previous generation closes its session before
  another command can run. In the runs of `TakeoverCrowding` each new session executes a command while
  its predecessors are still open; `TakeoverLedger.NoSupersededSessionExactlyWhenRetired` says exactly
  when none is. What does hold is that a superseded session starts nothing
  (`TakeoverRuns.SupersededSessionStops`) and that commands never overlap on the UART
  (`UartLocks.CommandHoldsTheBus`).
- The comment at `src/controller.rs:98` and the repository's README speak of two TCP sessions; the
  code has three slots.
- `scripts/bridge-sts-uarts.py:36-38` says the exact-prefix check safely preserves a real reply. On an
  adapter without echo requests pile up in the filter, and `EchoReplies.ReplyAgainstPendingRequests`
  says exactly what becomes of a status packet: it is forwarded whole if and only if it differs from
  the oldest pending request, whichever it answers; an equal one is swallowed when that request is the
  only one, and otherwise held back until further bytes decide or the grace period ends
  (`EchoReplies.HeldBackIsReleased`).
  `EchoReplies.PingAnsweredWithStatusOneIsSwallowed` is a concrete case.

Taking over can also get stuck: `DrainProgress.HeldUpExactlyWhenStuck` says exactly when a cancelled
session's drain depends on something outside the firmware, namely an idle raw client that has the
receiver, and `StuckDrain.DrainCanBeStuck` is a run that ends there.

## Model

| member | source | states |
|---|---|---|
| `AdmissionControl.ControllerAdmission.TryClaim` | src/controller.rs:147-160 | refused without change while a listener is required; otherwise next epoch, active, and a listener is required exactly when a session was replaced |
| `AdmissionControl.ControllerAdmission.Release` | src/controller.rs:163-167 | deactivates only for the current generation |
| `AdmissionControl.ControllerAdmission.ListenerReady` | src/controller.rs:170-174 | clears the requirement and reports whether there was one |
| `AdmissionControl.EpochAfterIsModular` | src/controller.rs:108-111 | after n claims the epoch is the sum modulo 2^64 |
| `AdmissionControl.GenerationsCollideExactlyAfterACycle` | src/controller.rs:108-115 | two claims share a generation if and only if a multiple of 2^64 claims separates them |
| `Takeover.AttemptInv` | src/bin/main.rs:212-245 | one pass of the claim loop, granted or parked, keeps the protocol invariant |
| `Takeover.EndSessionInv` | src/bin/main.rs:247-253 | ending a session, current or superseded, keeps the invariant |
| `Takeover.AnnounceInv` | src/bin/main.rs:255-270 | `listener_ready` keeps the invariant: every parked claimer has an unseen change or admission is held |
| `Takeover.StepInv` | src/bin/main.rs:616-749 | every event of every task keeps unique generations, activity, watch, parked-claimer and returning-slot conditions |
| `TakeoverSteps.WhatCanHappen` | src/bin/main.rs:623-748 | in each phase exactly the listed events can happen; a session is told to end exactly when it reads and is stale |
| `TakeoverSteps.SessionEndsExactlyWhen` | src/bin/main.rs:679-748 | a session ends exactly when its transport ends or fails, it notices a successor, its drain is over, or it looks at the epoch and finds another generation |
| `TakeoverSteps.SessionPhaseAfter` | src/bin/main.rs:684-748 | which events lead a session to read, run, drain or reply, with staleness told by the epoch alone |
| `TakeoverSteps.IdlePhaseAfter` | src/bin/main.rs:623-659 | the same for a slot without a session, claims held back or granted included |
| `TakeoverSteps.WokenOncePerChange` | src/bin/main.rs:217-244 | a claimer woken and held back again is not woken a second time by the same change |
| `TakeoverSteps.OthersStay` | src/bin/main.rs:611-616 | an event changes the phase of its own slot only |
| `TakeoverSteps.AnnouncedExactlyWhenRequired` | src/bin/main.rs:255-270 | a listener change is announced exactly when a slot listens while a claim is held back; only listening clears the requirement and only a replacing grant sets it |
| `TakeoverSteps.OwnerLeaves` | src/bin/main.rs:652-653 | along runs, when the owner's client goes or cannot be answered, no session is active any more and the slot is closing |
| `TakeoverRuns.RunInv` | src/bin/main.rs:616-749 | the invariant holds in every state of every run with any number of slots |
| `TakeoverRuns.ExactlyOneOwner` | src/controller.rs:147-167 | active if and only if a slot between claim and release has the current generation; that slot is unique and live generations never repeat |
| `TakeoverRuns.SessionEndReleasesOnlyItself` | src/bin/main.rs:652-653 | a superseded session's end leaves the admission record alone; afterwards the record is active exactly when another slot owns the generation |
| `TakeoverRuns.OnlyTheOwnerActs` | src/bin/main.rs:706-747 | every command and every reply begins in the one slot that owns the current generation |
| `TakeoverRuns.WatchRefinesEpoch` | src/bin/main.rs:674-722 | past setup, an ownership update is unseen if and only if the session's generation is stale |
| `TakeoverRuns.StaleStep` | src/bin/main.rs:718-740 | one event of the system: a stale generation starts nothing and a polled stale command does not run on |
| `TakeoverRuns.SupersededSessionStops` | src/bin/main.rs:718-748 | over the whole rest of a run a superseded generation's command is polled at most once more and begins no command or reply |
| `TakeoverRuns.ListenerReturnsBetweenGrants` | src/controller.rs:147-174 | between a grant that replaced an active session and the next grant some slot performs `listener_ready` |
| `TakeoverRuns.GrantedGenerationsIncrease` | src/controller.rs:108-111 | generations granted along a run strictly increase |
| `TakeoverRuns.NoLostWakeUp` | src/bin/main.rs:212-244 | a parked claimer has its wake-up pending, or admission is held and another slot is returning, at most four own steps from listening |
| `TakeoverRuns.ReturningStep` | src/bin/main.rs:623-659 | a returning slot keeps returning whatever the others do, and each own step brings it closer to `listener_ready` |
| `TakeoverRuns.ReturningIsEnabled` | src/bin/main.rs:684-740 | a returning slot has a step that needs nothing from its peer |
| `TakeoverRuns.ParkedClaimerIsWoken` | src/bin/main.rs:212-270 | in any interleaving, once the returning slot has taken its steps the parked claimer's wake-up has become available |
| `TakeoverRuns.ReceiversNeverRunOut` | src/bin/main.rs:213-216 | with one receiver place per slot, subscribing to either watch never finds it full, so the `expect` calls cannot fail |
| `TakeoverLedger.StepLedger` | src/controller.rs:147-167 | each event changes the number of superseded sessions only by a replacing grant or the end of a superseded session |
| `TakeoverLedger.SupersededSessionsBalance` | src/bin/main.rs:645-657 | conservation over runs: superseded sessions still running equal replacements minus superseded sessions ended |
| `TakeoverLedger.NoSupersededSessionExactlyWhenRetired` | src/bin/main.rs:645-653 | no predecessor is left in its session if and only if every replacement has been matched by the end of a superseded session |
| `TakeoverLedger.SlotMoves` | src/bin/main.rs:623-659 | what each event does to its slot: only a grant makes it live and moves the epoch, only a session's end turns live into giving back, only `listener_ready` behind a session ends that |
| `TakeoverLedger.StepOfSessions` | src/bin/main.rs:623-659 | the net balance of one event: epoch, live slots, slots giving back, and `listener_ready` behind a session |
| `TakeoverLedger.SessionsBalance` | src/bin/main.rs:623-659 | conservation over runs: every session ever granted is running, is giving its socket back, or has been followed by `listener_ready` |
| `TakeoverLedger.NoPredecessorReturningExactlyWhen` | src/controller.rs:145-150 | at any point, so at any grant, no predecessor is still returning its transport if and only if the `listener_ready` calls that followed a session number the epoch less the active session |
| `TakeoverLedger.EverySlotTakenExactlyWhen` | src/bin/main.rs:63-67 | every slot is taken by a client if and only if replacements less retirements, the active session and the clients not admitted yet number n |
| `TakeoverLedger.ListenerLeftExactlyWhen` | src/bin/main.rs:63-67 | a slot is listening if and only if that sum, with all slots between sockets in place of the clients not admitted yet, is below n |
| `TakeoverCrowding.EverySlotCanBeBusy` | src/bin/main.rs:63-67 | for any number of slots, a run that admits a session in every slot while all predecessors are stuck sending a reply; each flag is cleared by a slot coming back from a failed upgrade, and no listener is left |
| `RawTunnel.RawTunnelControl.EnableTunnel` | src/bin/main.rs:158-170 | sets the flag and overwrites the signal only on a change |
| `RawTunnel.RawTunnelControl.DisableTunnel` | src/bin/main.rs:172-184 | clears the flag and overwrites the signal only on a change |
| `RawTunnel.SwitchCall` | src/bin/main.rs:158-184 | a call sets the flag, signals exactly when the flag changes, and touches nothing else |
| `RawTunnel.WhatServiceCanDo` | src/bin/main.rs:1279-1369 | in each phase exactly the listed steps can happen, a waiting signal first |
| `RawTunnel.ServicePhaseAfter` | src/bin/main.rs:1279-1326 | where each step leads, told by the flag: a client is dropped exactly when it goes or the tunnel is found disabled, and only a failed accept is followed by a pause |
| `RawTunnel.SwitchAndServiceAgree` | src/bin/main.rs:1279-1326 | in every interleaving a pending signal matches the flag, and without one the service phase does |
| `RawTunnel.ServiceStep` | src/bin/main.rs:1279-1326 | every service step keeps agreement and, until settled, lowers the backlog |
| `RawTunnel.UnsettledServiceCanMove` | src/bin/main.rs:1280-1293 | an unsettled service has a step that needs neither a client nor another switch call |
| `RawTunnel.ServiceSettles` | src/bin/main.rs:1279-1369 | once toggling stops, a bounded number of service steps brings the phase into line with the flag for good |
| `UartLocks.LocksExclude` | src/bin/main.rs:846-847 | in every run each UART lock is held exactly by the one task inside it |
| `UartLocks.CommandHoldsTheBus` | src/bin/main.rs:841-901 | from a command's first access to its last, error drain included, its task holds both locks unbroken and moves every byte on the UART |
| `UartLocks.NoWaitCycle` | src/bin/main.rs:1357-1387 | chains of waiting tasks have at most two links and never close |
| `UartLocks.WaitEndsInAStep` | src/bin/main.rs:730-731 | from any task that wants a lock, the chain of who waits for whom has at most two links and ends in a task that waits for no one and can take its lock or give up one it holds |
| `FirmwareTasks.StepInv` | src/bin/main.rs:706-740 | with slots, locks and tunnel moving together, every event keeps all three invariants and the way they fit |
| `FirmwareTasks.RunInv` | src/bin/main.rs:616-749 | so in every state of every joint run |
| `FirmwareTasks.CommandsNeedTheTunnelOff` | src/bin/main.rs:779-790 | a servo command reaches the UART only while the tunnel is disabled, and a request is answered only when its command is done |
| `DrainProgress.ReturningSlotMovesUnlessBlocked` | src/bin/main.rs:684-740 | with the locks taken into account, a returning slot has a step of its own unless it waits to drain while someone else has the receiver |
| `DrainProgress.StuckStays` | src/bin/main.rs:1357-1369 | behind a raw client that reads with no switch command waiting, no run of the firmware's own tasks ends the wait |
| `DrainProgress.HolderStep` | src/bin/main.rs:841-901 | otherwise every event frees the receiver or leaves it with the same task and no more work, and less after a due step |
| `DrainProgress.DueStepExists` | src/bin/main.rs:1225-1238 | and a due step that needs nothing from outside is always enabled |
| `DrainProgress.ReceiverIsGivenUp` | src/bin/main.rs:841-901 | over any run without outside events the receiver becomes free before its holder's bounded work is exceeded |
| `DrainProgress.HeldUpExactlyWhenStuck` | src/bin/main.rs:730-731 | a slot waiting to drain can be let through by the firmware's own tasks if and only if it is not stuck; then the wait is bounded, and when stuck the tunnel is enabled and its client reading |
| `StuckDrain.DrainCanBeStuck` | src/bin/main.rs:1361-1369 | a run from the start that ends with a superseded session stuck in that way |
| `Sts.ChecksumComplementsTotal` | src/controller.rs:42-50 | the byte-by-byte wrapped checksum is the complement of the plain sum's low eight bits |
| `Sts.ComputeChecksum` | src/controller.rs:42-50 | the running 8-bit sum computes that checksum |
| `Sts.PacketInBytes` | src/controller.rs:32-37 | a packet byte by byte |
| `Sts.ChecksumOfFields` | src/controller.rs:37-50 | its last byte as a number |
| `Sts.EncodeInstructionPacket` | src/controller.rs:16-39 | both refusals in order and without touching the buffer; otherwise the packet, its length, and the rest of the buffer unchanged |
| `Sts.DecodeUndoesEncode` | src/controller.rs:70-94 | a body with at most 64 parameters decodes to its fields for its own address and is refused for any other |
| `Sts.EncodeUndoesDecode` | src/controller.rs:70-94 | every accepted body is the encoding of what it decodes to |
| `Sts.ChecksumNotices` | src/controller.rs:42-50 | changing one covered byte always changes the checksum |
| `Sts.SingleByteChangeIsRefused` | src/controller.rs:74-88 | changing any one byte of an accepted body makes the decoder refuse it, with the reason its position determines |
| `StsReaders.HuntHeader` | src/bin/main.rs:1171-1183 | stops exactly behind the first FF FF pair, after 128 bytes without one, or at the end of a dry stream |
| `StsReaders.FirmwareRead` | src/bin/main.rs:1167-1205 | succeeds on exactly the streams whose first header is followed by an error-free status of the servo, with its payload and end; each failure names its cause |
| `StsReaders.ChecksumForStatus` | host/src/main.rs:1418-1424 | the host's split sum equals the checksum of the contiguous bytes |
| `StsReaders.HostRead` | host/src/main.rs:1312-1351 | the same streams with the additional payload length; each failure names its cause |
| `StsReaders.ReadersAgree` | host/src/main.rs:1312-1351 | on every stream host and firmware succeed together (up to payload length), with the same payload and the same bytes consumed |
| `StsReaders.StatusIsUnique` | src/bin/main.rs:1171-1195 | a stream holds at most one such status packet |
| `StsReaders.StatusAtTheFront` | src/bin/main.rs:1195-1199 | a stream that starts with a status packet holds exactly that packet, and a reply exactly when its error byte is zero |
| `StsReaders.ReplyAfterNoise` | src/bin/main.rs:1171-1204 | after pair-free noise and for every address, the reply is found and read to its end if and only if the noise has at most 126 bytes and does not end in FF |
| `StsScanner.ReplyBuffer.ExtractStatus` | scripts/scan-sts-servos.py:43-67 | the in-place loop terminates and leaves the result and residue of the reference parser |
| `StsScanner.ExtractSplit` | scripts/scan-sts-servos.py:43-67 | parsing commutes with appending bytes, for every split |
| `StsScanner.ResidueIsStable` | scripts/scan-sts-servos.py:43-67 | a residue parses to itself |
| `StsScanner.ExtractIsSound` | scripts/scan-sts-servos.py:50-67 | a status byte comes from one contiguous packet of the expected servo that the firmware encoder would produce, followed by exactly the residue |
| `StsScanner.FrameIsPacket` | scripts/scan-sts-servos.py:64-66 | the scanner's frame test and the firmware decoder accept the same frames |
| `StsScanner.CleanReplyIsFound` | scripts/scan-sts-servos.py:43-67 | behind headerless noise not ending in FF every well-formed reply is found |
| `StsScanner.ReplyBehindNoise` | scripts/scan-sts-servos.py:43-67 | for any headerless noise, what the parser makes of a reply: it is found unless the noise ends in FF and the address lies in 2 to 66, when that many bytes are awaited or skipped |
| `StsScanner.ShortReplyFoundExactlyWhen` | scripts/scan-sts-servos.py:54-67 | a reply of at most four parameters is found if and only if the noise does not end in FF or the address lies outside 2 to 66 |
| `StsScanner.ReadStatus` | scripts/scan-sts-servos.py:70-85 | reading chunk by chunk gives the status and leftover bytes of the whole stream, however it was cut |
| `ServoCommands.Bus.Drain` | src/bin/main.rs:1225-1238 | a drain discards the front of the unread bytes, never more than four reads of 64 |
| `ServoCommands.FirmwareSend` | src/bin/main.rs:1137-1161 | refuses more than ten parameters; otherwise one transaction with the encoded packet, the reader's verdict on the unread and newly arrived bytes, failure kind included, and what a success leaves unread |
| `ServoCommands.FirmwareWriteRegister` | src/bin/main.rs:1100-1127 | success if and only if the packet was accepted and acknowledged with an empty error-free reply; then exactly the bytes behind that reply stay unread |
| `ServoCommands.HostWritePacket` | host/src/main.rs:1288-1310 | builds the packet the firmware encoder builds |
| `ServoCommands.HostWriteRegister` | host/src/main.rs:1273-1280 | the same transaction as the firmware's register write |
| `ServoCommands.FirmwareStartMotor` | src/bin/main.rs:991-1014 | refuses invalid arguments without traffic; otherwise mode, torque, then speed with direction bit |
| `ServoCommands.FirmwareStopMotor` | src/bin/main.rs:1016-1023 | one zero write to the acceleration block |
| `ServoCommands.FirmwareMovePosition` | src/bin/main.rs:1029-1054 | torque enable, torque limit, then acceleration and goal |
| `ServoCommands.HostStartMotor` | host/src/main.rs:865-928 | the same writes on the host's raw path |
| `ServoCommands.HostStopMotor` | host/src/main.rs:930-957 | the same write on the host's raw path |
| `ServoCommands.HostMovePosition` | host/src/main.rs:959-1023 | the same writes on the host's raw path |
| `ServoCommands.FirmwareReadPosition` | src/bin/main.rs:1060-1079 | a position if and only if a two-byte error-free reply arrived, decoded as sign and magnitude |
| `ServoCommands.HostReadPosition` | host/src/main.rs:1025-1050 | the same for the host's raw path |
| `ServoCommands.FirmwareExecute` | src/bin/main.rs:841-901 | each writing command does its writes or refuses without traffic; a refusal or failure is followed by a drain that discards what it finds, up to 256 bytes |
| `ServoCommands.HostExecute` | host/src/main.rs:865-1023 | the same without the drain |
| `ServoCommands.OutputIsPrefix` | src/bin/main.rs:991-1054 | any output is a prefix of the full packet sequence, and success means all of it |
| `ServoCommands.OutputIsAcknowledged` | src/bin/main.rs:991-1054 | a further packet, or success, needs every packet before to have been accepted and acknowledged on the continuing stream |
| `ServoCommands.PacketsAreWellFormed` | src/bin/main.rs:1100-1150 | every packet of a valid command decodes to its fields, fits 16 bytes and is addressed to 1 to 253 |
| `ServoCommands.ValidExactlyWhen` | src/bin/main.rs:999-1040 | the limits of every command, in numbers |
| `ServoCommands.StartMotorSays` | src/bin/main.rs:1003-1013 | the packets, decoded: register 33 gets 1, 40 gets 1, 41 gets the acceleration and a word that is the speed with the top bit exactly for counter-clockwise |
| `ServoCommands.StopMotorSays` | src/bin/main.rs:1016-1023 | the packet, decoded: seven zeros at register 41 |
| `ServoCommands.SetPositionSays` | src/bin/main.rs:1041-1053 | the packets, decoded: 40 gets 1, 48 the limit, 41 the acceleration and the position |
| `ServoCommands.PositionSays` | src/bin/main.rs:1066-1078 | a read of two bytes at register 56; the reply is low byte first with the top bit as sign; a written speed reads back signed |
| `ServoCommands.RepliesMean` | src/bin/main.rs:1122-1126 | a write is acknowledged exactly by a reply without error and data, a position reported exactly by one without error and with two bytes |
| `ServoCommands.PathsAgree` | host/src/main.rs:900-1023 | for any sequence of commands on one continuing reply stream, firmware and host emit byte-identical packets and end each command alike up to the first refused or failed one, leaving the same bytes unread until then |
| `ServoCommands.PositionPathsAgree` | host/src/main.rs:1044-1050 | the same for reading a position, including the value and the bytes left unread |
| `ServoScan.PingServo` | src/bin/main.rs:1085-1094 | one ping packet; present if and only if an error-free reply of that servo came back |
| `ServoScan.ScanServos` | src/bin/main.rs:927-958 | succeeds if and only if the range is valid and the transport took every ping; then one ping per address in order, and in increasing order exactly the addresses that answered on the continuing stream, drains included, within capacity and past the host's check; on a transport failure, the pings up to the first refused one |
| `ServoScan.IncreasingFits` | src/bin/main.rs:934-945 | a strictly increasing list is no longer than its range, so pushing never fails |
| `ServoScan.ScanReplyFits` | src/bin/main.rs:960-970 | every scan reply has at most 956 bytes and fits the 1024-byte buffer |
| `ServoScan.ScanReplyBoundIsTight` | src/bin/main.rs:960-970 | all addresses and the longest request ID take exactly 956 bytes |
| `ServoScan.DigitsReadBack` | src/bin/main.rs:960-970 | a number's digits read back as that number, without a leading zero |
| `ServoScan.ListReadsBack` | src/bin/main.rs:960-970 | the comma-separated list reads back as the addresses |
| `ServoScan.PingInBytes` | src/bin/main.rs:1085-1094 | a ping byte by byte |
| `WebSocket.MaskingUndoesItself` | src/websocket.rs:82-84 | masking twice restores the payload |
| `WebSocket.MaskShowsThrough` | src/websocket.rs:82-84 | byte i is combined with byte i modulo 4 of the mask and nothing else |
| `WebSocket.Socket.ReadFrame` | src/websocket.rs:70-84 | header checks, length forms, buffer limit and in-place unmasking give the reference frame and consume exactly its bytes |
| `WebSocket.Socket.WriteFrame` | src/websocket.rs:177-195 | both header forms, the size refusal, and what is on the wire when either write fails |
| `WebSocket.Socket.ReadPayloadLen` | src/websocket.rs:165-175 | short, 16-bit and refused 64-bit lengths |
| `WebSocket.Socket.ReadText` | src/websocket.rs:65-101 | the frame loop returns, consumes and writes what the recursive reference says |
| `WebSocket.Unmask` | src/websocket.rs:82-84 | the in-place loop masks the payload and leaves the rest of the buffer alone |
| `WebSocketExchange.FrameIsParsed` | src/websocket.rs:70-84 | every masked final frame within the buffer, short or wide, is parsed to its opcode and payload |
| `WebSocketExchange.MaskingsAgree` | scripts/test-controller-takeover.py:48-49 | the client's own walk over payload and mask agrees with the firmware's unmasking |
| `WebSocketExchange.FrameInBytes` | src/websocket.rs:70-84 | whatever is parsed, byte by byte: opcode, length in seven bits or big-endian sixteen, payload under the mask, rest |
| `WebSocketExchange.RefusedExactlyWhen` | src/websocket.rs:70-81 | exactly when nothing is parsed, with the reason |
| `WebSocketExchange.FrameDecides` | src/websocket.rs:86-99 | what opcodes 1, 8, 9, 10 and all others make the firmware answer and write |
| `WebSocketExchange.FinalFrameIsReturned` | src/websocket.rs:86-99 | a frame that answers the caller ends the call with that answer and what it calls for |
| `WebSocketExchange.CloseFrameIsReturned` | src/websocket.rs:91-94 | a close frame is answered with an empty one and ends the session |
| `WebSocketExchange.WritesAPrefix` | src/websocket.rs:177-195 | what is written is a prefix of the frame, and all of it exactly when no error is reported |
| `WebSocketExchange.ReadTextAnswersControl` | src/websocket.rs:86-99 | `read_text` gets past every ping and pong that fits, writing the pong for a ping, and goes on with whatever follows |
| `WebSocketExchange.ControlFramesArePassed` | src/websocket.rs:65-101 | over any number of pings and pongs such a reader does what the bytes behind them alone would make it do, having written the pongs in order |
| `WebSocketExchange.TextBehindControlFrames` | src/websocket.rs:65-101 | over any number of pings and pongs and then a text, the text is returned, exactly those frames are consumed, and one equal pong per ping is written in order |
| `WebSocketExchange.SentTextIsRead` | scripts/test-controller-takeover.py:44-50 | every message `send_text` sends is read back by the firmware |
| `WebSocketExchange.ServerFrameIsReceived` | scripts/test-controller-takeover.py:53-62 | every frame `write_frame` emits is read back exactly by `receive_frame` |
| `WebSocketExchange.PongsAreReceived` | scripts/test-controller-takeover.py:53-62 | a client that reads on sees its ping payloads come back as pongs, in order |
| `WifiRecord.PrimeIsInvertible` | src/bin/main.rs:1515-1517 | multiplying by the FNV prime modulo 2^32 can be undone |
| `WifiRecord.FnvIsTheSecondVariant` | src/bin/main.rs:1511-1518 | exclusive or before multiplication, header before payload, starting from 0x811c9dc5 |
| `WifiRecord.FnvDetectsOneByte` | src/bin/main.rs:1511-1518 | changing one byte of any input always changes the hash |
| `WifiRecord.ConfigImage` | host/src/bin/provision-wifi.rs:28-43 | accepts exactly 1 to 32 and 0 to 63 bytes, produces the sector layout, and the firmware loads it back to exactly its SSID and password |
| `WifiRecord.SectorInBytes` | host/src/bin/provision-wifi.rs:33-42 | the sector byte by byte: magic, version, lengths, erased byte, little-endian checksum, SSID, password, erased rest |
| `Utf8.ValidExactlyWhenEncoded` | src/bin/main.rs:1505-1507 | the text check accepts exactly the encodings of code point sequences |
| `WifiRecord.SectorLoadsBack` | src/bin/main.rs:1485-1508 | every sector of valid text loads back to its credentials |
| `WifiRecord.LoadedRecordIsWritten` | src/bin/main.rs:1485-1508 | whatever is accepted with an erased reserved byte is the sector the provisioning tool writes for those credentials |
| `WifiRecord.OneByteChangeIsRejected` | src/bin/main.rs:1485-1518 | one changed byte in magic, version, reserved byte, checksum or payload is rejected; bytes behind the payload do not matter |
| `EchoFilter.Run` | scripts/bridge-sts-uarts.py:41-80 | after any run the held bytes are a strict prefix of the awaited echo, or both are empty |
| `EchoFilter.NothingIsLostOrReordered` | scripts/bridge-sts-uarts.py:46-80 | received bytes are, in order, the forwarded and dropped ones and then the held ones; written bytes are the dropped and abandoned ones and then the awaited ones |
| `EchoFilter.FilterIsChunkIndependent` | scripts/bridge-sts-uarts.py:50-72 | cutting the input differently changes neither state nor ledger |
| `EchoFilter.FilterAgainstEcho` | scripts/bridge-sts-uarts.py:50-72 | what comes out depends only on how held and received bytes compare with the awaited echo |
| `EchoFilter.OneWriteThenInput` | scripts/bridge-sts-uarts.py:46-72 | after one write: input minus the echo, held back, or all of it |
| `EchoFilter.EarlyLooksDoNothing` | scripts/bridge-sts-uarts.py:74-76 | looks at the deadline before it has come change nothing, however the input is cut |
| `EchoFilter.EchoWithinGrace` | scripts/bridge-sts-uarts.py:46-80 | an echo in any pieces within 10 ms of the write forwards nothing and leaves the filter clear; a part of it is forwarded whole if and only if the 10 ms are over |
| `EchoFilter.LocalEchoFilter.RecordWrite` | scripts/bridge-sts-uarts.py:46-48 | extends the awaited echo and restarts the grace period |
| `EchoFilter.LocalEchoFilter.FilterInput` | scripts/bridge-sts-uarts.py:50-72 | the byte loop leaves the reference state and forwards the reference output |
| `EchoFilter.LocalEchoFilter.Flush` | scripts/bridge-sts-uarts.py:74-80 | releases the held bytes exactly when there are some and the deadline has passed |
| `EchoReplies.PacketsDoNotNest` | src/controller.rs:32-37 | no STS packet is a proper prefix of another |
| `EchoReplies.ReplyBehindEchoPasses` | scripts/bridge-sts-uarts.py:66-70 | after any number of writes, whatever follows their complete echo is forwarded untouched |
| `EchoReplies.WritesPileUp` | scripts/bridge-sts-uarts.py:46-80 | while nothing is received, written requests pile up and expiry forgets none of them |
| `EchoReplies.PacketMeetsEcho` | scripts/bridge-sts-uarts.py:50-72 | in any state with nothing held, what becomes of a packet depends only on its equality with the oldest pending one |
| `EchoReplies.ReplyAgainstPendingRequests` | scripts/bridge-sts-uarts.py:36-38 | without an echo, after any number of unanswered requests, a status packet is forwarded whole if and only if it differs from the oldest; an equal one is swallowed if that is the only one and held back otherwise |
| `EchoReplies.HeldBackIsReleased` | scripts/bridge-sts-uarts.py:74-80 | a packet held back is forwarded whole once the grace period is over |
| `EchoReplies.ReplyToOnlyRequest` | scripts/bridge-sts-uarts.py:36-38 | the case of a single pending request |
| `EchoReplies.PingAnsweredWithStatusOneIsSwallowed` | scripts/bridge-sts-uarts.py:36-38 | the concrete reply that is taken for an echo |
| `HostRpc.MessageDecidesConnection` | host/src/main.rs:1114-1133 | the prefix test on the message text drops the connection exactly for the failures that leave a request open, whatever details the message carries |
| `HostRpc.RawMessageDecidesConnection` | host/src/main.rs:1115-1118 | on the raw stream a failed transfer drops the connection and a missing reply keeps it |
| `HostRpc.ReadPastExactly` | host/src/main.rs:1209-1246 | exactly pongs, answered pings and replies to other requests are read past |
| `HostRpc.SuccessIsACleanReply` | host/src/main.rs:1203-1248 | a request succeeds with a value exactly when its first unskipped message in the budget is its own reply with that result and no error |
| `HostRpc.OtherRepliesFail` | host/src/main.rs:1222-1229 | an own reply with only an error is that error, with both or neither it is malformed |
| `HostRpc.FailuresNameTheirCause` | host/src/main.rs:1203-1248 | how every other message ends the wait, and what silence does |
| `HostRpc.RequestReadsAtMost32` | host/src/main.rs:1203-1248 | a request finds its reply behind up to 31 others and otherwise gives up after 32 |
| `HostRpc.RequestsAreNumbered` | host/src/main.rs:1180-1181 | requests are numbered from 1, wrapping at 2^32 |
| `HostRpc.OpenExactlyWhen` | host/src/main.rs:1182-1248 | a request is left open exactly when it may have been sent and its reply was not read |
| `HostRpc.SingleKeepsExactlyWhen` | host/src/main.rs:659-690 | a held bridge survives a command exactly when its request leaves nothing open, and is then the connection behind it |
| `HostRpc.PositionsKeepExactlyWhen` | host/src/main.rs:1052-1078 | position reads go on past every failure that leaves nothing open; the bridge is then the connection behind all of them |
| `HostRpc.ConnectHoldsExactlyWhen` | host/src/main.rs:713-790 | after connecting, a bridge is held exactly when the same peer answered ready or the dialled peer did, the latter having issued one request |
| `HostRpc.OtherwiseUnchanged` | host/src/main.rs:624-631 | without a bridge a command changes nothing, and a refused request never does |
| `HostRpc.Examine` | host/src/main.rs:1209-1246 | what each kind of message does to the wait |
| `HostRpc.AwaitShape` | host/src/main.rs:1203-1248 | at most 32 messages are read; an own reply ends the wait and decides the result, and without one the failure leaves the request open |
| `HostRpc.AnswerBehindStaleMessages` | host/src/main.rs:1203-1248 | the own reply is returned behind any fewer than 32 unrelated messages, and otherwise the client gives up |
| `HostRpc.RequestIsSettled` | host/src/main.rs:1174-1249 | success, or a failure that keeps the connection, means this request's reply was read |
| `HostRpc.ReplyBelongsToRequest` | host/src/main.rs:1180-1229 | the returned reply was produced for this request or one a whole number of ID cycles older |
| `HostRpc.RequestKeepsPairing` | host/src/main.rs:1180-1181 | ID numbering and the honesty of unread replies survive every request |
| `HostRpc.EveryReplyIsItsOwn` | src/bin/main.rs:793-797 | over a whole connection, within 2^32 requests, every answered request returns its own reply |
| `HostRpc.RetainedConnectionIsSettled` | host/src/main.rs:619-790 | a connection still held after any sequence of browser requests has no request waiting for its reply |
| `HostRpc.BridgeConnection.ControllerRequest` | host/src/main.rs:1174-1249 | the method returns, numbers and consumes what the reference says |
| `HostRpc.BridgeConnection.AwaitReply` | host/src/main.rs:1203-1248 | the reply loop computes the recursive reference |

## Left out

- TCP, Wi-Fi, DHCP, the OLED, flash ROM calls and `espflash`: hardware and foreign code; a flash read is its 108 bytes, and a failed read, which yields no credentials, is not modelled.
- The HTTP upgrade (src/websocket.rs:32-63, src/websocket.rs:119-163): it rests on base64 and SHA-1.
- JSON parsing and serialisation: requests and replies are parsed values; only the length of the scan reply is computed from its text.
- `command_from_request` and the RPC error codes: one branch per method, no property across them.
- Browser UI, HTTP assets, configuration files, logging and its rotation: I/O with easy results.
- The raw-tunnel transport of the host's bridge and `open_raw_tunnel`: `HostRpc` covers controller connections and which raw failures drop the bridge, `ServoCommands` the raw commands.
- The batch `read_positions` of the firmware: a loop over single reads, nothing new; the joint model only bounds its UART accesses.
- Takeover.StepInv: waiting for the UART lock inside a drain is one event that may come arbitrarily late; what can delay it is the subject of `DrainProgress`.
- DrainProgress.HeldUpExactlyWhenStuck: speaks of the receiver becoming free; the mutex is not fair, so another waiting task may then take it first.
- WifiRecord.OneByteChangeIsRejected: the two length bytes move the end of the payload, so a change there is covered by the checksum only as far as a 32-bit hash goes.
- ServoCommands.FirmwareExecute: as in its host counterpart, the kinds of error are merged into refused and failed, since both sides name them differently.
- HostRpc.EveryReplyIsItsOwn: relies on the controller copying the request's ID into its reply, as the firmware does; without that no client could pair replies.
- HostRpc.RetainedConnectionIsSettled: the host's shared bridge cell is a value handed from request to request; replacing it in place under its mutex is not modelled, the connection object's own update is.
