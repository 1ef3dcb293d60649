# Capture sidecar: verified model

A Dafny model of the sidecar's stateful core and proofs of what it keeps over whole runs:
the capture writer with its hold queue, size budget and retention; the key-line transport
from the interposer to the keylog and the capture; the kernel redirect with its
original-destination lookup; and the log limiter. `dafny verify dfyconfig.toml` checks
everything.

How it is laid out:

- `Pcapng`: block sizes, block bytes, and the reader that walks whatever whole blocks a file holds.
- `CaptureSpec`, `CaptureRuns`, `CaptureTheorems`, `CaptureClose`: the capture writer as a state
  machine over values (one event per critical section of its lock), the invariant of every
  step, and the theorems about runs. `CaptureWriter` is the writer as an object; each method is
  proved to take the machine's step.
- `CaptureNames`, `Retention`, `Budget`, `App`: file names, the capture directory, and any number
  of consecutive sidecar runs over it. `App` wires writer and retention; opening the capture, the
  retention tick and teardown are each proved to be a sequence of the budget machine's steps,
  which the contracts name.
- `Nss`, `KeylogCapture`, `Keylog`, `Transport`: line validation, the keylog beside the capture with
  the append split at the points where the capture can move, the socket server, and the
  interposer.
- `ByteOrder`, `Redirect`: the byte-order contract for either host, the two kernel programs, the
  resolver and the relay's decision.
- `LogLimiter`: the windowed counter.

Conventions. A byte is a `char` below 256. Times are integers. Failing block writes are an
`io: nat -> bool` argument, other I/O outcomes are boolean or function arguments, and clocks,
directory reads and map evictions are arguments or events. A write to a closed file drops the
block. `HeaderSize` is a parameter. The writer's `log` records every block handed to the pcapng
writer, whether it reached the file, and why it was written then; the file is the part of the
log that reached it.

## What the code does and its comments do not say

- `internal/keylog/nss.go:45` and `internal/keylog/socket_server.go:145` promise that a truncated
  line is rejected. `Nss.StartIsValidIff` gives the exact exception for every valid line,
  `Nss.TruncationAccepted` its cut positions for a single-spaced one.
- `cmd/app/app.go:303` promises that every key in the keylog is in the capture.
  `KeylogCapture.EveryKeyInCaptureIff`: that holds of the closed capture if and only if every line
  was handed over while the capture was open, not stopped and had room for it. It fails in two
  ways, each from the start and for every valid line: `KeylogCapture.StopLosesLine` (a packet stops
  the capture between the gate and the sink) and `KeylogCapture.CloseLosesLine` (a line comes after
  the close, while the state still reads active).
- `internal/capture/retention.go:14` says an owned name is one `CreateRunCapture` gives.
  `CaptureNames.OwnedIsCreatable` says exactly which matching names a run can give (a number with
  a leading zero matches and is never given), and `CaptureNames.CreatedIsOwned` that a template
  made of slashes only gives names the pattern does not match.
- `internal/shared/logger/limit.go:8` promises at most `burst` records per interval.
  `LogLimiter.WindowKeepsAtMost`: that holds of every window. Over any span of one interval it
  holds if and only if the burst is one record or the interval at most one tick
  (`LogLimiter.BurstPerIntervalIff`); otherwise the bound is `2*burst - 1`, and it is reached.
- `bpf/proxy.bpf.c:40`: tuple entries are never deleted. `Redirect.LookupIsDialledIff` says exactly
  when a connection finds its own destination or nothing; `Redirect.StaleTupleWithoutRecord` and
  `Redirect.StaleTupleForDirectConnect` reach the destination of another connection.

## Model

| member | source | states |
|---|---|---|
| Pcapng.ClearLowBits | internal/capture/pcapng.go:115 | clearing two low bits of a 64-bit word is taking off its remainder by 4, the identity `Pad4` uses |
| Pcapng.Pad4 | internal/capture/pcapng.go:114-115 | the least multiple of 4 not below n |
| Pcapng.BatchingIsNoLarger | internal/capture/pcapng.go:47-56 | one secrets block for any non-empty batch is no larger than one block per line |
| Pcapng.PayloadIsTerminated | internal/capture/pcapng.go:502-505 | a payload is its lines each followed by a newline, the keylog file's own layout |
| Pcapng.CompleteBlocks | internal/capture/pcapng_test.go:1072-1086 | the reader's offset loop returns the walk's blocks for any bytes |
| Pcapng.WalkSurvivesCut | internal/capture/pcapng_test.go:1072-1086 | of an encoded file cut at any byte, the walk returns exactly the blocks wholly inside the cut |
| Pcapng.WholeWithinIsLargest | internal/capture/pcapng_test.go:1072-1086 | the number of blocks kept is the largest whose bytes fit the cut |
| Pcapng.RenderedSize | internal/capture/pcapng.go:107-115 | a rendered block has exactly the size the writer counted for it |
| Pcapng.RenderRoundTrip | internal/capture/pcapng_test.go:1106-1131 | the payload readers recover a rendered block's payload or packet bytes, and nothing from the other kind |
| Pcapng.FrameHeadRoundTrip | internal/capture/pcapng.go:366-376 | a packet block's interface, 64-bit timestamp, captured and original length read back as they were queued |
| Pcapng.SecretsType | internal/capture/pcapng.go:451-456 | a secrets block is block type 10 and says it holds a TLS key log |
| CaptureRuns.ReleaseIsLeast | internal/capture/pcapng.go:380-388 | the cap releases the least number of oldest packets that brings the queue to 32 MiB or less |
| CaptureRuns.FrontScanIsFilter | internal/capture/pcapng.go:438-445 | on a queue sorted by arrival the front scan splits it just as filtering every packet would |
| CaptureRuns.StampedIsWritable | internal/capture/pcapng.go:366-376 | whatever interface index a packet carries and with lengths or timestamp left out, it is queued in a form the pcapng library accepts, keeping the timestamp and original length it had |
| CaptureRuns.InitInv | internal/capture/pcapng.go:279-283 | a new writer satisfies the invariant |
| CaptureRuns.StepKeepsInv | internal/capture/pcapng.go:357-500 | every critical section keeps it: exact and capped queue bytes, arrival order, file plus pending plus held within `admitted`, one close, and why each packet was written |
| CaptureRuns.RunKeepsInv | internal/capture/pcapng.go:357-500 | so every state of every run keeps it, for any interleaving and any failing writes |
| CaptureTheorems.RunAdmits | internal/capture/pcapng.go:357-467 | what was written plus what is queued is, in order, exactly what callers handed over and were not refused |
| CaptureTheorems.AcceptedIff | internal/capture/pcapng.go:318-328 | a packet or non-empty line is accepted if and only if the capture is not stopped and, with a limit, it fits the room; it is then counted in full, and a refusal of a running capture is reported |
| CaptureTheorems.GivenRoomDecides | internal/capture/pcapng.go:305-311 | after SetRoom on a limited, running capture, the room given decides the next admission |
| CaptureTheorems.RunCounts | internal/capture/pcapng.go:318-328 | what any run has counted against the room is exactly what it accepted, each line as a block of its own |
| CaptureTheorems.NoRoomIsNoLimit | internal/capture/pcapng.go:275-285 | a capture made with a room of zero or less never stops and accepts every packet and non-empty line of every run, whatever room it is given later; one made with more stops on some run |
| CaptureTheorems.KeyLeadsLaterPackets | internal/capture/pcapng.go:391-467 | an admitted line is in a secrets block written before every packet still held at its arrival and every later one |
| CaptureTheorems.WrittenPacketsAreOld | internal/capture/pcapng.go:377-467 | a packet already written when a line arrives was received at least a hold window earlier or was forced out by the cap |
| CaptureTheorems.KeyLeadsRecentPackets | internal/capture/pcapng.go:357-467 | over any run, a line admitted at time t precedes in the file every packet received less than a hold window before t that the cap had not forced out |
| CaptureTheorems.LogOrderIsFileOrder | internal/capture/pcapng.go:451-467 | blocks reach the file in the order they are handed to the pcapng writer |
| CaptureTheorems.StoppedForGood | internal/capture/pcapng.go:318-328 | after a stop no run, room growth included, admits anything or issues another Stop |
| CaptureTheorems.StopIsUnique | internal/capture/pcapng.go:305-335 | a run issues exactly one Stop if it ends stopped and none otherwise, and its `Bytes` bounds the file ever after |
| CaptureTheorems.StopIsTight | internal/capture/pcapng.go:318-328 | with rooms that never shrink and a first one covering the header, the event whose outcome is the run's one Stop has Bytes <= Room < Bytes + the block it asked for |
| CaptureTheorems.PacketReleasesLeast | internal/capture/pcapng.go:377-388 | an accepted packet is queued last, and exactly the least number of oldest packets that brings the queue to 32 MiB or less is written at once, behind every pending line |
| CaptureTheorems.ForcedMeansOverCap | internal/capture/pcapng.go:377-388 | a packet counts as forced out only when the queue with the one just received was over 32 MiB |
| CaptureTheorems.TickWritesTheDue | internal/capture/pcapng.go:436-445 | a tick writes all pending lines and exactly the packets whose hold window of a second has ended, and keeps the rest |
| CaptureTheorems.LastTickCloses | internal/capture/pcapng.go:410-434 | once stopped, a tick after the last window ends empties the queue and closes the file |
| CaptureClose.StaysClosed | internal/capture/pcapng.go:469-500 | once closed by either side, the file is never closed again and never changes |
| CaptureClose.FailedWritesAreLost | internal/capture/pcapng.go:451-467 | a call all of whose block writes fail leaves the file as it was and drops what it would have written |
| CaptureClose.ClosedFileIsComplete | internal/capture/pcapng.go:413-500 | whichever side closes it, the file is closed once and, absent write errors, holds every accepted packet and every accepted line in order of arrival |
| CaptureClose.ClosesIff | internal/capture/pcapng.go:417-488 | an event closes an open file if and only if it is the end of Close or a tick that finds the capture stopped and every hold window ended |
| CaptureClose.UnstoppedIsClosedByClose | internal/capture/pcapng.go:422-424 | over any run, a capture that is closed and never stopped was closed by the end of Close |
| CaptureClose.UnstoppedFileIsComplete | internal/capture/pcapng.go:476-488 | so the first end of Close finds an unstopped capture open and leaves in its file, absent write errors, every packet and line accepted before |
| CaptureClose.CutCaptureIsPrefix | internal/capture/pcapng_test.go:1072-1131 | a capture cut at any byte, the header included, reads back as a prefix of its header and blocks |
| CaptureClose.RecoveredBlock | internal/capture/pcapng_test.go:1106-1131 | every block recovered after the header reads back with the payload or packet bytes the writer wrote there |
| CaptureClose.CutKeepsKeysAhead | internal/capture/pcapng.go:447-467 | in the bytes of a capture cut anywhere, a recovered packet has ahead of it, readable, every secrets block logged before it that reached the file |
| CaptureClose.CutKeepsRecentKeys | internal/capture/pcapng.go:357-467 | over any run and any cut, a packet received less than a hold window before a key line and not forced out by the cap is recovered only behind a readable block with that line |
| CaptureClose.CaptureBytesSize | internal/capture/pcapng.go:97-115 | the bytes counted for header and blocks are the length of the file's bytes |
| CaptureWriter.Writer.constructor | internal/capture/pcapng.go:275-285 | a new writer: header counted, a room of zero or less meaning no limit |
| CaptureWriter.Writer.Admit | internal/capture/pcapng.go:318-328 | counts a block, or stops at the first that does not fit and reports it once |
| CaptureWriter.Writer.WritePacket | internal/capture/pcapng.go:357-389 | takes the machine's packet step: admit, stamp, queue, and write the oldest past the cap |
| CaptureWriter.Writer.OverCap | internal/capture/pcapng.go:380-388 | the eviction loop stays in bounds and finds the least release |
| CaptureWriter.Writer.AddSecret | internal/capture/pcapng.go:397-408 | takes the machine's key-line step; an empty line changes nothing |
| CaptureWriter.Writer.SetRoom | internal/capture/pcapng.go:305-311 | replaces the room of a limited writer only |
| CaptureWriter.Writer.WriteFrames | internal/capture/pcapng.go:459-464 | writes the n oldest packets in order and takes exactly their bytes off the count |
| CaptureWriter.Writer.WriteHeld | internal/capture/pcapng.go:451-467 | one secrets block for all pending lines, then the n oldest packets |
| CaptureWriter.Writer.CountDue | internal/capture/pcapng.go:438-443 | the front scan stays in bounds and counts the packets at or before the cutoff at the front of the queue |
| CaptureWriter.Writer.Drain | internal/capture/pcapng.go:438-445 | takes the machine's drain step |
| CaptureWriter.Writer.Tick | internal/capture/pcapng.go:417-434 | takes the machine's tick, whose closing condition is `CaptureClose.ClosesIff`: drains, and closes the file and exits once stopped with nothing left |
| CaptureWriter.Writer.FinishClose | internal/capture/pcapng.go:480-488 | writes what is left and closes, or does nothing to a file already closed |
| CaptureWriter.Writer.LastTicks | internal/capture/pcapng.go:413-434 | the ticks of the drain goroutine are the machine's, until one of them ends it |
| CaptureWriter.Writer.Close | internal/capture/pcapng.go:476-488 | the whole of Close is a run of the machine: the request, any further ticks, the goroutine's exit, the locked part; the file is then closed |
| CaptureNames.CreatedIsOwned | internal/capture/retention.go:82-88 | a created name is recognised as owned, for every second and suffix, if and only if the template's base is not "/" |
| CaptureNames.OwnedIff | internal/capture/retention.go:82-88 | a name is owned if and only if it is the template's stem, a dash, one number or two with a dash between, and the extension |
| CaptureNames.BaseIsLastElement | internal/capture/pcapng.go:240-244 | the base of a path is its last element, whatever slashes follow it |
| CaptureNames.ExtIsFromLastDot | internal/capture/pcapng.go:240-244 | the extension starts at the last dot |
| CaptureNames.NoDotNoExt | internal/capture/pcapng.go:240-244 | and is empty without one |
| CaptureNames.NameOfTemplate | internal/capture/pcapng.go:218-244 | for a template with an extension in any directory, the created name is stem, second, suffix past 0 and extension |
| CaptureNames.NameOfPlainTemplate | internal/capture/pcapng.go:218-244 | and without an extension, in any directory and with any slashes at the end |
| CaptureNames.SlashBase | internal/capture/pcapng.go:240-244 | that base means a template of one or more slashes and nothing else |
| CaptureNames.NamesAreDistinct | internal/capture/pcapng.go:218-236 | distinct (second, suffix) pairs give distinct names for every template |
| CaptureNames.OwnedIsCreatable | internal/capture/retention.go:13-21 | exactly which owned names a run can create |
| CaptureNames.OwnedButNeverCreated | internal/capture/retention.go:82 | the pattern matches a possible directory entry that no run creates, unless the template is slashes only, when it matches no possible entry |
| Retention.CreateRunCapture | internal/capture/pcapng.go:218-236 | takes the lowest free suffix, never replaces an entry, fails only where an attempt fails, and reports exhaustion only with all 1000 names taken |
| Retention.Finished | internal/capture/retention.go:73-96 | lists each owned regular file but this run's once, and nothing else |
| Retention.OwnedBytes | internal/capture/retention.go:99-106 | the total size of those files |
| Retention.Room | internal/capture/retention.go:112-118 | what the limit leaves beside them, 0 without a limit |
| Retention.RoomLeftIsExact | internal/capture/retention.go:112-118 | a capture of any size beside the finished ones stays within MaxBytes if and only if it fits the room left |
| Retention.Enforce | internal/capture/retention.go:123-147 | one age pass removes exactly the removable finished captures strictly older than MaxAge |
| Retention.RemovedIff | internal/capture/retention.go:123-147 | an age pass removes an entry if and only if it is a regular file of the pattern's name, not this run's, last written more than MaxAge ago, and can be removed |
| Retention.OtherNamesAreSpared | internal/capture/retention.go:73-147 | an entry of any other name survives every age pass and counts for nothing |
| Retention.Cleanup | internal/capture/retention.go:156-164 | teardown removes this run's file unless retained, and nothing else |
| Budget.StepKeepsSysInv | cmd/app/app.go:157-269 | every step of the many-run system keeps room, admitted bytes and measured room within what finished captures leave, whatever others delete between measuring and use |
| Budget.BudgetHolds | cmd/app/app.go:157-188 | over any number of runs, retained, deleted or killed, and any interleaving, owned captures never together exceed MaxBytes |
| Budget.StopReportIsSound | cmd/app/app.go:214-224 | in every state of such a run a stop is tight, and the owned bytes it logs are at least what the owned captures hold and within MaxBytes, and exactly finished plus admitted bytes unless room was freed since it was last given |
| Budget.OnlyExpiredCapturesGo | internal/capture/retention.go:120-164 | over any trace, an entry that is not this run's file stays unchanged unless an age pass found it finished, owned and past MaxAge |
| Budget.OtherNamesStay | internal/capture/retention.go:82-96 | over any trace an entry whose name is not the pattern's stays unchanged |
| Budget.RunFileStays | internal/capture/retention.go:149-164 | over any trace, an entry, this run's own file included, disappears only by a teardown that deletes its own run's file or an age pass that found it expired when it was no running capture's |
| Budget.WritesLead | cmd/app/app.go:157-188 | every run of the capture writer is a sequence of write steps of the system |
| Budget.LeadsKeepsSysInv | cmd/app/app.go:157-343 | whatever steps lead from a state within the limit, it holds where they end: with the three rows below, at every return of the App's operations |
| App.App.OpenCapture | cmd/app/app.go:157-188 | an age pass of exactly the expired captures that can be removed, then a start with the room left, nothing when the room is below the header size, or a failed start, which has an unreadable directory, a failing attempt or all names taken behind it: steps of the budget machine in each case |
| App.App.EnforceRetention | cmd/app/app.go:261-269 | an age pass, then the active capture gets exactly the room that is left: the steps AgePass, Measure, GiveRoom |
| App.App.Close | cmd/app/app.go:307-343 | closes the capture with any last ticks, then deletes only this run's file and only without Retain: the write steps of that close, then Finish |
| Nss.SpaceIsFound | internal/keylog/nss.go:48 | every white-space code point at the front of the bytes is recognised with its width |
| Nss.FoundIsSpace | internal/keylog/nss.go:48 | and nothing else is |
| Nss.LabelTablesAgree | internal/keylog/nss.go:10-37 | the name table and the reverse table are inverse |
| Nss.FieldsOfSpaced | internal/keylog/nss.go:48 | splitting gives plain words back whatever Unicode white space stands before, between and after them |
| Nss.ValidIff | internal/keylog/nss.go:10-65 | a line is valid if and only if it has three fields: CLIENT_RANDOM, 64 and 96 hex digits, or one of the five TLS 1.3 labels, 64 and 64 or 96 hex digits |
| Nss.RenderedIsValidIff | internal/keylog/nss.go:23-65 | for every label, 64-digit client random and hex secret: valid if and only if the secret has 96 digits, or 64 with a TLS 1.3 label |
| Nss.SingleSpacedIsValid | internal/keylog/nss.go:47-65 | a single-spaced line of such parts validates and splits into them |
| Nss.TruncationAccepted | internal/keylog/nss.go:23-65 | a proper prefix of such a line validates if and only if it leaves 64 of the 96 secret digits of a TLS 1.3 line |
| Nss.ValidStartKeepsTriple | internal/keylog/nss.go:47-65 | a start of any line, valid or not, that validates has its label and client random and a start of its third field as secret |
| Nss.StartIsValidIff | internal/keylog/nss.go:23-65 | a start of any valid line, whatever its white space, validates if and only if it holds the whole triple or 64 of the 96 secret digits of a TLS 1.3 line |
| Nss.ZeroLineIsValid | internal/keylog/nss.go:47-65 | a concrete CLIENT_RANDOM line that validates |
| Nss.LongSecretIsValid | internal/keylog/nss.go:27 | a concrete TLS 1.3 line with a 96-digit secret that validates |
| Nss.KeyIdentifiesTriple | internal/keylog/writer.go:68-69 | two valid lines share a duplicate key if and only if they share label, client random and secret |
| KeylogCapture.TriplesAreDistinct | internal/keylog/writer.go:77-83 | no triple is in the keylog twice |
| KeylogCapture.DroppedIffAlreadyLogged | internal/keylog/writer.go:77-79 | with the gate open a valid line is dropped if and only if its triple is already in the keylog |
| KeylogCapture.KeylogFollowsCapture | internal/keylog/writer.go:64-88 | in every interleaving the admitted lines are the keylog's lines in order, missing at most the last |
| KeylogCapture.PayloadsArePrefixOfKeylog | cmd/app/app.go:195-239 | before the close and absent write errors the secrets payload bytes are a prefix of the keylog file's bytes |
| KeylogCapture.ClosedCaptureHoldsKeylog | cmd/app/app.go:299-306 | absent write errors the closed capture holds the keylog's lines but at most the last |
| KeylogCapture.ClosedCaptureHoldsTaken | cmd/app/app.go:299-306 | absent write errors, once the capture is closed the keylog is every line handed over and the capture exactly those that found it open, unstopped and with room, both in order |
| KeylogCapture.EveryKeyInCaptureIff | cmd/app/app.go:299-306 | absent write errors and with no line between keylog and capture, every keylog line is in the closed capture if and only if every hand-over found it open, unstopped and with room; then the lines are the same in order |
| KeylogCapture.StopLosesLine | internal/keylog/writer.go:71-88 | from the start, for every size limit and valid line, a run that leaves the line in the keylog and an empty closed capture: a packet stops the capture between gate and sink |
| KeylogCapture.CloseLosesLine | cmd/app/app.go:326-331 | the same for every limit or none, by a line that comes after the close |
| KeylogCapture.LateLineIsLost | cmd/app/app.go:326-331 | a line accepted after the close while the state reads active is in the keylog and never in the capture |
| Keylog.KeylogWriter.Append | internal/keylog/writer.go:64-88 | rejected, gated, duplicate or appended, each exactly when its condition holds; an appended line also goes to the capture |
| Keylog.DropCRIff | internal/keylog/socket_server.go:151-152 | scanning drops one carriage return from the end of a line and nothing else |
| Keylog.ValidLineIsKept | internal/keylog/socket_server.go:151-157 | a valid line that meets an open gate and a working file leaves its triple in the keylog, and is itself there if the triple is new |
| Keylog.SocketServer.HandleConn | internal/keylog/socket_server.go:148-169 | each non-empty scanned line has a fate: rejected if and only if invalid, gated if and only if the capture, handed the lines appended before, is not active, duplicate if and only if its triple was seen or appended before, otherwise appended or lost to a failing write; the new keylog lines, the capture and each counter are exactly those of the fates |
| Transport.Interposer.Connect | preload/keylog_preload.c:49-72 | one connection at a time: succeeds if and only if one is open or a configured connect works, and carries whole lines only while it is open |
| Transport.Interposer.SendLine | preload/keylog_preload.c:77-96 | sends if and only if one of three attempts has a connection, left open before the first or newly made, and writes all of line and newline; a sent line is carried whole once, by the connection then open, an unsent one by none, and nothing else is carried |
| Transport.Interposer.Callback | preload/keylog_preload.c:100-120 | every connection keeps carrying whole newline-terminated lines and at most the start of one |
| Transport.ReceivedLines | internal/keylog/socket_server.go:148-169 | from any part of a connection the server scans the whole lines in order and at most one start of a line |
| Transport.ScanRoundTrip | internal/keylog/socket_server.go:148-155 | scanning newline-terminated lines gives exactly those lines, for any that do not end in a carriage return |
| Transport.CarriedIsScanned | internal/keylog/socket_server.go:148-155 | a line carried whole within the bytes received is scanned at its place |
| Transport.CarriedLineArrives | internal/keylog/socket_server.go:148-169 | a valid line carried whole within the bytes received is met with its triple and, with the gate open and the file writable then, is in the keylog afterwards if its triple is new |
| Transport.ValidScannedLineIsHanded | internal/keylog/socket_server.go:143-147 | whatever else the callback was handed, every valid scanned line starts a handed one with the same label and client random and a start of its third field as secret; of a valid one it holds the triple or its one accepted truncation |
| Transport.Deliver | internal/keylog/socket_server.go:148-169 | end to end: every line a connection adds to the keylog comes in that sense from a line the callback was handed, and every valid line carried whole within what was received arrives |
| ByteOrder.DstRoundTrip | internal/ebpf/codec.go:35-51 | on either host, decoding an encoded destination gives it back; only IPv4 encodes |
| ByteOrder.TupleKeyInjective | internal/ebpf/codec.go:23-32 | on either host, distinct sources have distinct keys |
| ByteOrder.MemoryOrder | internal/ebpf/codec.go:23-51 | the octets of an address in memory order on either host |
| ByteOrder.PortOrder | bpf/proxy.bpf.c:69-77 | the two bytes of a port change places on a little-endian host only |
| ByteOrder.FirstOctet | bpf/proxy.bpf.c:61-64 | on either host, the loopback shift looks at the first octet |
| Redirect.Kernel.Connect4 | bpf/proxy.bpf.c:49-79 | records and redirects exactly TCP (protocol 6) from users other than 1337 to destinations outside 127.0.0.0/8, to 127.0.0.1:15001, and leaves every other socket and the maps alone |
| Redirect.Kernel.SockOps | bpf/proxy.bpf.c:81-104 | moves a socket's record from its cookie to its source |
| Redirect.RecordsAwaitSockops | bpf/proxy.bpf.c:31-38 | every cookie record is that of a redirected connect whose callback has not come yet |
| Redirect.RecordIsThereIff | bpf/proxy.bpf.c:68-90 | however many sockets connect at once, a socket's record is there when its callback comes if and only if its connect was redirected, the update took and nothing took it away since |
| Redirect.RecordedIff | bpf/proxy.bpf.c:81-104 | so exactly when the callback moves it |
| Redirect.LookupIsDialled | bpf/proxy.bpf.c:50-104 | for any connection with its own cookie and an unreused source, whatever is evicted: if its record was moved, or no other destination stood under its source then, the entry is exactly what was dialled or absent |
| Redirect.LookupIsDialledIff | bpf/proxy.bpf.c:50-104 | without evictions, if and only if |
| Redirect.LookupFinds | bpf/proxy.bpf.c:40-47 | with a moved record the entry is present, and what was dialled, as long as it has not been evicted |
| Redirect.ResolvesToDialledOrNotFound | internal/proxy/resolver.go:59-83 | under the same condition, for any evictions, failing lookups, retries and host byte order, Resolve gives exactly the dialled address and port, ErrNotFound, or the error of a lookup that failed |
| Redirect.ResolvesToDialled | internal/proxy/resolver.go:59-83 | for any number of sockets, a redirected connection whose updates took and whose record and entry were not evicted resolves to exactly what it dialled, at a first lookup that does not fail |
| Redirect.FirstAnswerDecides | internal/proxy/resolver.go:65-76 | the first lookup within the retries that is not a miss decides: its decoded destination, or its error |
| Redirect.StaleTupleWithoutRecord | bpf/proxy.bpf.c:40-47 | from empty maps, a redirected connection whose record was evicted before its callback finds the first connection's destination |
| Redirect.StaleTupleForDirectConnect | bpf/proxy.bpf.c:61-64 | so does a connection straight to the relay's address, which is never recorded |
| Redirect.NotFoundIffAllMiss | internal/proxy/resolver.go:65-82 | ErrNotFound if and only if all retries + 1 lookups missed |
| Redirect.Resolver.Resolve | internal/proxy/resolver.go:59-83 | the first lookup that is not a miss decides, and only a definitive miss is counted |
| Redirect.Handle | internal/proxy/relay.go:63-96 | dials if and only if the connection comes from an IPv4 address, mapped or not, that resolves, and exactly what was resolved; otherwise resets or closes, never a default destination |
| LogLimiter.Limiter.Admit | internal/shared/logger/limit.go:33-47 | takes the windowed counter's step |
| LogLimiter.SpanKeepsAtMost | internal/shared/logger/limit.go:18-47 | with non-decreasing times any half-open span of one interval keeps at most 2*burst - 1 records |
| LogLimiter.SpanBoundIsReached | internal/shared/logger/limit.go:18-47 | for every new limiter with a burst of one or more and an interval of two ticks or more some calls reach that bound |
| LogLimiter.WindowKeepsAtMost | internal/shared/logger/limit.go:33-47 | in the interval from a call that opens a window at most burst records are kept |
| LogLimiter.BurstPerIntervalIff | internal/shared/logger/limit.go:8-47 | for a burst of one or more, every span of every run keeps at most burst records if and only if the burst is one or the interval at most one tick |
| LogLimiter.DropsAreReported | internal/shared/logger/limit.go:33-47 | all drops equal the suppressed counts reported plus the pending count |
| LogLimiter.ReportsDropsSinceKept | internal/shared/logger/limit.go:33-47 | a kept record reports exactly the drops since the last kept one, a dropped one nothing |
| LogLimiter.KeptIff | internal/shared/logger/limit.go:33-47 | a record is kept if and only if it opens a window or the current one has room |

## Left out

- pcapgo, gopacket and AF_PACKET reading: a write appends a block of the stated size or drops it.
- Loading, attaching and pinning the kernel programs, and the generated bindings.
- Dialling, splicing and the RST mechanics of the relay; only its decision is modelled.
- File modes, tmpfs and socket-directory checks, and symlinks: any entry that is not a regular file is one kind.
- `cmd/app/config.go` and the attribute handling of `logger.go`: single branches over library code.
- OpenSSL hooking, `dlsym` and sleeping in the interposer.
- The token limit of `bufio.Scanner`: the server splits the whole stream on newlines.
- Go memory-model races and int64 overflow: each mutex section is one step, sizes are integers.
- The bytes of the pcapng header: it is a list of encodable blocks of a given total size.
- A failed or partial write of the keylog file leaves no bytes in the model.
- Pcapng.ClearLowBits: stays on 64-bit words; `Pad4` is the same formula on integers.
- CaptureClose.CutCaptureIsPrefix: assumes blocks under 4 GiB, the format's own limit.
- App.App.Close: closing the keylog server, the listener and the loader, and deleting the keylog file, are not modelled.
- App.App.OpenCapture: takes budget steps under the condition that a failed creation leaves no more than a header behind.
- Budget.BudgetHolds: assumes the size of a listed file can be read unless the file is gone.
