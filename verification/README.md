# Verification of the remote monitoring tool

A Dafny model of the tool's log shipping and resource accounting, with proofs.

A client samples processes, turns totals above configured thresholds into
numbered log entries, keeps the entries in a queue and in a log file, and sends
the first hundred pending entries again and again. The server appends to its own
file only the entry whose number follows the last one, and answers with that
number. It keeps no counter: it recovers the last number from the last line of
its file on every message. The client drops what is acknowledged and remembers
the acknowledgement in a second file, from which it rebuilds the queue after a
crash.

## What is proved

- **Delivery.** `Protocol` is a state machine whose files and messages are the
  actual bytes. The network loses, duplicates and reorders; the client may crash at
  any point, also between dropping entries and writing the ack file, and may compact
  its log file when it starts; appends, ack writes and every file operation of a
  start may fail. In every run the server's file is byte for byte the lines of a
  prefix of the generated history, and every other entry is in the queue and, if
  logged after the last failed append, would be reloaded from a readable log file.
  `Deployments` shows that the methods of the client and the server take exactly
  these steps, and so keep these promises.
- **Failures.** Two things break this, and the runs above are those without them;
  `Failures` gives the exact conditions. The server must be able to read the file it
  appends to, unless that has no line yet or the batch holds no entry numbered 1:
  otherwise entries are written twice. A restart must read back the last entry, and
  the last entry whose append failed must have reached the server: otherwise numbers
  are used again, or the entry is withheld together with everything after it, in
  every run, unless a batch under way carries it; or, if it was the last one, it is
  forgotten. A crash loses nothing exactly when all is delivered, or the log file
  can be read and the last entry whose append failed is delivered.
- **Speed.** A lossless round trip moves the server to `max(s, n - p + b)`, with n
  entries logged and p pending, and leaves exactly the rest in the queue; k round
  trips drain a queue that is the rest exactly when `100 k` reaches its length; and
  it is stated from which states any number of them drains it.
- **Boundary.** After a restart that reads back nothing past the server's last
  number s (nothing pending, or a log file that could not be read), no run without
  another restart brings a new entry with a number up to s to the server. With
  everything acknowledged and the files readable, the server's file can grow again
  if and only if fewer than 100 entries are, at the price of the first new entries,
  which the acks drop. Such states are reached from the first start with any number
  of entries.
- **Roll-back.** A server cut back to k entries and its smaller ack: with a restart
  the protocol is whole again if and only if the log file is readable and holds all
  entries past k, and all that is under way goes on from k. Without a restart, once
  entry k + 1 has left the queue, the server's file stays as it is, over all runs, if
  and only if no batch under way carries that entry; what one that does restores is
  stated too.
- **Recovery.** The server recovers its last number, whatever memory holds, if and
  only if the last name has no newline or carries that number after its last one;
  the number it recovers otherwise is given. Where that condition holds, and only
  there, it answers like a server with a counter.
- **Reports.** The due reports of a tick, in order and once each, with their conditions
  on the totals written out.
- **Codecs.** Text lines, binary records, framing over short reads and writes,
  endianness, and the backward scan for the last line, each with its round trip
  or its forward meaning, and the exact inputs on which it fails.
- **Processes.** The three maps of the process table agree after any mixture of
  failed reads, what every tick stores of each reading is written out, deltas add up to the ends of
  the readable stretches, totals do not depend on the map's order, bytes are conserved
  from packets to programs, and the top-k answer is characterised together with the
  exact condition under which it is unique.

Files: `Bytes`, `Streams`, `Serializable`, `LogEntry`, `Framing`, `LastLine`
(codecs); `LogQueue`, `ClientLogger`, `Server` (the two programs); `Protocol`,
`Progress`, `Failures`, `Boundary`, `Rollback`, `Deployment` (the protocol);
`ProcessTable`, `TopK`, `Usage` (resource accounting).

## Assumptions

- Each handler step is atomic, each file write is atomic, one message on a socket
  is not interleaved with another, and there is one client per IP address.
- In the runs of `Protocol` a restart reads back the last entry and the last entry
  whose append failed has reached the server, or nothing was ever logged; and a
  server file that is appended to can be read, or has no line, or the batch holds no
  entry numbered 1. These conditions are exact (`Failures.RestartKeepsIff`,
  `Failures.UnreadableFileIff`); `Failures` and `Boundary` follow other restarts.
- Messages are shorter than 2^32 bytes (`Deployments.SendArrivesIff`).
- Names generated in the protocol hold neither `|` nor a newline and are shorter
  than 2^32 bytes, and fewer than 2^64 - 2 entries are generated. For the text form
  and the server's recovery the effect of all other names is proved separately
  (`LogEntries.LineBackIff`, `LogServer.RecoveryIff`).
- The host is little-endian. Masks, shifts and `|` on the non-overlapping byte
  fields of `swap_endian` are written as remainders, products and sums.
- What uninitialised memory holds is a parameter (`Stale`) of every reader that
  can leave its target unset; results never depend on it on well-formed data.
- Outcomes of opening and renaming files, of `/proc` reads, of `send` and `recv`,
  the packets captured, and the integer CPU percentage are inputs.

## Where the code and its documentation disagree

- The repository's README.md:24 promises that the local log file prevents losing
  logs across crashes and shutdowns. A failed append is only reported, and a crash
  before its entry is delivered loses it and usually withholds everything after it
  (`Failures.CrashHarmlessIff`, `Failures.GapWithholds`). A log file that cannot be
  opened for reading when the client starts is emptied
  (src/client/log_queue.cpp:30-34), and all that was pending is lost. Otherwise the
  promise holds as long as a restart reads back the last entry or nothing was ever
  logged (`Protocol.NothingLost`, `Failures.RestartKeepsIff`); after a restart with
  nothing pending logs are withheld or lost (`Boundary.DeadAfterRestart`,
  `Boundary.LostAfterRestart`, `Boundary.GrowsAgainIff`).
- A comment at src/client/log_queue.cpp:122-123 says that the client listens to a
  server acknowledging less than before. It adopts the number, but the entries
  already dropped come back only with a restart, or from a batch that was still
  under way (`Rollback.StuckIff`, `Rollback.StrayBatchRestores`,
  `Rollback.HealsIff`).

## Model

| member | source | states |
|---|---|---|
| `Protocol.ExactlyOnceInOrder` | src/server/client_handler.cpp:100-108 | in every run with loss, duplication, reordering, restarts and the failing file operations the assumptions admit, the server's file is the lines of a prefix of the generated history, ids 1, 2, 3, ... |
| `Protocol.NothingLost` | src/client/log_queue.cpp:118-136 | in the same runs every entry not in the server's file is in the queue, and would be reloaded by a crash at that point if the log file can be read and the entry was logged after the last failed append |
| `Failures.CrashHarmlessIff` | src/client/log_queue.cpp:30-45 | after a restart the history still splits into the server's file and what is pending if and only if all was delivered, or the log file could be read and the last entry whose append failed was delivered |
| `Failures.RestartKeepsIff` | src/client/log_queue.cpp:15-49 | a restart keeps the invariant if and only if it reads back the last entry and the last entry whose append failed is in the server's file, or nothing was ever logged |
| `Failures.UnreadableFileIff` | src/common/util.cpp:55-57 | delivering a batch leaves the lines of a prefix in the server's file if and only if a file that is appended to could be read, or has no line, or the batch holds no entry numbered 1 |
| `Failures.GapWithholds` | src/client/log_queue.cpp:95-106 | if numbering goes on past an undelivered entry whose append failed and no batch under way carries it, in every run without another restart the server's file stays short of it and all later entries stay queued |
| `Failures.GapWithholdsIff` | src/server/client_handler.cpp:100-108 | the server's file stays short of it in all those runs if and only if no batch under way carries it |
| `Failures.LastAppendForgotten` | src/client/log_queue.cpp:46-48 | if only the last entry's append failed and no batch under way carries it, the restarted system is a good state of the history without that entry, whose number is used again |
| `Protocol.ServerFileGrows` | src/server/client_handler.cpp:90-108 | along any run the server's file is only ever extended |
| `Protocol.StepKeeps` | src/client/log_queue.cpp:95-138 | every step keeps the protocol invariant: what is queued or under way goes on from the server's file, acks are no higher than it, and the log file holds all later entries but the missing one |
| `Protocol.RestartKeeps` | src/client/log_queue.cpp:15-49 | such a restart keeps the invariant, whatever the ack file says, readable or not, with or without compaction |
| `Protocol.FilesReopened` | src/client/client_logger.cpp:8-9 | opening the files and destroying the copied constructor parameter, which may compact the log file, leaves files that hold what a later reload needs, if the log file could be read |
| `Failures.RestartNumberingIff` | src/client/log_queue.cpp:46-48 | numbering continues after a restart if and only if the last entry is reloaded or nothing was ever logged; from an unreadable log file it starts at 1 |
| `Progress.RoundTripMoves` | src/client/client.cpp:148-158 | from any reachable state with n entries logged, p queued and a batch of b, a lossless round trip ends with max(s, n - p + b) entries delivered and exactly the rest queued |
| `Progress.RoundTripIsARun` | src/client/client.cpp:143-158 | the round trip is a run of the protocol, if the message fits its frame |
| `Progress.DrainsExactly` | src/client/log_queue.cpp:108-136 | k round trips empty a queue of fewer than 2^32 entries, all undelivered, exactly when 100 k reaches its length, and then everything is delivered |
| `Progress.DrainsFromAnywhere` | src/client/log_queue.cpp:108-136 | 1 + ceil(pending / 100) round trips suffice wherever stale acks left the marks |
| `Progress.DrainsEverIff` | src/client/log_queue.cpp:109-110 | from any reachable state, some number of lossless round trips drains the queue if and only if it holds fewer than 2^32 entries, or the first trip moves and leaves fewer |
| `Progress.SilentIff` | src/client/log_queue.cpp:109-110 | a round trip does nothing exactly when the queue's size is a multiple of 2^32, empty or not, because the size is narrowed |
| `Boundary.RestartSkips` | src/client/log_queue.cpp:16-48 | after a restart that reads back nothing past the server's last number, with nothing past it under way, the next number is one the server is past or its next, and the exchange goes on with the server's entries and the new ones past them |
| `Boundary.NewNumbersSkipped` | src/server/client_handler.cpp:100-108 | in every run after it without another restart, the server gets new entries past its number only, and what the queue holds above the server's number is exactly the rest of those |
| `Boundary.DeadAfterRestart` | src/client/client.cpp:148 | if at least 100 entries were acknowledged and the files can be read, no continuation without another restart adds to the server's file, and every new entry stays queued |
| `Boundary.GrowsAgainIff` | src/client/client.cpp:148 | with everything acknowledged and readable files, some run without another restart adds to the server's file if and only if fewer than 100 entries were |
| `Boundary.LostAfterRestart` | src/client/log_queue.cpp:119-129 | with everything acknowledged and readable files, in every run without another restart the queue holds all new entries or none with an old number, the latter once an ack got past them, the server gets only those past them, and a reload yields only those past the stored ack, all of them if every append succeeded |
| `Boundary.FirstAckUnblocks` | src/client/log_queue.cpp:119-129 | if the ack file could not be read, the first ack of the server's number leaves exactly what the server is going to take in the queue |
| `Boundary.AllAckedIsReached` | src/client/client.cpp:143-161 | for any number of entries some run from the first start ends with all of them acknowledged |
| `Boundary.OneTripLoses` | src/client/log_queue.cpp:119-129 | with fewer than 100 old entries and more new ones, one round trip does lose the first new entries |
| `Rollback.HealsIff` | src/client/log_queue.cpp:120-126 | after the server's file is cut back to k, its ack of k and a restart leave the queue with exactly entries k + 1 on if and only if the log file can be read and holds all of them, and the protocol's invariant holds again if and only if, besides, all that is under way goes on from k |
| `Rollback.StuckWithoutRestart` | src/client/log_queue.cpp:127-129 | without a restart, in every run, a server cut back (also to nothing) keeps exactly its k entries if entry k + 1 is neither queued nor under way |
| `Rollback.StuckIff` | src/server/client_handler.cpp:100-108 | with entry k + 1 gone from the queue, the server's file stays as it is in all those runs if and only if no batch under way carries it |
| `Rollback.StrayBatchRestores` | src/server/client_handler.cpp:100-108 | a batch going on from k takes the server to its last entry j, and the invariant holds again, with any marks, if and only if the queue holds all entries past j, the acks known, stored and under way are at most j, the log file holds all entries past j and the missing line, and all batches go on from j |
| `Deployments.Deployment.constructor` | src/client/client.cpp:137 | a first start is the protocol's initial state, and good |
| `Deployments.Deployment.GoodDelivers` | src/client/client.cpp:137-161 | in a good state of the running programs the history splits into the server's file and what is pending |
| `Deployments.Deployment.ClientLogs` | src/client/client.cpp:147 | logging, with any appends failing, is the Generate steps of the reports, and keeps a good state good if those are possible |
| `Deployments.Deployment.ClientSends` | src/client/client.cpp:148-156 | taking a batch and sending it is the step Send, or the client ends at a name that is too long; in a good state it does not |
| `Deployments.SendArrivesIff` | src/common/serializable.cpp:136-155 | the message, sent and received in any pieces, arrives whole if and only if that step is one of the protocol's |
| `Deployments.Deployment.ClientTick` | src/client/client.cpp:143-161 | a whole turn is the two in sequence |
| `Deployments.Deployment.ServerReceives` | src/server/client_handler.cpp:23-49 | the server's callback is the protocol's delivery of a batch; an enabled one keeps a good state good |
| `Deployments.Deployment.ClientReceives` | src/client/client_logger.cpp:10-27 | the client's callback is the protocol's delivery of an ack, keeps a good state good, and in one the client goes on |
| `Deployments.Deployment.ClientRestarts` | src/client/client.cpp:137 | constructing the logger from the files is the protocol's restart; an enabled one keeps a good state good |
| `Deployments.Deployment.NetworkLoses` | src/client/client.cpp:34-50 | a message lost on the way keeps a good state good |
| `Deployments.LoggingKeeps` | src/client/client_logger.cpp:30-70 | logging any reports with good names is a possible run, keeps the invariant and advances the numbering by their count |
| `LogServer.ClientHandler.HandleRecvLog` | src/server/client_handler.cpp:75-112 | the file and the reply are those of the recursive specification, on every payload, unreadable batches and files that cannot be read or appended to included |
| `LogServer.ClientHandler.OnMessage` | src/server/client_handler.cpp:23-49 | dispatch on the leading string; payloads that throw or are no log message change nothing |
| `LogServer.NothingHandled` | src/server/client_handler.cpp:31-94 | payloads without a readable leading string, with another one than "log", with unreadable entries, or with a file that cannot be appended to leave the file alone and are not answered |
| `LogServer.LastNumber` | src/server/client_handler.cpp:77-87 | the number is 0 without a readable last line, and otherwise the one parsed from it |
| `LogServer.AcceptedKeepsContiguous` | src/server/client_handler.cpp:100-111 | any batch keeps ids contiguous on 64 bits, and the ack is the number of entries in the file |
| `LogServer.AcceptedIsGreedyRun` | src/server/client_handler.cpp:100-108 | the accepted entries are the first occurrences, in order, of last + 1, last + 2, ... and the run is maximal |
| `LogServer.GreedyRunUnique` | src/server/client_handler.cpp:100-108 | there is only one such run |
| `LogServer.StatelessRefinesCounter` | src/server/client_handler.cpp:77-87 | over any messages whose names leave the id recoverable, with a file that can be read when it is appended to, recovering the id from the last line gives the file and replies of a server with a counter |
| `LogServer.CounterRefinedIff` | src/server/client_handler.cpp:77-87 | the replies to all messages are those of the counter if and only if the last entry's id is recoverable |
| `LogServer.RecoveredId` | src/server/client_handler.cpp:78-83 | the recovered number for every name: the last id, or with a newline the leading digits of the name's last line up to its first bar, or else what memory held |
| `LogServer.RecoveryIff` | src/server/client_handler.cpp:78-83 | the last id is recovered whatever memory held if and only if the last name has no newline or carries that id after its last one |
| `LogServer.AnyMessagesKeepTheFile` | src/server/client_handler.cpp:75-112 | from no file on, any such messages leave the lines of entries numbered 1, 2, 3, ... |
| `LogServer.CounterRunStaysContiguous` | src/server/client_handler.cpp:100-108 | over any messages the counter equals the log's length modulo 2^64 and old entries are never touched |
| `LogServer.NewlineNameForgesTheId` | src/server/client_handler.cpp:78-83 | for the entry numbered 3 named "x\n7" the recovered id is 7 |
| `LogServer.NewlineNameLosesTheId` | src/server/client_handler.cpp:78-83 | for the name "\n" the recovered id is whatever memory held |
| `LogQueues.LogQueue.constructor` | src/client/log_queue.cpp:15-49 | queue and files after opening, files that are missing or cannot be read, and are then created or emptied or not, as the specification function says |
| `LogQueues.LogQueue.AddLog` | src/client/log_queue.cpp:95-106 | the entry is last in the queue, and last in the file if it could be opened |
| `LogQueues.LogQueue.GetBatchLog` | src/client/log_queue.cpp:108-116 | the first min(batch, size on 32 bits) entries |
| `LogQueues.LogQueue.AckLog` | src/client/log_queue.cpp:118-136 | a repeated ack changes nothing; any other, also a smaller one, becomes the current ack, drops leading entries up to it, and is stored |
| `LogQueues.AckMeans` | src/client/log_queue.cpp:118-136 | an ack of the stored number changes nothing; any other is stored, and leaves the queue from its first entry above that number on |
| `LogQueues.LogQueue.CleanOldLogs` | src/client/log_queue.cpp:61-93 | a file over 10 MiB is replaced by the pending lines above the ack, if the temporary file and the renaming succeed |
| `LogQueues.LoadLines` | src/client/log_queue.cpp:37-45 | loading the lines of any safe entries yields exactly those above the stored ack, in order |
| `LogQueues.CompactionIff` | src/client/log_queue.cpp:80-84 | replacing the file by its entries above a leaves later reloads for ack b unchanged, whatever was appended since, if and only if no entry in between was dropped |
| `LogQueues.LoadThenClean` | src/client/client_logger.cpp:8-9 | a queue just loaded holds exactly the entries above the ack if the file could be read; its file is left alone up to 10485760 bytes and past that compacted, where the disk allows it, to exactly those entries |
| `LogQueues.LoadedLine` | src/client/log_queue.cpp:37-45 | of any file, line by line: what a line adds to the queue, empty, malformed and unfinished lines included, and that none stops the loading |
| `LogQueues.OpeningMeans` | src/client/log_queue.cpp:15-49 | missing files are created and unreadable ones emptied, the ack file with "0", the others untouched; ack, entries and next number in each case |
| `LogQueues.DestroyingMeans` | src/client/log_queue.cpp:51-93 | the last ack is stored; a log of at most 10485760 bytes stays, a larger one is replaced if the disk allows it |
| `ClientLoggers.ClientLogger.GenerateLog` | src/client/client_logger.cpp:30-70 | the queue grows by exactly the reports of the flat specification, numbered consecutively, and the log file as by adding them one by one, whichever appends fail |
| `ClientLoggers.LinesLogged` | src/client/log_queue.cpp:95-106 | the log file then grows by exactly the lines that could be written, in order, and is untouched if none could |
| `ClientLoggers.ReportedIff` | src/client/client_logger.cpp:36-68 | a report is made if and only if a configured program is among the totals and the total of that kind, the report's value, exceeds its threshold, with the four totals written out |
| `ClientLoggers.ReportsInOrder` | src/client/client_logger.cpp:34-67 | the reports are those of a strictly growing list of places, four for each configured program, and a place is in it exactly when its program is present and the written-out total exceeds the threshold |
| `ClientLoggers.LoggedMeans` | src/client/client_logger.cpp:34-67 | logging appends the reports in order, with this time and consecutive numbers on 64 bits, and touches nothing else of the queue |
| `ClientLoggers.AbsentNotReported` | src/client/client_logger.cpp:35-36 | a program without processes is never reported |
| `ClientLoggers.ClientLogger.OnMessage` | src/client/client_logger.cpp:10-27 | an "ack " message acknowledges its number; when the leading string cannot be read or does not start with these four bytes, queue and files are unchanged, and in the first case the client ends |
| `ClientLoggers.AckBack` | src/client/client_logger.cpp:17-24 | the client reads back exactly the number the server acknowledged |
| `ClientLoggers.AckNumber` | src/client/client_logger.cpp:18-24 | after "ack " the leading digits are the number; without digits, or past 64 bits, it is what memory held |
| `LogEntries.LineBack` | src/common/log_entry.cpp:29-52 | a text line parses back to its entry for all field values, consuming exactly that line, whatever memory held |
| `LogEntries.LineBackIff` | src/common/log_entry.cpp:29-52 | it does so if and only if the name holds neither a bar nor a newline |
| `LogEntries.DeserializeStr` | src/common/log_entry.cpp:33-52 | entry, return code and stream are those of the parsing function, malformed lines included |
| `LogEntries.FieldsParsed` | src/common/log_entry.cpp:37-52 | what any fields between bars parse to, missing, surplus and non-numeric ones included |
| `LogEntries.FieldsOf` | src/common/log_entry.cpp:37-52 | every line is fields between bars, so that `LogEntries.FieldsParsed` covers every line |
| `LogEntries.LineTaken` | src/common/log_entry.cpp:33-36 | what one call takes from the stream, and that an empty line or an exhausted stream sets nothing |
| `LogEntries.SerializeStr` | src/common/log_entry.cpp:29-32 | appends the entry's text line |
| `LogEntries.TextLineIs` | src/common/log_entry.cpp:29-32 | the line is the five fields in decimal with bars between them, the name verbatim, and a newline |
| `LogEntries.EntryBack` | src/common/log_entry.cpp:13-27 | an encoded entry decodes to itself and leaves any suffix unread |
| `LogEntries.EncodedEntryIs` | src/common/log_entry.cpp:13-19 | the encoded record field by field |
| `LogEntries.EntryPrefixThrows` | src/common/log_entry.cpp:21-27 | every strict prefix of an encoded entry is rejected |
| `LogEntries.VectorBack` | src/common/serializable.hpp:41-67 | an encoded vector decodes to the same entries and leaves any suffix unread |
| `LogEntries.VectorPrefix` | src/common/serializable.hpp:52-67 | a vector cut short is rejected, except when the cut is inside the count and stale memory completes it to zero |
| `LogEntries.LogMessageBack` | src/client/client.cpp:154-156 | a "log" message decodes to its tag and entries and leaves any suffix unread |
| `LogEntries.WriteVector` | src/common/serializable.hpp:41-50 | writes the count and the entries, or throws at the first name that is too long |
| `LogEntries.ReadEntries` | src/common/serializable.hpp:52-67 | reads as the specification does, including the unchecked count |
| `Serializable.SwappedLaws` | src/common/serializable.cpp:5-26 | byte swapping is an involution at every width and turns a little-endian memory image into the big-endian one, both ways |
| `Serializable.SwapEndian32` | src/common/serializable.cpp:5-8 | the mask-and-shift expression reverses the four bytes |
| `Serializable.SwapEndian64` | src/common/serializable.cpp:10-20 | the two loops over the byte array reverse the eight bytes |
| `Serializable.BigEndianAt` | src/common/serializable.cpp:28-54 | byte i of an n-byte number on the wire is its digit n - 1 - i to the base 256 |
| `Serializable.ReadStringBack` | src/common/serializable.cpp:56-75 | a written string reads back and leaves any suffix unread |
| `Serializable.StringPrefixThrows` | src/common/serializable.cpp:65-75 | every strict prefix of a written string is rejected |
| `Serializable.WriteString` | src/common/serializable.cpp:56-63 | writes the length-prefixed string, or throws and writes nothing when the length does not fit |
| `Bytes.FromCharsOfDecimal` | src/common/log_entry.cpp:40-50 | printing and parsing a number is the identity below the target's limit and leaves the target alone above it |
| `Bytes.FromCharsOf` | src/common/log_entry.cpp:40-50 | the number taken from any text |
| `Bytes.ExtractOf` | src/client/log_queue.cpp:28 | the number extracted from any text of white space, digits and a rest, empty, missing and too large ones included |
| `Framing.MoveOutcome` | src/common/serializable.cpp:105-134 | for any pieces the transfer loops end, with everything moved or a reported failure |
| `Framing.Socket.SendExact` | src/common/serializable.cpp:105-118 | puts exactly the transferred prefix of the data on the wire, all of it on success |
| `Framing.Socket.RecvExact` | src/common/serializable.cpp:120-134 | takes exactly the transferred prefix off the stream, all that was asked for on success |
| `Framing.StreamRoundTrip` | src/common/serializable.cpp:136-155 | any payloads, sent and received in any pieces, come out the same, in order, with nothing after them consumed |
| `Framing.FrameReceivedIff` | src/common/serializable.cpp:136-155 | the received message is the sent one exactly when its size is below 2^32; otherwise it is truncated |
| `Framing.ReceivedWhole` | src/common/serializable.cpp:120-155 | whatever arrives and fails, what is returned is a whole frame of the stream, and without failures nothing is only returned when the announced bytes are not there |
| `Framing.CutFrameIsLost` | src/common/serializable.cpp:120-134 | every strict prefix of a frame, before the connection ends, yields no message |
| `Framing.FrameSentPrefix` | src/common/serializable.cpp:136-143 | whatever fails, the wire holds a prefix of the frame, the whole frame exactly when nothing was thrown |
| `LastLines.GetLastLineOfFile` | src/common/util.cpp:54-94 | the backward scan returns, for every file, the last line after dropping trailing breaks, without carriage returns |
| `LastLines.DropMeaning` | src/common/util.cpp:67-73 | what is dropped is all breaks, and what is kept does not end in one |
| `LastLines.SegmentMeaning` | src/common/util.cpp:77-90 | what is returned has no newline and follows a newline or the start |
| `LastLines.LastLineIs` | src/common/util.cpp:54-94 | on whole lines followed by a piece of a line and breaks, the scan gives the piece without carriage returns |
| `LastLines.NoLastLine` | src/common/util.cpp:54-73 | a file of breaks only has no last line |
| `LastLines.WithoutCRIs` | src/common/util.cpp:84-85 | leaving out the carriage returns keeps all other bytes in order |
| `LastLines.LastIdOfLines` | src/server/client_handler.cpp:78-83 | the last line of a log file parses to the id of its last entry |
| `ProcessTables.ProcessTable.UpdateTable` | src/client/process_table.cpp:497-592 | the tables after an update, for any outcome of every read; unchanged if the first read throws |
| `ProcessTables.AlwaysAgrees` | src/client/process_table.cpp:534-591 | over any ticks, whichever reads throw, the three maps have the same keys |
| `ProcessTables.KeptIff` | src/client/process_table.cpp:534-591 | a pid is kept exactly when this tick read it successfully |
| `ProcessTables.UpdateRecords` | src/client/process_table.cpp:534-578 | for each reading, written out: when its pid is kept, and then its listing, percentage, memory, disk deltas, network usage, and what is remembered for the next tick |
| `ProcessTables.DeltasTelescope` | src/client/process_table.cpp:563-575 | whatever reads fail, a pid's reported disk deltas sum modulo 2^64 to the counters at the ends of its readable stretches, less what was on record before |
| `TopK.PrecedesIsKeyOrder` | src/client/process_table.cpp:644-749 | the eight-way comparator is the lexicographic order of one key |
| `TopK.StrictWeakOrder` | src/client/process_table.cpp:644-749 | it is a strict weak order for all eight types |
| `TopK.SingleMetricIsTotal` | src/client/process_table.cpp:648-728 | for the six single-metric types no two processes are left unordered |
| `TopK.NumberOrder` | src/client/process_table.cpp:648-655 | by CPU or memory the larger goes first, then the smaller pid |
| `TopK.CounterOrder` | src/client/process_table.cpp:656-729 | by one optional counter the readable goes first, then the larger, then the smaller pid |
| `TopK.SumOrder` | src/client/process_table.cpp:684-747 | by a total the readable goes first, then the larger sum on 64 bits, with equal sums unordered, and with nothing readable the larger pid |
| `TopK.GetSorted` | src/client/process_table.cpp:751-766 | rows of distinct listed processes with what the tables hold of them: all of them for limit 0 and limits past the table, else so many as the limit, sizes narrowed to 32 bits; in order, and no process left out precedes a kept one |
| `TopK.LeadingIsPrefix` | src/client/process_table.cpp:751-766 | for the six types a shorter answer is a prefix of a longer one, and equal lengths give equal answers |
| `TopK.AnswerUniqueIff` | src/client/process_table.cpp:684-699 | for every type and length an answer is the only one if and only if no two of its rows tie and no process left out ties with a kept one |
| `Usage.ProcessPackets` | src/client/network_processing.cpp:254-298 | each pid's counters are exactly the bytes of the TCP packets charged to it, absent when there are none |
| `Usage.AccountsMean` | src/client/network_processing.cpp:254-298 | written out: `send` is the sum on 64 bits of the lengths of the TCP packets from the local address whose source port is the pid's, `recv` of those from elsewhere to its ports, each absent exactly without such packets |
| `Usage.BytesToMean` | src/client/network_processing.cpp:254-298 | the same for the bytes charged to a set of pids |
| `Usage.GetMapProgramNameResource` | src/client/process_table.cpp:768-785 | for each program, the wrapped sums over its processes, in whatever order the table is walked |
| `Usage.TotalsMean` | src/client/process_table.cpp:768-785 | a program has totals exactly when a pid has its name, and the six totals are the sums over those pids, the percentage on 32 bits, the rest on 64, none absent |
| `Usage.Summands` | src/client/process_table.cpp:768-785 | what each process adds to the six sums |
| `Usage.TotalsUnique` | src/client/process_table.cpp:768-785 | those totals are determined by the table alone |
| `Usage.BytesConserved` | src/client/process_table.cpp:576 | the network totals of all programs add up, modulo 2^64, to the bytes of the packets charged to processes kept in the table |
| `Usage.PacketsToPids` | src/client/network_processing.cpp:254-298 | every charged byte belongs to exactly one process |

## Left out

- Sockets, packet capture, Windows tracing, the registry, opening `/proc` and the clock: foreign calls, represented by their outcomes.
- Building the port-to-pid map from socket inodes: it is a parameter of the packet accounting.
- The floating-point CPU percentage: its integer result is an input of each reading.
- Configuration parsing and storage, unit conversion, and vectors of strings or configuration entries: easy or library-bound.
- The event bus, input handling, client routing, connection and backoff loops, and the receive loop's failure count: plumbing.
- Data races on the queue, interleaved sends, partial file writes, and several clients behind one address: excluded by the assumptions.
- The temporary file a failed compaction leaves behind.
- Signs accepted by the stream extraction of the ack file: the program never writes them.
- Memory exhaustion when a vector's count is huge: the reservation before reading is not modelled.
- ClientLoggers.ClientLogger.OnMessage: when the leading string cannot be read, nothing on the way out of src/client/client.cpp:20-32 catches the exception and the client ends; the method reports that, and what happens to other threads' work then is not modelled.
- Deployments.Deployment.ClientTick: the logging of one turn is one step, and so is the sending; deliveries fall before, between or after the two, not inside.
- TopK.GetSorted: requires statistics for every listed process, where the source would throw; `ProcessTables.AlwaysAgrees` shows that no update leaves the table otherwise. The same goes for `Usage.GetMapProgramNameResource`.
- TopK.PartialSort: stands for the library call and is proved against its standard contract.
