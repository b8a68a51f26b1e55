# A verified model of the SOCKS proxy's core

The project models, in Dafny, the three connected parts of a SOCKS4/SOCKS5 proxy that carry its logic, and proves what
they do over all inputs and all runs.

* **Sessions, relay and admission** (`src/server.cpp`, `src/session.cpp`, `src/socks.cpp`, `src/stat_db_service.cpp`).
  `Lifecycle` is a transition system: accepts, the guard of `start_accept`, handshake tasks on pool threads, reads that
  complete or fail, the two handlers, the parts of `close()`, destructors, database errors. On it stand `Phases` (what
  every step keeps), `Admission` (the counter), `Blocking` (when the server stops for good), `Limit` (how many
  sessions are let in), `Progress` (what can still happen), `Forwarding` (which bytes arrive) and `Ledgers` (the
  statistics table). `Relay` is the same session as classes with updated fields, tied to the steps; `StatDb` is the
  table.
* **The handshakes** (`src/socks5.cpp`, `src/socks4.cpp`, `src/socks.cpp`, `src/string_utils.h`). `Socks5Spec` and
  `Socks4Spec` relate bytes, replies and connections and are proved against an encoder; the classes of `Socks5`, `Socks4`,
  `Socks` and `Session` read, reply and connect step by step and are proved against those specifications. `Wire` says
  the same byte by byte, in numbers. `Handshake` joins them to the first relayed byte, `IpText` is address printing
  against address reading.
* **The configuration file** (`src/ConfigReader.cpp`). `Words` is the whitespace normaliser, `Config` what a file means,
  `Format` says it character by character, `ConfigReader` is the object with its line loops, `RoundTrip` the two dumps
  read back.

What lies outside is a parameter: the bytes a client sends, which writes succeed, what the resolver and each endpoint
answer, which database calls fail. Runs of `Lifecycle` choose them step by step.

Where the code departs from what it seems meant to do, the model follows the code, and the exact law is proved:

* A failed accept lowers the session counter although it never raised it: every failed accept lets one more session in
  than the limit says (`src/server.cpp:39-48`, `src/session.cpp:209-231`).
* The guard compares the counter modulo 2^64, so a negative configured limit is a value the counter can fall to; then an
  empty server stops (`src/server.cpp:26`).
* The guard of `start_accept` spins on the thread that runs the handlers, so a server full of relaying sessions never
  moves again; with a limit of one the first accepted client blocks it (`src/server.cpp:24-28`).
* Byte counters are read back through 32 bits before each addition; so is the row id that `close` then marks, so the
  table and the sessions part as soon as a session with an id of 2^31 or more closes (`src/stat_db_service.cpp:129`,
  `src/stat_db_service.cpp:193`, `src/stat_db_service.cpp:202-203`).
* The port in the success reply has a high byte of zero (`src/socks5.cpp:237`), and `init` succeeds even when this
  reply cannot be written.
* The two bytes of an IPv6 group are not zero-padded, so some addresses are printed like others
  (`src/string_utils.h:45-47`).
* A position kept in an `unsigned int` is compared with `npos`: a configuration line without its delimiter is stored
  whole as tag and as value, and printed settings are misread once a tag comes within two characters of 2^32
  (`src/ConfigReader.cpp:105-113`).
* In a users block the line behind a login sets the password whatever its own tag says
  (`src/ConfigReader.cpp:168-206`).

## Model

| member | source | states |
|---|---|---|
| `Phases.StepHolds` | src/session.cpp:24-231 | every step of every thread keeps the invariant on references, phases and closing: a session not closed is held by its task, a read, the accept frame or the pending accept, and a close under way has done exactly what it has passed |
| `Phases.RunKeeps` | src/session.cpp:24-231 | so does every run, together with the counter being accepted sessions minus completed closes |
| `Admission.StepFailures` | src/server.cpp:39-48 | every step keeps: the sessions that failed accepts have had closed, and the one the io thread is busy with, are as many as the accepts that have failed |
| `Admission.CounterLaw` | src/server.cpp:24-48 | in every reachable state the counter is the live sessions minus the failed accepts of the run, but for one still being closed; never above the limit, below it while an accept is pending; live sessions are at most the limit plus the failed accepts |
| `Limit.StepCeiling` | src/server.cpp:24-48 | no step without a failed accept raises the value at which the guard will next stop |
| `Limit.LimitIsSharp` | src/server.cpp:24-48 | behind every run, as long as no further accept fails, at most so many sessions are live: the value the counter can still rise to and the accepts that have failed, but for one whose session is stranded in the guard; and a continuation reaches exactly that many |
| `Limit.CeilingIsLimit` | src/server.cpp:24-28 | that value is the limit unless the counter has fallen to 2^64 below it |
| `Limit.LimitHoldsIff` | src/server.cpp:24-48 | behind every run, the limit bounds the live sessions of all continuations without a failed accept if and only if no accept has failed so far; for a counter that has fallen to 2^64 below the limit, if and only if the failures are no more than the ceiling has fallen |
| `Phases.DecrementsOnce` | src/session.cpp:209-231 | the counter falls exactly when a session not yet counted out is, by one, and that is never undone, whichever of the two handlers, the accept frame and the destructor closes first |
| `Admission.FailedAcceptLowers` | src/server.cpp:39-48 | wherever an accept is pending and the io thread is free, its failure leads to a counter lower by one, or, if the counter is taken for the limit, to the guard spinning with that session |
| `Admission.CounterCanBeNegative` | src/server.cpp:39-48 | a run reaches a counter of minus one |
| `Limit.LimitCanBeExceeded` | src/server.cpp:24-48 | for every limit and every n with a sum below 2^64, a run with n failed accepts reaches n live sessions more than the limit |
| `Limit.EmptyServerStops` | src/server.cpp:24-48 | for every limit, a run of failed accepts alone after which the guard spins forever with no session live: two for a configured limit of -1 |
| `Blocking.StuckStep` | src/server.cpp:24-28 | while the guard spins and no other session can still end in its task, every enabled step leaves thread, counter, sessions closed and bytes relayed as they are |
| `Blocking.StuckForever` | src/server.cpp:24-28 | so does every continuation |
| `Blocking.OneEnds` | src/session.cpp:24-46 | another session that has not armed a read, or is being destroyed, has a continuation that ends it and lets the guard go |
| `Blocking.SpinEndsIff` | src/server.cpp:24-48 | in a reachable state with the guard spinning, some continuation leaves it if and only if there is such another session |
| `Blocking.LimitOneBlocks` | src/server.cpp:24-48 | with a limit of one, after a first accept that succeeds the guard spins in every later state: no second session exists and no byte of the client's is relayed |
| `Blocking.FullOfRelaysStops` | src/main.cpp:91 | full with every other session relaying or gone, the only handler thread spins in every later state and no byte is relayed again |
| `Progress.GuardIff` | src/server.cpp:26 | in numbers: the guard lets go iff there is no limit or the counter, modulo 2^64, is not the limit |
| `Progress.NoLimit` | src/server.cpp:24-37 | without a limit the guard never waits, and behind every run a continuation reaches at least n live sessions, for every n |
| `Progress.AnybodyCanCome` | src/server.cpp:33-48 | an accept can fail, or bring any client and any destination |
| `Progress.AnyReadCanHappen` | src/session.cpp:124-148 | a waiting read can fail, or bring any part of what is there that fits the buffer |
| `Progress.AnyWriteCanHappen` | src/session.cpp:195-207 | a write can succeed, or fail behind any part of its bytes |
| `Progress.AnyTaskCanHappen` | src/session.cpp:24-46 | a task can end in its handshake, and goes on, with or without a record, iff the client's stream is an admitted greeting and a payload |
| `Progress.HandlerClosesIff` | src/session.cpp:150-193 | a handler of a session not closed begins close() iff the read failed, brought nothing, or could not be forwarded; otherwise the bytes are at the other side and the next read waits |
| `Progress.HandlerOfClosed` | src/session.cpp:150-193 | a handler of a closed session writes, counts and starts nothing |
| `Progress.FailedReadClosesIff` | src/session.cpp:150-231 | behind every run, a session whose read has failed can be closed, with both sockets shut, its row let go of and itself counted out, if and only if the guard has not stopped for good |
| `Progress.ClosesNow` | src/session.cpp:150-231 | with the io thread free this lowers the counter by one |
| `Progress.FailedTaskCloses` | src/session.cpp:19-46 | a handshake that fails closes its session by itself, whatever the io thread does |
| `Progress.EverythingCanArriveIff` | src/session.cpp:124-207 | behind every run, all that the source of an open direction sends can still be delivered to the last byte, if and only if the guard has not stopped for good or it has been delivered |
| `Progress.AdmittedClientIsServed` | src/session.cpp:24-46 | at a free server with room for one more, an admitted client's whole payload can reach its destination and all that the destination sends the client |
| `Forwarding.FlowReads` | src/session.cpp:124-148 | a completed read keeps: delivered, the chunk in the buffer and what is unread make up the whole stream |
| `Forwarding.FlowWrote` | src/session.cpp:195-207 | a completed write keeps that, with the buffer empty |
| `Forwarding.FlowBroke` | src/session.cpp:195-207 | a failed write delivers at most a part of the buffer; what was delivered stays a prefix |
| `Forwarding.StepForwards` | src/session.cpp:124-207 | every step keeps this for both directions of every session |
| `Forwarding.EndToEnd` | src/session.cpp:24-46 | for every client stream that is an admitted greeting and a payload, every chunking and interleaving: the destination has received a prefix of the payload, all that was read but one buffer unless a write failed |
| `Forwarding.EndToEndDown` | src/session.cpp:137-193 | the same for what the destination sends to the client |
| `Forwarding.NothingWithoutGreeting` | src/session.cpp:24-46 | nothing sent by a client without an admitted greeting reaches a destination |
| `Forwarding.AcceptedEndToEnd` | src/server.cpp:39-48 | the same two statements from the accept on: whatever client and destination an accept brings, behind any run and before any continuation |
| `Ledgers.StepTable` | src/socks.cpp:6-51 | every step keeps: each row of this run belongs to one session and is active until a session that closes without an error marks it, the one whose id, cut to 32 bits, is the row's; its counters are what was reported, mod 2^32, and themselves exactly under the bounds of the accumulation law |
| `Ledgers.ActivityLaw` | src/stat_db_service.cpp:115-139 | in every reachable state, with database errors and ids of any size, a row is active iff it is of this run and no session that has closed without a database error has its id, cut to 32 bits |
| `Ledgers.OneOwner` | src/socks.cpp:6-51 | each row of this run is the row of exactly one session, which holds it and is not counted out, or is closed |
| `Ledgers.TableRefinesSessionsIff` | src/stat_db_service.cpp:50-139 | in every reachable state the active rows are exactly those that sessions hold or could not close, if and only if no session with an id of 2^31 or more has closed its row |
| `Ledgers.ActiveRowsAreExactIff` | src/socks.cpp:6-51 | without database errors the active rows are exactly those that sessions hold, if and only if no session with an id of 2^31 or more has let go of its row |
| `Ledgers.CountersAreExact` | src/session.cpp:195-207 | without database errors the counters of a session's row are the bytes of its completed writes by direction: mod 2^32 always, themselves iff those before the last report are below 2^31 and all below 2^63, so while all are below 2^31; zero if the lower 32 bits of the row's id are |
| `Ledgers.FrozenStep` | src/socks.cpp:6-33 | no step changes a row whose session has let go of it; only a row whose close was refused can still be marked inactive, and only if its id is below 2^31 |
| `Ledgers.ClosedRowsAreFinal` | src/socks.cpp:6-33 | nor does any continuation |
| `Ledgers.FinalOnceClosed` | src/socks.cpp:6-33 | the same between any two points of a run from the start |
| `Ledgers.RowStaysActive` | src/stat_db_service.cpp:129 | on every stored table whose next id is 2^31 or more, a run without any error on which the first session is admitted and closed, and its row stays active |
| `Relay.Socket.WriteAll` | src/session.cpp:195-204 | what a write adds to what the peer has received |
| `Relay.TcpServer.SpinInStartAccept` | src/server.cpp:24-28 | the guard passes at the first counter value with which the step Proceed is possible, and not before: at once without a limit, otherwise iff some value, modulo 2^64, is not the limit |
| `Relay.TcpServer.StartAccept` | src/server.cpp:24-37 | an accept is started iff the guard sees a value with which the step Proceed is possible |
| `Relay.TcpServer.HandleAccept` | src/server.cpp:39-48 | counter and hand-off are those of the steps Accept and AcceptError, the counter moves by as much as the number of live sessions, and the next accept is started as start_accept does |
| `Relay.TcpSession.ClientRead` | src/session.cpp:124-135 | a read is started only on an open socket |
| `Relay.TcpSession.ServerRead` | src/session.cpp:137-148 | the same for the other socket |
| `Relay.TcpSession.ClientHandle` | src/session.cpp:150-171 | if the read failed, brought nothing or cannot be forwarded, the session is closed, both sockets shut and the row let go of; otherwise the bytes are at the destination and the next read waits; all as in the transition system's steps |
| `Relay.TcpSession.ServerHandle` | src/session.cpp:173-193 | the same in the other direction |
| `Relay.TcpSession.WriteToSocket` | src/session.cpp:195-207 | true iff the write completed; then and only then the bytes are reported |
| `Relay.TcpSession.Close` | src/session.cpp:209-231 | the first call shuts both sockets, closes the row, counts the session out; later calls change nothing |
| `Relay.CloseStepsAreWhole` | src/session.cpp:209-231 | the three interruptible parts of close, uninterrupted, are what the method does |
| `Relay.HandlerStepsAreWhole` | src/session.cpp:150-193 | a handler's step, followed by the close it calls, is what the handler methods do |
| `Relay.Start` | src/session.cpp:24-46 | the handshake and the first reads: there is a relaying session iff the client is admitted, and it is the one the steps Greeted, ArmClient and ArmServer lead to |
| `StatDb.DatabaseService.constructor` | src/stat_db_service.cpp:36-48 | at the start every stored row is inactive and otherwise as it was |
| `StatDb.DatabaseService.Create` | src/stat_db_service.cpp:50-80 | a new active row under the next id, each text up to its first NUL in the column of its name, both counters zero, the other rows as they were; or an error and no change |
| `StatDb.DatabaseService.Update` | src/stat_db_service.cpp:82-113 | one counter of one row moves as the accumulation law says, or an error and no change |
| `StatDb.DatabaseService.Close` | src/stat_db_service.cpp:115-139 | the row with the id read back through 32 bits becomes inactive, or an error and no change |
| `StatDb.DatabaseService.SelectSession` | src/stat_db_service.cpp:141-164 | the row with its id and counters cut to 32 bits; an error when there is none |
| `StatDb.Int32Iff` | src/stat_db_service.cpp:193-203 | a number read from a row has the low 32 bits of the stored one, and lies in the range of an int |
| `StatDb.Int64Iff` | src/stat_db_service.cpp:90-106 | a sum is stored with its low 64 bits, in the range of a long long |
| `StatDb.StoredStep` | src/stat_db_service.cpp:94-101 | one update keeps a stored counter congruent mod 2^32 to the true total |
| `StatDb.AccumulationLaw` | src/stat_db_service.cpp:82-113 | after any interleaving of updates each counter is congruent mod 2^32 to the bytes reported for its row and direction, unchanged if there were none, and the rest of the row stays; a row whose id is cut to zero stays altogether |
| `StatDb.ExactIff` | src/stat_db_service.cpp:190-204 | the counter is the true total iff the total before the last report was below 2^31 and the total is below 2^63, or nothing was reported; for an id that is cut to zero, iff the total is zero |
| `StatDb.TotalIsLost` | src/stat_db_service.cpp:202-203 | 2^31 bytes and one more leave a counter that is not their total |
| `StatDb.ReportsCommute` | src/stat_db_service.cpp:82-113 | updates of different rows, or of the two directions of one row, can be exchanged |
| `StatDb.CloseHitsOwnRowIff` | src/stat_db_service.cpp:115-139 | close fails iff there is no such row or the id is cut to zero; otherwise it marks the row it was given iff the id fits 32 bits, and changes no row but that of the truncated id |
| `StatDb.CloseHitsAnotherRow` | src/stat_db_service.cpp:129 | a table on which closing row 2^32 + 1 marks row 1 instead |
| `Socks5Spec.SoundAndComplete` | src/socks5.cpp:54-209 | the request is read off a stream iff the stream is the encoding of an acceptable request and a rest; request and rest are the encoded ones |
| `Socks5Spec.LoginIff` | src/socks5.cpp:54-102 | the same for the username/password message, in the layout of section 2 of RFC 1929 |
| `Socks5Spec.TargetIff` | src/socks5.cpp:116-140 | the same for the three kinds of address; an empty domain name is none |
| `Socks5Spec.PortIff` | src/socks.cpp:78-86 | the same for the port |
| `Socks5Spec.CommandIff` | src/socks5.cpp:183-209 | the same for the command message, any command and reserved byte |
| `Socks5Spec.PrefixFree` | src/socks5.cpp:142-209 | two accepted transcripts in front of the same bytes are the same transcript |
| `Socks5Spec.NoPrefixAccepted` | src/socks5.cpp:142-209 | no proper prefix of an accepted transcript is accepted |
| `Socks5Spec.InitAfterNegotiation` | src/socks5.cpp:14-52 | the handshake in two parts, method and login first, is the handshake as a function of the whole stream |
| `Socks5Spec.Replies` | src/socks5.cpp:14-52 | in every run, failed writes included, the replies follow the grammar method, login, at most one final reply of 10 or 22 bytes; a success reply is there iff init returns true, and then the connection was made |
| `Socks5Spec.NoConnectBeforeLogin` | src/socks5.cpp:14-52 | a name is resolved only for a complete acceptable CONNECT request, and it is that request's; with authentication on only after a login with known credentials |
| `Socks5Spec.CompleteOutcome` | src/socks5.cpp:14-52 | on a complete request init goes on to connect iff the replies before the last are written and the command is CONNECT, and succeeds iff, moreover, the destination accepts |
| `Socks5Spec.ConnectsIff` | src/socks5.cpp:14-52 | init goes on to connect iff the stream is an acceptable CONNECT request and a rest and the replies that come before are written |
| `Socks5Spec.SuccessReplyDecodes` | src/socks5.cpp:211-245 | under section 6 of RFC 1928 the success reply decodes for every address type, to a zero address of the right width and the port mod 256, which is the bound port iff it is below 256 |
| `Wire.MethodAnswer` | src/socks5.cpp:142-181 | the first reply in every run: 5 and 2 (with authentication) or 0 (without) if the list on the wire offers it, 5 and 255 if not |
| `Wire.LoginOnWireIff` | src/socks5.cpp:54-90 | a login is read iff its bytes stand where section 2 of RFC 1929 puts them |
| `Wire.KnownIff` | src/socks5.cpp:88-91 | credentials are known iff a stored user is spelled, character by character, like the name on the wire, and its password like the password |
| `Wire.LoginAnswer` | src/socks5.cpp:91-102 | in every run a login is answered by 1 and a status, 0 iff the credentials are stored and 1 iff not; without a login there is no second reply |
| `Wire.CommandOnWireIff` | src/socks5.cpp:183-209 | a command is read iff its bytes stand where section 4 of RFC 1928 puts them |
| `Wire.GreetedOnWireIff` | src/socks5.cpp:14-21 | the handshake gets to the command iff the wire offers the method and, with authentication on, a stored login, and both are answered |
| `Wire.CommandAnswer` | src/socks5.cpp:247-289 | a complete command is answered by 7 unless it is command 1; else the name on the wire is resolved, as it is spelled there, and the reply is that of success or carries the number of the error |
| `Wire.BrokenCommandAnswer` | src/socks5.cpp:183-209 | 1 for another version, 8 for another type of address, nothing for a command that breaks off |
| `Wire.FailedWriteStops` | src/socks5.cpp:14-23 | a method or login reply that cannot be written is the last one |
| `Socks5.Socks5.Init` | src/socks5.cpp:14-52 | replies, resolved name, result, fields and unread bytes are those of the specification; the record is created on success only |
| `Socks5.Socks5.Negotiate` | src/socks5.cpp:14-20 | the part before the command: which replies it stops with, or what was read and what is left |
| `Socks5.Socks5.Execute` | src/socks5.cpp:22-51 | the part from the command to the reply |
| `Socks5.Socks5.Auth` | src/socks5.cpp:54-102 | a login on the wire is answered by 1 and 0 iff it is stored, by 1 and 1 iff not; true iff it is stored and the reply was written |
| `Socks5.Socks5.SendErrorResponse` | src/socks5.cpp:104-114 | one reply of ten bytes with the given code |
| `Socks5.Socks5.ReadAddress` | src/socks5.cpp:116-140 | the name of the address on the wire, spelled as it stands there, empty when there is none; an unknown type is answered |
| `Socks5.Socks5.CheckMethod` | src/socks5.cpp:142-154 | true iff a complete list on the wire offers 2 (with authentication) or 0 (without) |
| `Socks5.Socks5.SendMethodResponse` | src/socks5.cpp:156-165 | one reply of two bytes; true iff it could not be written |
| `Socks5.Socks5.ReadMethodRequest` | src/socks5.cpp:167-181 | the server's method is announced iff it was offered, 0xFF otherwise |
| `Socks5.Socks5.ReadCommandRequest` | src/socks5.cpp:183-209 | the fields are the request's and the rest is unread, or one of the two error replies, or none |
| `Socks5.Socks5.SendCommandResponse` | src/socks5.cpp:211-245 | the success reply for the address type read |
| `Socks5.Socks5.Connect` | src/socks5.cpp:247-289 | true iff the destination accepts; otherwise the reply carries the code of the error connecting ended with |
| `Socks4Spec.SoundAndComplete` | src/socks4.cpp:14-32 | a request is read iff the stream is the encoding of a port, four address bytes, a user id without zero bytes, and a rest; all are recovered |
| `Socks4Spec.UserIff` | src/socks4.cpp:23-31 | the user id is what stands in front of the first zero byte |
| `Socks4Spec.PrefixFree` | src/socks4.cpp:14-32 | two encoded requests in front of the same bytes are the same request |
| `Socks4Spec.NoPrefixAccepted` | src/socks4.cpp:14-32 | no proper prefix of a request is accepted |
| `Socks4Spec.Replies` | src/socks4.cpp:35-51 | one reply of 8 bytes iff a request was read; it carries 90 iff the connection to the address on the wire was made; init returns true iff that reply was written |
| `Wire.Request4OnWireIff` | src/socks4.cpp:14-32 | a request is read iff its bytes stand where SOCKS4 puts them |
| `Wire.Answer4` | src/socks4.cpp:34-51 | a request is answered by eight bytes with 90 or 91 in the second place, after the address and the port on the wire were resolved |
| `Socks4.Socks4.Init` | src/socks4.cpp:5-57 | reply, resolved name, result, fields and unread bytes are those of the specification; the record is created on success only |
| `Socks4.Socks4.ReadRequest` | src/socks4.cpp:14-32 | the fields are the request's and the rest is unread, iff there is a request |
| `Socks4.Socks4.ReadUserId` | src/socks4.cpp:23-31 | the bytes in front of the first zero byte, or an error when there is none |
| `Socks.Socks.Close` | src/socks.cpp:6-18 | a record is closed at most once, and let go of even when the database fails |
| `Socks.Socks.WriteStat` | src/socks.cpp:20-33 | a report reaches the row iff there is a record and the database works |
| `Socks.Socks.CreateRecord` | src/socks.cpp:35-51 | a new row that tells user, source and destination, each in its column, and its id; or no change |
| `Socks.Socks.CheckVersion` | src/socks.cpp:53-66 | one byte is consumed; true iff it is the version |
| `Socks.Socks.ReadPort` | src/socks.cpp:78-86 | big-endian, true iff two bytes are there |
| `Socks.Socks.ReadIPV4` | src/socks.cpp:88-96 | the dotted text of four bytes, empty iff they are not there |
| `Session.TcpSession.ReadByte` | src/session.cpp:73-80 | the next byte, or zero and an error |
| `Session.TcpSession.ReadBytes` | src/session.cpp:82-85 | exactly the bytes asked for, or an error with nothing left |
| `Session.TcpSession.WriteBytes` | src/session.cpp:87-90 | one more attempted write |
| `Session.TcpSession.Connect` | src/session.cpp:92-122 | endpoints are tried in order up to the first that accepts, whose local port is returned; it fails iff none does, with the last one's error, host_not_found for an empty list, the resolver's error if there is no list |
| `Net.DialledIff` | src/session.cpp:98-121 | the same for the specification of connect |
| `Handshake.Payload5Iff` | src/socks5.cpp:14-52 | a SOCKS5 client gets to relay a payload iff its stream is an admitted request and that payload |
| `Handshake.Payload4Iff` | src/socks4.cpp:5-57 | the same for SOCKS4 |
| `Handshake.PayloadIff` | src/session.cpp:48-70 | the same for a client of either version, from its first byte |
| `Handshake.FirstByte` | src/session.cpp:48-70 | the first byte is 5 or 4 and tells which handshake follows; any other ends the session |
| `Handshake.Start` | src/session.cpp:24-70 | what is left unread when relaying starts is that payload; a record exists iff it starts and the database works |
| `IpText.ToText` | src/string_utils.h:13-19 | the characters are the bytes, one by one and in order |
| `IpText.ToTextInjective` | src/string_utils.h:13-19 | so names and passwords of different bytes are different texts |
| `Text.DecimalNotation` | src/string_utils.h:34 | the digits of a number, the first ones standing for the tens |
| `Text.HexNotation` | src/string_utils.h:43-46 | the same in base 16, in lower case |
| `IpText.IPv4Notation` | src/string_utils.h:29-38 | four numbers in the order of the wire with dots between |
| `IpText.IPv6Notation` | src/string_utils.h:39-51 | eight groups of two unpadded numbers in the order of the wire with colons between |
| `IpText.IPv4RoundTrip` | src/string_utils.h:29-38 | the dotted text of any four bytes is read back as these bytes |
| `IpText.PairTextValue` | src/string_utils.h:43-47 | the text of two bytes is a group of RFC 4291 section 2.2, and its value |
| `IpText.IPv6RoundTripIff` | src/string_utils.h:39-51 | the text of 16 bytes is always a well-formed address, and it is these bytes' iff every pair has a zero high byte or a two-digit low byte |
| `IpText.IPv6InjectiveOnSurvivors` | src/string_utils.h:39-51 | two such addresses never share a text |
| `IpText.PairTextIff` | src/string_utils.h:43-47 | two pairs are printed alike iff they are the same or the two cuts of the same three digits |
| `IpText.IPv6SameTextIff` | src/string_utils.h:39-51 | two addresses are printed alike iff they are so pair by pair |
| `IpText.IPv6CollisionIff` | src/string_utils.h:39-51 | an address shares its text with another one iff one of its pairs can be cut at another place |
| `IpText.FormIpAddressString` | src/string_utils.h:29-53 | four bytes in the first form, sixteen in the second |
| `IpText.FormIPv4` | src/string_utils.h:32-38 | the loop builds the joined decimal octets |
| `IpText.FormIPv6` | src/string_utils.h:41-51 | the loop builds the joined hexadecimal pairs |
| `Words.Trim` | src/ConfigReader.cpp:211-221 | blanks at both ends are cut off, and all there are; the words stay |
| `Words.Reduce` | src/ConfigReader.cpp:223-242 | the replacements in place compute the words joined by single spaces |
| `Words.ReducedIdempotent` | src/ConfigReader.cpp:223-242 | reducing keeps the words and is idempotent |
| `Words.ReducedEqualIff` | src/ConfigReader.cpp:223-242 | two texts reduce to the same text iff they have the same words |
| `Words.ReducedFixesCanonical` | src/ConfigReader.cpp:223-242 | the results are exactly the texts with single spaces between words only |
| `Words.ReducedLaws` | src/ConfigReader.cpp:223-242 | a text without spaces and tabs stays; at a space or a tab the two sides are reduced and put together with one space, if both are left: this determines reduce |
| `Config.NoDelimiterStoresLine` | src/ConfigReader.cpp:105-113 | a line without its delimiter gives itself as tag, up to 2^32 - 1 characters, and as value |
| `Config.PasswordTagIff` | src/ConfigReader.cpp:187-206 | insisting on the tag of a password line would make no difference iff the line has no two fields, has that tag, or tells the password the user has already |
| `Config.FieldsArePlain` | src/ConfigReader.cpp:105-120 | what a line yields is reduced, not empty, and made of the line's characters; the tag has no delimiter |
| `Config.UsersStayStored` | src/ConfigReader.cpp:130-209 | every round of a users block keeps the form of stored entries |
| `Config.LinesStayStored` | src/ConfigReader.cpp:74-129 | so does every line outside one |
| `Config.ParsedIsStored` | src/ConfigReader.cpp:74-209 | for every file the entries are reduced, not empty, without comment signs, line ends and the brace that would end them, and tags without the delimiter |
| `Format.LinesLaws` | src/ConfigReader.cpp:87 | a newline ends a line, the last one may do without |
| `Format.CommentIsCut` | src/ConfigReader.cpp:89-92 | what counts of a line is the text in front of its first '#', without carriage returns |
| `Format.WithoutParts` | src/ConfigReader.cpp:92 | taking out a character leaves every other one in its place |
| `Format.CutLaw` | src/ConfigReader.cpp:105-113 | where a line is cut: at its first delimiter, both positions modulo 2^32 |
| `Format.BlankLine` | src/ConfigReader.cpp:94-95 | a line of blanks and a comment does nothing, inside and outside a users block |
| `Format.SettingLaw` | src/ConfigReader.cpp:89-126 | any line with '=', comment and carriage returns included, assigns the reduced value to the reduced tag, or does nothing when one is empty |
| `Format.BlockOpens` | src/ConfigReader.cpp:97-104 | a '{' in front of the comment opens a users block |
| `Format.BlockEnds` | src/ConfigReader.cpp:151-154 | a '}' in front of the comment ends it |
| `Format.OtherEntry` | src/ConfigReader.cpp:166-169 | an entry that is no login, or lacks a field, is skipped |
| `Format.LoginIsLost` | src/ConfigReader.cpp:170-175 | a login at the end of the file is lost, and one in front of a line with a '}', even in a comment, which ends the block |
| `Format.LoginLaw` | src/ConfigReader.cpp:170-206 | the second field of the line behind a login is that user's password; without one both lines are lost |
| `Format.UserLaw` | src/ConfigReader.cpp:155-206 | two entries, a login and one with any tag behind it, with comments and carriage returns wherever, set that user's password |
| `Format.CommentsDoNotCount` | src/ConfigReader.cpp:74-209 | taking all comments and carriage returns out of a file does not change its meaning, provided no line has a '}' in its comment alone |
| `RoundTrip.SettingFields` | src/ConfigReader.cpp:244-251 | a printed setting is cut into its tag and value, or what it becomes as the tag nears 2^32 characters |
| `RoundTrip.SettingRound` | src/ConfigReader.cpp:244-251 | read back it has the effect of one assignment |
| `RoundTrip.AnyTagSetsPassword` | src/ConfigReader.cpp:187-206 | whatever its tag, the line behind a login line sets that user's password |
| `RoundTrip.AnyTagInFile` | src/ConfigReader.cpp:130-209 | so it does in a whole file |
| `RoundTrip.UserRound` | src/ConfigReader.cpp:252-259 | a printed user read back has the effect of one assignment, always |
| `RoundTrip.SettingsRoundTripIff` | src/ConfigReader.cpp:244-251 | for every file, parsing the printed settings rebuilds them iff all tags are shorter than 2^32 - 2 characters |
| `RoundTrip.SomeFileHasLongTag` | src/ConfigReader.cpp:105-113 | there is a file whose settings have a longer tag |
| `RoundTrip.UsersRoundTrip` | src/ConfigReader.cpp:252-259 | for every file, the printed users between brace lines parse back to the same users |
| `RoundTrip.FullRoundTripIff` | src/ConfigReader.cpp:244-259 | both dumps in one file give the whole configuration back, under the same condition |
| `Format.PrintedSettingWithComment` | src/ConfigReader.cpp:244-251 | a printed setting with blanks, carriage returns and a comment behind it is read back as that assignment |
| `Format.PrintedUserWithComments` | src/ConfigReader.cpp:252-259 | so is a printed user |
| `Format.SettingsTextLaw` | src/ConfigReader.cpp:244-251 | the printed text, setting by setting |
| `Format.UsersTextLaw` | src/ConfigReader.cpp:252-259 | the printed text, user by user |
| `Format.LessIff` | src/ConfigReader.cpp:246-258 | the order in which they are printed: by the first difference |
| `ConfigReader.InputFile.GetLine` | src/ConfigReader.cpp:83-86 | the next line of the stream, false at its end |
| `ConfigReader.ConfigReader.constructor` | src/ConfigReader.cpp:74-129 | a new reader holds what its file means |
| `ConfigReader.ConfigReader.HasUser` | src/ConfigReader.cpp:63-72 | true iff the user is stored with that password |
| `ConfigReader.ConfigReader.Cut` | src/ConfigReader.cpp:105-116 | the two reduced sides of a line, with the position cut to 32 bits |
| `ConfigReader.ConfigReader.ParseFile` | src/ConfigReader.cpp:74-129 | the maps afterwards are those the file's lines leave on top of the old ones; a file that cannot be opened changes nothing |
| `ConfigReader.ConfigReader.ParseLine` | src/ConfigReader.cpp:86-126 | one line, with the users block it may open read from the same stream |
| `ConfigReader.ConfigReader.FillUsers` | src/ConfigReader.cpp:130-209 | users and unread lines are those behind the block |
| `ConfigReader.ConfigReader.FillRound` | src/ConfigReader.cpp:137-206 | one round of the block |
| `ConfigReader.ConfigReader.SetPassword` | src/ConfigReader.cpp:181-206 | the password line's effect on the user named before |
| `ConfigReader.ConfigReader.DumpFileValues` | src/ConfigReader.cpp:244-251 | one line a setting, in the order of the map |
| `ConfigReader.ConfigReader.DumpUsersValues` | src/ConfigReader.cpp:252-259 | two lines a user, in the order of the map |

## Left out

- Relay.TcpServer.SpinInStartAccept: sequential code cannot wait for a variable other threads change, so it reads a given sequence of values; the waiting itself is the step `Proceed` of Lifecycle.
- Relay.TcpServer.StartAccept: the same.
- Relay.TcpServer.HandleAccept: the same.
- Socks5.Socks5.Init: what is left unread after a handshake that fails, since nobody reads it.
- Interruption: handlers are one step on the io thread; only `close` is cut into its parts. Data races on socket objects are not modelled.
- The number of pool threads and their scheduling: a task's steps are possible continuations, never promised ones.
- Exceptions of `remote_endpoint` and `local_endpoint` inside a handshake: in Lifecycle they are the step PoolEnd, in the parser modules they do not occur.
- Overflow of the atomic session counter and exhaustion of row ids.
- Greeted steps of Lifecycle carry arbitrary addresses for the new row; that they are the request's is Socks.Socks.CreateRecord and Handshake.Start.
- A client's stream during the handshake is finite, and reading behind its end is an error; timeouts and peers that never send are not modelled.
- Socks5 and Socks4 hold the common part as an object instead of inheriting from it.
- Boost.Asio, the resolver, SQLite and the C++ streams themselves: their outcomes are parameters.
- Characters are single units; a byte above 127 compares as its unsigned value in the map's order.
- Dates of rows, `selectAll`, the `getValue` overloads, `formIpAddressReverseString`: easy, or never called.
- Logging, the user interface, services, installers and path handling.
