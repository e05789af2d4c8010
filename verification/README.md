# A replicated name service, in Dafny

The program is a small name service: a router that lists DNS servers, watches that they are alive and
spreads requests over them; servers that each hold a copy of one table and keep the copies equal by
pushing numbered updates to each other; and a scoreboard that matches answers to requests. This project
models the parts whose correctness is not visible in any one function, and proves what they keep.

| file | what it holds |
|---|---|
| `Protocol.dfy`, `Agreement.dfy`, `Diagnosis.dfy` | updates, joins and removals as a step system; what every run keeps |
| `Disorder.dfy` | runs on which one of the conditions for agreement fails, and what they end in |
| `Attempt.dfy`, `Recovery.dfy`, `UpdateHosts.dfy` | one call of `update_hosts` on the servers' objects, proved to be a run of that system |
| `Join.dfy`, `Net.dfy` | one call of `update_and_online` on the servers' objects, proved to be a run of it too; the objects by port |
| `Coms.dfy`, `Wire.dfy`, `HostsFile.dfy`, `Replicas.dfy` | one server's table and version; the update frame, the table transfer, the hosts file |
| `Router.dfy`, `Membership.dfy`, `Scheduling.dfy` | the member array, the liveness sweep, the two selection modes |
| `Scoreboard.dfy`, `Reorder.dfy` | the reorder buffer and what its log is after any history |
| `Dns.dfy`, `QueryPath.dfy` | the DNS message codec; a query from its bytes to its score |

`dafny verify dfyconfig.toml` checks all of it.

## The protocol and its assumptions

A state holds the router's session lock (`src/router.c:87-115`), the member list, every server's
(table, version), the frames in flight, and the place the coordinator or the joiner has reached. A run
is any sequence of enabled steps. Frames outlive the coordinator that sent them: it may die or give up
at any point, and the frame it left behind may be handled much later or be lost.

- Messages arrive whole, or the contact with that peer fails and the failure is noticed: a connection
  that the other side closes counts as a lost contact. The code notices only errors (see below).
- Updates are ones a frame can carry: domain and address are non-empty, free of spaces and terminators,
  and fit the 128-byte buffer with the rest of the frame (`Wire.Pushable`). The initial table has such
  entries too. `Agreement.FormatsCarryTheRun` proves what this buys: along every run each frame in flight
  is read back as what was sent, and every listed server can serve a joiner.
- A server handles one connection at a time (`src/coms.cc:72-94`), so it answers a version request or
  serves a transfer only when no earlier frame is waiting for it, and at most one frame is in flight to it.
- An interrupted update is retried with the same operation and id before a different one begins
  (`src/generator.c:142-145`); consecutive ids differ as bytes and the first is not 0, the version
  every server starts with (`src/coms.cc:135`).
- At most 254 servers are listed when one joins.
- Listed servers have distinct ports. All servers listed at the start have read the same hosts file.
- "Skips no peer" means that `own_port` and `fail` skip at most the coordinator itself. Attempts that
  skip others are runs too; they just do not count as completing the update.

These are conditions for a step to be taken. Four more are not checked by any server, so the steps are
taken without them and the agreement statements ask for them (`Protocol.OrderlyRun`):

- a coordinator has no frame of a different update waiting for it (`Disorder.WaitingFrameUndoes`),
- a joiner has no frame waiting for it (`Disorder.WaitingFrameJoins`),
- a joiner is not listed already (`Disorder.RejoinCopiesItself`),
- a joiner that is listed had copied at most 255 entries (`Disorder.OversizedJoin`).

The lemmas named are runs that end in disagreement, or short of the newest replica, where one of these
fails. The last two are exact: `Agreement.JoinMissesNothing` proves that a hand-over keeps the listed
servers agreeing if and only if the donor has at most 255 entries, and `Agreement.RejoinAgrees` when a
server that joins again does.

The agreement statements are about listed servers. A server that the router has removed may coordinate;
its own copy is claimed only if it had not fallen behind (`Agreement.CoordinatorEndsUpToDate`).

## Where the code differs from what one would expect

- The count that opens a table transfer is 8 bits wide, so a transfer is exact for tables of at most
  255 entries and for no others: `Wire.TransferExact` proves both halves, `Wire.TransferOfBigTable` is an
  instance with 256 entries, and `Disorder.OversizedJoin` a run of the protocol that ends in disagreement.
- A joiner does not check that the count and the version of a transfer arrived (`src/coms.cc:170`, `202`).
  `Join.CopyFrom` says what a transfer taken for a success leaves in every case, and that it is all the
  donor holds if and only if `Join.GetsAll`: everything arrived and was counted, or what was lost happens
  to be in the joiner's variables already. `Join.LossesGoUnnoticed` has an instance for either loss.
- A joiner that waits for an entry notices errors only (`src/coms.cc:180`). If the donor closes the
  connection there instead, the loop goes on to test the byte before its buffer; `Coms.Coms.RequestHosts`
  counts that as a lost contact, with code 3.
- Nothing keeps a server that is still listed from joining again. It is then listed twice, and if it asks
  itself before any other donor answers it copies the table it has just cleared: `Agreement.RejoinAgrees`,
  with the instance `Disorder.RejoinCopiesItself`.
- A coordinator takes a closed connection for an answer (`src/coms.cc:283`, `295` test for errors only),
  and a peer that times out closes without applying the update (`src/coms.cc:222-224`): it is counted as
  pushed. `Recovery.CallRecovers`: a call that runs to its end has brought everyone up to date exactly
  when no stale peer was passed over or closed its connection; `Recovery.HangUpIsTakenForAPush` is an
  instance that returns 0. A peer that closes before sending its version is judged by what the
  coordinator's variable held: `Attempts.CallDiagnosesStart` proves when the return code is right
  nevertheless, and `Attempts.HangUpMisdiagnoses` is a call whose code is wrong.
- Server ids are 16 bits wide and pongs 8. `Membership.SweepIsFilter`: the liveness sweep is the filter
  it is meant to be exactly when every silent server's id fits in a byte. Otherwise some
  `remove_server` call does not find its server; it returns with both mutexes locked
  (`src/router.c:205-207`), which `Routing.Router` records in `held`. `Membership.WideIdIsNeverSwept` is
  an instance with the single id 256.
- The OVERLOAD counter is 8 bits wide: the pattern of 2n requests holds for n up to 128 and for no larger
  n (`Scheduling.OverloadShare`). Above that its length is 256.
- A datagram of 64 bytes can carry a name of 48, and the response to it is 65 bytes long in a buffer of 64
  (`src/dns_server.c:81-82`). `QueryPath.AcceptedNameFits`: a response fits exactly when the name is not
  48 bytes long; `QueryPath.OverrunningDatagram` is such a datagram. The model answers it with `Overrun`.
- `parse_hosts_file` ignores its argument and opens `hosts.txt`, while updates write `hosts<id>.txt`
  (`src/file_utils.cc:5`, `src/coms.cc:334`); the model works on file contents.
- The DNS parser reads `qtype` and `qclass` from one offset. Its scan stays inside a message if and only
  if the message has a terminator after its header (`Dns.ScanStopsInside`); otherwise it looks at one byte
  past it, which for a message of 64 bytes is past the receive buffer (`Dns.ScanLooksPastBuffer`). The
  result does not depend on that byte.
- The test for no servers in `forward_request` comes after the divisions by the count
  (`src/router.c:170-182`): with no server listed it divides by zero.
- The router counts servers in 8 bits: adding the 256th wraps the count to 0, loses the list, and writes
  before its start (`src/router.c:61-63`).
- A walk over bytes that are no frame leaves the receive buffer (`src/coms.cc:228-247`). Frames that a
  coordinator sends are all read inside it (`Agreement.FormatsCarryTheRun`).
- The scoreboard ignores the parser's error code (`src/scoreboard.cc:70-72`): a message too short for a
  header is scored with the header before it.

## Model

| member | source | states |
|---|---|---|
| Agreement.ReplicaAgreement | src/coms.cc:250-325 | over every orderly run: once an update session completes skipping no peer, and until a different update begins, every listed server maps each domain to the address the last update naming it gave, lacks it if that update removed it, has it as at the start if none named it, and is at that session's id |
| Agreement.AllHoldTheFold | src/coms.cc:250-325 | the same as one replica: the fold of every update begun so far, oldest first, over the initial one |
| Agreement.BegunAre | src/generator.c:142-145 | the updates begun so far are exactly those some step begins, and none follows itself |
| Agreement.InterruptedUpdateRecovers | src/coms.cc:269-299 | however often and wherever attempts at an update stop, each listed server holds the replica from before it or that one with the update applied, and these differ; the first attempt that completes leaves only the second |
| Agreement.JoinMissesNothing | src/dns_server.c:88-126 | when the router is about to add a joiner, the donor is still listed and lacks no update that completed; the joiner equals it, and the servers listed afterwards agree as before, if and only if the donor has at most 255 entries; the list stays free of duplicates |
| Agreement.FormatsCarryTheRun | src/coms.cc:96-248 | along every orderly run each frame in flight parses back to its update whatever follows it in the buffer, every listed table keeps entries a transfer can carry, and any listed server's transfer can be received in any walk order |
| Agreement.RejoinAgrees | src/dns_server.c:106-124 | a listed server that joins again is listed twice; the list agrees afterwards if and only if the server it copied has at most 255 entries, or, if it copied itself, had none |
| Disorder.WaitingFrameUndoes | src/coms.cc:208-299 | a run on which a coordinator with an older frame waiting completes the next update and is then set back by that frame, with nothing left in flight |
| Disorder.WaitingFrameJoins | src/dns_server.c:106-124 | a run on which a joiner with an older frame waiting copies the newest replica and falls back once it is listed |
| Disorder.RejoinCopiesItself | src/coms.cc:158-206 | a run that lists a server twice, with an empty table, whatever table the servers started from |
| Agreement.InvStep | src/router.c:84-118 | the system invariant (two-state members, harmless frames, an open session's contacts up to date, a joiner equal to its donor or at least 256 entries short of it) is kept by every orderly step of every kind |
| Agreement.CoordinatorEndsUpToDate | src/coms.cc:271-303 | an attempt that reaches its end has brought its coordinator up to date too, listed or not, if it started from one of the two replicas the listed servers hold |
| Diagnosis.ReturnCodesDiagnose | src/coms.cc:305-314 | the value a completed update returns is 0, 6, 8 or 9 exactly when coordinator and contacted peers were stale or fresh as each says before the session; never 10 |
| Diagnosis.CoordinatorCommitsLast | src/coms.cc:271-299 | at every point of an attempt by a stale coordinator that passes over just itself, by port or by `fail`, it holds the new id only if every listed server does; the attempt returns 0 or 8, and an abort before its own write leaves it stale |
| Diagnosis.RetryNeverFindsItselfFresh | src/coms.cc:298-312 | after such an abort, whatever joins, removals and late deliveries follow, the same coordinator's retry returns neither 6 nor 9 |
| Diagnosis.SessionFreezesMembership | src/router.c:87-115 | from the list read to the end of an update session the member list, and all the session was opened with, stay the same |
| Attempts.CallIsRun | src/coms.cc:250-315 | one call, with any pattern of lost contacts that it notices, is an enabled run of the step system ending in the call's replicas and return value |
| Attempts.CallReportsAcks | src/coms.cc:269-314 | a call that does not return 1 returns 0, 6, 8 or 9 exactly as its coordinator was stale or fresh and as what it heard of the contacted peers was, whoever closed the connection |
| Attempts.CallDiagnosesStart | src/coms.cc:269-314 | that code diagnoses the replicas the call started from if and only if the peers' versions and what was heard of them agree on the one question the code answers; always when each acknowledgement heard is the peer's version |
| Attempts.HangUpMisdiagnoses | src/coms.cc:282-288 | a particular call that returns 8 although no peer had the update |
| Recovery.CallRecovers | src/coms.cc:250-315 | a call made after any interrupted attempts keeps every listed server and the coordinator in one of the two replicas; one that does not return 1 leaves all of them in the second if and only if it missed no stale peer, by skipping it or by its closing the connection |
| Recovery.PeerEndsAs | src/coms.cc:273-296 | a peer with the own port or at position `fail` keeps its replica; a stale one that is asked and answers to the end has, after a call that does not return 1, exactly the update's change and its id |
| Recovery.CodeOneIsALoss | src/coms.cc:283-295 | a call returns 1 if and only if some peer it asks is lost before its version arrives, or is stale and lost before its reply to the push |
| Recovery.CoordinatorEndsAs | src/coms.cc:298-299 | a coordinator the loop does not reach is untouched by a call that returns 1 and at the update's id after any other |
| Recovery.FailLeavesOneStale | src/coms.cc:274-275 | a particular call with `fail` at a third server returns 0 and leaves exactly that server stale |
| Recovery.HangUpIsTakenForAPush | src/coms.cc:283-296 | a particular call that returns 0 although its one peer closed the connection and still lacks the update |
| UpdateHosts.UpdateHosts | src/coms.cc:250-315 | the loop on the servers' own objects and frame bytes leaves exactly the replicas of that call and returns its code, 3 before any session and 1 when the router or a peer is lost, the former with nothing changed; with distinct ports a server with the own port or at position `fail` is untouched, and any other that answers to the end is at the id unless the code is 1 |
| UpdateHosts.ContactPeer | src/coms.cc:273-297 | one peer's turn: passed over for its port or its position, found fresh, pushed, lost before or after the push, or closed by the peer and counted as an answer; what each does to the peer and to the two flags |
| Replicas.ReplayMeans | src/coms.cc:317-325 | what a history of updates leaves: per domain, the last update naming it decides presence and address; the version is the last id |
| Replicas.ApplyTwice | src/coms.cc:317-325 | applying an update a second time changes nothing, table or version |
| Wire.FrameRoundTrip | src/coms.cc:228-247 | for every flag, every id byte and all separable fields, with anything after the frame in the buffer, the receiver's walk recovers the update that was sent |
| Wire.FrameParts | src/coms.cc:292-293 | the frame byte for byte: the digit 1 or 0, the two fields between spaces, the id, the terminator |
| Wire.CutsFromBytes | src/coms.cc:229-245 | where the walk cuts any bytes it can follow: the first space from byte 1 on, and twice the next one past the first byte of a field |
| Wire.FieldsFromBytes | src/coms.cc:228-247 | what it reads from them: a removal exactly for the digit 1, each field up to its cut or first terminator, and the byte after the last space |
| Wire.WalkFrame | src/coms.cc:228-247 | the walk cuts the buffer in place and reads the update the frame carries, or leaves the buffer exactly when the bytes are no frame |
| Wire.TransferExact | src/coms.cc:96-118 | whatever order the donor's table is walked in, the receiver ends with exactly its table and version if and only if it has at most 255 entries; otherwise at least 256 of them are missing |
| Wire.TransferLosesEverything | src/coms.cc:97-118 | any table of 256 entries arrives as an empty one, its version a byte of the first name sent |
| Wire.TransferOfBigTable | src/coms.cc:97-118 | a particular table of 256 short entries that arrives as nothing at version 79 |
| Wire.ReceiveAll | src/coms.cc:168-205 | a receiver that counts every entry lays exactly the donor's table over what it had, and takes the version sent after it |
| Wire.ReceiveSome | src/coms.cc:168-205 | a receiver whose count falls short misses the entry after the last one counted, mistaking it for the version |
| Wire.EntryFromBytes | src/coms.cc:187-194 | any entry the receiver can walk is cut at the first space from byte 1 on, each half up to its first terminator |
| Coms.EntryIgnoresJunk | src/coms.cc:171-194 | what an earlier message left in the receive buffer makes no difference to the entry cut from it |
| Coms.Coms.RecieveUpdate | src/coms.cc:208-248 | the peer's table and version become those of the update in its buffer and its file reloads to its table; exactly when the bytes are no frame the walk leaves the buffer instead |
| Coms.Coms.ActuallyUpdate | src/coms.cc:317-325 | the version is the id; the domain is gone if it is a removal and has the address otherwise; every other domain is as before; afterwards the written file, parsed and loaded, rebuilds the table |
| Coms.Coms.WriteHostsFile | src/coms.cc:332-339 | the file is the table printed in some walk order, and for space-free entries reloads to it |
| Coms.Coms.SendEntireFile | src/coms.cc:96-118 | the messages sent are the count in 8 bits, each entry once as domain, space, address and terminator, and the version; a receiver recovers table and version when the table has at most 255 entries |
| Coms.CodeFromFault | src/coms.cc:158-206 | the five codes, each with exactly the losses that lead to it |
| Coms.Coms.RequestHosts | src/coms.cc:158-206 | the code for every place at which contact can be lost by an error (a close while an entry is awaited is counted as one), and what each leaves; a success is the whole table and version of the stream with nothing older, except that a lost version is replaced by what the variable held and a lost count can leave the table empty |
| Coms.Coms.constructor | src/coms.cc:120-139 | the table has exactly the domains of the hosts file's pairs, each with the address of its last pair, at version 0 |
| Coms.Coms.TranslateIp | src/coms.cc:150-156 | an address is found exactly for the domains in the table, and is the one stored there |
| Join.UpdateAndOnline | src/dns_server.c:88-126 | the donors are asked in order until a transfer succeeds, nothing from failed ones remaining; what the joiner then holds, in every case, and that it is all the donor holds if and only if `GetsAll`; from any state with the router free the call is an enabled run that lists the joiner exactly when it returns 0 and ends in the servers' replicas, save what an unnoticed loss did to the joiner's |
| Join.CopyFrom | src/coms.cc:158-206 | one donor's transfer changes the joiner only; a failure leaves the old version; a success leaves the donor's copy, with the version variable's contents if the version was lost, or nothing but those if the count was, and equals the donor exactly when `GetsAll` |
| Join.LossesGoUnnoticed | src/coms.cc:170-205 | for a donor with one entry, a lost count and a lost version that both end with code 0 and not with the donor's copy |
| Disorder.OversizedJoin | src/coms.cc:96-118 | a run that lists a second server with none of the first one's 256 names |
| HostsFile.WrittenFileReloads | src/coms.cc:332-339 | for any walk order, parsing and loading what was written rebuilds the table |
| HostsFile.PrintedLines | src/coms.cc:332-339 | what is written, line by line: domain, space, address, newline |
| HostsFile.LineIsNext | src/file_utils.cc:8-16 | a printed line is parsed back as its domain and address, the rest of the file following |
| HostsFile.FileIsLines | src/file_utils.cc:8-16 | a file is its first line's pair and then the rest, and nothing once a line has none |
| HostsFile.LineIsWords | src/file_utils.cc:11-14 | the pair of a line is its first two words, whatever white space leads, parts and follows them |
| HostsFile.LineIsShort | src/file_utils.cc:11-14 | a line of at most one word has no pair |
| HostsFile.ParseHostsFile | src/file_utils.cc:4-18 | the line loop returns the first two words of every line in order, or aborts when some line has fewer |
| Routing.Router.RemoveServer | src/router.c:192-212 | exactly the first server with the id goes, order kept; when there is none nothing changes, the code is 1 and the mutexes stay locked |
| Routing.RemoveInPlace | src/router.c:195-204 | the loop that steps back on the match terminates and closes the gap in place |
| Membership.RemoveFirstAt | src/router.c:195-204 | removal by id is the list without the position of the first match |
| Routing.Router.AddDnsServer | src/router.c:59-66 | the list is extended by the new server at its end; exactly at 255 the count wraps, the list is lost and the write falls outside it |
| Routing.Router.CheckTcpConnections | src/router.c:84-118 | a session sends every member's TCP port in list order and adds at most the server handed back, with the same wrap at 255 |
| Routing.Router.QueryResponseTime | src/router.c:120-159 | nothing changes when the count moved; otherwise the sweep's removals are made, and with distinct id bytes exactly the servers that answered remain, in order, and the mutexes are free, if and only if every silent server's id fits in a byte |
| Routing.StrikeOff | src/router.c:140-149 | one pong strikes the first matching id off the silent list, closing the gap in place |
| Membership.StruckListIsTheSilent | src/router.c:129-150 | for any pongs, duplicates and unknown ids included, what stays on the list is the ids of the servers that kept silent |
| Membership.SweepIsFilter | src/router.c:129-157 | the sweep keeps exactly the servers whose id occurs among the pongs, and every removal finds its server, if and only if every silent server's id fits in a byte |
| Membership.WideIdIsNeverSwept | src/router.c:131-207 | a silent server whose id is 256 stays listed, and its removal is never found |
| Membership.SweepRemovesTheSilent | src/router.c:154-156 | removing the silent ids one by one leaves the servers that answered, in their old order |
| Routing.Router.ForwardRequest | src/router.c:161-190 | OVERLOAD sends the request to the server at the counter, or to the first if the counter is at or past the count, ROUND_ROBIN to the counter modulo the count; the counter goes up by one modulo the pattern's length; the id is reported in 8 bits, nothing counts as rate limited, and the code is the one sending ended with; exactly with no server listed it divides by zero |
| Scheduling.OverloadShare | src/router.c:173-181 | every window of 2n requests sends n + 1 to the first server and 1 to each other if and only if n is at most 128; above that every window of 256 sends 1 to each other server |
| Scheduling.RoundRobinFair | src/router.c:170-172 | from any counter, k requests over n servers give each k/n rounded down or up |
| Scheduling.UnsettledShare | src/router.c:173-177 | with n up to 128 and the counter left at 2n or more, the next 2n + 1 requests send n + 2 to the first server and 1 to each other |
| Scheduling.OverloadPicks | src/router.c:174-179 | a request goes to a server other than the first only when the counter is that server's index, wherever an earlier list left the counter |
| Scheduling.CounterSettles | src/router.c:170-180 | from any counter an earlier list left, the counter after one request is one more modulo the pattern's length |
| Scheduling.HitsPerPeriod | src/router.c:168-189 | the share of each index in one whole pattern does not depend on where the window starts |
| Scoring.Scoreboard.RecieveGeneratedReq | src/scoreboard.cc:47-57 | the row of a request, with its time, id, server and no outcome, is queued at the back, or logged at once when rate limiting dropped it |
| Scoring.Scoreboard.RecieveDnsAnswer | src/scoreboard.cc:77-97 | every queued row with the id takes the outcome and no other changes, then exactly the shortest prefix that leaves at most 0xFFFF rows and an unanswered front moves to the log; 0 exactly when some row matched |
| Scoring.Scoreboard.Destroy | src/scoreboard.cc:114-119 | closing appends the rest of the queue to the log in order |
| Reorder.LogIsLongestAnsweredPrefix | src/scoreboard.cc:77-97 | with no overflow, after any history the log is the longest prefix of queued requests all answered since, each row as it was when the prefix reached it, and the queue is the rest |
| Reorder.AnswerFlushes | src/scoreboard.cc:81-92 | one answer flushes exactly the rows by which the answered prefix of the history grows |
| Reorder.Conservation | src/scoreboard.cc:47-97 | overflow or not, log and queue together are the queued requests in order, each exactly once, with the time, id and server they came with and no outcome unless a matching answer came; the other log rows are the rate-limited requests in order, each once, as they came; an answered row never waits at the front |
| Reorder.QueuedAreAll | src/scoreboard.cc:49-55 | the queued, or rate-limited, requests of a history are all of them |
| Reorder.QueuedInOrder | src/scoreboard.cc:49-55 | they are taken in the order they came, each once |
| Reorder.RowOfLast | src/scoreboard.cc:81-88 | the newest matching answer gives a row its time and verdict |
| Reorder.UnansweredOnlyByOverflow | src/scoreboard.cc:89-92 | a row logged unanswered before closing was pushed out by an answer that found more than 0xFFFF rows from it on |
| Reorder.DestroyLogsEverything | src/scoreboard.cc:114-119 | closing appends the queue as it stands, after which the log holds every queued request, in order, each exactly once |
| Reorder.ClosingKeepsOutcomes | src/scoreboard.cc:114-119 | with no overflow each row still queued is logged as the answers left it, behind an unanswered front or not |
| Reorder.RowOfReceived | src/scoreboard.cc:81-88 | a row has its request's fields, says it was answered exactly when a matching answer came since it was queued, and has no outcome otherwise |
| Dns.CraftMessage | src/dns.c:9-44 | the buffer's first 17 + length bytes are the message, its header as section 4.1.1 of RFC 1035 lays it out, and the rest of the buffer is untouched |
| Dns.CraftedBytes | src/dns.c:14-38 | a crafted message byte for byte, as section 4.1.1 of RFC 1035 lays out its header, high bytes first |
| Dns.HeaderFromBytes | src/dns.c:46-62 | which bits of which byte each header field is read from |
| Dns.VerdictFromBytes | src/dns.c:54-72 | 2 without twelve bytes; 0 exactly with a terminator after them and three bytes behind it; 3 otherwise |
| Dns.QuestionFromBytes | src/dns.c:74-79 | the name is what lies between header and first terminator, and both codes are the two bytes after it |
| Dns.MessageRoundTrip | src/dns.c:9-80 | a crafted message is accepted and says the id, direction, result and domain that went in, rd 1, one question and no other records |
| Dns.ImageIsReadBack | include/dns.h:17-31 | the header struct's memory image determines every field |
| Dns.ParseMessage | src/dns.c:54-80 | the error code and every field, for any bytes in any buffer and whatever lies after it; what each failing return leaves untouched |
| Dns.ScanDomain | src/dns.c:65-68 | the scan ends at the first terminator after the header or just past the message, and looks at nothing outside the message if and only if there is such a terminator |
| Dns.ScanStopsInside | src/dns.c:65-68 | the first search position is inside a message exactly when it holds a terminator after its header |
| Dns.ScanLooksPastBuffer | src/dns.c:65-72 | a particular message of 64 bytes that is refused with code 3 after the scan has gone past it |
| Dns.AcceptedIsWellBounded | src/dns.c:65-79 | an accepted message has its terminator inside it, a domain without terminators before it, and every byte of the result below its end |
| QueryPath.DnsServer.RecieveRequest | src/dns_server.c:57-86 | errors 1 and 2, the pong, or a response that says whether the domain is in the table with id and domain echoed; a name too long for the response buffer is an overrun |
| QueryPath.ServedFromBytes | src/dns_server.c:57-86 | for any bytes: nothing with code 1 unless they hold a header and a terminated name with both codes, nothing with code 2 if the first flag bit is set, the id byte if the id is 0x8000, and otherwise the response bytes that echo id and name and say whether the name is in the table, or an overrun past 64 bytes |
| QueryPath.CraftedIsServed | src/dns_server.c:57-86 | a crafted query with id 0x8000 gets the id byte whatever its name, any other a response or an overrun, and a crafted response nothing, with code 2 |
| QueryPath.AcceptedNameFits | src/dns_server.c:48-82 | an accepted datagram of at most 64 bytes names at most 48 bytes, and its response fits the 64-byte buffer if and only if the name is not that long |
| QueryPath.OverrunningDatagram | src/dns_server.c:48-82 | a particular datagram that every server answers past the end of its buffer |
| QueryPath.AskServer | src/dns_server.c:57-86 | a crafted query reaches a server whole: the sweep's id gets the id byte, any other a response that answers the lookup |
| QueryPath.HandleResponse | src/scoreboard.cc:64-75 | the scoreboard takes id and verdict from the header last read and hears one answer |
| QueryPath.AskAndScore | src/dns_server.c:57-86 | end to end: a query's whole effect on the scoreboard is one answer with its id saying whether the domain was in the table |
| Reorder.AnswerMeans | src/scoreboard.cc:81-92 | logged or still queued, every row with the id gets time and verdict and no other row changes; what is flushed is the shortest prefix that leaves an unanswered front and at most 0xFFFF rows |

## Left out

- Sockets, threads, sleeps, timers and allocation failure: replaced by steps, sequences of received messages, and file contents as bytes.
- Split TCP reads: messages arrive whole or not at all.
- Progress and deadlock freedom of the router's locks: only safety is stated.
- A failed join or an aborted update closing without its final eight bytes: the session ends with the membership unchanged.
- Concurrency inside one server between lookups and table writes: a lookup sees the table before or after an update.
- `qtype` and `qclass`: the crafter leaves their high bytes as they were in the buffer; only their low bytes are claimed. Answer records and label-encoded names are not implemented by the program.
- Coms.Coms.RequestHosts: asks that the stream can be walked, as every listed server's can (`Agreement.FormatsCarryTheRun`); otherwise the program reads past a message or waits for one that never comes.
- Join.UpdateAndOnline: asks the same of the donors' tables, whatever their size.
- Answers that arrive before their request is queued: the program loses them, and the scoreboard statements count answers after the queueing only.
- Clock readings are opaque values of type `real`; the CSV text of a logged row is not modelled.
- The test generator, option parsing, system-call wrappers, rate limiting (only its verdict appears), and the sending of the liveness queries.
