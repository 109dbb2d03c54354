# A verified model of the remote-command relay

A harness sends commands to a remote machine through a relay. The relay (Python, `relay/`) keeps a
registry of connected clients, routes each command to its client and each answer back to the
command it belongs to, applies a command policy and writes a hash-chained audit log. The client
(Go, `client/`) runs commands and file transfers under a local guard-rail and reports every one
with a stream of messages closed by one `result`. This project models both ends and the protocol
between them, and proves what they guarantee together.

`dafny verify dfyconfig.toml` checks the whole project.

## How the model is built

**The relay as a transition system.** `BrokerSpec` describes the relay's state (registry, WebSocket
loops, pending requests and their queues, suspended dispatches, audit trail) and what one coroutine
does between two awaits: accept, register, heartbeat, hear a message, disconnect, kill, look up,
dispatch, and the consumer's own steps, timer and early close. A run is any interleaving of such
steps by any number of clients and dispatches. History is recorded beside the program's state
(messages heard, frames sent, dispatches in order of ending, connections cut off).
`BrokerSafety` proves one invariant for every reachable state; `BrokerTheorems` draws the theorems
about runs from it; `Delivery` shows that they are not empty, by a run that carries any answer whole.
`Broker` is the program itself, a class whose fields are assigned in place. Each method is proved to
be exactly one step of the transition system, and the class invariant says that the state is the run
of the calls so far, so what is proved of runs holds of the object (`Broker.ReachedStateIsSafe`).
`SessionStore` and `CommandPolicy` are the two classes it drives. More theorems about runs are in
`SessionLife` (how long a session is found), `BrokerPolicy` (what is sent, what is refused and why) and
`BrokerOutcomes` (dispatches cut short, kills). `AuditFailure` is the kill whose audit entry cannot be
written.

**The client.** `Executor` is the class that answers a command, on a connection that may break at any
write; `GuardRail` is the same guard-rail cut into the steps that goroutines interleave, with the
policy switched at any moment, and `Approvals` what its answers reach; `Argv` is the tokenizer of
`run_command` and `ArgvLines` the lines a person writes for it; `FileRead` and `FileWrite` are the two
halves of file transfer, the latter with a failure possible at each step; `LenientUtf8` is how the bytes
of a process become text, one read at a time; `LogLine` and `ActivityView` are the activity log.

**Put together.** `FileRelay`, `FilePipeline` and `Aggregate` are what the relay's tools do with what a
dispatch yields; `EndToEnd` composes the client, the broker and the aggregators for reads, runs and
writes, on a connection that holds and on one that breaks in the middle. `Base64` has the two decoders,
the client's and the relay's, which differ.

**The audit log.** `Audit` is the log byte by byte: a failing write leaves any number of the bytes of
its record, and the file is read back through the strict decoder of `Utf8`. `AuditVerdict` tells when
the verdict is false and when there is none. JSON stays abstract; `AuditWitness` shows that what is asked
of it can be had.

**Loops and specifications.** Code that works by assignment is a method with a loop and invariants,
proved against a recursive function; the properties are lemmas about that function.

## What the code does that its documentation does not say

- Output is documented to be streamed. Each read of at most 4096 bytes is turned into text on its own,
  so a character that two reads share reaches the harness as replacement characters, one for each of
  its bytes; well-formed output is reported as it is if and only if no read stops inside a character
  (`EndToEnd.TextIsReportedExactly`, `EndToEnd.AccentIsMisreported`). And the process is waited for
  while its output is still read, which closes the pipes: what was written last may be lost. The
  model's output is what the reads brought.
- A read is documented to carry up to 8 MiB. The relay's cap counts base64 characters, so the largest
  read that goes through is 6 291 456 bytes (6 MiB); one byte more is answered `file_too_large`
  (`FilePipeline.Expected`, `FilePipeline.ReadFileRoundTrip`, `FilePipeline.DocumentedLimitFails`).
- Repeating the read is documented to recover a larger file. With one size throughout it does exactly
  when that size is set and fits under the cap, or so little is left that it fits; reads that set no
  size never recover a file of more than 6 MiB (`FilePipeline.ConstantSizeFits`,
  `FilePipeline.DefaultSizeFails`).
- The relay checks a payload so as not to wake the client for nothing. Its decoder takes any number of
  `=` after whole groups of four, the client's does not: "AAAA=" passes the one and is refused by the
  other, and such surplus padding is the only disagreement (`FileWrite.RelayLetsThrough`,
  `FileWrite.OneEqualsTooMany`).
- Reopening the audit log is documented to skip unreadable lines. It raises when some failed write
  stopped inside a multi-byte character, because the file is read as strict UTF-8, and it succeeds in
  every other case (`Audit.RestartExactly`, `Audit.AccentBlocksRestart`).
- A log also stops verifying when a record's final line break was lost and anything followed, when a
  process that was told its write failed, though all of it was written, writes again, or when an event
  brought a `hash` field of its own; these and a record cut short are the only causes
  (`Audit.VerifiesExactly`). `verify_chain` raises on a JSON line that is not an object, and on
  bytes that are not UTF-8 unless it meets a bad line first.
- The client's size estimate, which the operator is shown before approving a write, strips trailing
  `=` only. Of all the payloads its decoder accepts, line breaks included, it is right exactly for those
  with no line break or `=` left, or just one and a content that fills its groups of three
  (`Base64.EstimateIsExact`).
- A kill whose audit entry cannot be written raises after the session is removed and before anything is
  woken: its requests stay in flight until their client, the end of the connection or the timer ends
  them, and killing again finds no session (`AuditFailure.OnlyTheConnectionWakes`,
  `AuditFailure.KillingAgainIsInVain`).
- A sanitised log line that was cut is longer than the limit because of its note; sanitising it again
  changes it, except when exactly eighteen characters were cut (`LogLine.SanitizedTwice`,
  `LogLine.CutTwice`).
- Python's `isdigit` accepts more than 0 to 9, so a session code may hold other digits: the test is a
  parameter, and every theorem holds whatever it accepts.
- A chunk with non-ASCII text makes the read tool raise an exception it does not catch (`Uncaught` in
  `FileRelay`).

## Model

| member | source | states |
|---|---|---|
| `BrokerTheorems.DispatchYieldsItsAnswers` | relay/broker.py:224-340 | in every reachable state, a dispatch comes from a step that found its code live on its connection, and what it has yielded is, in order, a prefix of what that connection has said about it since that step; on normal end it is all of that up to the first result, which is the outcome; nothing of another connection or request gets in |
| `BrokerTheorems.EachFlightWasDispatched` | relay/broker.py:280-308 | over any run, each dispatch has its `Dispatch` event, with its code and tool; the code was live then, its record named the connection, and the relay had heard just so many messages |
| `BrokerTheorems.OutcomeHasItsCause` | relay/broker.py:300-340 | over any run, an ended dispatch has the outcome that happened: `client_disconnected` only if its connection was cut off or its command could not be sent, a timeout only if the timer ran out while it waited, an empty outcome only if its consumer closed it, any other only with the result it yielded |
| `BrokerTheorems.SentinelMeansCut` | relay/broker.py:157-159 | a sentinel is in the queue of a dispatch only when its connection was cut off |
| `BrokerTheorems.BoundDispatchEnds` | relay/broker.py:315-340 | once a sentinel or a result is queued, a dispatch takes at most a computed number of further steps of its own under any interleaving, can always take one until it ends, and without timer or close ends as `client_disconnected` or with the client's result |
| `BrokerTheorems.CutOffRequestsEnd` | relay/broker.py:149-203 | from any reachable state, the end of a connection's loop or a successful kill leaves every request in flight on it with its terminator queued, and it ends in bounded steps without the timer |
| `BrokerTheorems.DisconnectWakes` | relay/broker.py:149-159 | unregistering a connection wakes each request pending on it |
| `BrokerTheorems.TerminateWakes` | relay/broker.py:171-187 | a kill that finds its session wakes each request pending on its connection |
| `AuditFailure.HalfKillIsSafe` | relay/broker.py:171-187 | after a kill whose audit entry could not be written, and over any run from there, the invariant still holds |
| `AuditFailure.KillingAgainIsInVain` | relay/broker.py:171-187 | killing the same code again, however often, wakes nobody and changes nothing but the trail |
| `AuditFailure.OnlyTheConnectionWakes` | relay/broker.py:171-203 | a request that a whole kill binds to end is left as it was by such a half kill; the end of its connection still binds it |
| `BrokerTheorems.CutIsBound` | relay/broker.py:315-328 | any dispatch still in flight on a connection that was cut off is bound to end |
| `BrokerTheorems.ResultIsBound` | relay/broker.py:240-249 | any dispatch whose connection has sent its result is bound to end |
| `BrokerTheorems.OwnStepRank` | relay/broker.py:315-340 | each own step of a bound dispatch strictly decreases its distance to the end |
| `BrokerTheorems.OthersAct` | relay/broker.py:224-252 | no step of anyone else takes a message away from a dispatch, changes what it yielded or ends it |
| `BrokerTheorems.CutIsForEver` | relay/broker.py:149-203 | over any run, a connection cut off never holds a code again, gets no further `command` frame and no new dispatch |
| `BrokerTheorems.EachDispatchIsAuditedOnce` | relay/broker.py:292-340 | in every reachable state the pending table holds exactly the dispatches in flight, and the "allowed" entries of the trail are those of the ended dispatches, one each, in order, with their outcomes |
| `BrokerTheorems.EachRefusalIsAuditedOnce` | relay/broker.py:284-290 | over any run the "denied" entries are exactly one for each command the policy refuses, in order, each stating the right reason |
| `BrokerTheorems.DeniedStep` | relay/broker.py:284-290 | a refusal adds its entry and changes nothing else about requests: nothing pending, nothing sent; no other step adds such an entry |
| `BrokerOutcomes.EachKillIsAudited` | relay/broker.py:171-182 | over any run the trail has one entry for each kill, in order, and each says whether the session was known |
| `BrokerOutcomes.EndsAtOnce` | relay/broker.py:299-340 | a failed send, the timer, an early close and the sentinel end a dispatch at once, each with its own outcome, off the pending table and with one entry |
| `BrokerOutcomes.ResultEnds` | relay/broker.py:330-340 | in every reachable state a result that was handed over ends its dispatch with the exit code and the error it carries |
| `BrokerTheorems.FramesStayWithinLimits` | relay/broker.py:284-308 | over any run the `command` frames sent for one code are at most the rate limit in any window of sixty seconds and at most the quota in all |
| `BrokerPolicy.FramesPassThePatterns` | relay/command_policy.py:118-153 | over any run each frame is the one that was asked for, with its tool and parameters; the command line of a `run_command` or `run_shell`, and the path of a `read_file` or `write_file`, that left the relay match no deny pattern, and one of the allow patterns when there are any |
| `BrokerPolicy.DispatchIsDecided` | relay/broker.py:280-308 | in every reachable state a command for a live session is either sent to its connection, and then nothing is due against it, or refused and audited with what is due: the first deny pattern, no allow pattern, the quota or the rate, counted over the frames sent to its code, in all and in the last sixty seconds |
| `BrokerPolicy.OnlyTextIsFiltered` | relay/command_policy.py:118-133 | any other tool is refused by the quota or the rate alone |
| `BrokerTheorems.RegistryIsOneToOne` | relay/session_store.py:143-222 | in every reachable state a record sits under its own code and belongs to an open loop, and no connection has two |
| `BrokerTheorems.RegisterTakesNothing` | relay/app.py:222-249 | registering alters no existing record even when it fails, which it does exactly when a hundred draws are taken and the desired code is not free or not nine digits; the desired code is granted exactly when it is free and nine digits, or drawn by chance |
| `BrokerTheorems.OneSessionForLife` | relay/app.py:223-236 | over any run a connection that was given a code never holds a record under another, replayed registers included |
| `BrokerTheorems.FramesAreFresh` | relay/session_store.py:188-208 | over any run each `command` frame names a code that was registered, or refreshed by a heartbeat of a loop that was given it, less than the time to live before |
| `BrokerTheorems.RecordsAreRefreshed` | relay/session_store.py:175-208 | in every reachable state the end of a record's life was set by such an event, exactly the time to live after it |
| `SessionLife.RenewedIsFound` | relay/session_store.py:188-208 | from any reachable state: a code registered, or refreshed by a heartbeat while live, has its end of life set to exactly the time to live after that, and over any run without the end of the connection that holds it or a kill, every dispatch and every lookup before then finds it, on that connection |
| `SessionLife.RenewedExactly` | relay/session_store.py:198-208 | the step that renews a life, and whose code it renews |
| `SessionLife.RunStaysAlive` | relay/session_store.py:188-222 | over any run nothing but the end of the connection, a kill or the passing of time takes a code away |
| `SessionLife.ExpiredIsFreed` | relay/session_store.py:188-208 | a lookup, a dispatch or a heartbeat that finds a code expired removes its record and no other |
| `Delivery.EverySentenceCanBeDelivered` | relay/broker.py:106-340 | for any well-formed code, any command the policy admits and any sentence, there is a run from the start in which the dispatch yields the sentence whole and ends with its result |
| `Delivery.SentenceIsCarried` | relay/broker.py:207-340 | a waiting dispatch whose client says a sentence, drained message by message, yields it whole and ends with its result |
| `Delivery.SayingFillsTheQueue` | relay/broker.py:207-252 | what the owner says is queued in order, only the result as final |
| `BrokerTheorems.CompletePrefix` | relay/broker.py:330-337 | a prefix of the answers that reaches a result is exactly the answers up to the first result |
| `BrokerTheorems.AheadStays` | relay/broker.py:157-159 | a message queued behind a terminator does not push it further away |
| `BrokerSafety.RunKeepsInv` | relay/broker.py:82-340 | every run keeps the invariant: registry, queues, phases, audit trail, frames, limits, owners |
| `BrokerSafety.InitInv` | relay/broker.py:85-102 | the relay starts in a state where the invariant holds |
| `BrokerSafety.RegistryAct` | relay/app.py:218-260 | every step keeps records under their own codes, on live loops that were given them, and off connections that were cut |
| `BrokerSafety.TrafficAct` | relay/broker.py:207-340 | every step keeps, for each request, yielded plus queued equal to what its owner said, the right finality of each queued message, and the sentinel on cut connections |
| `BrokerSafety.TrailAct` | relay/broker.py:338-355 | every step keeps the audit trail in step with the dispatches that ended |
| `BrokerSafety.FramesAct` | relay/broker.py:284-308 | every step keeps one frame and one admission for each dispatch, to the right connection, within the limits |
| `BrokerSafety.OwnersAct` | relay/broker.py:280-295 | every step keeps each dispatch on the connection that was given the code it names, whether its loop still runs or has ended |
| `BrokerSafety.SentinelFlight` | relay/broker.py:157-159 | queueing the sentinel adds no answer and satisfies the duty to a cut connection |
| `BrokerSafety.MessageFlight` | relay/broker.py:232-252 | routing one message adds exactly that answer at the end |
| `BrokerSafety.HandedFlight` | relay/broker.py:330-331 | taking a message from the queue and yielding it keeps the projection |
| `BrokerSafety.OnlyOne` | relay/broker.py:292-340 | a step about one request leaves every other request as it was |
| `Broker.Broker.ReachedStateIsSafe` | relay/broker.py:82-355 | whatever calls were made on the object, its state satisfies the invariant of the transition system |
| `Broker.Broker.Connect` | relay/app.py:215-217 | accepting a WebSocket is one step of the transition system |
| `Broker.Broker.Register` | relay/app.py:222-249 | a register message, first, replayed or failing, is one step, and what it is answered with |
| `Broker.Broker.Heartbeat` | relay/app.py:250-253 | a heartbeat is one step, which touches the record of the code its loop was given (what that does is `SessionLife.RenewedExactly`) |
| `Broker.Broker.UnregisterConnection` | relay/broker.py:149-159 | the end of a loop is one step |
| `Broker.Broker.WakePending` | relay/broker.py:157-159 | the loop over the pending table queues the sentinel for that connection's requests and no other |
| `Broker.Broker.TerminateSession` | relay/broker.py:161-203 | the kill-switch is one step, and reports whether the session was known |
| `Broker.Broker.GetSessionInfo` | relay/broker.py:141-147 | a lookup is one step and returns live records only |
| `Broker.Broker.HandleClientMessage` | relay/broker.py:207-252 | a client message is one step: queued for a request pending on that very connection, dropped otherwise, final exactly when it is a result |
| `Broker.Broker.DispatchCommand` | relay/broker.py:280-308 | from lookup to `command` frame is one step, and which of the three ways it goes |
| `Broker.Broker.Screen` | relay/broker.py:284-290 | the decision is the one the admission history dictates, and a refusal is audited |
| `Broker.Broker.CommandSent` | relay/broker.py:300-313 | the outcome of the send is one step |
| `Broker.Broker.TakeItem` | relay/broker.py:315-331 | taking the next item is one step, and what is yielded |
| `Broker.Broker.ResumeDispatch` | relay/broker.py:332-337 | resuming after a yield is one step |
| `Broker.Broker.TimeOut` | relay/broker.py:318-322 | the timer is one step |
| `Broker.Broker.Abandon` | relay/broker.py:338-340 | closing the generator early is one step |
| `Broker.Broker.End` | relay/broker.py:338-340 | the clean-up removes the request and writes its one entry |
| `SessionStore.InMemorySessionStore.Create` | relay/session_store.py:143-186 | which code is given, the record written, and that no other record changes |
| `SessionStore.InMemorySessionStore.Get` | relay/session_store.py:188-196 | live records are returned, expired ones dropped |
| `SessionStore.InMemorySessionStore.Touch` | relay/session_store.py:198-208 | a heartbeat on a live record sets its end of life to the time to live from now; it drops an expired one |
| `SessionStore.InMemorySessionStore.RemoveByConnection` | relay/session_store.py:214-218 | exactly the records of that connection go |
| `SessionStore.InMemorySessionStore.Terminate` | relay/session_store.py:220-222 | the record is removed, expired or not, and returned |
| `SessionStore.FirstFreeIsFirst` | relay/session_store.py:167-174 | a drawn code is free and the first free of a hundred draws; none is given exactly when all are taken |
| `SessionStore.DesiredCodeIsGranted` | relay/session_store.py:161-174 | a given code was free, and is the desired one exactly when that was free and nine digits, or the first free of a hundred draws |
| `CommandPolicy.CommandPolicy.Check` | relay/command_policy.py:135-186 | the decision of the deque and counter is that of a scan of the whole admission history; a refusal leaves the history alone; the deque is what is still in the window |
| `CommandPolicy.CommandPolicy.Evict` | relay/command_policy.py:170-173 | after eviction the deque is exactly the admissions in the window |
| `CommandPolicy.PopExpired` | relay/command_policy.py:172-173 | the front-only eviction loop agrees with a scan of all times |
| `CommandPolicy.MatchFirst` | relay/command_policy.py:140-153 | patterns are tried in order |
| `CommandPolicy.DecideDecides` | relay/command_policy.py:135-186 | the scan meets the declarative definition of a right decision; it allows exactly what patterns, quota and rate admit |
| `CommandPolicy.DecisionIsUnique` | relay/command_policy.py:135-186 | a history leaves room for one decision only, reason included |
| `CommandPolicy.DecisionIsDue` | relay/command_policy.py:118-186 | the decision, told by the parameters of the tool and the times commands were let through: it refuses for the reason that is due, patterns before quota before rate, and lets through exactly when none is |
| `CommandPolicy.WindowIsCounted` | relay/command_policy.py:170-178 | what the window holds is the admissions of the last sixty seconds, no more and no less |
| `CommandPolicy.WindowSafety` | relay/command_policy.py:155-186 | over any sequence of calls at most the rate limit are admitted in any sixty seconds, wherever the window starts, and at most the quota ever |
| `CommandPolicy.RefusalIsFree` | relay/command_policy.py:155-186 | deleting a refused call from a run changes nothing else in it |
| `CommandPolicy.SpacedIsBounded` | relay/command_policy.py:172-182 | a check at each admission bounds every window, not only those that end at an admission |
| `CommandPolicy.TracksWindow` | relay/command_policy.py:170-173 | once the front is inside the window the whole deque is the window |
| `Audit.TamperEvident` | relay/audit.py:140-173 | with a hash nobody finds collisions of, two logs that verify and end in the same hash are equal record for record |
| `Audit.TamperEvidentFile` | relay/audit.py:140-173 | the same for files |
| `Audit.VerifiesExactly` | relay/audit.py:118-173 | after any sequence of records, writes that fail after any number of bytes, and restarts, the log verifies if and only if nothing damaged it, the causes of damage being listed |
| `Audit.RunMatches` | relay/audit.py:73-137 | every run leaves the log in the state its operations make of it: clean and continuing from its last record, lacking a line break, ahead of its process, or damaged with nothing but pieces of records on its last line |
| `Audit.DamageIsForEver` | relay/audit.py:152-173 | once a bad line is finished, the log never verifies again, whatever bytes are appended |
| `Audit.CompletionMends` | relay/audit.py:125-173 | while it is not finished, appending the missing bytes of a record cut short, anywhere, makes the log verify again |
| `Audit.RestartExactly` | relay/audit.py:78-137 | after any such sequence, the file can be read back, and so the relay started, if and only if every failed write stopped at the end of a character |
| `Audit.TornWriteBlocksRestart` | relay/audit.py:78-137 | at any time in the life of a log, one write cut inside a character keeps the relay from starting |
| `Audit.AccentBlocksRestart` | relay/audit.py:78-137 | a concrete case: cut one byte into an accented letter of the record |
| `Audit.NextRecordLinks` | relay/audit.py:78-137 | after a restart the next record links to the last readable hash |
| `Audit.AuditLog.Record` | relay/audit.py:118-137 | one record sealed and appended, as a step of the run |
| `Audit.AuditLog.Reopen` | relay/audit.py:73-116 | reopening resumes from the last readable hash, or raises |
| `Audit.AuditLog.FailedRecord` | relay/audit.py:125-135 | a write that fails after `k` bytes leaves these in the file and the chain in memory where it was |
| `Audit.ReadLastHash` | relay/audit.py:86-116 | the loop finds the last non-empty hash of a readable record |
| `Audit.VerifyChain` | relay/audit.py:140-173 | the verdict on a file, decoded piece by piece: a bad line seen before an undecodable byte decides, otherwise it raises |
| `Audit.CheckLines` | relay/audit.py:152-173 | the loop over the lines computes the verdict on them, raising case included |
| `Audit.SameHashSameFields` | relay/audit.py:160-170 | equal hashes mean equal records and equal predecessors |
| `Audit.NextOnBlank` | relay/audit.py:125-135 | on a log that ends on a finished line and verifies, the next record verifies exactly when the process links it to the last one and its event has no `hash` of its own |
| `AuditVerdict.VerdictExactly` | relay/audit.py:118-173 | on any log the relay itself has left: when the file can be read, `verify_chain` never raises, and answers false exactly when the log is damaged; when it cannot, it never answers true |
| `AuditVerdict.LineDecides` | relay/audit.py:152-173 | the first line that is not blank and not a record linked to the one before decides: JSON that is no object raises, anything else is false |
| `AuditVerdict.UndecodableDecides` | relay/audit.py:152-173 | on a file that cannot be decoded, a bad line among what was decoded before decides, and `verify_chain` raises when there is none |
| `AuditVerdict.BreaksEndLines` | relay/audit.py:93-154 | a line feed and a carriage return end a line, and nothing else does |
| `AuditVerdict.RunIsMade` | relay/audit.py:125-137 | every line of a readable log the relay has left is pieces of records and nothing else |
| `AuditVerdict.LastHashIsLast` | relay/audit.py:86-116 | a restart resumes from the last line that stores a hash, whatever is wrong with those after it, or from sixty-four zeros |
| `Utf8.DecodeEncode` | relay/audit.py:93-133 | reading back what was written as UTF-8 gives the text |
| `Utf8.EncodeDecode` | relay/audit.py:93-133 | the strict decoder accepts encodings and nothing else |
| `Utf8.CutDecodes` | relay/audit.py:93-133 | the first bytes of a text decode exactly when they end with a whole character |
| `Utf8.CanBeTorn` | relay/audit.py:93-133 | a text can be cut inside a character exactly when it is not all ASCII |
| `Utf8.NotMended` | relay/audit.py:93-133 | bytes that cannot be decoded are not mended by appending what starts with ASCII, as every record does |
| `Utf8.AccentTorn` | relay/audit.py:93-133 | the two bytes of an accented letter, and that the first alone cannot be read, nor with a brace after it |
| `Utf8.Examples` | relay/audit.py:93-133 | two examples of section 7 of RFC 3629, with characters of one to four bytes |
| `AuditWitness.ExampleIsLawful` | relay/audit.py:62-67 | what the theorems on the log ask of the hash and of JSON is satisfied by some codec |
| `LenientUtf8.PiecesReadAsOne` | client/executor.go:372-386 | pieces of any bytes decoded one by one read as the whole does if and only if no cut falls inside a character; otherwise there is more text |
| `LenientUtf8.PiecesOfText` | client/executor.go:372-386 | pieces of well-formed text read as the text if and only if each cut is on a character boundary |
| `LenientUtf8.OneCut` | client/executor.go:374-378 | the same for one cut: a character it splits becomes as many replacement characters as it has bytes |
| `LenientUtf8.LenientEncode` | client/executor.go:376-378 | well-formed text read in one piece is kept |
| `Base64.DecodeEncode` | client/filetransfer.go:156-163 | decoding an encoding gives the bytes back, for all bytes |
| `Base64.LenientDecodeEncode` | client/filetransfer.go:206-210 | so does the client's decoder, which skips line breaks |
| `Base64.EncodeLength` | client/filetransfer.go:156-163 | text is four characters for each three bytes, rounded up |
| `Base64.DecodeLength` | client/filetransfer.go:206-210 | a text without line breaks that the client's decoder accepts is as long as the encoding of what it decodes to |
| `Base64.StrictIsRelayWithoutSurplus` | relay/mcp_server.py:520-527 | the client's decoder accepts what the relay's does, except `=` after whole groups, and both read the same bytes |
| `Base64.RelayDecodeEncode` | relay/mcp_server.py:762-772 | the relay's decoder inverts the encoding too |
| `Base64.SurplusPadding` | relay/mcp_server.py:520-527 | any whole groups with any `=` after them: the relay reads their bytes, the strict decoder refuses |
| `Base64.EstimateIsExact` | client/filetransfer.go:302-311 | on every payload the client's decoder accepts, line-wrapped ones included, exactly when the estimate is right |
| `Base64.DecodedLen` | client/filetransfer.go:302-311 | the loop's estimate, exact on every standard payload |
| `Base64.EstimateWithTrailingNewline` | client/filetransfer.go:302-311 | on a payload followed by a line break, the estimate counts what the last group lacks as data |
| `Base64.TestVectors` | client/filetransfer.go:156-163 | two test vectors of section 10 of RFC 4648 |
| `Base64.AlphabetIsStandard` | client/filetransfer.go:156-163 | the alphabet is that of table 1 of RFC 4648 |
| `FileRead.ReadFileTransfer` | client/filetransfer.go:105-190 | what is sent is the wanted bytes in order and nothing else; complete exactly when all can be read and written, and then described truly; on a healthy connection every readable byte is sent; which error otherwise |
| `FileRead.StreamSlice` | client/filetransfer.go:139-171 | the chunk loop: full chunks, one short, stopping at the limit, the end, a device error or a failed write |
| `FileRead.StreamOne` | client/filetransfer.go:143-171 | one turn of that loop |
| `FileRead.SlicesSnoc` | client/filetransfer.go:139-158 | a piece after full chunks is the next chunk |
| `Unicode.BlankIsListed` | client/filetransfer.go:98-103 | a path counts as missing exactly when it is white space throughout, by the list of its twenty-five characters |
| `FileRelay.DispatchFileTransfer` | relay/mcp_server.py:718-759 | the cap interrupts before the chunk in excess is kept; otherwise all pieces, the last result and the error raised |
| `FileRelay.ReadFile` | relay/mcp_server.py:442-488 | the answer as a function of the chunks |
| `FileRelay.WriteFile` | relay/mcp_server.py:546-568 | the answer to a write as a function of what was yielded |
| `FileRelay.RaisedIsReported` | relay/mcp_server.py:549-550 | whatever was yielded, a read or a write whose dispatch raised an error is answered with it, or as too large: neither content nor written |
| `FileRelay.SortSorts` | relay/mcp_server.py:762-772 | reassembly orders the pieces and keeps each of them |
| `FileRelay.SortStable` | relay/mcp_server.py:762-772 | pieces that share a number keep their order of arrival |
| `FileRelay.SortRestores` | relay/mcp_server.py:762-772 | numbered pieces are put back in order from any order of arrival |
| `FilePipeline.ReadFileRoundTrip` | relay/mcp_server.py:718-772 | for every file, readable or not, offset and limit, and any arrival order, the answer is exactly the one that is due: the code of what is wrong; `io_error` when a wanted byte cannot be read; `file_too_large` when more than 6 291 456 can; else the least of what is left, 8 388 608 bytes and the size asked for, from the offset on, with size, hash, and `truncated` exactly when readable bytes remain |
| `FilePipeline.ExpectedIsExact` | client/filetransfer.go:105-190 | the same of the expected answer alone |
| `FilePipeline.ChunkAt` | client/filetransfer.go:143-158 | chunk number i carries the bytes from i times 196 608 on, that many of them unless it is the last, and the chunks carry all |
| `FilePipeline.UnnumberedAreJoined` | relay/mcp_server.py:729-733 | chunks without numbers, in order of arrival, are put together all the same |
| `FilePipeline.BadPieceIsReported` | relay/mcp_server.py:462-471 | the first piece that cannot be read, in the order of the numbers, decides: not ASCII makes the tool raise, else `invalid_base64` |
| `FilePipeline.UnsaidIsFilledIn` | relay/mcp_server.py:473-488 | what a result leaves unsaid the tools fill in with their own path, size and hash |
| `FilePipeline.EmptyIsNotGiven` | relay/mcp_server.py:452-488 | an empty error, path or hash in a result counts as one that is not given |
| `FilePipeline.NoDataIsEmpty` | relay/mcp_server.py:724-733 | a chunk without its data counts as an empty one |
| `FilePipeline.ChunksWeight` | client/filetransfer.go:139-158 | the chunks together weigh what one encoding of the bytes would |
| `FilePipeline.DocumentedLimitFails` | docs/PROTOCOL.md:247-251 | a file under 8 MiB that the documented limit allows and the code refuses |
| `FilePipeline.HarnessGetsTheFile` | relay/mcp_server.py:387-488 | from the arguments of the tool to its answer, for every plain file: `invalid_params` exactly for a negative offset or a size that is not positive, `file_too_large` exactly when both the size and what is left exceed 6 291 456, else the piece of the file that was asked for, with its exact size, and `truncated` exactly when bytes remain |
| `FilePipeline.FailureIsReported` | relay/mcp_server.py:452-458 | a transfer the client reports as failed or refused is never answered with content |
| `FilePipeline.ResumeRecovers` | client/filetransfer.go:105-190 | on the client alone, without the cap of the relay, repeated reads of any sizes end and concatenate to the rest of the file |
| `FilePipeline.ToolRecovers` | docs/PROTOCOL.md:247-251 | through the tool, repeated reads recover the rest of the file if and only if each of them fits under the cap, and never anything else |
| `FilePipeline.ConstantSizeFits` | docs/PROTOCOL.md:247-251 | with one size throughout they all fit if and only if the size is set and at most 6 291 456, or no more than that is left |
| `FilePipeline.DefaultSizeFails` | docs/PROTOCOL.md:247-251 | reads that set no size never recover a file of more than 6 291 456 bytes |
| `FilePipeline.ShuffleSorts` | relay/mcp_server.py:762-772 | any arrival order weighs the same and sorts to the same pieces |
| `FileWrite.WriteFileTransfer` | client/filetransfer.go:198-285 | exactly when the install succeeds; on success the target holds the decoded bytes; on failure it is as before, no temporary is left, and the answer is the code of the first step that failed; at every moment old or new, and nothing else that existed changed |
| `FileWrite.MkdirAll` | client/filetransfer.go:223-228 | directories are made through directories only, nothing else changes, and why it stops |
| `FileWrite.FillAndRename` | client/filetransfer.go:235-278 | from temporary to rename, with the error of the step that fails and clean-up on every failure |
| `FileWrite.FillTemp` | client/filetransfer.go:235-272 | the target is untouched while the temporary is filled |
| `FileWrite.SucceedsExactly` | client/filetransfer.go:198-278 | no step fails if and only if the declarative conditions of success hold |
| `FileWrite.MkdirStops` | client/filetransfer.go:223-228 | making directories stops if and only if a file is in the way or the fault comes before the last level |
| `FileWrite.FailureHasCause` | client/filetransfer.go:70-90 | an install that fails is answered with the code of a step that met that error, or of what is really on the disk: a file in the way, a directory that is missing, a directory at the target |
| `FileWrite.RelayLetsThrough` | relay/mcp_server.py:520-537 | a payload the relay lets through is refused by the client for its content if and only if it has `=` after whole groups; otherwise both decode the same bytes |
| `FileWrite.RefusalAfterRelay` | client/filetransfer.go:204-221 | what a request that passed the relay is refused for: surplus padding, a directory, an existing target it may not replace, nothing else |
| `FileWrite.RelayRefusesExactly` | relay/mcp_server.py:519-537 | the relay refuses a payload exactly when it cannot decode it or it decodes to more than 8 388 608 bytes, with the code of each |
| `FileWrite.RefusedUnseen` | client/filetransfer.go:98-213 | before it looks at the disk the client refuses a blank path, a payload it cannot decode and one too large, in that order |
| `FileWrite.SurplusPaddingIsRefused` | relay/mcp_server.py:520-537 | all such payloads pass the relay and are refused by the client |
| `FileWrite.OneEqualsTooMany` | relay/mcp_server.py:520-537 | for instance "AAAA=" |
| `FileWrite.WriteDelivers` | client/filetransfer.go:204-226 | content up to 8 MiB survives the trip, and only such content passes the relay |
| `Executor.Executor.Handle` | client/executor.go:220-241 | every command is answered with exactly one sentence (one approval at most, then output, then one result) on any connection, and with exactly its reply on one that holds; what is remembered; that the disk changes only by a write that passed, as its install does, at the path and with the payload that were described |
| `Executor.ReplyIsSentence` | client/executor.go:220-293 | the reply is a sentence for every tool, policy, operator and failure |
| `Executor.GateTells` | client/executor.go:430-446 | what the relay is told of the guard-rail under each policy: nothing, the approval and the work, or the refusal and its code |
| `Executor.ArgumentsReachTheProgram` | client/executor.go:312-326 | any arguments quoted and joined on the line reach the program unchanged, if the first names one that is installed |
| `Executor.Executor.PassesGuardRail` | client/executor.go:430-446 | when the guard-rail lets through, what it sends and what it remembers |
| `Executor.Executor.ResolveApproval` | client/executor.go:511-546 | "toujours" is remembered by description and spares the question |
| `Executor.Executor.Pump` | client/executor.go:372-386 | the pumps send nothing but what they read, each read as text of its own, and all of it while writes succeed |
| `Executor.Executor.RunAndReport` | client/executor.go:276-292 | output then one result |
| `Executor.Executor.RunPlain` | client/executor.go:312-326 | `run_command` fails on an open quote, an empty line or an unknown program |
| `Executor.Executor.SystemInfo` | client/executor.go:388-401 | the information as one stream message, or the error |
| `Executor.Executor.ReadFile` | client/executor.go:464-475 | chunks then one result, true to how the transfer went |
| `Executor.Executor.WriteFile` | client/executor.go:482-504 | the result of the install, and what it leaves on the disk |
| `GuardRail.OnlyJustifiedOperationsRun` | client/executor.go:430-446 | over any interleaving and any switching of the policy: an operation that ran had gone through one of four courses and nothing else (read `auto`; read `confirm`, found in memory; read `confirm`, approved, with or without "toujours"), and nothing happens to it afterwards; what is found in memory had been answered "toujours" to the same description before; the policy read is the one last set |
| `GuardRail.RefusedNeverRuns` | client/executor.go:430-446 | over any run, an operation the operator refused, or that read `deny`, is never executed, whatever is answered to others |
| `GuardRail.RunsOnce` | client/executor.go:220-241 | over any run, no operation is executed twice |
| `Approvals.RunsOnlyIfApproved` | client/executor.go:430-504 | over any interleaving and any switching of the policy, an operation runs only if it read `auto`, or the operator approved it, or had answered "toujours" to one that counts for it: for a write, a write to the same path of the same size |
| `Approvals.RecalledWasAlwaysed` | client/executor.go:511-525 | what is found in memory was answered "toujours" before, to an operation that counts for it |
| `Approvals.SameDescription` | client/executor.go:461-491 | two operations share a description only if they are writes of one path and one size, or reads of one path, or the same command line, or one is a command line that spells the other out |
| `Approvals.SizedIsReadBack` | client/executor.go:491 | path and size can be read back from the description of a write |
| `GuardRail.RunInv` | client/policy.go:45-69 | every run keeps the invariant behind it |
| `GuardRail.UninterruptedDecision` | client/executor.go:430-446 | the interleaved steps, uninterrupted, decide and remember what the executor does in one go |
| `Argv.SplitArgv` | client/executor.go:98-156 | the loop computes the reference, and fails exactly when the line ends inside an open quote |
| `Argv.ArgumentsKeepTheRest` | client/executor.go:98-156 | the arguments end to end are the line without unquoted blanks, delimiting quotes and protecting backslashes |
| `Argv.SpelledLineSplits` | client/executor.go:98-156 | arguments spelled in any way and joined by blanks come back unchanged |
| `Argv.QuotedLineSplits` | client/executor.go:98-156 | any list of strings survives quoting, joining and splitting |
| `Argv.DoubleQuotedSpells` | client/executor.go:123-139 | double quotes with escapes spell any argument |
| `Argv.SingleQuotedSpells` | client/executor.go:116-136 | single quotes spell any argument without one |
| `Argv.BackslashedSpells` | client/executor.go:140-143 | backslashes alone spell any non-empty argument |
| `Argv.RolesAlwaysFit` | client/executor.go:112-148 | only blanks separate, only quotes delimit, only protecting backslashes vanish |
| `Argv.RolesAppend` | client/executor.go:112-148 | a closed piece of a line is read the same whatever follows |
| `ArgvLines.LaidOutLineSplits` | client/executor.go:144-150 | arguments spelled in any way, with any spaces and tabs before, between and after them, come back unchanged |
| `ArgvLines.SpellingsJoin` | client/executor.go:112-150 | spellings written without a blank in between spell one argument |
| `ArgvLines.BareWordSpells` | client/executor.go:146-149 | characters that are no blank, quote or backslash spell themselves |
| `ArgvLines.VerbatimSpells` | client/executor.go:123-132 | inside double quotes a backslash before anything but a quote or a backslash is kept |
| `ArgvLines.LastBackslashIsKept` | client/executor.go:140-149 | a backslash at the end of the line is kept |
| `ArgvLines.OpenQuoteFails` | client/executor.go:152-154 | a quote left open, of either kind, fails the whole line whatever comes before it |
| `Aggregate.DispatchAndAggregate` | relay/mcp_server.py:630-674 | the loop's answer as a function of the chunks and the error raised |
| `Aggregate.ResultDecides` | relay/mcp_server.py:643-647 | a result that comes last is the outcome |
| `Aggregate.RaisedIsReported` | relay/mcp_server.py:655-662 | whatever was yielded, a run whose dispatch raised an error is answered with it |
| `Aggregate.NoResultIsReported` | relay/mcp_server.py:664-674 | an answer without a result counts as `refused_by_user` exactly when its approval was a refusal |
| `EndToEnd.SentenceIsYielded` | relay/broker.py:207-252 | in every reachable state, a sentence the client said is yielded in order and, on normal end, whole, approved commands included; until then the dispatch is bound to end |
| `EndToEnd.SentenceEndsAtResult` | relay/broker.py:330-337 | cutting at the first result loses nothing of a sentence and ignores what follows |
| `EndToEnd.AnswersAreAbout` | relay/broker.py:228-230 | what a dispatch should yield is what its connection said about it |
| `EndToEnd.OthersChangeNothing` | client/main.go:361-378 | messages of commands running concurrently on the connection change nothing for this one |
| `EndToEnd.RunIsReported` | relay/mcp_server.py:630-674 | a command that passed is reported as it went: the error that kept it from starting, or the text of what was read of each stream, in order, its exit code and its error |
| `EndToEnd.TextIsReportedExactly` | client/executor.go:372-386 | well-formed output is reported as it is if and only if no read stopped inside a character |
| `EndToEnd.BytesAreReportedExactly` | client/executor.go:372-386 | any output is reported as one single read of it would be if and only if no read stopped inside a character, and is longer otherwise |
| `EndToEnd.AccentIsMisreported` | client/executor.go:372-386 | for instance 4095 letters and an accented one |
| `EndToEnd.GateAddsNothing` | relay/mcp_server.py:630-674 | once the guard-rail lets a command through, its messages change nothing of what is reported |
| `EndToEnd.RunIsAnswered` | client/executor.go:243-293 | any run is reported as it should be: blank, refused, or as it went |
| `EndToEnd.RunReachesTheHarness` | relay/broker.py:256-340 | the whole way for runs: when the dispatch ends normally the harness is told just that |
| `EndToEnd.ArgumentsAreRun` | client/executor.go:243-326 | a line made by quoting any arguments is told as the program went that was given them |
| `EndToEnd.InfoIsAnswered` | client/executor.go:388-401 | `system_info` is told as the line the machine gives, without a question, or as its error |
| `EndToEnd.UnreadableIsAnswered` | client/executor.go:230-253 | a command whose parameters cannot be read, or for an unknown tool, is told as such, without a question |
| `EndToEnd.TrailAgreesWithAnswer` | relay/broker.py:330-340 | over any run the outcome in the audit trail is the exit code and the error the harness is told, those of the result that every dispatch that ended normally has |
| `EndToEnd.RefusalIsReported` | client/executor.go:430-446 | a command the guard-rail stopped is reported as refused, with no output |
| `EndToEnd.ReadIsAnswered` | relay/mcp_server.py:718-772 | any read of any file is answered as it should be: refused when the guard-rail stops it, otherwise the same whether it had to be approved or not |
| `EndToEnd.ReadReachesTheHarness` | relay/broker.py:256-340 | the whole way: any read answered by a client whose connection holds, among whatever else it carries, and dispatched through any reachable relay: when the dispatch ends normally, and also when the tool closes it over the cap, the harness is told what the file, the guard-rail and the operator call for |
| `EndToEnd.ReadReply` | client/executor.go:452-476 | what the executor replies to a read is the guard-rail's messages, then those of the transfer, under the answer the operator gives to the description |
| `EndToEnd.WriteIsAnswered` | relay/mcp_server.py:546-568 | any write is answered as it should be: refused, the code of what failed, or written, with the size and the hash of the bytes the relay decoded |
| `EndToEnd.WriteReply` | client/executor.go:482-504 | what the executor replies to a write is the guard-rail's messages and one result, under the answer the operator gives to the description that names its path and its size |
| `EndToEnd.WriteReachesTheHarness` | relay/broker.py:256-340 | the whole way for writes |
| `EndToEnd.WriteAnswerIsTrue` | client/filetransfer.go:198-285 | when the answer is that it was written: it had passed under the description that names its path and its size; those bytes are at that path, with the permissions asked for, else kept, else 0644; an existing file was replaced only if that was asked for. After any other answer that path is as it was. Nothing else changes but missing directories above it, if they may be created |
| `EndToEnd.HeardWithinDelivered` | client/wsconn.go:61-70 | of what a client attempted to say about a request the network took a beginning, and what the relay hears is a beginning of that, all of it when the connection holds and everything got there |
| `EndToEnd.HeardSince` | relay/broker.py:224-252 | what is heard of a request since its dispatch is all that is ever heard of it, when nothing was before |
| `EndToEnd.BrokenIsUnfinished` | relay/broker.py:315-340 | when the connection broke before the result was written, the dispatch never ends normally, and unless the timer or its consumer ended it, it can only end as `client_disconnected` |
| `EndToEnd.BrokenReadIsNeverContent` | relay/mcp_server.py:718-759 | so the pieces of a read that breaks off are never given as content: the answer is `client_disconnected` or `timeout`, or `file_too_large` over the cap |
| `EndToEnd.BrokenWriteIsNeverWritten` | relay/mcp_server.py:546-568 | nor is such a write ever reported as written |
| `EndToEnd.BrokenRunIsNeverDone` | relay/mcp_server.py:630-674 | nor such a run as done |
| `EndToEnd.UnfinishedIsReported` | relay/mcp_server.py:655-759 | in every state, a dispatch that did not end normally is told as an error by every tool, whatever it had yielded |
| `EndToEnd.NotSentIsReported` | relay/mcp_server.py:655-747 | a command that was not sent is told as `session_not_found` or `denied` by every tool |
| `LogLine.SanitizeLogLine` | client/commanddetail.go:180-207 | the loop computes the fold and the cut |
| `LogLine.SanitizedIsNormal` | client/commanddetail.go:180-219 | every line is printable characters and single spaces, with no blank at either end; no code point below 32 or from 127 to 159 |
| `LogLine.NormalFolds` | client/commanddetail.go:180-207 | exactly the normal texts fold to themselves |
| `LogLine.SanitizedTwice` | client/commanddetail.go:180-219 | sanitising twice is sanitising once exactly when nothing was cut, or eighteen characters were |
| `LogLine.CutTwice` | client/commanddetail.go:180-219 | for instance 401 letters are cut again the second time |
| `LogLine.FoldedIsMarked` | client/commanddetail.go:185-205 | the fold is the printable characters in order, with a mark where a line break stood between two, else a space where a blank did |
| `LogLine.SanitizedKeepsOrder` | client/commanddetail.go:180-219 | a line keeps the printable characters in order up to four hundred, then says how many it cut |
| `LogLine.TwoWords` | client/commanddetail.go:164-205 | two words with any white space and control characters between them come out with a visible mark between them if a line ended there, else one space if there was any white space, else nothing |
| `ActivityView.ActivityLog.Append` | client/activitylog.go:69-85 | the journal holds the last `capacity` events of its history |
| `ActivityView.LogPanel.AppendLogEvent` | client/gui.go:384-402 | the panel kept step by step is the one computed from the whole history and the filter |
| `ActivityView.LogPanel.RebuildLogLines` | client/gui.go:406-419 | rebuilding computes the filter and its rendering |
| `ActivityView.LogPanel.SetCommandsOnly` | client/gui.go:350-353 | toggling the filter keeps the panel equal to what one would compute |
| `ActivityView.LogPanel.PanelShows` | client/gui.go:384-428 | at any time the panel shows, of the last 5000 events it was told of, all or just the commands, in order, each rendered |
| `ActivityView.LastOfAppend` | client/activitylog.go:69-84 | keeping the last n step by step is keeping the last n of all |
| `ActivityView.ShownIsFilter` | client/gui.go:426-428 | filtered, exactly the commands in order; unfiltered, everything |
| `ActivityView.PanelMirrorsJournal` | client/gui.go:358-369 | a panel opened on the backlog and told every event since shows what the journal holds, the last 5000 of all |
| `Protocol.Conn.WriteJson` | client/wsconn.go:61-70 | a write succeeds when the network takes it and none failed before; what got through is what was attempted, or a proper beginning of it once one failed |

## Left out

- Sockets, TLS, FastAPI, the MCP SDK, the GUI toolkit, process spawning and killing, system information: input and output, or libraries not visible here. What they deliver is a parameter of the model.
- SHA-256: any function for which nobody finds two records with one hash, a record that holds its own, or one that hashes to the genesis value. Regular expressions (`IsDestructive`, the policy's patterns) are arbitrary predicates.
- JSON text: the printer and the parser are functions about which `Audit` uses only that a record's text is one line, starts with a brace and reads back as the record, that no beginning of it is JSON, and that neither are two such pieces on one line. The last is true of records whose keys start with a small letter, as all the relay's do, and is asked of those only; `Audit.RestartExactly` and `Audit.NextRecordLinks` do not need it.
- `Audit.VerifyChain`: how far the decoder is ahead when it meets a bad byte depends on Python's buffers and is a parameter.
- `Protocol.Conn.WriteJson`: that a WebSocket keeps the first error it met is the library's doing (it is not part of this model beyond the `broken` flag); a write that fails half-way is a message the relay does not hear.
- How the relay's tools put their arguments into the parameters of a command, but for the offset and the size of a read: the client starts from the parameters it decodes.
- Authentication, scopes, capabilities, JWT and per-session tokens: settled by reading a branch.
- Clocks are one non-decreasing real; a timer may fire at any moment a dispatch is waiting, so the length of a timeout is not modelled. Request identifiers and temporary names are fresh.
- `BrokerTheorems.EachDispatchIsAuditedOnce`: in the runs of the model the audit log can be written. A kill that cannot be recorded is `AuditFailure`; a dispatch that cannot be recorded when it ends is no longer pending, but raises the error of the log in place of its own end and has no entry, and a refusal that cannot be recorded raises it too.
- The parameters of a command are not part of the broker's audit entries, so their redaction is not modelled; the broker's trail is a list of entries, and the file they go to is `Audit`.
- Messages to a client other than `command` (registered, heartbeat_ack, session_terminated), the closing of a killed client's socket, and what the relay answers the harness to a lookup.
- Message fields of an unexpected JSON type, and a result whose metadata is not an object.
- A file is taken not to change while it is read; concurrent writers to a target, a failing removal of the temporary, and directories left behind by `create_dirs` on failure are outside the install's claim.
- `Broker.Broker.DispatchCommand`: a generator's local variables are kept in a map of the broker, one entry a dispatch, and `heard` is a history field the program does not have; each method stands for what the coroutine does up to its next await, and the event loop that picks the next one is the run.
- `Executor.Executor.Handle`: one command at a time; how several interleave is `GuardRail` for decisions and `EndToEnd.OthersChangeNothing` for messages. The reply is exact while writes succeed; once one fails, only the grammar of what is attempted is stated. Activity events are not emitted. The order in which the two pumps interleave is a parameter.
- `Executor.Executor.WriteFile`: the `mode` text is taken as already parsed, and where a path leads on the machine is a parameter.
- `Executor.Executor.Pump`: what the process wrote and no read brought is outside the model, so that a run is reported with all its output is not claimed.
- `LocalPolicy.PolicyController.Set`: the three policies `ParsePolicy` can return, not arbitrary strings.
- `ActivityView.LogPanel.AppendLogEvent`: events come in the order the panel is notified of them; an event logged between reading the backlog and subscribing is outside the model.
- `describeToolParams` and the rest of the log's wording: it formats pieces that `LogLine` already covers.
