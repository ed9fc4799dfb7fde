# Cristian's clock synchronisation — a Dafny model

The system is a time authority plus clients that keep their clocks close to it with Cristian's algorithm.

The authority (`time_server.py`) does three things:
- It anchors its clock to a list of reference (NTP) servers. It takes the offset from the first one that answers.
- It re-checks once per poll whether a full minute has passed since its last successful reference sync.
- It answers each request on a client connection with the request's own number, a colon, and its corrected time.

A client (`time_client.py`) runs a sync cycle per period:
- It stamps the time of the cycle.
- It sends its send time `t0` and reads the reply `t0_echo:t1`.
- It takes the receive time `t3`.
- It estimates the true time as `t1 + (t3 - t0) / 2`.
- It moves its clock offset 10% of the way toward that estimate.

The model covers this sequential core over exact numbers. The modules are:
- `Text`: Python's `str.split` on one separator character, with its join inverse.
- `Numbers`: numbers on the wire. A finite float is a finite decimal fraction, so a wire number is `Decimal(units, scale)` = `units / 10^scale`.
  - `Encode` writes a `Decimal` as an optional `-`, the whole part, and when `scale > 0` a point followed by exactly `scale` digits.
  - `Decode` reads `[+|-] digits [. digits]` (at least one digit).
  - Reading back what was written gives the same number, proved for every `Decimal`. `Add` is exact decimal addition.
- `Protocol`: the request and reply texts, and the client's parse of a reply.
- `Client`:
  - the estimator and the damped adjustment;
  - the outcome of one sync cycle (a `Result`: a connection failure, a malformed reply, or an estimate);
  - the class `ClockClient`, whose fields are updated in place by `SyncStep` and `RunSyncLoop`;
  - the convergence law over any run of cycles.
- `Server`:
  - the first-success rule over the reference servers and the resync test;
  - the class `ServerClock`: the module globals `ntp_time_offset` and `last_ntp_sync` become its fields, updated by `SyncWithNtp`, `Tick` and `RunNtpSyncThread`;
  - the connection loop `HandleClient`, specified by the pure function `Conversation`.

Inputs that the source reads at run time become parameters:
- clock readings (`time.time()`);
- what the reference servers answer (one `Option<Decimal>` per server, in list order);
- what a connection delivers (a `Received` per `recv`, or `None` for a failed connection).

Three details of the code matter for the model:
- The authority's offset after a reference sync is the reference library's `response.offset`, taken as is. The code does not compute it against the authority's corrected time.
- The authority's driver polls every second and resyncs when `now - last_ntp_sync >= 60`. It is not a fixed-period actor.
- The client sleeps a full period after each cycle. It does not wake at a fixed cycle boundary.

## Model

| member | source | states |
|---|---|---|
| Text.Split | time_client.py:80 | `str.split` on one character yields one more field than there are separators; no field contains the separator; joining the fields with it gives the text back |
| Text.SplitPair | time_client.py:80 | two separator-free texts joined by the separator split back into exactly those two fields |
| Numbers.Encode | time_client.py:71 | the text of a number (`str`) uses only digits, `-` and `.`; `DecodeEncode` states that it reads back exactly |
| Numbers.Decode | time_server.py:94 | reading a number (`float`): an accepted text is non-empty; `DecodeEncode` states that it inverts `Encode` |
| Numbers.DecodeEncode | time_client.py:71 | the text a client sends for its send time is read by the authority as exactly that number |
| Numbers.AddValue | time_server.py:57 | the sum of a raw clock reading and the offset is exact: its value is the sum of the two values |
| Protocol.FormatReply | time_server.py:98 | the reply text: the request's text, a colon and the authority time's text; `FormatReplyHasOneSeparator` and `ReplyRoundTrip` state that it holds one colon and parses back to those two numbers |
| Protocol.ParseRequest | time_server.py:94 | the authority reads the whole request as one number; an accepted request is non-empty, and `RequestEchoed` states that a request the client wrote is read as its number |
| Protocol.FormatReplyHasOneSeparator | time_server.py:98 | a reply `f"{request_time}:{current_time}"` contains exactly one colon |
| Protocol.NoSeparatorInNumber | time_server.py:98 | the text of a number never contains a colon |
| Protocol.RequestEchoed | time_server.py:94-98 | a request in the client's form is parsed as that number, and the reply starts with the request's text followed by the colon |
| Protocol.ParseReply | time_client.py:80 | a reply is accepted only if it holds exactly one colon |
| Protocol.ParseReplyAccepts | time_client.py:80 | a reply is accepted if and only if it has exactly one colon and both texts around it are numbers |
| Protocol.ParseReplyRejectsColonCount | time_client.py:80 | any reply with zero or several colons is rejected |
| Protocol.ReplyRoundTrip | time_server.py:98 | parsing a reply the authority formatted gives back exactly (request, authority time) |
| Client.CristianEstimate | time_client.py:83-89 | the round trip is `t3 - t0`, the delay is half of it, and the correct time is `t1` plus the delay |
| Client.EstimateExample | time_client.py:83-89 | for `t0 = 100`, `t1 = 105`, `t3 = 104` the estimate is round trip 4, delay 2, correct time 107 |
| Client.EstimateError | time_client.py:83-89 | with true one-way delays `out` and `in`, the estimate misses the true time by `(out - in) / 2`; the miss is at most the estimated delay and is zero exactly when the delays are equal |
| Client.AdjustmentLaw | time_client.py:92-97 | one adjustment moves the offset by `rate * (correct - local)`, and the remaining gap is `(1 - rate)` times the gap before |
| Client.StepOffsetLaw | time_client.py:92-97 | a failed cycle leaves the offset unchanged; a successful one moves it by exactly `rate * (correct - local)` |
| Client.DampingShrinksDifference | time_client.py:96-97 | for a rate strictly between 0 and 1, the remaining gap is strictly smaller in magnitude than a non-zero gap before and has the same sign |
| Client.Converges | time_client.py:55-117 | when every estimate is the true time at its receive instant `t3` and the local time is read a fixed `lag` after `t3`, the gap to `trueOffset - lag` after any run of cycles is the starting gap damped once per successful cycle; failed cycles leave it alone |
| Client.TracksError | time_client.py:77-97 | under the same assumption, each successful cycle multiplies the gap to `trueOffset - lag` by `1 - rate` and each failed one keeps it |
| Client.SettlesShortByLag | time_client.py:77-97 | the point the offset settles at is `lag` short of the true offset: a successful cycle leaves `trueOffset - lag` unchanged and moves an offset equal to the true one by `-rate * lag` |
| Client.DampedIsPower | time_client.py:96-97 | damping a gap `k` times by the factor `1 - rate` multiplies it by `(1 - rate)^k`, so the gap after a run is `(1 - rate)^k` times the starting gap |
| Client.ErrorFactorDecreases | time_client.py:23 | for a rate strictly between 0 and 1, the factor `(1 - rate)^k` is positive, at most 1 and strictly decreasing in `k` |
| Client.CycleOutcome | time_client.py:64-89 | the outcome of one cycle: a connection failure when nothing was received, a malformed reply when it does not parse, otherwise Cristian's estimate from `t0`, the reply's `t1` and `t3`; `CycleOutcomeCases` and `CycleOnReply` state these cases |
| Client.StepOffset | time_client.py:92-97 | the offset after one cycle: the damped adjustment toward the estimate on success, the old offset on failure; `StepOffsetLaw` states by how much it moves |
| Client.CycleOutcomeCases | time_client.py:64-89 | a cycle fails with a connection failure if and only if nothing was received, fails as malformed if and only if the reply does not parse, and otherwise measures the round trip from the send time |
| Client.CycleOnReply | time_client.py:80-89 | a cycle whose reply parses to `(echo, t1)` yields Cristian's estimate from `t0`, `t1` and `t3`; the echo plays no part |
| Client.ServedReplyEstimate | time_client.py:80-89 | when the reply is the one the authority formats for the client's own request, the estimate uses exactly the authority's time |
| Client.ClockClient.constructor | time_client.py:13-25 | a new client has the given id and initial offset, rate 0.1 and last sync time 0 |
| Client.ClockClient.LocalTime | time_client.py:27-29 | local time minus the raw reading is exactly the offset |
| Client.ClockClient.TimeUntilNextSync | time_client.py:41-42 | the countdown is never negative, at most 60 once the last sync lies in the past, 60 minus the elapsed time within a period, and 0 after a full period |
| Client.ClockClient.SyncStep | time_client.py:56-111 | the last sync time is stamped with the cycle's start; the outcome is the cycle's outcome; the offset moves as one step of the damped adjustment, and on failure it is unchanged; rate and id do not change |
| Client.ClockClient.RunSyncLoop | time_client.py:55-117 | one outcome per cycle, each the outcome of the cycle at its position; the offset is the fold of the damped step over all cycles; the last sync time is the last cycle's start |
| Server.AfterNtpSync | time_server.py:32-53 | the state after one reference sync: the first answer and the given stamp when some server answered, the old state otherwise; `SyncReplacesOffset` and `FailedSyncRetries` state both cases |
| Server.ResyncDue | time_server.py:68-71 | a resync is due when the raw time minus the last sync's stamp is at least 60 seconds; `SuccessfulSyncDefers` and `FailedSyncRetries` state how a sync changes it |
| Server.FirstSuccess | time_server.py:32-48 | the result is the index of the first server that answered, with every earlier one failed, or none when all failed |
| Server.FirstSuccessIgnoresLater | time_server.py:32-48 | once a server has answered, servers after it make no difference |
| Server.SyncReplacesOffset | time_server.py:37-38 | after a successful sync the offset is the first answer, replacing the old one, and the sync is stamped with the given time |
| Server.FailedSyncRetries | time_server.py:66-72 | a sync in which every server fails changes nothing, so a due resync stays due at every later poll |
| Server.SuccessfulSyncDefers | time_server.py:69-72 | after a successful sync the next one is due exactly when 60 seconds have passed since its stamp |
| Server.StaleWhileFailing | time_server.py:49-53 | while every server keeps failing, any number of polls leaves offset and last sync unchanged |
| Server.OffsetComesFromAnswers | time_server.py:37 | the offset after any run of polls is the starting one or one that some reference server answered |
| Server.Answer | time_server.py:87-98 | the reply to one read: none for an empty read or one that is not a number, otherwise the formatted reply with the raw clock plus the offset; `AnswerCarriesCorrectedTime` states what the client reads from it |
| Server.Conversation | time_server.py:87-110 | the replies to the reads of one connection, up to the first read without an answer, and why the connection ended; `ConversationFaithful` states its properties |
| Server.AnswerCarriesCorrectedTime | time_server.py:94-98 | a read is answered only when it is non-empty and a number, and the client parses the answer as that number and raw clock plus offset |
| Server.ConversationFaithful | time_server.py:87-110 | each reply answers the read at its position; the connection ends after all input exactly when every read was answered; otherwise the first unanswered read is empty (peer closed) or not a number (malformed request) |
| Server.ServerClock.constructor | time_server.py:20-21 | the offset and the last sync time both start at 0 |
| Server.ServerClock.GetCurrentTime | time_server.py:55-57 | the corrected time at a raw clock reading, as an exact decimal sum of the reading and the reference offset; `CurrentTimeValue` states its value |
| Server.ServerClock.CurrentTimeValue | time_server.py:55-57 | the corrected time is the raw clock reading plus the offset |
| Server.ServerClock.SyncWithNtp | time_server.py:23-53 | servers are queried in list order up to the first that answers and no further; the result is true exactly when one answered; the new state is that of a first-success sync |
| Server.ServerClock.Tick | time_server.py:66-72 | a sync is attempted exactly when at least 60 seconds have passed since the last sync; it succeeds exactly when attempted and some server answered |
| Server.ServerClock.RunNtpSyncThread | time_server.py:59-80 | the state after the initial sync and the given polls is the fold of the poll step over them |
| Server.ServerClock.HandleClient | time_server.py:86-110 | the replies sent and the reason the connection ended are those of `Conversation`, whose properties `ConversationFaithful` states |

## Left out

- Sockets (`connect`, `send`, `recv(1024)`, `accept`, `bind`, `listen`, `close`) are not modelled. A client cycle receives `Some(reply)` or `None` for a connection that failed; the authority receives a sequence of reads.
- Message framing is not modelled: one read is taken to be one whole message, as the code assumes.
- A send failure on the authority's side (time_server.py:99, 107-108) is not modelled as a separate way to end a connection.
- Threads, daemon flags, `stop_flag`, `time.sleep`, the display loop apart from its countdown (time_client.py:31-51, countdown at lines 41-42, modelled by `TimeUntilNextSync`) and the accept loop (time_server.py:113-144) are left out, as are all locking and concurrency questions. The clock fields are state owned by one caller.
- `time.time()` readings are parameters: a cycle's start, send, receive and local-time readings, and each poll's test and stamp readings.
- `ntplib.NTPClient.request` is a foreign call and is not modelled. Each reference server's result is a given `Option<Decimal>` offset (`None` for an exception or a timeout).
- Python `float()` and `str(float)` are approximated, and IEEE-754 rounding is not modelled:
  - Numbers are exact decimals, and client arithmetic is exact arithmetic over `real`.
  - `Decode` does not accept exponents, `inf`/`nan`, surrounding whitespace or `_` separators.
  - `Encode` writes the exact decimal rather than Python's shortest round-trip form (for example `1.50` rather than `1.5`, and no `e` notation).
  - A codec over all real numbers cannot exist, because there are more reals than strings, so wire numbers are `Decimal`.
- Server.ServerClock: its `Decimal` fields stand for the Python globals, which start as the integer `0`. Reference offsets are taken as `Decimal` values.
- UTF-8 encoding and decoding of the texts is not modelled; texts are character sequences.
- The echoed `t0_echo` is parsed but not used by the client; the model parses it and drops it, as the code does.
- All printing and `datetime` formatting are not modelled, nor the approximate 15-second status print using float modulo (time_server.py:74-77).
- `random` initial offsets and identities and `sys.argv` handling in `main` are not modelled. The constructor takes the identity and the initial offset as parameters; the default `initial_offset=0` (time_client.py:13) is not modelled as a default, so callers pass 0 explicitly.
- Client.Converges: its precondition takes each successful estimate to be exact at its receive instant (the raw reading `t3` plus the true offset) and the local time to be read a constant `lag` after `t3`. It does not model clock drift, a lag that varies from cycle to cycle, or unequal network delays. With `lag > 0` the offset settles `lag` short of the true offset, not at it (`Client.SettlesShortByLag`). `Client.EstimateError` bounds the error of a single estimate when the delays differ.
