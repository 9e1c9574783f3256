# Verification model of ffmpeg-agent

ffmpeg-agent accepts FFmpeg jobs over HTTP, runs them in a fixed number of workers, and reports
each job's progress and outcome to a callback. This project models the agent's logic in Dafny and
proves what it promises. `dafny verify dfyconfig.toml` checks everything.

- **Job protocol** (`Protocol`, `Accounts`, `Safety`, `Guarantees`, `Outcomes`, `Shutdown`, `Agent`). The agent
  runs on one thread, so the code between two awaits is one step of a state machine. A ticket numbers
  the accepted jobs, because an id may come back once its job has left. Whatever comes from outside
  (transfer results, exit codes, file sizes, timers, the order of steps) is arbitrary. `Accounts`
  looks at permits, ids and places only; `Safety` is the invariant of every step; `Guarantees` and
  `ShutdownProof` state the results over whole runs, and `Outcomes` ties what a job reports to what its
  worker was told. `AgentState.Agent` is the shared state as an
  object whose methods are the steps.
- **Retries** (`Retrying`, `Download`): the two retry loops against one specification, and the input
  file under retried downloads.
- **Bounded streams** (`Capture`, `ProgressLines`): FFmpeg's stderr window, the upload receipt, and the
  reader of FFmpeg's progress lines, each tied to the whole stream, so that chunking cannot matter.
- **Stall detection** (`StallWatch`): the directory scan with its budget, and the timer.
- **Jobs** (`JobModel`): validation and FFmpeg's argument vector.
- **Authentication** (`KeyStorage`, `Token`, `Base64Url`): the key file and its cache, the compact
  serialization of section 7.1 of RFC 7515 over the base64url of section 5 of RFC 4648, and the times
  of a token.
- **Codecs of the tests** (`DerSignature`, `BigEndian`, `MovieBoxes`): ECDSA signatures between DER and
  raw form, and the walk over the top-level boxes of an MP4 file.

Where a heartbeat task is aborted the model is more permissive than the single-threaded runtime: an
aborted heartbeat may still make an event until it has been joined. The order of events therefore
rests on the join in the worker, not on the scheduler.

Results in which the code differs from what is said about it:

- A comment at `agent/src/main.rs:29` says that no valid token accepts the time 0, which stands for a
  clock before the epoch. `Token.EpochWitness` is a signed token that it accepts; `Token.EpochClock` says
  which tokens are accepted at 0: those with `iat` and `nbf` of at most 15.
- The box walk prints its types with `echo`, which takes a type such as `-nee` for an option
  (`MovieBoxes.OptionWitness`). It also adds before it compares, in 64 bits, so that a fragment in the
  last 8 offsets of int64, and only that (`MovieBoxes.StrayExact`), is echoed as one more type
  (`MovieBoxes.StrayWitness`). `MovieBoxes.ScriptPrintsBoxes`: the printed lines are the types of the
  file exactly if no type is spelled like an option and no such fragment prints a line. `mp4_faststart`
  is right in spite of both (`MovieBoxes.FastStart`).
- `agent/src/auth/jwks.rs:7` and `agent/README.md:284` say that a key file that becomes unreadable rejects
  every request. One that keeps its length, modification time and inode is noticed only when the cache is
  stale (`KeyStorage.UnreadableWitness`, `KeyStorage.UnreadableExact`), so within the refresh time
  (`KeyStorage.UnreadableInTime`).
- The printer `der` writes a zero half without contents; its output is canonical exactly if neither
  half is zero (`DerSignature.PrintCanonical`). Parsing still gives the raw form back.

## Model

| member | source | states |
|---|---|---|
| Guarantees.PermitsAreJobs | agent/src/main.rs:66-103 | in every reachable state the permits taken, the registered ids, and the jobs in queue and workers are one number; the ids are exactly those of these jobs, each once |
| Guarantees.AdmissionExact | agent/src/main.rs:59-107 | each answer to a submission, as an if-and-only-if over validity, shutdown, live ids and occupancy; a full or closed channel is never the reason |
| AgentState.Agent.Submit | agent/src/main.rs:53-108 | the imperative submission, with permit and id handed back when the send fails: every answer but acceptance leaves the agent unchanged |
| Accounts.ChannelNeverRefuses | agent/src/engine.rs:94-105 | a free permit means room in the channel and a receiver that is still open |
| Accounts.StepAccounted | agent/src/engine.rs:189-227 | every step keeps permits, ids and places in balance, the queue in order of acceptance, and lets workers leave only after cancellation with nothing queued |
| AgentState.Agent.Notify | agent/src/engine.rs:126-142 | an event takes the next sequence number and the phase and outcome of that moment |
| AgentState.Agent.Heartbeat | agent/src/engine.rs:176-187 | a turn of the heartbeat makes a non-terminal event or, when told to stop, ends |
| AgentState.Agent.Receive | agent/src/engine.rs:190-201 | a worker takes the oldest queued job, also during shutdown, and leaves only when there is none and shutdown has begun |
| AgentState.Agent.Poll | agent/src/engine.rs:204-210 | the biased select: shutdown before deadline before stall before progress of the job |
| AgentState.Agent.Conclude | agent/src/engine.rs:211-222 | after the heartbeat has been joined, the final phase, the error and the terminal event |
| AgentState.Agent.Retire | agent/src/engine.rs:225-226 | the id and the permit go together, and the accounts stay balanced |
| Safety.ExecuteFits | agent/src/engine.rs:323-413 | from each stage of execute, whatever the world answers: success leaves a 2xx receipt, exit code 0 and a permitted size, failure leaves no 2xx receipt, and a retried transfer has an attempt left |
| Safety.TransferFollowsLoop | agent/src/engine.rs:421-442 | the stages of a transfer are the retry loop: after n transient attempts another follows exactly if attempt n is not the last call of the specification of the loops, and success is success |
| Outcomes.ExecuteExact | agent/src/engine.rs:323-413 | one answer of the world at each await of execute: which stage follows, which error ends the job, when it has succeeded, and what it leaves in the outcome |
| Outcomes.FollowExact | agent/src/engine.rs:323-413 | in both directions: which sequences of answers lead to which stage, to success (a directory, fewer transient failures than attempts, the input, exit code 0, a permitted size, fewer transient failures than attempts, a 2xx answer), and to which error |
| Outcomes.TerminalExact | agent/src/engine.rs:204-222 | over every run, a terminal event reports success exactly if nothing cut the job off and its answers were good, else exactly the text of the interrupt or of the first thing that went wrong, and the last exit code and receipt |
| Outcomes.GoodJobSucceeds | agent/src/engine.rs:189-226 | after any run, a queued job that a worker takes, with good answers and no interrupt, gets to a terminal event that reports success |
| Outcomes.JobReports | agent/src/engine.rs:176-187 | in every reachable state before shutdown the heartbeat of a queued or served job can make an event with the next number and the present state |
| Safety.StepKeeps | agent/src/engine.rs:189-236 | the invariant of accounts, events, stages and outcomes survives every step |
| Safety.RunKeeps | agent/src/engine.rs:189-236 | so it holds after every run |
| Guarantees.EventsOrdered | agent/src/engine.rs:126-142 | the events of a job are numbered from 0 without gaps, their states never go back, the terminal ones are those that say succeeded or failed, and a terminal event is the last |
| Guarantees.StateOrder | agent/src/engine.rs:204-219 | the order that is meant: queued, downloading, encoding, uploading, and last succeeded or failed |
| Guarantees.RunExtends | agent/src/engine.rs:211-226 | over any further run a job only gains events and its phase only moves forward; after the terminal event nothing about it changes |
| Guarantees.OutcomeExact | agent/src/engine.rs:204-221 | in a terminal event success, no error and a stored 2xx receipt are equivalent, and imply exit code 0 and an output size strictly between 0 and the limit |
| ShutdownProof.QueuedAtShutdown | agent/src/engine.rs:189-210 | a job still queued at cancellation never reaches the download on any run, and once gone it has reported "agent shutting down" |
| ShutdownProof.WorkCounted | agent/src/engine.rs:189-227 | after cancellation no job makes progress, and each worker step or heartbeat end is one unit of the remaining work |
| ShutdownProof.WorkConserved | agent/src/engine.rs:189-227 | over any run after cancellation the work done and the work left add up |
| ShutdownProof.WorkPossible | agent/src/engine.rs:189-227 | while a worker is left, some unit of work is enabled: shutdown does not get stuck |
| ShutdownProof.ShutdownCompletes | agent/src/engine.rs:189-227 | from every cancelled state a run leads to all workers having left |
| ShutdownProof.ShutdownExact | agent/src/engine.rs:189-227 | under every schedule: a run after cancellation has all workers gone exactly if it has done all the work there was, and no run does more |
| ShutdownProof.NothingLost | agent/src/engine.rs:189-227 | when the last worker has left, no id is registered, every permit is free, and every job ever accepted has made exactly one terminal event, its last |
| Retrying.RetryTransfer | agent/src/engine.rs:421-442 | calls up to the first success or permanent failure or the last attempt, returns that call's result, sleeps one time less; the end of the loop is unreachable for validated policies |
| Retrying.RetryCallback | agent/src/engine.rs:143-173 | the same specification for the callback loop, with its own defaults |
| Retrying.LastCallExists | agent/src/engine.rs:426-439 | the specification of the loops can always be met |
| Retrying.LoopsAgree | agent/src/engine.rs:421-442 | under one policy and equal verdicts both loops make the same calls and reach the same verdict |
| Retrying.DelayBounded | agent/src/model.rs:31-37 | a validated policy waits at most 540000 ms in all |
| Retrying.VerdictExact | agent/src/engine.rs:161-163 | which answers to a callback succeed, which may be retried |
| Retrying.PolicyExact | agent/src/model.rs:31-37 | which retry policies are valid |
| Downloading.Input.Attempt | agent/src/engine.rs:444-488 | one download: its result, and on success the file is the body; the file never exceeds the limit |
| Downloading.Input.Fetch | agent/src/engine.rs:421-488 | under retries the file never exceeds the limit at any write, and on success is the body of the last attempt alone |
| Downloading.AttemptExact | agent/src/engine.rs:444-488 | exactly which responses download the input, and after exactly which ones it is retried |
| Downloading.AttemptMessages | agent/src/engine.rs:444-488 | the message of a failed attempt is that of the first thing that goes wrong |
| Downloading.LateWriteExact | agent/src/engine.rs:459-488 | a write left in flight by an interrupted attempt that lands in the new file: the file is the body exactly if the write lies within it and agrees with what had been written; how large the file gets |
| Downloading.SameBodyUnharmed | agent/src/engine.rs:459-488 | it does no harm if the server sends the same bytes on every attempt |
| Capture.LogWindow.Append | agent/src/engine.rs:378-393 | after any reads, the log fields are the head and the tail of the whole stderr; no subtraction underflows |
| Capture.WindowKeeps | agent/src/engine.rs:378-393 | what head and tail are: the first 64 KiB, the last bytes after it, a tail exactly on overflow, and nothing lost exactly up to 128 KiB |
| Capture.ReadReceipt | agent/src/engine.rs:523-542 | the stored body is the first 64 KiB, truncated exactly if there was more; an interruption counts only before that |
| ProgressLines.Reader.Feed | agent/src/engine.rs:285-321 | under any chunking the reader's counters are those of the terminated lines of the whole stdout |
| ProgressLines.NewLine | agent/src/engine.rs:298-315 | a newline turns the rest into a line that counts only within 1024 bytes |
| ProgressLines.SplitExact | agent/src/engine.rs:298-319 | lines and rest form the stream again and hold no newline |
| ProgressLines.SplitOfJoin | agent/src/engine.rs:298-319 | and no other split does |
| ProgressLines.TallyIsMaximum | agent/src/engine.rs:303-311 | each counter is the maximum that any line reported |
| ProgressLines.TouchesCountIncreases | agent/src/engine.rs:303-311 | touches count exactly the lines that raise a counter above everything before |
| ProgressLines.Utf8Exact | agent/src/engine.rs:300-301 | a line is text exactly if it is the UTF-8 form of a sequence of scalar values, and is read as that sequence |
| ProgressLines.CounterExact | agent/src/engine.rs:301-307 | a text is a counter exactly if, trimmed, it is a key, "=" and a rest that trims to a number; the key itself is not trimmed |
| ProgressLines.ParseU64Exact | agent/src/engine.rs:306 | a number is exactly an optional plus sign, any zeros and the decimal numeral of a u64: no minus sign, no other character, no overflow, not empty |
| ProgressLines.TrimExact | agent/src/engine.rs:303-306 | trimming cuts whitespace off both ends and leaves none there |
| ProgressLines.WhitespaceExact | agent/src/engine.rs:303-306 | the characters it cuts off |
| ProgressLines.CounterRoundTrip | agent/src/engine.rs:301-307 | a printed counter is read back, for every u64, with or without a plus sign and blanks |
| ProgressLines.PrintedLineCounts | agent/src/engine.rs:298-307 | the bytes of a line "key=value" as FFmpeg prints it are within the limit and give that counter, for every u64 |
| StallWatch.Scan | agent/src/engine.rs:239-277 | the scan ends on every finite tree and inspects at most one entry beyond 4096; it sees as many distinct entries as the budget allows and records exactly the regular files among them, with their sizes; within the budget that is every file at any depth |
| StallWatch.EverythingExact | agent/src/engine.rs:247-268 | the entries it divides into seen and unread are exactly those that a path leads to, each once |
| StallWatch.ReadFolder | agent/src/engine.rs:250-268 | the loop over one folder reads all of it or stops one entry over the budget, and keeps what was read and what is pending in balance with the tree |
| StallWatch.GrowthExact | agent/src/engine.rs:271-277 | two scans touch exactly if a file recorded now is larger than when it was recorded before; if both are complete, exactly if some file of the tree grew, an absent one counting as empty |
| StallWatch.Watch | agent/src/engine.rs:229-281 | with the scans made in the loop, the verdict falls at the first poll at which the timeout has passed since the start and since all progress, and at no other; for trees within the budget, progress is a touch or a growth of the tree itself |
| StallWatch.StallsSeen | agent/src/engine.rs:271-281 | a verdict over scans within the budget is the same verdict over the directory trees |
| StallWatch.BusyNeverStalls | agent/src/engine.rs:229-281 | a job whose next progress always comes before the timeout is never stalled |
| StallWatch.QuietStalls | agent/src/engine.rs:278-280 | without progress after p, a poll is stalled exactly from p plus the timeout on |
| JobModel.PlaceholdersExact | agent/src/model.rs:121-142 | the placeholder check accepts exactly one "-i", followed by the input, and one output at the end |
| JobModel.ValidateExact | agent/src/model.rs:99-148 | a job is valid exactly if id, extension, number and size of the arguments, placeholders and the three endpoints are as required |
| JobModel.ValidateMessages | agent/src/model.rs:99-148 | any other job is refused with the message of its first fault |
| JobModel.PathsApart | agent/src/engine.rs:329-332 | input and output are two files of the job directory, the output with the extension asked for |
| JobModel.ValidJobHasAttempts | agent/src/model.rs:31-37 | every retry loop of a validated job has between 1 and 10 attempts |
| JobModel.CommandArguments | agent/src/engine.rs:336-371 | the vector built by the loop: prefix, the job's arguments in order, limit and output |
| JobModel.CommandReadsOneInput | agent/src/engine.rs:347-371 | it has one "-i", followed by the input path, and no placeholder |
| KeyStorage.Parse | agent/src/auth/jwks.rs:81-122 | the loop with its set of seen kids gives the first error or all keys |
| KeyStorage.ParseExact | agent/src/auth/jwks.rs:81-122 | a document is accepted exactly if it has at most 64 members, each of which publishes a key, with distinct kids; the keys are those, in order |
| KeyStorage.KeyOfExact | agent/src/auth/jwks.rs:88-121 | a member publishes a key exactly if it is not private, has a proper kid, type, curve, alg and use, and its coordinates are the base64url of the halves of a point on the curve, x before y |
| KeyStorage.KeyOfFault | agent/src/auth/jwks.rs:88-121 | which fault a refused member is refused for |
| KeyStorage.ParseFault | agent/src/auth/jwks.rs:81-122 | a refused document is refused for its first fault |
| KeyStorage.FindOrderFree | agent/src/auth/jwks.rs:229-233 | the lookup does not depend on the order of the keys |
| KeyStorage.KeyStore.Key | agent/src/auth/jwks.rs:206-234 | a failed stat answers without clearing the cache, a failed load clears it, otherwise cache and answer as specified |
| KeyStorage.KeyStore.Open | agent/src/auth/jwks.rs:181-195 | a store opens exactly if the file loads and has a key, and starts with that load in its cache |
| KeyStorage.LoadExact | agent/src/auth/jwks.rs:153-171 | exactly the readable regular files within the limit that hold an accepted document load, with its keys |
| KeyStorage.LoadFault | agent/src/auth/jwks.rs:153-171 | what keeps a file from loading, in order |
| KeyStorage.CacheIsTransparent | agent/src/auth/jwks.rs:206-234 | if equal fingerprints load alike, every call over any history since opening answers what a fresh stat, load and find would |
| KeyStorage.CacheSteps | agent/src/auth/jwks.rs:206-234 | the cache over a history: empty history, and one call more |
| KeyStorage.KeyIsRecent | agent/src/auth/jwks.rs:216-228 | without that assumption a returned key was offered at a load in this call, or at opening or in an earlier call less than the refresh time before |
| KeyStorage.KeyIsAccepted | agent/src/auth/jwks.rs:81-234 | with the loader of the agent, a returned key is a member of an accepted document of that age and has the kid asked for |
| KeyStorage.FreshExact | agent/src/auth/jwks.rs:206-234 | a look without a cache finds exactly the keys that an accepted document in the file lists |
| KeyStorage.UnreadableExact | agent/src/auth/jwks.rs:206-228 | a file that cannot be loaded is refused as unavailable exactly if it is gone or the cache is stale |
| KeyStorage.UnreadableInTime | agent/src/auth/jwks.rs:216-228 | once no load has succeeded for the refresh time, no key is returned, whatever happened before |
| KeyStorage.UnreadableWitness | agent/src/auth/jwks.rs:216-228 | a file that cannot be opened any more, with its fingerprint unchanged, whose key is still returned |
| Base64Url.DecodeEncode | agent/src/auth/jwt.rs:68-75 | decoding undoes encoding, whose text is of the url alphabet and of known length |
| Base64Url.EncodeDecode | agent/src/auth/jwt.rs:68-75 | only the encoding of some bytes is decoded to them |
| Base64Url.AlphabetExact | agent/src/auth/jwt.rs:68-75 | the alphabet of table 2 of RFC 4648 |
| Base64Url.GroupBits | agent/src/auth/jwt.rs:68-75 | a group is its 24 bits, most significant first |
| Token.PrintedTokenDissects | agent/src/auth/jwt.rs:85-116 | the verifier takes a printed token apart into the three byte strings printed and checks the string that was signed |
| Token.DissectedTokenPrints | agent/src/auth/jwt.rs:85-116 | what it takes apart is the print of its parts: no second spelling of a token |
| Token.DissectExact | agent/src/auth/jwt.rs:85-96 | too large is more than 16 KiB; malformed is any other text that is not the print of three nonempty byte strings |
| Token.PrintedTokenPasses | agent/src/auth/mod.rs:231-256 | a printed token of at most 16 KiB passes the header unchanged |
| Token.BearerExact | agent/src/auth/mod.rs:231-256 | the header yields a token exactly if it is the only one, its scheme is "bearer" in any case, and the rest is nonempty, of token characters and at most 16 KiB, and then it yields just that; so the verifier never finds it too large |
| Token.BearerRejections | agent/src/auth/mod.rs:231-256 | why a request is refused before its token is looked at, each reason in both directions |
| Token.TimesExact | agent/src/auth/jwt.rs:126-143 | the clock checks admit exactly one interval, at most the lifetime plus the skew; nothing wraps |
| Token.VerifyExact | agent/src/auth/jwt.rs:79-165 | acceptance of a whole token, in both directions: the header says ES256, a kid and the required typ, key and signature are good, some claims decode and agree with the policy, and the time is in the interval |
| Token.HeaderRejections | agent/src/auth/jwt.rs:98-111 | the header checks, each rejection in both directions |
| Token.ClaimRejections | agent/src/auth/jwt.rs:117-165 | the checks of claims and clock over mathematical integers, each rejection in both directions |
| Token.VerifyRejections | agent/src/auth/jwt.rs:79-165 | the order in which a token is rejected |
| Token.AcceptanceIsConvex | agent/src/auth/jwt.rs:126-143 | no gap between two acceptances, the same subject, and no acceptance after expiry |
| Token.EpochClock | agent/src/main.rs:29-32 | which tokens a clock before the epoch accepts |
| Token.EpochWitness | agent/src/main.rs:29-32 | a whole printed token that is accepted at the time 0, for every policy with a lifetime of at least a minute |
| DerSignature.DerToRaw | agent/tests/jwt_issuer.py:37-47 | the parsing loop, with every exception as a result |
| DerSignature.ParsePrint | agent/src/auth/jwt.rs:373-386 | parsing undoes printing for every 64 bytes |
| DerSignature.PrintParse | agent/tests/jwt_issuer.py:29-47 | printing undoes parsing on canonical DER |
| DerSignature.PrintCanonical | agent/src/auth/jwt.rs:373-386 | the print is canonical exactly if neither half is zero |
| DerSignature.PrintIsSequence | agent/src/auth/jwt.rs:373-386 | all lengths fit the short form and none is truncated |
| DerSignature.ParseAnyForm | agent/tests/jwt_issuer.py:29-47 | what the parser takes beyond DER: any length of the sequence, both forms of a length, leading zeros and bytes behind; only a value beyond 32 bytes is refused |
| DerSignature.ParseFailures | agent/tests/jwt_issuer.py:29-47 | the other exceptions of a round and of the whole |
| MovieBoxes.TopLevelBoxes | tests/lib/media-metrics.sh:50-72 | the shell loop with 64-bit wrap-around ends on any file whose size is an int64, and echoes what the walk over integers finds and, where a sum wraps, one stray word |
| MovieBoxes.WalkFindsBoxes | tests/lib/media-metrics.sh:50-72 | for boxes with 32-bit and 64-bit sizes laid end to end, with an open-ended box, a box with an impossible size or a fragment behind, the walk finds their types in order |
| MovieBoxes.CutSizeEnds | tests/lib/media-metrics.sh:60-65 | a 64-bit size cut short by the end of the file ends the walk |
| MovieBoxes.PrintableExact | tests/lib/media-metrics.sh:57 | a type keeps exactly its printable characters, in order |
| MovieBoxes.NumberExact | tests/lib/media-metrics.sh:55-64 | od reads a short last block as if filled with zero bytes |
| MovieBoxes.StrayExact | tests/lib/media-metrics.sh:54 | for boxes laid end to end the stray word appears exactly if a fragment begins in the last 8 offsets of int64 |
| MovieBoxes.StrayWitness | tests/lib/media-metrics.sh:54 | a file without such a type that prints an empty line behind its types |
| MovieBoxes.OutputExact | tests/lib/media-metrics.sh:57-59 | the printed lines are the echoed words exactly if none is an option of echo |
| MovieBoxes.EchoOptionExact | tests/lib/media-metrics.sh:59 | which words echo takes for options |
| MovieBoxes.ScriptPrintsBoxes | tests/lib/media-metrics.sh:50-72 | of a file of boxes laid end to end the lines printed for everything echoed are the types in order exactly if no type is an option of echo and no fragment behind them shows as a stray word with a line |
| MovieBoxes.OptionWitness | tests/lib/media-metrics.sh:57-59 | a file of one box for which the script prints nothing |
| MovieBoxes.FastStart | tests/lib/media-metrics.sh:75-88 | true exactly if a moov exists and no mdat comes before the first one, on any file whose size is an int64 |
| MovieBoxes.ReadWordExact | tests/lib/media-metrics.sh:80-84 | read strips blanks from both ends and nothing else |
| MovieBoxes.CapturedExact | tests/lib/media-metrics.sh:76-84 | the captured lines end with the last one that is not empty |

## Left out

- HTTP, TLS, proxies, signals, spawning FFmpeg and the real file system: their results are parameters of the model.
- ECDSA, SHA-256, the curve check, JSON and URL parsing, header and method names: foreign libraries, kept as parameters or as one verdict of an endpoint.
- AgentState.Agent: the accepted jobs are values in a sequence rather than shared objects behind mutexes, so aliasing is not modelled; on one thread no lock is ever contended.
- Protocol.Next: a callback in flight is one pending delivery of a worker; its attempts are modelled by `Retrying.RetryCallback`. Deadline and stall may strike at any moment before cancellation; when a stall verdict falls is the subject of `StallWatch.Watch`.
- ShutdownProof.ShutdownCompletes: gives one run; that the runtime goes on polling ready tasks, so that a run does all its work (`ShutdownProof.ShutdownExact`), is assumed of the scheduler. A heartbeat's own ticks are not counted as work.
- Guarantees.EventsOrdered: the order in which events are made; the network may deliver callbacks in another order.
- Downloading.Input.Fetch: takes the writes of an attempt to have reached the file when the next attempt creates it. A write that an interrupted attempt left with the blocking threads may land later; `Downloading.LateWriteExact` says when one such write shows.
- StallWatch.Scan: requires that a folder lists no name twice, and takes the tree as it stands during one scan.
- StallWatch.GrowthExact: beyond the budget a scan records a part of the tree, and the comparison is one of what was recorded.
- MovieBoxes.TopLevelBoxes: takes the size of a file to be an int64, as the system reports it.
- Upload headers in the receipt and the base64 of its body are copied without a decision and are not modelled.
- Start-up (the work lock, removing abandoned job directories), the listener, the environment and the choice of an authenticator: they would only add easy members.
- The Docker image, the build, media and profile tests, and the perceptual metrics drive external tools.
