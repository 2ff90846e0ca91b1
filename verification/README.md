# VoxForge core protocols in Dafny

A model of the parts of the VoxForge voice platform that carry state, interleave or re-frame
streams, with proofs over all inputs and all runs. `dafny verify dfyconfig.toml` checks everything.

- **Rate limiting** (`RateLimitPolicy`, `RateLimitKeys`, `RateLimiter`, `RateLimitRuns`,
  `BurstOverflow`, `MinuteOverflow`, `RateLimitMargin`, `RateLimitBounds`, `RateLimitAdmission`): the
  Redis fixed-window limiter as a state machine. Every Redis call is one atomic step, checks
  interleave, time passes in milliseconds, and any call may be lost before or after it took effect.
  The lag of an INCR is the time between the server's clock reading and the call's arrival, so it
  includes clock skew; only its variation matters. A counter's life is the time from its first INCR
  to its expiry.
- **Knowledge store** (`IngestQueue`, `Chunker`, `Cosine`, `VectorSearch`): the job queue with
  SKIP LOCKED and commit after processing, the overlapping-window chunker, and the two search forms.
- **Human handoff** (`HandoffCreate`, `HandoffCancel`, `RoundRobin`): insert-on-conflict creation,
  compare-and-set status changes by racing callers, cyclic assignment. Database statements are atomic
  steps; uncommitted changes hold their row's lock; a caller may be cut off anywhere.
- **Audio and text streams** (`SentenceBuffer`, `AudioStream`, `AudioDelivery`, `Wav`, `BrowserWav`,
  `Resample`, `Bytes`): sentence buffering, sample-aligned re-framing, ten-millisecond frames, the RIFF/WAVE
  printer and parser, PCM resampling. The file format is that of IBM and Microsoft, "Multimedia
  Programming Interface and Data Specifications 1.0", sections "Resource Interchange File Format" and
  "Waveform Audio File Format (WAVE)".
- **Registries and connections** (`McpRegistry`, `McpInvoke`, `VoiceSocket`, `VoiceListeners`,
  `Dashboard`): the tool index against its event log, the answers of an invocation, the WebSocket
  session life cycle with its gauge, bounded queue and listening tasks, the top-k merge.

`Text`, `Arith`, `Bytes` and `Ranking` hold shared definitions.

## Where the code departs from its intent

The model follows the code. For each departure one lemma shows it and another says exactly when it
happens.

- A Redis error is answered with 503 even where the fail-open branch returned `allowed=True`
  (`FailOpenIsRefused`, `RefusedThoughAllowedExactlyWhen`).
- The memory_search policy can never apply (`MemorySearchIsShadowed`, for every request).
- Counters outlive their buckets by 5 s and 10 s; a larger variation of the lag can overflow a bucket
  (`LateBurst`, `LateSustained`; `BurstMarginIsExact`, `SustainedMarginIsExact`).
- A job whose processing raised without recording a failure is committed as running and never
  claimed again (`RaiseLeavesJobRunning`, `StuckExactlyAfterUnrecordedRaise`).
- The cancellation counter is bumped before the commit, so it can exceed the events
  (`AbortLeavesCount`, `CounterAgreesExactlyWhen`).
- `create_handoff` answers "created" before its caller commits, so after a rollback a second caller
  can be told so too (`RolledBackCreatorWasTold`, `ToldUntilRollback`).
- A handoff accepted without ever having been assigned has an assignee and no assignment time, sorts
  before all others, and keeps round robin at one member (`UntimedRecordRepeats`, `FairExactlyWhen`).
- Any agent may accept an assigned handoff; that replaces its assignee but not its time, so round
  robin goes on from the agent who accepted and may serve a member twice (`AcceptRepeats`,
  `CyclicExactlyWhen`, `FairWithAcceptsExactlyWhen`).
- A negative chunk_overlap skips text (`NegativeOverlapLoses`, `CoverageExactlyWithoutGaps`).
- `SentenceBuffer.add` can raise IndexError on blank lines (`BlankLineCrashes`, `CrashExactlyWhen`,
  `StreamCrashesExactlyWhen`).
- A flush can leave part of a frame behind (`FlushLeavesSample`, `FlushEmptiesExactlyWhen`), and with
  a sample rate below 100 draining never ends (`FrameIsNonEmpty`, `Publisher.DrainPending`).
- A tool discovered while its server is unregistered stays behind without a server
  (`DiscoveryAfterUnregister`, `NoServerMissedExactlyWhenCurrent`).
- Any control message without a session in its result makes the connection forget its session, which
  leaks the gauge (`PingLeaks`, `BalancedExactlyWhen`).
- A session started after another one ended on the same connection finds that one's end sentinel in
  its queue, and its listening task ends at once (`SentinelEndsTask`, `SecondStartFinds`).
- A session that is forgotten instead of ended keeps its listening task, which then takes the next
  session's frames (`Mishearing`, `HeardRightExactlyWhen`).

## Model

| member | source | states |
|---|---|---|
| `RateLimiter.BucketBound` | src/voxforge/infrastructure/http/rate_limit.py:328-390 | In every run of interleaved checks, for every lag of the INCR calls and with a Redis call lost before or after its effect at any point, HTTP admits at most the limit per (target, bucket) and life of its counter; there is one life if and only if the lag of an admitted check varies by no more than the time its counter outlives its bucket |
| `RateLimiter.IntervalBound` | src/voxforge/infrastructure/http/rate_limit.py:328-390 | Hence at most twice that in any interval of clock readings as long as the window, wherever it starts |
| `RateLimiter.RedisIntervalBound` | src/voxforge/infrastructure/http/rate_limit.py:328-390 | And in any interval of Redis time as long as the window, at most that for each bucket whose calls can arrive in it: two, and more as the lag varies more |
| `RateLimiter.RunsKeepInv` | src/voxforge/infrastructure/http/rate_limit.py:328-390 | Every state of every run: two counts of one bucket are different numbers of one counter or belong to counters a whole life apart, and every counter was born in time for its bucket |
| `RateLimiter.RedisKeepsInv` | src/voxforge/infrastructure/http/rate_limit.py:339-344 | One Redis call (INCR or EXPIRE, answered or lost) keeps that invariant |
| `RateLimiter.OtherStepsKeepInv` | src/voxforge/infrastructure/http/rate_limit.py:328-332 | So do the passing of time, new checks and clock readings |
| `RateLimiter.IncrementIsFresh` | src/voxforge/infrastructure/http/rate_limit.py:339-342 | An INCR returns more than every count its counter gave to the bucket, and a new counter is born only after the time of the old one is over |
| `RateLimiter.LiveWithinMargin` | src/voxforge/infrastructure/http/rate_limit.py:339-344 | Within the margin an INCR for a bucket that was counted finds its counter alive |
| `RateLimiter.CoverageKept` | src/voxforge/infrastructure/http/rate_limit.py:339-344 | No call of any check takes away the cover of a count another check holds |
| `RateLimiter.RefusedThoughAllowedExactlyWhen` | src/voxforge/infrastructure/http/rate_limit.py:366-390 | Over all interleavings, faults and delays, a finished check says `allowed` and HTTP refuses it if and only if one of its Redis calls failed and its category does not fail closed |
| `RateLimiter.FailOpenIsRefused` | src/voxforge/infrastructure/http/rate_limit.py:435-445 | A run in which a fail-open check is allowed and still refused |
| `RateLimitMargin.BurstMarginIsExact` | src/voxforge/infrastructure/http/rate_limit.py:340-341 | For every lag and all limits: no run overflows a burst bucket if and only if the lag of an admitted check's burst INCR varies by at most 5 s, or the lives of the minute's counter cannot let more than the burst limit through |
| `RateLimitMargin.SustainedMarginIsExact` | src/voxforge/infrastructure/http/rate_limit.py:343-344 | For every lag and all limits: no run overflows a minute bucket if and only if the lag of the second INCR varies by at most 10 s, or the lives of the six burst counters cannot let more than the minute limit through |
| `RateLimitMargin.LateBurst` | src/voxforge/infrastructure/http/rate_limit.py:339-346 | Otherwise a reachable state in which one burst bucket has admitted more than its limit |
| `RateLimitMargin.LateSustained` | src/voxforge/infrastructure/http/rate_limit.py:342-346 | Otherwise a reachable state in which one minute bucket has admitted more than its limit |
| `RateLimitMargin.MinuteBoundsBurst` | src/voxforge/infrastructure/http/rate_limit.py:331-346 | The most checks of one burst bucket that the lives of the minute's counter let through, one less when an earlier bucket starts it |
| `RateLimitMargin.BurstsBound` | src/voxforge/infrastructure/http/rate_limit.py:331-346 | The most checks of one minute that the lives of its six burst counters let through |
| `RateLimitMargin.ThreeBucketsInOneInterval` | src/voxforge/infrastructure/http/rate_limit.py:331-346 | With the lag at its margin, a reachable state in which ten seconds of Redis time admitted the burst limit three times over |
| `BurstOverflow.Overflow` | src/voxforge/infrastructure/http/rate_limit.py:328-365 | The run that overflows a burst bucket, from the first or into the last bucket of a minute, over any number of lives of the minute's counter |
| `MinuteOverflow.Overflow` | src/voxforge/infrastructure/http/rate_limit.py:328-365 | The run that overflows a minute bucket by filling every life of its six burst counters in the order of time |
| `RateLimitBounds.DeployedBound` | src/voxforge/infrastructure/http/rate_limit.py:310-390 | With the deployed table, multiplier and keys, within the margins: per bucket at most the scaled policy limit, at most twice that in any interval of clock readings of the window's length, at most three times in any such interval of Redis time |
| `RateLimitBounds.DeployedMargins` | src/voxforge/infrastructure/http/rate_limit.py:310-390 | Both exact conditions for every target of the deployed table and every multiplier |
| `RateLimitBounds.DeployedKeysSeparate` | src/voxforge/infrastructure/http/rate_limit.py:334-337 | Checks of different (window, target, bucket) never share a Redis key, for all identifiers and table categories |
| `RateLimitBounds.HandshakeAdmitsNoMore` | src/voxforge/infrastructure/http/rate_limit.py:495-515 | The WebSocket handshake looks only at `allowed`; since its policy fails closed, it lets no check through that HTTP would refuse, whatever the faults and delays |
| `RateLimitAdmission.AdmittedByTable` | src/voxforge/infrastructure/http/rate_limit.py:296-427 | For every table entry, dimension and multiplier, in every run within the margins, with any interleaving and faults: HTTP admits a finished check if and only if none of its Redis calls failed, its number in its ten seconds is at most the scaled burst field of its dimension and its number in its minute at most the scaled sustained field; section fields for organisations and sessions, with the entry's own where the code falls back |
| `RateLimitAdmission.AdmittedExactlyWhen` | src/voxforge/infrastructure/http/rate_limit.py:328-445 | The same for any limits, with the status: 503 after a failed call, otherwise 200 or 429; without a failed call the handshake admits exactly the same checks |
| `RateLimitAdmission.CountersCountArrivals` | src/voxforge/infrastructure/http/rate_limit.py:339-344 | In every state of every run within the margins each counter stands at the number of INCR calls for its bucket that took effect, answered or not |
| `RateLimitAdmission.RunJudges` | src/voxforge/infrastructure/http/rate_limit.py:339-365 | Hence each check holds its own number in each bucket, and is judged on these two numbers |
| `RateLimitAdmission.FailureByTable` | src/voxforge/infrastructure/http/rate_limit.py:366-390 | A check that failed is reported as allowed if and only if neither the configuration nor its table entry makes its category fail closed, and HTTP refuses it either way |
| `RateLimitAdmission.DisabledAdmitsAll` | src/voxforge/infrastructure/http/rate_limit.py:320-321 | With limiting switched off every check is admitted at once |
| `RateLimitKeys.KeysAreInjective` | src/voxforge/infrastructure/http/rate_limit.py:334-337 | Key text determines window, dimension, identifier, category and bucket, also for identifiers with colons |
| `RateLimitKeys.CategoriesAreColonFree` | src/voxforge/infrastructure/http/rate_limit.py:68-244 | Every category of the table is free of colons, which injectivity needs |
| `RateLimitPolicy.MemorySearchIsShadowed` | src/voxforge/infrastructure/http/rate_limit.py:102-184 | No request ever resolves to memory_search: each one it matches resolves to sessions_create |
| `RateLimitPolicy.ResolvesExactlyWhen` | src/voxforge/infrastructure/http/rate_limit.py:278-286 | A request resolves to entry i if and only if its path is in the API and none of the six exempt ones, entry i lists its method or none and fits its path, and no earlier entry does |
| `RateLimitPolicy.PatternExactlyWhen` | src/voxforge/infrastructure/http/rate_limit.py:60-65 | A pattern of the table matches exactly the prefix, one non-empty path segment, the suffix and at most one final newline |
| `RateLimitPolicy.FirstMatch` | src/voxforge/infrastructure/http/rate_limit.py:278-286 | The policy found matches, and none before it does; nothing found means none matches |
| `RateLimitPolicy.PolicyOf` | src/voxforge/infrastructure/http/rate_limit.py:289-293 | Lookup by category finds an entry of that category, and fails only when there is none |
| `RateLimitPolicy.Scaled` | src/voxforge/infrastructure/http/rate_limit.py:296-297 | The scaled limit is at least one and otherwise the product without its fraction |
| `IngestQueue.EveryJobIsInOnePlace` | src/voxforge/infrastructure/db/knowledge_repository.py:469-541 | In every state of every run a job has at most one holder, an enqueued job never disappears, and a committed-queued job is either free or held, never both |
| `IngestQueue.SettledJobIsNeverClaimed` | src/voxforge/infrastructure/db/knowledge_repository.py:469-541 | A job whose committed status is not queued keeps its row for ever and is never claimed again |
| `IngestQueue.CrashReturnsJob` | src/voxforge/infrastructure/knowledge/worker.py:50-66 | A crash makes the worker's job free again, with no committed row changed and no other lock touched |
| `IngestQueue.StuckExactlyAfterUnrecordedRaise` | src/voxforge/infrastructure/knowledge/worker.py:62-66 | A job is committed as running if and only if processing it raised without recording the failure and its worker, with no crash or commit in between, went on to commit; from then on nobody claims it and its row never changes |
| `IngestQueue.CompletedExactlyWhen` | src/voxforge/infrastructure/db/knowledge_repository.py:507-541 | Over every run from the empty queue: a job is committed as completed if and only if some worker processed it with success and then committed, with no crash or commit of that worker in between |
| `IngestQueue.FailedExactlyWhen` | src/voxforge/infrastructure/db/knowledge_repository.py:507-541 | And as failed if and only if some worker's processing of it recorded a failure and the worker then committed in the same way |
| `IngestQueue.RaisedExactlyWhen` | src/voxforge/infrastructure/knowledge/worker.py:62-66 | An open transaction is processed and still says running if and only if processing raised unrecorded and the worker has held on since |
| `IngestQueue.RaiseLeavesJobRunning` | src/voxforge/infrastructure/knowledge/worker.py:62-66 | The run enqueue, claim, raise, commit that leaves a job running |
| `IngestQueue.BoundedWait` | src/voxforge/infrastructure/db/knowledge_repository.py:479-489 | A stretch of a run that does not claim a free job has at most as many claims as jobs stood ahead of it plus setbacks (crashes, late inserts of older jobs), and no worker finds the queue empty meanwhile |
| `IngestQueue.StepAhead` | src/voxforge/infrastructure/db/knowledge_repository.py:479-489 | Each claim that passes a free job over takes one job from ahead of it; only setbacks add one |
| `IngestQueue.StepKeepsInv` | src/voxforge/infrastructure/db/knowledge_repository.py:446-541 | Enqueue, claim, process, commit and crash keep locks exclusive and held rows committed as queued |
| `IngestQueue.RunKeepsInv` | src/voxforge/infrastructure/db/knowledge_repository.py:446-541 | Hence so does every run |
| `IngestQueue.JobStore.ClaimNext` | src/voxforge/infrastructure/db/knowledge_repository.py:469-505 | Locks an oldest queued job that nobody holds, leaving every row as it is, or reports none exactly when there is none |
| `IngestQueue.JobStore.ProcessAndCommit` | src/voxforge/infrastructure/knowledge/worker.py:62-66 | The job's row becomes completed on success, failed on a recorded failure, running on a swallowed exception; nothing else changes and the lock is released |
| `IngestQueue.JobStore.Add` | src/voxforge/infrastructure/db/knowledge_repository.py:446-467 | Adds a queued row and changes nothing else |
| `IngestQueue.JobStore.constructor` | src/voxforge/infrastructure/knowledge/worker.py:50-51 | Starts empty, in a state that satisfies the invariant |
| `HandoffCancel.OneCancellation` | src/voxforge/api/v1/handoffs.py:187-235 | For any number of racing callers, CANCELLED events and callers told 200 number exactly one when the record was cancelled during the run and none otherwise; counter bumps are those of callers that passed the counter |
| `HandoffCancel.CounterAgreesExactlyWhen` | src/voxforge/api/v1/handoffs.py:233-234 | In every state of every run the counter equals the recorded events if and only if no step cut a cancellation off between bumping it and committing, and none stands between the two now |
| `HandoffCancel.AbortLeavesCount` | src/voxforge/api/v1/handoffs.py:233-234 | A run that bumps the counter and leaves the record pending without an event |
| `HandoffCancel.TerminalIsAbsorbing` | src/voxforge/infrastructure/db/handoff_repository.py:160-194 | COMPLETED and CANCELLED are never left, in any run of cancel, accept and complete |
| `HandoffCancel.LoserSeesTerminal` | src/voxforge/api/v1/handoffs.py:211-218 | A cancel whose compare-and-set matched nothing re-reads a terminal status, so it answers the suppressed duplicate or a conflict with COMPLETED |
| `HandoffCancel.RepliesAreTrue` | src/voxforge/api/v1/handoffs.py:187-235 | In every state of every run a finished cancellation was told not found, a conflict with completed, or cancelled (now or before) if and only if the record is missing, completed, or cancelled |
| `HandoffCancel.RowChangesAtCommits` | src/voxforge/infrastructure/db/handoff_repository.py:160-194 | Only a commit changes the row, from a status its update may start from to the one it leads to, and its caller is told so |
| `HandoffCancel.NotUpdatedExactlyWhen` | src/voxforge/infrastructure/db/handoff_repository.py:160-194 | An update is told that nothing matched if and only if the committed status is none that it starts from |
| `HandoffCancel.SomeoneCanAdvance` | src/voxforge/api/v1/handoffs.py:187-235 | While a caller is unfinished, some caller can advance: no deadlock |
| `HandoffCancel.StepKeepsInv` | src/voxforge/api/v1/handoffs.py:187-235 | Every statement of every caller keeps: one writer, terminal rows unlocked, event count and counter equal to the callers responsible |
| `HandoffCancel.RunKeepsInv` | src/voxforge/api/v1/handoffs.py:187-235 | Hence so does every run |
| `HandoffCreate.OneCreation` | src/voxforge/infrastructure/db/handoff_repository.py:39-107 | For every interleaving, committed CREATED events and committed creators are one exactly when the record exists and none before, nobody but the creator stands told `created`, and all callers that returned a record returned that one |
| `HandoffCreate.SomeReturnMeansOneCreator` | src/voxforge/infrastructure/db/handoff_repository.py:39-107 | Once any caller has its answer, committed or not, exactly one caller stands told that it created the record |
| `HandoffCreate.ToldUntilRollback` | src/voxforge/infrastructure/db/handoff_repository.py:98-107 | A caller told `created` before its commit stands so if and only if its transaction is not rolled back |
| `HandoffCreate.ToldTwiceMeansRollback` | src/voxforge/infrastructure/db/handoff_repository.py:98-107 | Two callers are told `created` only when the first was rolled back in between |
| `HandoffCreate.RolledBackCreatorWasTold` | src/voxforge/infrastructure/db/handoff_repository.py:98-107 | A run in which that happens |
| `HandoffCreate.ConflictErrorExactlyAcrossOrgs` | src/voxforge/infrastructure/db/handoff_repository.py:39-96 | In every state of every run, for every caller that is done and was not cut off, the record exists and the reply is "conflict without existing row" if and only if the record belongs to another organisation |
| `HandoffCreate.OwnOrgNeverConflicts` | src/voxforge/infrastructure/db/handoff_repository.py:85-96 | With all callers in the session's organisation the error is unreachable |
| `HandoffCreate.ForeignOrgConflicts` | src/voxforge/infrastructure/db/handoff_repository.py:85-96 | A concrete run of two organisations that reaches the error |
| `HandoffCreate.StepKeepsInv` | src/voxforge/infrastructure/db/models.py:568 | Every statement keeps: one uncommitted insert at most, the record never replaced, replies about the record true |
| `HandoffCreate.RunKeepsInv` | src/voxforge/infrastructure/db/handoff_repository.py:39-107 | Hence so does every run |
| `RoundRobin.WindowIsFair` | src/voxforge/infrastructure/providers/handoff/round_robin.py:50-72 | In every run that keeps the turns, any window of consecutive assignments gives any two members counts that differ by at most one |
| `RoundRobin.CyclicExactlyWhen` | src/voxforge/infrastructure/providers/handoff/round_robin.py:50-72 | Over one run with any accepts in between and all times present, assignments walk the members in cyclic order if and only if at each choice the current holder of the newest record has the same successor as the member it was given to |
| `RoundRobin.RunIsFairExactlyWhen` | src/voxforge/infrastructure/providers/handoff/round_robin.py:50-72 | Every window of a run is fair if and only if nobody is served twice within as many turns as there are members |
| `RoundRobin.FairExactlyWhen` | src/voxforge/infrastructure/providers/handoff/round_robin.py:50-72 | As long as nobody accepts a handoff, every window of every history is fair if and only if there are fewer than two members or every assigned record at the start has a time |
| `RoundRobin.FairWithAcceptsExactlyWhen` | src/voxforge/modules/handoff/application/orchestrator.py:269-276 | With accepts, every window of every history is fair if and only if there are fewer than two members |
| `RoundRobin.AcceptRepeats` | src/voxforge/modules/handoff/application/orchestrator.py:269-276 | From any records with all times present: a handoff is assigned, the member before accepts it, which replaces the assignee and keeps the time, and the next one goes to the same member again |
| `RoundRobin.TimedFromTheStart` | src/voxforge/modules/handoff/application/orchestrator.py:269-276 | If every record that has an assignee or may still be accepted has a time at the start, every choice of every run finds all times |
| `RoundRobin.UntimedRecordSticks` | src/voxforge/infrastructure/db/models.py:590 | While records without a time name one assignee and nobody accepts, every later handoff goes to the member after that one |
| `RoundRobin.UntimedRecordRepeats` | src/voxforge/modules/handoff/application/orchestrator.py:269-276 | From any record with an assignee and no time, a history that assigns twice to the same member |
| `RoundRobin.HistoryIsCyclic` | src/voxforge/infrastructure/providers/handoff/round_robin.py:62-72 | From any cursor and any records whose assigned ones have a time, as long as nobody accepts, consecutive assignments walk the members in cyclic order |
| `RoundRobin.FreshOrder` | src/voxforge/infrastructure/providers/handoff/round_robin.py:69-72 | From a fresh organisation the order is members[0], members[1], and so on around, if and only if the run keeps the turns |
| `RoundRobin.AfterRecorded` | src/voxforge/infrastructure/providers/handoff/round_robin.py:62-68 | After a recorded assignment, whatever happened to the records, the next goes to the successor of the newest record's current holder, unless an assigned record lacks a time |
| `RoundRobin.TurnsOf` | src/voxforge/infrastructure/providers/handoff/round_robin.py:66 | Exact count: among k turns a member at distance d is served (k + n - 1 - d) / n times |
| `RoundRobin.TurnsAreFair` | src/voxforge/infrastructure/providers/handoff/round_robin.py:66 | Any two positions are served equally often, up to one |
| `RoundRobin.Provider.Assign` | src/voxforge/infrastructure/providers/handoff/round_robin.py:47-79 | Picks by the newest assigned record, a missing time counting as newest as in PostgreSQL; the first member when that assignee left; the cursor when there is no record, and only then does the cursor move |
| `RoundRobin.ChosenExactly` | src/voxforge/infrastructure/providers/handoff/round_robin.py:50-72 | After the last assignee comes the next member around the list, members[0] when that assignee is not in it, and without an assignee the member after the cursor |
| `RoundRobin.Provider.constructor` | src/voxforge/infrastructure/providers/handoff/round_robin.py:70 | No cursor at first |
| `Chunker.WindowsRebuildText` | src/voxforge/infrastructure/knowledge/chunking.py:36-64 | With a non-negative overlap each window starts exactly min(chunk_overlap, size // 2) before the previous end, and dropping the overlaps rebuilds the text |
| `Chunker.EveryCharacterIsCovered` | src/voxforge/infrastructure/knowledge/chunking.py:36-64 | Every non-whitespace character stands in an emitted chunk, at the place its window gives it |
| `Chunker.CoverageExactlyWithoutGaps` | src/voxforge/infrastructure/knowledge/chunking.py:37 | No text loses a non-whitespace character if and only if chunk_overlap is not negative |
| `Chunker.NegativeOverlapLoses` | src/voxforge/infrastructure/knowledge/chunking.py:37-64 | For every negative overlap, a text whose last character lies in no window |
| `Chunker.ChunksAreBounded` | src/voxforge/infrastructure/knowledge/chunking.py:41-64 | For every configuration, chunk indices are 0..n-1, headings are the document's, tokens are a quarter of the characters and at least one, no chunk is blank, none is longer than max(chunk_size, 64) |
| `Chunker.WindowsAreChained` | src/voxforge/infrastructure/knowledge/chunking.py:41-64 | Windows go forward, overlap by exactly the overlap, and the last one reaches the end of the text |
| `Chunker.WindowsExactly` | src/voxforge/infrastructure/knowledge/chunking.py:38-64 | For every text and configuration a list is the document's windows if and only if it starts at 0, each window is cut well, each next one starts the overlap before the end, and it stops at the end of the text |
| `Chunker.CutsAtLastSpace` | src/voxforge/infrastructure/knowledge/chunking.py:42-46 | A window reaches the end of the text if it can, else ends at the last space of its second half, else has full size |
| `Chunker.WindowingIsUnique` | src/voxforge/infrastructure/knowledge/chunking.py:41-64 | At most one list of windows is cut like that |
| `Chunker.ChunksOfSum` | src/voxforge/infrastructure/knowledge/chunking.py:47-61 | Chunks stand in the order of their windows, numbered on from one part of the list to the next |
| `Chunker.OneChunk` | src/voxforge/infrastructure/knowledge/chunking.py:47-61 | A window gives one chunk with its stripped text, number, heading and token count, or none if and only if it is blank |
| `Chunker.NextStartIsEndMinusOverlap` | src/voxforge/infrastructure/knowledge/chunking.py:64 | The guard `start + 1` never bites for a non-negative overlap |
| `Chunker.RFindSpaceIsLast` | src/voxforge/infrastructure/knowledge/chunking.py:44 | The split search finds the last space of the range, or there is none |
| `Chunker.ChunkRecursive` | src/voxforge/infrastructure/knowledge/chunking.py:28-65 | The loop emits exactly the chunks of the specified windows, for every text and configuration |
| `Chunker.RunLoop` | src/voxforge/infrastructure/knowledge/chunking.py:41-64 | The loop with its mutable start, end and index computes the recursive loop function |
| `Chunker.LoopIsChunks` | src/voxforge/infrastructure/knowledge/chunking.py:41-64 | That loop function equals window list followed by emission, from every intermediate state |
| `Chunker.ChunkTable.UpsertChunks` | src/voxforge/infrastructure/db/knowledge_repository.py:372-414 | Old rows are kept, every chunk's (version, index) is present afterwards, a new key has the first chunk with it, the result counts the new rows; numbered chunks into an empty version store exactly n rows with their contents |
| `SentenceBuffer.NothingIsLost` | src/voxforge/infrastructure/providers/tts/cartesia.py:110-119 | On every token stream without a crash, the yielded sentences equal the input once whitespace is erased |
| `SentenceBuffer.YieldedIsInputCut` | src/voxforge/infrastructure/providers/tts/cartesia.py:110-119 | On every token stream without a crash the input is exactly whitespace, a sentence, whitespace, a sentence and so on, with the yielded sentences whole and in order |
| `SentenceBuffer.SentencesStandInText` | src/voxforge/infrastructure/providers/tts/cartesia.py:110-116 | The same at every point, with the buffer at the end of the text |
| `SentenceBuffer.SentenceIsSlice` | src/voxforge/infrastructure/providers/tts/cartesia.py:94-102 | One `add` cuts at the last ending; its sentence is a slice of the joined text with only whitespace around it up to the cut, and there is none if and only if all text up to the cut is blank |
| `SentenceBuffer.StreamKeepsText` | src/voxforge/infrastructure/providers/tts/cartesia.py:110-116 | At every point sentences plus buffer equal the input up to whitespace, and the buffer holds no ending |
| `SentenceBuffer.CrashExactlyWhen` | src/voxforge/infrastructure/providers/tts/cartesia.py:96-101 | `add` raises IndexError if and only if the last ending stands at index i >= 1 with 2i >= L and the text up to it is blank |
| `SentenceBuffer.StreamCrashesExactlyWhen` | src/voxforge/infrastructure/providers/tts/cartesia.py:110-116 | A token stream crashes if and only if some token, put behind the text since the last ending of all tokens before it, makes such a buffer |
| `SentenceBuffer.BufferIsTail` | src/voxforge/infrastructure/providers/tts/cartesia.py:94-102 | Until a crash the buffer is the text since the last ending of all tokens so far |
| `SentenceBuffer.BlankLineCrashes` | src/voxforge/infrastructure/providers/tts/cartesia.py:96-101 | Two newlines in one token crash |
| `SentenceBuffer.OnlyBlankLinesCrash` | src/voxforge/infrastructure/providers/tts/cartesia.py:89-101 | The last ending of a buffer that crashes is a newline |
| `SentenceBuffer.OutcomeKeepsText` | src/voxforge/infrastructure/providers/tts/cartesia.py:94-102 | One `add` loses nothing but whitespace |
| `SentenceBuffer.OutcomeIsTrimmed` | src/voxforge/infrastructure/providers/tts/cartesia.py:94-102 | The retained text has no ending, and a returned sentence is non-empty without outer whitespace |
| `SentenceBuffer.Buffer.Add` | src/voxforge/infrastructure/providers/tts/cartesia.py:94-102 | The loop over stale indices, crash included, computes the closed form that the lemmas are about |
| `SentenceBuffer.Buffer.Flush` | src/voxforge/infrastructure/providers/tts/cartesia.py:104-107 | Returns the stripped rest, if any, and empties the buffer |
| `SentenceBuffer.Buffer.constructor` | src/voxforge/infrastructure/providers/tts/cartesia.py:91-92 | Starts empty |
| `SentenceBuffer.TokenStreamToSentences` | src/voxforge/infrastructure/providers/tts/cartesia.py:110-119 | Yields the stream's sentences and the flushed rest, or crashes exactly when some `add` does |
| `AudioStream.Reframe` | src/voxforge/infrastructure/providers/tts/cartesia.py:62-80 | For any split of the body, the chunks are non-empty, of even length, and concatenate to the body plus at most one zero byte |
| `AudioStream.RunKeepsBytes` | src/voxforge/infrastructure/livekit/audio_publisher.py:57-127 | For any run of publishes, flushes and clears, cancelled midway or not, all frames have the exact size, and frames plus pending equal what went in plus each flush's padding of less than a frame, byte for byte, without what was queued at a clear |
| `AudioDelivery.ResampledSpeechIsDelivered` | src/voxforge/infrastructure/livekit/audio_publisher.py:66-99 | From any framed state a run of publishes at another rate, each of at least a sample and cut short or not, makes frames plus queue grow by exactly the resampler's frames in order |
| `AudioDelivery.OwnSpeechIsDelivered` | src/voxforge/infrastructure/livekit/audio_publisher.py:66-99 | A run of publishes at the own rate makes them grow by exactly the whole samples of the chunks in order |
| `AudioDelivery.FlushAddsZeros` | src/voxforge/infrastructure/livekit/audio_publisher.py:101-112 | A flush makes them grow by the resampler's last frames and then zero bytes only: up to a frame when less is queued, otherwise one if and only if the queue is odd |
| `AudioDelivery.DrainHandsOut` | src/voxforge/infrastructure/livekit/audio_publisher.py:114-127 | Draining hands out the first frames of the queue, each at its place, all whole ones or as many as the cancellation left |
| `AudioStream.StepKeepsBytes` | src/voxforge/infrastructure/livekit/audio_publisher.py:57-112 | One publish or flush adds exactly its bytes and padding, also when cancelled; a clear drops exactly what was queued |
| `AudioStream.DrainFacts` | src/voxforge/infrastructure/livekit/audio_publisher.py:114-127 | Draining moves bytes into whole frames without changing them; unless cancelled, the remainder is the length modulo the frame |
| `AudioStream.PaddingIsShort` | src/voxforge/infrastructure/livekit/audio_publisher.py:107-110 | A flush pads by less than a frame, and completes a last sample |
| `AudioStream.FlushEmptiesExactlyWhen` | src/voxforge/infrastructure/livekit/audio_publisher.py:101-112 | From any queue, after a flush nothing is pending if and only if the evened queue was below a frame or a whole number of frames |
| `AudioStream.FlushLeavesSample` | src/voxforge/infrastructure/livekit/audio_publisher.py:109-111 | At 48 kHz a flush of 962 bytes leaves bytes behind |
| `AudioStream.FrameIsNonEmpty` | src/voxforge/infrastructure/livekit/audio_publisher.py:45 | A frame has at least one byte if and only if the rate is at least 100 |
| `AudioStream.EvenChunksPass` | src/voxforge/infrastructure/livekit/audio_publisher.py:68-71 | Chunks of whole samples are never trimmed |
| `AudioStream.SpeakBody` | src/voxforge/infrastructure/livekit/audio_publisher.py:66-99 | End to end: however the body was split, frames plus pending grow by exactly the body and at most one zero byte; it hangs if and only if frames are empty and the body is not |
| `AudioStream.PadQueue` | src/voxforge/infrastructure/livekit/audio_publisher.py:106-110 | Adds exactly the specified number of zeros |
| `AudioStream.Publisher.constructor` | src/voxforge/infrastructure/livekit/audio_publisher.py:33-55 | Empty queue and the frame size of the rate, which is zero exactly below 100 |
| `AudioStream.Publisher.PublishChunk` | src/voxforge/infrastructure/livekit/audio_publisher.py:66-99 | Hangs if and only if frames are empty, there is data and nobody cancels; otherwise new queue and frames are the specified step; the turn recording grows by the whole samples or the resampler's frames |
| `AudioStream.Publisher.FlushAll` | src/voxforge/infrastructure/livekit/audio_publisher.py:101-112 | Hangs if and only if frames are empty, bytes are queued and nobody cancels; otherwise the specified step, with the turn recording cleared at the end |
| `AudioStream.Publisher.DrainPending` | src/voxforge/infrastructure/livekit/audio_publisher.py:114-127 | The loop never ends by itself if and only if frames are empty; otherwise it hands out the specified whole frames and keeps the rest |
| `AudioStream.Publisher.ClearAll` | src/voxforge/infrastructure/livekit/audio_publisher.py:57-60 | Drops what is queued, keeps what was handed out |
| `Wav.ServerRoundTrip` | src/voxforge/api/v1/demo.py:141-178 | The printer succeeds if and only if the sizes fit their fields, and parsing what it printed returns the samples |
| `Wav.ParseUndoesPrint` | src/voxforge/api/v1/demo.py:166-178 | Any list of padded non-data chunks before the data chunk is skipped, whatever the pad byte and the trailing bytes |
| `Wav.WalkSkipsChunks` | src/voxforge/api/v1/demo.py:170-176 | The same from any offset of the file |
| `Wav.ExtractPcm` | src/voxforge/api/v1/demo.py:166-178 | Terminates on every byte string and computes the chunk walk; raw bytes pass through; a missing data chunk is the error |
| `Wav.IsWavExactlyWhen` | src/voxforge/api/v1/demo.py:166-178 | Exactly the inputs that begin with "RIFF", four bytes and "WAVE" are read as files; all others are raw samples |
| `Wav.DataExactlyWhenChained` | src/voxforge/api/v1/demo.py:170-177 | The parser finds data if and only if a chain of chunk headers, each where the one before says, leads to a data header; otherwise it raises |
| `Wav.ChainIsWalked` | src/voxforge/api/v1/demo.py:170-176 | Along such a chain it returns the last chunk's bytes, as far as the file goes |
| `Wav.ServerLayout` | src/voxforge/api/v1/demo.py:147-163 | Every header field stands at the offset and with the value the format wants |
| `Wav.LayoutParses` | src/voxforge/api/v1/demo.py:166-178 | From a file of that layout the parser takes as many bytes as the size field says |
| `Bytes.LittleEndian` | src/voxforge/api/v1/demo.py:166-178 | Fields are printed with the least significant byte first |
| `Bytes.SampleAt` | src/voxforge/infrastructure/livekit/audio_bridge.py:28-51 | Each sample is printed at its place as an unsigned 16-bit number, least significant byte first |
| `BrowserWav.BrowserRoundTrip` | public/demo/app.js:207-234 | The server returns the browser's sample bytes if and only if their number is below 2^32 |
| `BrowserWav.SamplesRoundTrip` | public/demo/app.js:207-234 | Unpacking what the server extracts from the browser's file gives the quantized samples if and only if there are fewer than 2^31 |
| `BrowserWav.EncodeWav` | public/demo/app.js:207-234 | The buffer has the canonical layout over the quantized samples, 32-bit fields wrapping |
| `BrowserWav.WriteFile` | public/demo/app.js:213-232 | The same for given sample bytes |
| `BrowserWav.WriteRiff` | public/demo/app.js:219-221 | Container identifier, size and form type, at their offsets, touching nothing else |
| `BrowserWav.WriteFormat` | public/demo/app.js:222-229 | The format chunk, at its offsets, touching nothing else |
| `BrowserWav.QuantizeIsMonotone` | public/demo/app.js:209-212 | Quantizing fits 16 bits, keeps order, maps zero to zero and full scale to the extremes |
| `BrowserWav.QuantizeExactly` | public/demo/app.js:209-212 | A sample in range becomes its multiple of 32767, or of 32768 below zero, without the fraction; others the extremes |
| `BrowserWav.MergeFloat32` | public/demo/app.js:195-205 | The merged array is the concatenation of the blocks |
| `Resample.ResamplePcm16` | src/voxforge/infrastructure/livekit/audio_bridge.py:23-51 | Equal rates return the data; otherwise it raises if and only if the length is odd or a rate or the channel count is zero, and else returns the specified conversion |
| `Resample.ConvertedExactly` | src/voxforge/infrastructure/livekit/audio_bridge.py:28-51 | For all rates and channel counts: mono is the floor average of each frame; the output is every step-th mono sample, or floor(n * dst / src) weighted means of neighbours without their fractions |
| `Resample.InterpolateIsBetween` | src/voxforge/infrastructure/livekit/audio_bridge.py:39-51 | floor(n * dst / src) samples, each between its two neighbours, which are in the input, adjacent, and around the exact position |
| `Resample.IndexInBounds` | src/voxforge/infrastructure/livekit/audio_bridge.py:46-50 | Every interpolation index is inside the input |
| `Resample.BetweenIsBetween` | src/voxforge/infrastructure/livekit/audio_bridge.py:49-50 | The truncated weighted mean lies between the two samples, so packing cannot overflow |
| `Resample.AverageFits` | src/voxforge/infrastructure/livekit/audio_bridge.py:30-32 | The floor average fits 16 bits, also when the last group is short |
| `Resample.DownmixLoop` | src/voxforge/infrastructure/livekit/audio_bridge.py:28-32 | The loop computes the averages of the channel groups |
| `Resample.DownmixAt` | src/voxforge/infrastructure/livekit/audio_bridge.py:30-31 | Mono sample i is the floor average over the channel count of the samples of frame i |
| `Resample.Lengths` | src/voxforge/infrastructure/livekit/audio_bridge.py:30-37 | Decimation keeps ceil(n / step) samples, downmixing ceil(n / channels) |
| `Resample.DecimateAt` | src/voxforge/infrastructure/livekit/audio_bridge.py:35-37 | Output sample i is input sample i * step |
| `McpRegistry.IndexAgreesWithLog` | src/voxforge/infrastructure/tools/mcp_runtime_registry.py:57-108 | After any run, get_tool and the owner map answer what the log answers: the last registration containing the name, or nothing if its owner was unregistered since |
| `McpRegistry.StepAgrees` | src/voxforge/infrastructure/tools/mcp_runtime_registry.py:175-202 | One call keeps that agreement, for every name |
| `McpRegistry.InvokeFindsServer` | src/voxforge/infrastructure/tools/mcp_runtime_registry.py:142-173 | After any such run both maps have the same names, every owner has a record and a configuration, and invoke never reports a missing server; unknown names are exactly those not indexed |
| `McpInvoke.InvokeExactlyWhen` | src/voxforge/infrastructure/tools/mcp_runtime_registry.py:142-173 | Over every run in which each discovery is current: invoking a tool that the log gives to a server is refused as offline if and only if the last call that set that server's status reported offline, and is otherwise forwarded with the first configuration listed under it |
| `McpInvoke.InvokeAnswers` | src/voxforge/infrastructure/tools/mcp_runtime_registry.py:142-173 | Over every run at all: a missing server if and only if none is listed under the identifier, otherwise offline or forwarded in the same way |
| `McpInvoke.UnknownExactlyWhen` | src/voxforge/infrastructure/tools/mcp_runtime_registry.py:142-149 | Exactly the names that the log gives to no server are not found |
| `McpInvoke.StatusIsLastReport` | src/voxforge/infrastructure/tools/mcp_runtime_registry.py:190-262 | After any run a server's record has the last status reported by a registration, discovery or failed discovery, and is missing if and only if none was since it was unregistered |
| `McpInvoke.ListedExactlyWhen` | src/voxforge/infrastructure/tools/mcp_runtime_registry.py:175-202 | After any run the list holds exactly the configurations there at the start or registered, whose identifier was not unregistered since |
| `McpInvoke.ListAfter` | src/voxforge/infrastructure/tools/mcp_runtime_registry.py:175-202 | A new configuration goes to the end, a listed one changes nothing, unregistering filters, no other call changes the list |
| `McpInvoke.OthersFilters` | src/voxforge/infrastructure/tools/mcp_runtime_registry.py:197 | The filter removes each configuration with the identifier and keeps the order of the rest |
| `McpInvoke.NothingListedTwice` | src/voxforge/infrastructure/tools/mcp_runtime_registry.py:186-187 | No run lists a configuration twice |
| `McpInvoke.SupportListedExactlyWhen` | src/voxforge/infrastructure/tools/mcp_runtime_registry.py:190-232 | The in-process support server is listed if and only if its name was not unregistered since it was last registered |
| `McpInvoke.TagCases` | src/voxforge/infrastructure/tools/mcp_config.py:25-30 | The tag, else the stripped identifier, else without one the stripped name, else command and position |
| `McpInvoke.FallbackIdsDiffer` | src/voxforge/infrastructure/tools/mcp_config.py:25-30 | Configurations named after command and position get different identifiers at different positions, whatever their commands |
| `McpRegistry.RunIsBacked` | src/voxforge/infrastructure/tools/mcp_runtime_registry.py:142-202 | Records and configurations stand behind all tools after every run in which every discovery that brings tools finds its server configured |
| `McpRegistry.BackedExactlyWhenCurrent` | src/voxforge/infrastructure/tools/mcp_runtime_registry.py:142-202 | Over whole runs, every tool always has a configured server if and only if every discovery that brings tools finds its server configured |
| `McpRegistry.NoServerMissedExactlyWhenCurrent` | src/voxforge/infrastructure/tools/mcp_runtime_registry.py:142-160 | Over whole runs, no invocation of any name ever reports a missing server if and only if the same holds |
| `McpRegistry.StaleDiscoveryExactly` | src/voxforge/infrastructure/tools/mcp_runtime_registry.py:68-75 | A discovery result keeps every tool backed if and only if it brings no tools or its server is still configured |
| `McpRegistry.DiscoveryAfterUnregister` | src/voxforge/infrastructure/tools/mcp_runtime_registry.py:142-160 | The race in which invoke does report a missing server |
| `McpRegistry.RecordedStep` | src/voxforge/infrastructure/tools/mcp_runtime_registry.py:238-262 | Every call keeps the two maps on the same names and every owner recorded |
| `McpRegistry.BackedStep` | src/voxforge/infrastructure/tools/mcp_runtime_registry.py:175-202 | Every call but a discovery that brings tools for a server no longer configured keeps every owner configured |
| `McpRegistry.Registry.constructor` | src/voxforge/infrastructure/tools/mcp_runtime_registry.py:40-51 | Tags each configured server; nothing is indexed |
| `McpRegistry.Registry.RegisterTools` | src/voxforge/infrastructure/tools/mcp_runtime_registry.py:238-249 | Record, index and owner map after adding the tools in order |
| `McpRegistry.Registry.RegisterServer` | src/voxforge/infrastructure/tools/mcp_runtime_registry.py:175-188 | Adds the tagged configuration once, then the tools |
| `McpRegistry.Registry.DiscoverAll` | src/voxforge/infrastructure/tools/mcp_runtime_registry.py:57-99 | With other calls running during each await: the effect is that of the calls in order, every server of the list at the start is visited in turn, failures become offline records, appended servers are visited until an unregistration replaces the list; nothing happens when discovery is switched off |
| `McpRegistry.Registry.RunOthers` | src/voxforge/infrastructure/tools/mcp_runtime_registry.py:175-202 | Calls made during an await take effect in order, and the list being iterated only grows |
| `McpRegistry.Registry.UnregisterServer` | src/voxforge/infrastructure/tools/mcp_runtime_registry.py:190-202 | Removes the server, its record and its tools; the in-process support server is only unlisted |
| `McpRegistry.DropTools` | src/voxforge/infrastructure/tools/mcp_runtime_registry.py:198-201 | Exactly the tools owned by the server leave both maps |
| `VoiceSocket.GaugeTheorem` | src/voxforge/api/ws/voice.py:113-178 | For every message sequence and way of leaving the loop, the net gauge change is the number of starts followed by a control message other than end, corrected by one for a start or end that raises after touching the gauge |
| `VoiceSocket.GaugeInvariant` | src/voxforge/api/ws/voice.py:113-142 | The connection holds a session exactly when its last control message started one; the gauge stands above its initial level by the leaks and that session |
| `VoiceSocket.BalancedExactlyWhen` | src/voxforge/api/ws/voice.py:134-142 | On runs whose handlers complete, the gauge returns to its level if and only if no start is followed by a control message other than its end |
| `VoiceSocket.PingLeaks` | src/voxforge/api/ws/voice.py:344-347 | Start, ping, end leaves the gauge one too high |
| `VoiceListeners.Serve` | src/voxforge/api/ws/voice.py:113-178 | The loop with its mutable session, the listening tasks and the cleanup: computes that net change, hears the frames the room model says, each by the task it says, and leaves only the end sentinel queued |
| `VoiceSocket.QueueHoldsNewest` | src/voxforge/api/ws/voice.py:38-55 | In every interleaving of ingress, end signals and listeners the queue is at most one sentinel and then the newest part of what was sent, within capacity, and frames are received in order, none twice |
| `VoiceSocket.OldestEntry` | src/voxforge/api/ws/voice.py:38-65 | An overflow drops the oldest entry and counts it if it is a frame; a listener receives the oldest frame; an end signal throws all frames away |
| `VoiceSocket.FramesAreAccountedFor` | src/voxforge/api/ws/voice.py:38-65 | Every frame is queued, received, dropped by overflow or discarded by an end signal; no drop before frames and a sentinel exceed the capacity |
| `VoiceSocket.UnheardQueueHoldsNewest` | src/voxforge/api/ws/voice.py:38-55 | Without listener and end signal the queue is exactly the newest frames, up to its capacity |
| `VoiceListeners.SecondStartFinds` | src/voxforge/api/ws/voice.py:330-332 | A session started after another one ended finds the sentinel in the queue, or an empty queue if and only if a task that outlived the end asked for an entry in between |
| `VoiceListeners.SentinelEndsTask` | src/voxforge/modules/voice_gateway/application/pipeline.py:102-107 | With the sentinel in the queue the new session's task ends at its first request and hears nothing |
| `VoiceListeners.ForgottenSessionStays` | src/voxforge/api/ws/voice.py:134-142 | A session forgotten by a control message leaves its queued frames and its running task to the next start |
| `VoiceListeners.HeardRightExactlyWhen` | src/voxforge/api/ws/voice.py:113-154 | For a sequence of control messages, in every interleaving with audio and listening tasks each frame is heard only by tasks of its own session if and only if no start is left by a control message other than its end before a start of another session |
| `VoiceListeners.Mishearing` | src/voxforge/api/ws/voice.py:325-347 | The run in which the task of an abandoned start hears the next session's first frame |
| `VoiceListeners.SortedRun` | src/voxforge/api/ws/voice.py:306-342 | Otherwise, in every state, whoever may still hear and whatever may still be heard belong to the last session started |
| `VoiceSocket.SentinelComesFirst` | src/voxforge/api/ws/voice.py:58-65 | After an end signal and until the next one, the oldest entry is the sentinel if and only if nobody took an entry and fewer frames came than the queue has places |
| `VoiceSocket.AudioQueue.constructor` | src/voxforge/api/ws/voice.py:35 | Starts empty with its capacity |
| `VoiceSocket.AudioQueue.Enqueue` | src/voxforge/api/ws/voice.py:38-55 | The newest frame goes in, the oldest out if and only if the queue is full, which is reported |
| `VoiceSocket.AudioQueue.Take` | src/voxforge/modules/voice_gateway/application/pipeline.py:102-107 | Removes and returns the oldest entry, if there is one |
| `VoiceSocket.AudioQueue.SignalEnd` | src/voxforge/api/ws/voice.py:58-65 | Only the sentinel is left |
| `Cosine.CauchySchwarz` | src/voxforge/infrastructure/db/knowledge_repository.py:52-54 | The squared dot product is at most the product of the squared norms, in every dimension |
| `Cosine.SimilarityIsBounded` | src/voxforge/infrastructure/db/knowledge_repository.py:49-57 | Similarity lies in [-1, 1] |
| `Cosine.SimilarityIsSymmetric` | src/voxforge/infrastructure/db/memory_repository.py:11-19 | Similarity is symmetric, also on empty, unequal and zero vectors |
| `Cosine.SimilarityIgnoresScale` | src/voxforge/infrastructure/db/knowledge_repository.py:49-57 | Positive scaling leaves similarity unchanged |
| `Cosine.SimilarityIsOneExactlyWhen` | src/voxforge/infrastructure/db/knowledge_repository.py:49-57 | Two vectors that are not zero have similarity one if and only if one is a positive multiple of the other |
| `Cosine.SelfSimilarityIsOne` | src/voxforge/infrastructure/db/knowledge_repository.py:49-57 | A vector with a coordinate other than zero has a positive norm and similarity one with itself |
| `Cosine.SimilarityExactly` | src/voxforge/infrastructure/db/knowledge_repository.py:49-57 | Zero for empty, unequal or zero vectors; otherwise the number whose multiple by both norms is the product |
| `Cosine.DotOfSum` | src/voxforge/infrastructure/db/knowledge_repository.py:49-57 | The product of joined vectors is the sum of the parts' products, and that of single numbers their product |
| `Cosine.DotWithUnit` | src/voxforge/infrastructure/db/knowledge_repository.py:49-57 | The product with a unit vector is that coordinate |
| `Cosine.NormIsZeroExactlyWhen` | src/voxforge/infrastructure/db/knowledge_repository.py:49-57 | The norm is zero if and only if every coordinate is |
| `VectorSearch.SearchPathsAgree` | src/voxforge/infrastructure/db/knowledge_repository.py:587-705 | On nonzero vectors of one dimension, ordering in the database and fetching 3 * limit rows (chunks) or limit rows (memory) gives the same similarities as scoring every row, whichever way ties are broken |
| `VectorSearch.BoundedFetchAgrees` | src/voxforge/infrastructure/db/memory_repository.py:80-157 | The same for any ranked rows and any fetch size of at least the limit |
| `VectorSearch.FetchBoundIsExact` | src/voxforge/infrastructure/db/knowledge_repository.py:618-620 | The two forms agree on all tables if and only if the fetch size is at least the limit |
| `VectorSearch.TooFewFetched` | src/voxforge/infrastructure/db/knowledge_repository.py:618-620 | A table on which a smaller fetch loses hits |
| `VectorSearch.KeepIsPrefix` | src/voxforge/infrastructure/db/knowledge_repository.py:665-705 | Filtering ranked rows by a threshold keeps a prefix |
| `VectorSearch.DistanceIsSimilarity` | src/voxforge/infrastructure/db/knowledge_repository.py:603-614 | One minus the database distance is the in-process score, and the distance lies in [0, 2] |
| `VectorSearch.FullScan` | src/voxforge/infrastructure/db/knowledge_repository.py:637-663 | The loop returns the best eligible rows at or above the threshold, in stable descending order |
| `VectorSearch.HitsAreTheBest` | src/voxforge/infrastructure/db/knowledge_repository.py:637-663 | What a full scan returns: rows it looked at with their scores, none below the threshold, best first, at most the limit; a row that reaches the threshold is missing only when rows at least as good use up the limit |
| `VectorSearch.EligibleOfSum` | src/voxforge/infrastructure/db/knowledge_repository.py:637-650 | Only empty embeddings are skipped, only where the search skips them, and the order stays |
| `VectorSearch.FilterFetched` | src/voxforge/infrastructure/db/knowledge_repository.py:665-705 | The loop keeps fetched rows at or above the threshold in order, cut to the limit |
| `Dashboard.MergeOfNewest` | src/voxforge/infrastructure/db/dashboard_repository.py:259-315 | Merging the newest `limit` of each source gives the timestamps of the newest `limit` of the union, for any number of sources and any tie-breaking |
| `Dashboard.MergeOfNewestItems` | src/voxforge/infrastructure/db/dashboard_repository.py:259-315 | And the same items when timestamps are distinct |
| `Dashboard.CutOneSource` | src/voxforge/infrastructure/db/dashboard_repository.py:263-268 | Cutting one source to its newest k changes nothing about the newest k of everything |
| `Dashboard.RecentActivity` | src/voxforge/infrastructure/db/dashboard_repository.py:269-315 | The appending loops, in-place sort and cut; and if the rows are what the three queries may answer, the times are those of the newest items of the three tables together |
| `Ranking.SortIsOrderedPermutation` | src/voxforge/infrastructure/db/dashboard_repository.py:314 | The stable sort returns a descending permutation |
| `Ranking.SortIsStable` | src/voxforge/infrastructure/db/dashboard_repository.py:314 | Elements with equal keys keep their order |
| `Ranking.OrderByKeys` | src/voxforge/infrastructure/db/dashboard_repository.py:266-267 | Whatever ORDER BY returns has the keys of the sorted rows |
| `Ranking.CutFirst` | src/voxforge/infrastructure/db/dashboard_repository.py:314-315 | A list whose first part was already cut to its best k has the same best k |

## Left out

- IngestQueue.JobStore.Add: requires a fresh job identifier, standing for the random one the code draws.
- A listening task that stops by itself, after an interrupt or a provider failure: it only asks for no more entries.
- Members that join or leave, and assignments that overlap in time: each assignment is recorded, timed later than those before, before the next choice.
- Client address and session extraction from a request, upper-casing of the method, parsing of settings and server configuration: the results are inputs; a server's command is a string.
- The rate limiter's store starts empty, and Redis neither evicts nor restarts; a lost call is the fault that is modelled.
- The claim query on databases other than PostgreSQL, which takes no lock, and their order of missing times.
- Deletion and cascading deletes of handoff records and users, session links, and the assignment inside the transaction that creates a handoff.
- SQL text, sessions and migrations; ORDER BY is exact, so approximate index search is not modelled.
- Floating-point rounding: similarities, samples and ratios are exact; square roots enter as the number whose square is the sum of squares. NaN samples are not modelled.
- The RTC resampler: its output is an input. A frame that the audio source refuses still counts as handed out.
- HTTP, WebSocket and media transport, external providers, ingestion and session services: their calls are steps with given outcomes.
- CSV and page chunking, registry health counts, outcome trends, metrics, logging: easy members only.
- SAML, tokens, passwords, security headers, dashboards and other user interfaces, scripts and load generators.
