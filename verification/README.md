# Verified models of the stateful algorithms

A Dafny 4.11 project that models the small stateful algorithms of this repository and proves what they
guarantee over every input and every run. `dafny verify dfyconfig.toml` checks all of it.

Algorithms that change things in place are classes and methods with loops, each proved against a
specification function; the laws are then proved about those functions. Where a promised property fails on
some inputs, the code is modelled as it is, a lemma shows an input that fails, and another says exactly when
the property holds.

| module | what it models |
|---|---|
| `FileChunks` | cutting a stream into overlapping windows |
| `FileCaching` | the bounded file cache: a size counter and an access log beside a directory |
| `PairNotify`, `PairNotifyLaws`, `PairNotifyChats` | notifications about pending pairing requests: deliveries and their persisted marks, and the persistent and one-shot subscribers |
| `RateLimiting` | the sliding-window rate limiter with a pruned log |
| `RequestDedup` | in-flight request de-duplication as call, settle and timer events |
| `Batching` | the two batch runners |
| `SortedNames`, `PhoneControl`, `PhoneControlLaws` | temporary arming and disarming of phone commands |
| `Utf16` | surrogate-safe slicing and truncation |
| `SetupCode` | the unpadded base64url setup code and the apps' decoder |
| `MarkerBlocks` | replacing the lines between two markers |
| `SparkleBuild`, `AppcastCheck` | build numbers from calendar versions, and the appcast check |
| `LabelBatches`, `CursorPaging` | the page-to-batch generator and cursor pagination |
| `CronUsage` | nested usage totals and report rows |
| `Options`, `Text` | shared optional values and small notions, trimming, numerals |

Findings, stated as lemmas:

- The cache counter drifts above the bytes on disk by exactly the overwritten and vanished bytes, so the cache
  evicts too early. A scan error swallowed by `init`, a failed unlink or a partial write can break the space
  bound itself: a state keeps the bound for good exactly when its counter is not below the bytes on disk and
  every file unknown to the access log is empty.
- Arming while armed leaks exactly the edit of the overwritten record.
- An account id with surrounding white space can give one chat two subscriptions with the same key; a run
  keeps the keys unique exactly when every subscribing event meets a guard on the list it reads.
- The joined subscriber key does not separate chats whose recipient or account id contains the separator: a
  command then acts on another chat. It does as asked exactly when no other chat has its key.
- With a clock that runs backwards the rate limiter's pruned log forgets calls, and the rate bound can fail; it
  holds exactly when no call that the pruned log has room for lies in a window that is already full.
- The chunker can end with a chunk that repeats only old bytes; with `overlap` at `chunkSize`, or at twice
  that and beyond, its inner loop does not end; in between, its chunks depend on how the stream is split.
- Replacing a block is idempotent exactly when the block does not contain its end marker before the last line.
- A request function that re-enters its own key defeats de-duplication, and nothing else does.

## Model

| member | source | states |
|---|---|---|
| `FileChunks.ReadFileInChunks` | knowledge-evaluation/lib/file-optimization.ts:95-147 | for every chunk size and overlap for which the loops end, and every split of the file into stream pieces, the chunks are those of `Cut`; with `overlap` below `chunkSize`, negative values included, they are the windows of the whole file, with only the `end` of a short last chunk clamped to the reported size, and stitching them gives the file back |
| `FileChunks.ChunkAt` | knowledge-evaluation/lib/file-optimization.ts:120-135 | chunk i is the window of the file after i steps, reported at i * (chunkSize - overlap); all but the last are full, and the last ends the file |
| `FileChunks.PositionsExactly` | knowledge-evaluation/lib/file-optimization.ts:123-127 | the reported positions lie inside the file if and only if the overlap is not negative or the file is at most chunkSize bytes long |
| `FileChunks.Reassembly` | knowledge-evaluation/lib/file-optimization.ts:120-146 | the first chunk and every later chunk without its first `overlap` bytes spell exactly the file |
| `FileChunks.CutIsWindows` | knowledge-evaluation/lib/file-optimization.ts:113-146 | with `overlap` below `chunkSize`, the chunks cut from a buffer and the pieces still to come are the windows of all those bytes, however they are split |
| `FileChunks.NeighboursOverlap` | knowledge-evaluation/lib/file-optimization.ts:127-135 | the last `overlap` bytes of a chunk are the first of the next, and the positions differ by it; with a negative overlap no bytes are shared |
| `FileChunks.StaleChunkExactly` | knowledge-evaluation/lib/file-optimization.ts:130-146 | a last chunk that repeats only old bytes appears if and only if there is an overlap and the file ends where a full window ends |
| `FileChunks.ClampExactly` | knowledge-evaluation/lib/file-optimization.ts:101-102 | clamping to the reported size shows if and only if that size is below the end of a short last chunk, which is the size of the file unless the overlap is negative, and it never changes the bytes |
| `FileChunks.ProgressExactly` | knowledge-evaluation/lib/file-optimization.ts:116-135 | for all chunk sizes and overlaps, the inner loop shortens every buffer it sees if and only if overlap < chunkSize or chunkSize < overlap < 2 * chunkSize; otherwise some buffer is left unchanged for ever |
| `FileChunks.StepExactly` | knowledge-evaluation/lib/file-optimization.ts:127-135 | for all positive chunk sizes and all overlaps, the loop shortens every buffer by exactly what the position moves, and by something, if and only if 0 <= overlap < chunkSize |
| `FileChunks.SplitInvisibleExactly` | knowledge-evaluation/lib/file-optimization.ts:104-146 | where the loop ends at all, every two deliveries of one file give the same chunks if and only if overlap < chunkSize |
| `FileChunks.AdvanceExactly` | knowledge-evaluation/lib/file-optimization.ts:130-134 | what is kept of a buffer after a chunk: all but the step, or, with an overlap between chunkSize and its double, its very end |
| `FileChunks.CutPositions` | knowledge-evaluation/lib/file-optimization.ts:104-146 | wherever the loop ends, chunk i has index i, is reported at i * (chunkSize - overlap), and is full unless it is the last |
| `FileCaching.FileCache.CalculateSize` | knowledge-evaluation/lib/file-optimization.ts:172-183 | a complete scan counts every file and logs it; a scan that fails keeps the old counter but has already logged some files |
| `FileCaching.FileCache.EvictIfNeeded` | knowledge-evaluation/lib/file-optimization.ts:185-206 | the loop computes `Evict`, which the eviction laws are about |
| `FileCaching.FileCache.Set` | knowledge-evaluation/lib/file-optimization.ts:208-216 | a write evicts first, then adds the data, its length and its access time; a write that throws leaves the eviction, and possibly a part of the file, but neither counts nor logs it |
| `FileCaching.FileCache.Get` | knowledge-evaluation/lib/file-optimization.ts:218-228 | a read returns the file and refreshes its access time; of a missing or unreadable file it returns nothing and changes nothing |
| `FileCaching.FileCache.Clear` | knowledge-evaluation/lib/file-optimization.ts:241-248 | everything is removed and the counter is zero; if some file cannot be unlinked the others vanish and counter and log stay as they were |
| `FileCaching.TouchExactly` | knowledge-evaluation/lib/file-optimization.ts:215 | logging an access replaces the entry of that key and no other |
| `FileCaching.Oldest` | knowledge-evaluation/lib/file-optimization.ts:187-189 | the head of the access log after a stable sort: a least access time, and the first such entry |
| `FileCaching.EvictionStops` | knowledge-evaluation/lib/file-optimization.ts:186 | eviction ends only when the data fits or the access log is empty |
| `FileCaching.EvictionPartitions` | knowledge-evaluation/lib/file-optimization.ts:192-203 | every log entry is either evicted or survives, never both |
| `FileCaching.EvictionOrder` | knowledge-evaluation/lib/file-optimization.ts:187-192 | an evicted entry is no younger than any entry evicted later and than any survivor |
| `FileCaching.LogIsLastUse` | knowledge-evaluation/lib/file-optimization.ts:172-248 | over every run the access log has a key if and only if the key was written, read with success or found by a scan and not evicted or cleared since, under the time of its last such use |
| `FileCaching.EvictsLeastRecentlyUsed` | knowledge-evaluation/lib/file-optimization.ts:185-228 | after any run no evicted key was last used later than a kept one |
| `FileCaching.DiskIsLastWritten` | knowledge-evaluation/lib/file-optimization.ts:185-248 | over every run the file under a key, which a read returns, is what was last written there and not unlinked, lost or cleared since |
| `FileCaching.EvictionIsNeeded` | knowledge-evaluation/lib/file-optimization.ts:186-203 | before each eviction the counter, less what the evictions before it freed, plus the new data still exceeds the limit |
| `FileCaching.EvictionFrees` | knowledge-evaluation/lib/file-optimization.ts:196-199 | the counter goes down by exactly the sizes of the evicted files that could be unlinked |
| `FileCaching.EvictionDeletes` | knowledge-evaluation/lib/file-optimization.ts:195-203 | the disk loses exactly the evicted files that could be unlinked |
| `FileCaching.EvictionLeaves` | knowledge-evaluation/lib/file-optimization.ts:185-206 | after eviction the files the access log does not know are exactly those it did not know before and the evicted ones that could not be unlinked |
| `FileCaching.StepDrift` | knowledge-evaluation/lib/file-optimization.ts:172-216 | each operation changes the distance between counter and disk by exactly the live bytes it overwrites or that vanish, less the bytes a failed write leaves; a scan or a clear resets it to zero |
| `FileCaching.LedgerBalances` | knowledge-evaluation/lib/file-optimization.ts:172-248 | over every run, counter minus bytes on disk is exactly the waste less the stray bytes since the last clear or complete scan |
| `FileCaching.CounterIsExactWhen` | knowledge-evaluation/lib/file-optimization.ts:214 | from a fresh count and without partial writes the counter is never below the bytes on disk, and equal to them if and only if no live bytes were overwritten and none disappeared |
| `FileCaching.StepKeepsCover` | knowledge-evaluation/lib/file-optimization.ts:194-216 | only a failed unlink or a partial write can leave a file that the access log does not know |
| `FileCaching.RunIsSound` | knowledge-evaluation/lib/file-optimization.ts:172-248 | in every run without partial writes from a sound state the counter stays at or above the bytes on disk and the log keeps one entry per key |
| `FileCaching.RunStaysCovered` | knowledge-evaluation/lib/file-optimization.ts:172-216 | over runs without failed unlinks, failed scans and partial writes the files that the access log does not know only become fewer, and none changes |
| `FileCaching.BytesAfterSet` | knowledge-evaluation/lib/file-optimization.ts:185-216 | from any state at all, after a write the bytes on disk fit the limit less the drift, or are the data plus the files no eviction could reach |
| `FileCaching.SetBoundExactly` | knowledge-evaluation/lib/file-optimization.ts:185-216 | from a sound state, whatever cannot be unlinked, the bytes on disk after a write are at most max(maxSize, data length) if and only if the files eviction cannot reach or unlink are empty or fit into the limit beside the data |
| `FileCaching.HiddenWithoutStuck` | knowledge-evaluation/lib/file-optimization.ts:185-206 | when every unlink succeeds those files are the ones the access log does not know before the write |
| `FileCaching.SpaceBound` | knowledge-evaluation/lib/file-optimization.ts:185-216 | over every run from a sound state, whatever fails, after a write the bytes on disk are at most max(maxSize, data length + bytes eviction cannot reach) |
| `FileCaching.RunBoundExactly` | knowledge-evaluation/lib/file-optimization.ts:163-248 | the same if-and-only-if for the write that follows any run without partial writes |
| `FileCaching.AlwaysBoundedExactly` | knowledge-evaluation/lib/file-optimization.ts:163-248 | a state, however it came about, keeps every later write of every clean run within max(maxSize, data length) if and only if its counter is not below the bytes on disk and all files unknown to the log are empty |
| `FileCaching.CleanSpaceBound` | knowledge-evaluation/lib/file-optimization.ts:185-216 | from such a state, without failed unlinks, failed scans and partial writes, after every write the bytes on disk are at most max(maxSize, length of the data) |
| `FileCaching.ScanEstablishes` | knowledge-evaluation/lib/file-optimization.ts:172-183 | a complete scan makes the counter exact and every file evictable, whatever the state before |
| `FileCaching.BrokenScanBreaksTheBound` | knowledge-evaluation/lib/file-optimization.ts:163-170 | a scan error that `init` swallows leaves a state from which a write exceeds the bound |
| `FileCaching.FailedUnlinkBreaksTheBound` | knowledge-evaluation/lib/file-optimization.ts:194-203 | one failed unlink breaks the bound in an otherwise exact state |
| `PairNotify.NormalizeNotifyState` | enterprise-claw-analysis/extensions/device-pair/notify.ts:56-108 | the parsing loops compute the state a file loads to |
| `PairNotify.SaveLoadRoundTrip` | enterprise-claw-analysis/extensions/device-pair/notify.ts:56-123 | writing a state and reading it back gives the same state if and only if recipients and account ids are trimmed and non-empty, request ids non-blank and times positive |
| `PairNotifyChats.LoadsExactly` | enterprise-claw-analysis/extensions/device-pair/notify.ts:56-108 | what one subscriber entry of any file loads to: blank recipients are dropped, blank account ids and missing thread ids are none, a missing time becomes now |
| `PairNotifyChats.MarksLoadExactly` | enterprise-claw-analysis/extensions/device-pair/notify.ts:97-105 | exactly the marks with a non-blank id and a positive time load, truncated |
| `PairNotify.FindKey` | enterprise-claw-analysis/extensions/device-pair/notify.ts:163 | the first subscriber with the key, if there is one |
| `PairNotify.Notifier.HandleNotifyCommand` | enterprise-claw-analysis/extensions/device-pair/notify.ts:347-425 | a command's effect on the state file is the transition the run laws are about |
| `PairNotifyChats.CommandWords` | enterprise-claw-analysis/extensions/device-pair/notify.ts:347-425 | for every state file, read back: "on"/"enable" leave the chat subscribed persistently and "once"/"arm" for one poll, its entry in place or at the end with the time of the command, unless it has that mode already; "off"/"disable" take its first entry out; any other word, another channel or an unresolved chat leaves the file alone; marks stay |
| `PairNotifyChats.TidyCommandWords` | enterprise-claw-analysis/extensions/device-pair/notify.ts:374-402 | so, with unique keys and a trimmed account id, the key of the chat is then subscribed in that mode, or not at all |
| `PairNotifyChats.ResolvesExactly` | enterprise-claw-analysis/extensions/device-pair/notify.ts:139-155 | a chat resolves to the first non-blank of sender, origin and recipient, trimmed, with its account id unless empty, and to nothing if all three are blank |
| `PairNotify.Notifier.ArmPairNotifyOnce` | enterprise-claw-analysis/extensions/device-pair/notify.ts:313-345 | arming's effect on the state file; true exactly for a Telegram chat with a resolvable target |
| `PairNotifyChats.ArmingIsOnce` | enterprise-claw-analysis/extensions/device-pair/notify.ts:313-345 | arming leaves the same file as the command word "once" |
| `PairNotify.Notifier.NotifyPendingPairingRequests` | enterprise-claw-analysis/extensions/device-pair/notify.ts:250-311 | a poll offers request i to subscriber j if and only if `Attempted` holds, each once and in order, and leaves the state file of the declarative transition |
| `PairNotify.Offer` | enterprise-claw-analysis/extensions/device-pair/notify.ts:277-290 | the inner loop offers one request to exactly the eligible subscribers, and reports delivery and the one-shot keys it reached |
| `PairNotify.PruneNotified` | enterprise-claw-analysis/extensions/device-pair/notify.ts:261-266 | exactly the marks of requests no longer pending or older than 24 hours are dropped |
| `PairNotifyLaws.AttemptedExactly` | enterprise-claw-analysis/extensions/device-pair/notify.ts:206-219 | a request goes to a subscriber if and only if the subscriber is persistent or was armed no later than the request, and the request was neither notified within 24 hours nor delivered earlier in the poll |
| `PairNotifyLaws.MarkedExactly` | enterprise-claw-analysis/extensions/device-pair/notify.ts:261-296 | mid-poll a request is marked if and only if it kept its old mark or some send about it succeeded |
| `PairNotifyLaws.MarkedAfterPoll` | enterprise-claw-analysis/extensions/device-pair/notify.ts:261-296 | after a poll a pending request is marked if and only if it was marked within 24 hours or some send about it succeeded |
| `PairNotifyLaws.DeliveryStamps` | enterprise-claw-analysis/extensions/device-pair/notify.ts:292-295 | a request some send reached is marked with the time of the poll |
| `PairNotifyLaws.OnlyPendingRemembered` | enterprise-claw-analysis/extensions/device-pair/notify.ts:261-296 | after a poll only pending requests are remembered |
| `PairNotifyLaws.MarkGoesBack` | enterprise-claw-analysis/extensions/device-pair/notify.ts:56-123 | in every run from any state file, every mark goes back to a delivery at its time or to the first file, and every poll since had the request within 24 hours of that time |
| `PairNotifyLaws.OfferedExactly` | enterprise-claw-analysis/extensions/device-pair/notify.ts:250-311 | the retry law: in every run from any state file and with any clock, a poll offers a pending request to a subscriber if and only if the subscriber is eligible, no send about the request has succeeded earlier in the poll, and it was not delivered within 24 hours and pending ever since |
| `PairNotifyLaws.DeliversExactly` | enterprise-claw-analysis/extensions/device-pair/notify.ts:250-311 | in every such run a poll delivers a request if and only if some send of it to an eligible subscriber would succeed and it was not delivered within 24 hours and pending ever since |
| `PairNotifyLaws.DeliveriesAreADayApart` | enterprise-claw-analysis/extensions/device-pair/notify.ts:250-311 | in every run from any state file, two polls that both deliver a request which stayed pending in between are more than 24 hours apart |
| `PairNotifyLaws.BlankIdIsForgotten` | enterprise-claw-analysis/extensions/device-pair/notify.ts:97-100 | a blank request id is outside that law: in every run a poll delivers it if and only if some send can succeed, however recent the last delivery |
| `PairNotifyChats.OneShotSeesOnlyNew` | enterprise-claw-analysis/extensions/device-pair/notify.ts:206-219 | in every run from an empty state, a request sent to a one-shot subscriber has a timestamp at or after some arming of that chat before the poll |
| `PairNotifyChats.FiredIsGone` | enterprise-claw-analysis/extensions/device-pair/notify.ts:287-305 | after a poll that reached a one-shot subscription its key has no subscription left in the file |
| `PairNotifyChats.PollDropsExactly` | enterprise-claw-analysis/extensions/device-pair/notify.ts:297-305 | in every run from an empty state a poll removes a subscriber if and only if it reached a one-shot subscription with the same key |
| `PairNotifyChats.PollRemovesExactly` | enterprise-claw-analysis/extensions/device-pair/notify.ts:297-305 | with unique keys a poll removes exactly the one-shot subscribers it reached, and never a persistent one |
| `PairNotifyChats.PersistentStays` | enterprise-claw-analysis/extensions/device-pair/notify.ts:297-305 | in every run whose commands meet the guard that keeps the keys unique, no poll removes a persistent subscriber |
| `PairNotifyChats.TidyRunIsHarmless` | enterprise-claw-analysis/extensions/device-pair/notify.ts:139-179 | runs with trimmed account ids meet that guard throughout |
| `PairNotifyChats.EditExactly` | enterprise-claw-analysis/extensions/device-pair/notify.ts:157-179 | a command leaves the joined key of its chat in the mode asked for or unsubscribed, keeps an existing subscription of that mode, and touches no other key |
| `PairNotifyChats.ChatEditExactly` | enterprise-claw-analysis/extensions/device-pair/notify.ts:125-179 | a command does what its chat asks, and nothing to any other chat, if and only if no other chat is subscribed under the same joined key |
| `PairNotifyChats.KeysSeparate` | enterprise-claw-analysis/extensions/device-pair/notify.ts:125-131 | a chat without the separator in its recipient and account id shares its key with no other chat |
| `PairNotifyChats.PipeFreeOwnsKey` | enterprise-claw-analysis/extensions/device-pair/notify.ts:125-179 | so for such a chat that condition always holds |
| `PairNotifyChats.SharedKey` | enterprise-claw-analysis/extensions/device-pair/notify.ts:125-179 | two tidy chats can share a key: the second one's `on` then subscribes nobody and its `off` removes the first |
| `PairNotifyChats.EditKeepsGood` | enterprise-claw-analysis/extensions/device-pair/notify.ts:157-179 | an edit keeps the subscriber keys unique |
| `PairNotifyChats.KeysStayUnique` | enterprise-claw-analysis/extensions/device-pair/notify.ts:110-179 | from an empty state with trimmed account ids, keys are unique after every command, poll and re-read, and re-reading changes nothing |
| `PairNotifyChats.UpsertUniqueExactly` | enterprise-claw-analysis/extensions/device-pair/notify.ts:139-179 | for any account id: after an upsert is written and re-read, keys are unique if and only if the chat already has a subscription of that mode or no other subscriber has the key the target reads back as |
| `PairNotifyChats.KeysUniqueExactly` | enterprise-claw-analysis/extensions/device-pair/notify.ts:110-179 | for any account ids, in every run from an empty state: the keys read back are unique after every event if and only if every upserting event meets that guard on the list it reads |
| `PairNotifyChats.UntidyAccountDuplicates` | enterprise-claw-analysis/extensions/device-pair/notify.ts:139-179 | subscribing one chat twice under an untrimmed account id leaves two subscribers with one key |
| `PairNotifyChats.OnceHasArming` | enterprise-claw-analysis/extensions/device-pair/notify.ts:157-179 | in every run from an empty state a one-shot subscription goes back to an arming of its chat at its `addedAtMs` |
| `PairNotifyChats.OneFiringPerArming` | enterprise-claw-analysis/extensions/device-pair/notify.ts:287-305 | in every such run two polls that both reach the one-shot subscription of a chat have an arming of that chat between them |
| `RateLimiting.RateLimiter.RateLimit` | knowledge-evaluation/lib/api-optimization.ts:226-251 | one call's new log and its answer; other identifiers' logs are untouched |
| `RateLimiting.PrunedLogExactly` | knowledge-evaluation/lib/api-optimization.ts:233-244 | for any clock and any mix of configurations, the pruned log and the full history count the same allowed calls later than a cut-off if and only if no such call was found outside the window of a later call of its identifier |
| `RateLimiting.ClockedLosesNothing` | knowledge-evaluation/lib/api-optimization.ts:230-234 | with a non-decreasing clock and windows that do not grow, nothing in the window of a call is ever pruned |
| `RateLimiting.DecisionExactly` | knowledge-evaluation/lib/api-optimization.ts:233-242 | for any clock and any mix of configurations, a decision agrees with the full history if and only if that history has fewer than maxRequests allowed calls in the window, or still has that many without the pruned ones |
| `RateLimiting.AllowedExactly` | knowledge-evaluation/lib/api-optimization.ts:236-242 | as long as nothing in its window was pruned, a call is allowed if and only if fewer than maxRequests allowed calls of its identifier lie in its window, counted on the full history |
| `RateLimiting.RateBoundExactly` | knowledge-evaluation/lib/api-optimization.ts:226-251 | the rate bound, for any clock and any mix of configurations: every window (t - windowMs, t] holds at most maxRequests allowed calls of an identifier if and only if, before each of its calls that the calls left by pruning leave room for, no window it lies in is already full |
| `RateLimiting.FullMeansLost` | knowledge-evaluation/lib/api-optimization.ts:233-242 | a call is allowed into a full window only after an allowed call in its own window was pruned |
| `RateLimiting.WindowBound` | knowledge-evaluation/lib/api-optimization.ts:226-251 | so, if no call of an identifier was decided after something in its window had been pruned, every such window keeps the bound |
| `RateLimiting.RefusedMeansFull` | knowledge-evaluation/lib/api-optimization.ts:238 | for any clock a refused call finds at least maxRequests allowed calls in its window; if no earlier call had a higher limit it finds exactly that many if and only if nothing in the window was pruned |
| `RateLimiting.ResetTimeHolds` | knowledge-evaluation/lib/api-optimization.ts:246-250 | for any clock, a call that is its window length or more after every earlier call of its identifier, and so past their reset times, is allowed |
| `RateLimiting.BackwardClockBreaksTheBound` | knowledge-evaluation/lib/api-optimization.ts:230-236 | with a clock that runs backwards three calls are allowed into one window of two, and the guard of the rate bound fails before the third |
| `RequestDedup.Deduplicator.DeduplicateRequest` | knowledge-evaluation/lib/api-optimization.ts:198-216 | a call returns the pending promise and starts nothing, or starts one request with its own key, ttl and time and enters its promise |
| `RequestDedup.Deduplicator.DeduplicateReentrant` | knowledge-evaluation/lib/api-optimization.ts:198-216 | the same for a request function that calls for its own key, any number of levels deep: if the key is free every level starts a request, and the outermost promise, started last, is entered and returned |
| `RequestDedup.Deduplicator.OnSettled` | knowledge-evaluation/lib/api-optimization.ts:208 | a settlement leaves the entry in place and only starts the timer |
| `RequestDedup.Deduplicator.OnTimer` | knowledge-evaluation/lib/api-optimization.ts:209-211 | the timer deletes the entry of its key unconditionally |
| `RequestDedup.OneOpenRequestPerKey` | knowledge-evaluation/lib/api-optimization.ts:196-216 | in every interleaving at most one request per key is between its start and its timer |
| `RequestDedup.OneOpenExactly` | knowledge-evaluation/lib/api-optimization.ts:196-216 | that holds throughout a run if and only if no request function re-enters its own free key |
| `RequestDedup.TimerDeletesItsOwn` | knowledge-evaluation/lib/api-optimization.ts:209-211 | each timer deletes its own promise and no other key's |
| `RequestDedup.StartsAreSeparated` | knowledge-evaluation/lib/api-optimization.ts:203-214 | two starts of one key are separated by the earlier settlement plus its ttl |
| `RequestDedup.StartsAreSeparatedInTime` | knowledge-evaluation/lib/api-optimization.ts:203-214 | in events alone: when two calls each start a request of one key, the first request settled in between, and the ttl passed by the first call lies between that settlement and the second call |
| `RequestDedup.FlightIsItsEvents` | knowledge-evaluation/lib/api-optimization.ts:203-214 | at any later point of a run a request carries the key, ttl and time of the call that started it, and is settled or timed out at t if and only if such an event came at t |
| `RequestDedup.StartRecords` | knowledge-evaluation/lib/api-optimization.ts:203-214 | every started request, re-entrant levels included, found its key free and carries the key, the ttl of its level and the time of the event |
| `RequestDedup.CallsShareTheOpenPromise` | knowledge-evaluation/lib/api-optimization.ts:203-206 | while a request is open, settled or not, every call for its key gets its promise and starts nothing |
| `RequestDedup.SharedUntilFired` | knowledge-evaluation/lib/api-optimization.ts:203-206 | as long as the timer of an earlier call of the key has not fired, a call gets its promise and starts nothing |
| `RequestDedup.PromiseIsOpen` | knowledge-evaluation/lib/api-optimization.ts:203-215 | every call gets the promise of an open request of its own key |
| `RequestDedup.CallStartsExactly` | knowledge-evaluation/lib/api-optimization.ts:203-214 | a call starts a request if and only if none of its key is open, and the table lists exactly the open keys |
| `Batching.BatchProcessor` | knowledge-evaluation/lib/api-optimization.ts:141-193 | the outcome is the successes and failures in input order, or the first failing item's error; the chunks started are consecutive, each as long as the concurrency, its batch and the input allow, and stop with the failing chunk |
| `Batching.BatchFileOperation` | knowledge-evaluation/lib/file-optimization.ts:305-342 | the same outcome and the same discipline with one level of chunks, each as long as the concurrency and the input allow |
| `Batching.Collect` | knowledge-evaluation/lib/api-optimization.ts:174-188 | over one settled chunk, values and errors are appended in order, or the first failing item is the one thrown |
| `Batching.CutBatch` | knowledge-evaluation/lib/api-optimization.ts:163-167 | a batch is cut into consecutive chunks of `concurrency` items, the last one possibly shorter |
| `Batching.SuccessesExactly` | knowledge-evaluation/lib/api-optimization.ts:174-187 | successes and failures hold exactly the succeeding and failing items and partition the input |
| `Batching.AnswerExactly` | knowledge-evaluation/lib/api-optimization.ts:174-193 | element by element: result k is the value of the k-th succeeding item, error k is the k-th failing item with its own error, and what is thrown is the first failing item's error |
| `Batching.SuccessesInOrder` | knowledge-evaluation/lib/api-optimization.ts:174-187 | both lists are in input order without repetition |
| `Batching.CoversCountsUp` | knowledge-evaluation/lib/api-optimization.ts:165-172 | the started chunks, end to end, are every item exactly once, with 1 to `concurrency` items in flight at a time |
| `Batching.AnswerIsUnique` | knowledge-evaluation/lib/api-optimization.ts:141-193 | any two runs over the same items agree whatever their batch sizes and concurrencies, and one throws if and only if errors stop it and some item fails |
| `Batching.NothingAfterTheFailingChunk` | knowledge-evaluation/lib/api-optimization.ts:184-186 | when the first failure stops a run, nothing past its chunk has been started |
| `SortedNames.UniqSortedIsSorted` | enterprise-claw-analysis/extensions/phone-control/index.ts:35-37 | the normalized list is strictly sorted and holds exactly the trimmed non-blank names |
| `SortedNames.LessExactly` | enterprise-claw-analysis/extensions/phone-control/index.ts:35-37 | the order is that of the first differing character, and a name comes after its own beginnings |
| `SortedNames.UniqSortedExactly` | enterprise-claw-analysis/extensions/phone-control/index.ts:35-37 | two lists normalize alike if and only if they hold the same names |
| `SortedNames.UniqSortedIsIdempotent` | enterprise-claw-analysis/extensions/phone-control/index.ts:35-37 | normalizing twice is normalizing once |
| `PhoneControl.Controller.ArmGroup` | enterprise-claw-analysis/extensions/phone-control/index.ts:369-407 | arming computes the transition the laws are about |
| `PhoneControl.Controller.DisarmNow` | enterprise-claw-analysis/extensions/phone-control/index.ts:183-235 | disarming computes the transition, and reports a change exactly when it undoes some edit |
| `PhoneControl.Controller.OnTick` | enterprise-claw-analysis/extensions/phone-control/index.ts:293-307 | the expiry poll |
| `PhoneControl.OpenUp` | enterprise-claw-analysis/extensions/phone-control/index.ts:384-392 | the arm loop over the two sets |
| `PhoneControl.Undo` | enterprise-claw-analysis/extensions/phone-control/index.ts:207-219 | the disarm loops over the two sets |
| `PhoneControlLaws.GroupIsTidy` | enterprise-claw-analysis/extensions/phone-control/index.ts:29-44 | each group resolves to exactly its listed commands, given as literal names, and `all` to the union of the three |
| `PhoneControlLaws.ArmedEffect` | enterprise-claw-analysis/extensions/phone-control/index.ts:377-407 | arming allows exactly the group's literal commands in addition and denies them no longer; the record holds the group, its commands, the expiry and exactly the difference |
| `PhoneControlLaws.DisarmedEffect` | enterprise-claw-analysis/extensions/phone-control/index.ts:207-228 | disarming removes and restores exactly what the record says, and leaves both lists to the letter when nothing has to be undone |
| `PhoneControlLaws.ArmedExactly` | enterprise-claw-analysis/extensions/phone-control/index.ts:183-407 | at every point of every run the phone is armed if and only if some arm has since been neither overwritten, nor disarmed, nor polled at or after its expiry |
| `PhoneControlLaws.ExpiryExactly` | enterprise-claw-analysis/extensions/phone-control/index.ts:293-307 | in every run a poll at or after the expiry of the last arm leaves the phone disarmed, undoing a record that is still there, and an earlier poll changes nothing |
| `PhoneControlLaws.RunIsBalanced` | enterprise-claw-analysis/extensions/phone-control/index.ts:183-407 | after every run the lists are the originals plus or minus the open record and the edits of overwritten records |
| `PhoneControlLaws.EveryRunIsBounded` | enterprise-claw-analysis/extensions/phone-control/index.ts:183-407 | every run keeps the original allows, denies nothing new, leaves commands outside the groups alone, and while armed the armed commands are allowed and not denied |
| `PhoneControlLaws.ArmedListsAreNormal` | enterprise-claw-analysis/extensions/phone-control/index.ts:393-397 | once anything was armed both lists stay in normalized form |
| `PhoneControlLaws.RestoredExactly` | enterprise-claw-analysis/extensions/phone-control/index.ts:183-407 | a run that armed something and ends disarmed has both lists equal to the normalized originals if and only if no arm overwrote a record that held an edit |
| `PhoneControlLaws.AlternatingRunRestores` | enterprise-claw-analysis/extensions/phone-control/index.ts:183-407 | runs that only arm while disarmed restore both lists |
| `PhoneControlLaws.DoubleArmLeaks` | enterprise-claw-analysis/extensions/phone-control/index.ts:399-407 | arming a group twice and disarming once leaves it allowed |
| `Utf16.SliceUtf16Safe` | enterprise-claw-analysis/src/utils.ts:237-264 | the step-by-step offset adjustment computes the slice between the first boundary at or after the start and the last at or before the end |
| `Utf16.ClampExactly` | enterprise-claw-analysis/src/utils.ts:237-241 | an offset counts from the start, or from the end when negative, and never leaves the text |
| `Utf16.RangeExactly` | enterprise-claw-analysis/src/utils.ts:240-247 | the range runs from the smaller to the larger of the two offsets, a missing end being the end of the text |
| `Utf16.SliceBetween` | enterprise-claw-analysis/src/utils.ts:237-264 | between offsets that split no pair, given in either order or from the end, the slice is the text between them |
| `Utf16.SliceIsWellFormed` | enterprise-claw-analysis/src/utils.ts:237-264 | slices of well-formed text are well-formed for all offsets, negative and swapped ones included |
| `Utf16.SliceIsCharacters` | enterprise-claw-analysis/src/utils.ts:237-264 | a slice of an encoded text is the encoding of a contiguous run of its characters |
| `Utf16.SliceIsLargest` | enterprise-claw-analysis/src/utils.ts:249-261 | on any text the slice is the largest part of the range whose ends split no pair |
| `Utf16.WellFormedExactly` | enterprise-claw-analysis/src/utils.ts:229-235 | well-formed text is exactly the UTF-16 encoding of some scalar values |
| `Utf16.BoundaryExactly` | enterprise-claw-analysis/src/utils.ts:249-261 | a prefix or suffix of well-formed text is well-formed if and only if the cut splits no pair |
| `Utf16.TruncateIsLongest` | enterprise-claw-analysis/src/utils.ts:266-272 | truncation gives the longest well-formed prefix of at most the given length |
| `Utf16.TruncateTwice` | enterprise-claw-analysis/src/utils.ts:266-272 | truncating to a and then to b is truncating to the smaller, on any text |
| `SetupCode.RoundTrip` | enterprise-claw-analysis/extensions/device-pair/index.ts:295-299 | for every byte string, restoring the padding, undoing the exchanges and decoding gives the bytes back |
| `SetupCode.DecodeInvertsBase64` | enterprise-claw-analysis/apps/android/app/src/main/java/ai/openclaw/app/ui/GatewayConfigResolver.kt:106-120 | the apps' decoder inverts base64, padding included |
| `SetupCode.Injective` | enterprise-claw-analysis/extensions/device-pair/index.ts:295-299 | two payloads have the same code if and only if they are the same bytes |
| `SetupCode.AlphabetAndLength` | enterprise-claw-analysis/extensions/device-pair/index.ts:298 | the code uses only the URL-safe alphabet and takes ceil(4n/3) characters |
| `SetupCode.CodeIsUrlSafeBase64` | enterprise-claw-analysis/extensions/device-pair/index.ts:297-298 | replacing two characters and stripping the padding is unpadded base64 in the URL-safe alphabet |
| `SetupCode.GroupIsBigEndian` | enterprise-claw-analysis/extensions/device-pair/index.ts:297 | three bytes and their four sextets are the same 24-bit number |
| `SetupCode.AlphabetIsTable1` | enterprise-claw-analysis/extensions/device-pair/index.ts:297 | the standard alphabet, section 4 of RFC 4648 |
| `MarkerBlocks.IndexOf` | enterprise-claw-analysis/scripts/sync-moonshot-docs.ts:21-28 | the first occurrence at or after an offset, or nothing when there is none |
| `MarkerBlocks.LineStart` | enterprise-claw-analysis/scripts/sync-moonshot-docs.ts:30-31 | the line of a position starts after the last newline at or before it |
| `MarkerBlocks.LineEnd` | enterprise-claw-analysis/scripts/sync-moonshot-docs.ts:34-35 | the line of a position ends with its next newline or with the text |
| `MarkerBlocks.ResultShape` | enterprise-claw-analysis/scripts/sync-moonshot-docs.ts:21-50 | everything up to the start marker and everything after the end marker's line is kept to the letter around the new block; a missing marker is reported |
| `MarkerBlocks.PartsExactly` | enterprise-claw-analysis/scripts/sync-moonshot-docs.ts:21-38 | the kept parts by position: before the first start marker, its indent, and after the line of the first end marker from there on; and which marker is missing |
| `MarkerBlocks.BlockLineByLine` | enterprise-claw-analysis/scripts/sync-moonshot-docs.ts:40-50 | the new document line by line: start marker, every replacement line at its offset with its indent and a newline, the end marker with its indent, and the rest |
| `MarkerBlocks.ReadBack` | enterprise-claw-analysis/scripts/sync-moonshot-docs.ts:21-38 | the new document reads back as the same parts if the new block does not contain the end marker before its last line, and otherwise its rest has grown |
| `MarkerBlocks.StableExactly` | enterprise-claw-analysis/scripts/sync-moonshot-docs.ts:15-51 | replacing by one block and then another equals replacing by the other at once (for equal blocks: idempotence) if and only if the first block, before its last line, does not contain the end marker |
| `MarkerBlocks.Stable` | enterprise-claw-analysis/scripts/sync-moonshot-docs.ts:15-51 | with a white-space indent, an end marker not beginning with white space and contained neither in the start marker nor in a line, repeating changes nothing and later replacements act directly |
| `MarkerBlocks.NestedMarkerGrows` | enterprise-claw-analysis/scripts/sync-moonshot-docs.ts:25 | a start marker that contains the end marker makes the document grow |
| `MarkerBlocks.FinalNewline` | enterprise-claw-analysis/scripts/sync-moonshot-docs.ts:46-50 | the only newline that can be lost is a final one right after the end marker's line |
| `SparkleBuild.SparkleBuildFloorsFromShortVersion` | enterprise-claw-analysis/scripts/sparkle-build.ts:14-53 | the numbers read off concatenated digit strings are the arithmetic ones, for every version text |
| `SparkleBuild.MatchExactly` | enterprise-claw-analysis/scripts/sparkle-build.ts:12-24 | the pattern both ways: a text matches exactly when it is spelled from a year of four digits, a month and a day of one or two and an optional suffix, with the numbers in those places |
| `SparkleBuild.FloorsExactly` | enterprise-claw-analysis/scripts/sparkle-build.ts:14-53 | there are floors exactly for a text that spells a date with month 1 to 12 and day 1 to 31, and each floor is given in arithmetic |
| `SparkleBuild.LaneExactly` | enterprise-claw-analysis/scripts/sparkle-build.ts:40-49 | the lane is 90 without a suffix, the number that ends the suffix but at most 89, or 1 when none does |
| `SparkleBuild.BuildOrder` | enterprise-claw-analysis/scripts/sparkle-build.ts:37-52 | build numbers order versions by date whatever the suffix, then by lane; an unsuffixed release has the highest lane of its date |
| `SparkleBuild.LaneMinimumSeparates` | enterprise-claw-analysis/scripts/release-check.ts:34 | legacy floors are below 1,000,000,000, and lane floors reach it if and only if the year is at least 1000 |
| `AppcastCheck.CollectErrors` | enterprise-claw-analysis/scripts/release-check.ts:253-303 | given the tags of the items, the two loops report exactly the errors of missing or non-numeric versions and the floor errors, and an empty list is an error |
| `AppcastCheck.SiftAll` | enterprise-claw-analysis/scripts/release-check.ts:257-280 | the first loop reports exactly the items without a numeric version and collects exactly the calendar-version items |
| `AppcastCheck.AdoptionIsEarliest` | enterprise-claw-analysis/scripts/release-check.ts:282-289 | the adoption date is the earliest of the fixed date and the dates of the lane builds |
| `AppcastCheck.ErrorsExactly` | enterprise-claw-analysis/scripts/release-check.ts:253-303 | an error is reported if and only if there are no items or some item has that fault, and it says the item's title, version, build and floor |
| `AppcastCheck.FloorErrorsAreLast` | enterprise-claw-analysis/scripts/release-check.ts:257-301 | errors about floors come after all others |
| `AppcastCheck.SiftConcat` | enterprise-claw-analysis/scripts/release-check.ts:257-280 | errors about versions come in the order of the items |
| `AppcastCheck.FloorConcat` | enterprise-claw-analysis/scripts/release-check.ts:291-301 | and so do errors about floors |
| `AppcastCheck.PassesExactly` | enterprise-claw-analysis/scripts/release-check.ts:253-303 | an appcast passes if and only if it has items and each is well-formed and at or above its floor |
| `AppcastCheck.LaneBuildsStay` | enterprise-claw-analysis/scripts/release-check.ts:282-301 | in an appcast that passes, every item dated at or after a lane-build item of the year 1000 or later has a lane build too |
| `LabelBatches.FetchOpenLabelItemBatches` | enterprise-claw-analysis/scripts/label-open-issues.ts:426-486 | the batches are the first min(limit, total) nodes in order, 500 in each but the last, numbered from 1 with running totals; a full batch carries the latest total of the page that filled it and a short one that of the last page; each fetch gets the cursor before it and none happens once the limit is reached |
| `LabelBatches.TakePage` | enterprise-claw-analysis/scripts/label-open-issues.ts:449-471 | the loop over one page takes nodes up to the limit and yields only full batches, with this page's total |
| `LabelBatches.BatchCount` | enterprise-claw-analysis/scripts/label-open-issues.ts:459-484 | the number of items determines the number of batches and each running total |
| `CursorPaging.PageIsExact` | knowledge-evaluation/lib/db.ts:139-149 | with a query of limit + 1 rows a page is the next `limit` rows, and there is a next cursor if and only if rows remain, leading exactly to them |
| `CursorPaging.WalkVisitsAll` | knowledge-evaluation/lib/db.ts:134-149 | following the cursors visits every row exactly once and in order, in full pages but for the last, and ends |
| `CursorPaging.CursorIsLastShownExactly` | knowledge-evaluation/lib/db.ts:141-146 | the next cursor is the last row shown if and only if the query gave exactly one row too many; with more it names a row no page has shown |
| `CronUsage.Aggregate` | enterprise-claw-analysis/scripts/cron_usage_report.ts:148-215 | the nested totals list exactly the jobs and models of the kept entries, each with a direct sum over them |
| `CronUsage.TotalsAreSums` | enterprise-claw-analysis/scripts/cron_usage_report.ts:176-213 | each number of a total is the sum of that number over the chosen runs: one each, one each without token counts, and the input, output and total tokens |
| `CronUsage.ChosenExactly` | enterprise-claw-analysis/scripts/cron_usage_report.ts:153-174 | a line is chosen if and only if it is a run in the window, bounds included, of the job and the model asked for, a missing or blank model being "<unknown>" |
| `CronUsage.CountExactly` | enterprise-claw-analysis/scripts/cron_usage_report.ts:203-205 | a token field counts as its whole part, cut off at zero, or as the default when it is no number |
| `CronUsage.CountRun` | enterprise-claw-analysis/scripts/cron_usage_report.ts:176-213 | the field updates add exactly the contribution of one run |
| `CronUsage.AddRun` | enterprise-claw-analysis/scripts/cron_usage_report.ts:170-213 | one run is added to the records of its job and of its model, created when missing |
| `CronUsage.JobIsSumOfModels` | enterprise-claw-analysis/scripts/cron_usage_report.ts:176-213 | every count of a job is the sum of that count over its models |
| `CronUsage.ReportIsOrderFree` | enterprise-claw-analysis/scripts/cron_usage_report.ts:148-215 | the totals are the same for every order of files and lines |
| `CronUsage.SortDescendingExactly` | enterprise-claw-analysis/scripts/cron_usage_report.ts:217-222 | the sort is a permutation into descending order that keeps ties in place |
| `CronUsage.ModelRowsExactly` | enterprise-claw-analysis/scripts/cron_usage_report.ts:220 | one row per model with its own numbers, by descending total |
| `CronUsage.JobRowsExactly` | enterprise-claw-analysis/scripts/cron_usage_report.ts:217-222 | one row per job with its totals and model rows, by descending total |

## Left out

- FileChunks.ReadFileInChunks: requires sizes for which the inner loop ends, since with others the generator never returns; `FileChunks.ProgressExactly` says which those are.
- FileCaching: concurrent calls interleaved inside one operation; each operation is one step, and one that fails ends where it failed. Key names that are paths, and `has`, are not modelled. Access times are integers.
- FileCaching.CleanSpaceBound: needs that no unlink, scan or write fails on the way; `FileCaching.RunBoundExactly` and `FileCaching.AlwaysBoundedExactly` are the exact conditions without that.
- PairNotify: commands and polls that overlap between their read and their write; each is one atomic step. Reply texts, the wording of notifications and the status action are not modelled. Thread ids in requests are integers. State-file keys that collide with properties every JavaScript object has are not modelled.
- PairNotifyLaws.DeliveriesAreADayApart: needs a non-decreasing clock and a non-blank request id; `PairNotifyLaws.DeliversExactly` is the exact law for any positive clock, and `PairNotifyLaws.BlankIdIsForgotten` covers the blank id.
- PairNotifyChats.KeysStayUnique: needs trimmed account ids; `PairNotifyChats.KeysUniqueExactly` is the exact condition over runs without that.
- RateLimiting.AllowedExactly: needs that nothing in the window was pruned before; `RateLimiting.DecisionExactly` has no such condition, and `RateLimiting.ClockedLosesNothing` says that a clock which does not run backwards is enough.
- RequestDedup.Deduplicator.DeduplicateRequest: a request function that throws before returning a promise is not an event, because it changes nothing; one that calls for other keys is those calls followed by its own.
- Batching.BatchProcessor: requires positive batch sizes and concurrencies, because the loops do not advance otherwise; how an item's promise settles is a parameter, and the conversion of a thrown value to an error object is not modelled.
- PhoneControl: edits of the configured lists by anyone else, version-1 records, which nothing writes, and the parsing of the command line. Names are ordered by code point, which is the order of UTF-16 code units except beside characters outside the basic plane.
- SetupCode.RoundTrip: the serialization of the payload to bytes and the JSON checks of the apps are not modelled.
- MarkerBlocks.StableExactly: needs non-empty markers without newlines, as every call passes.
- SparkleBuild: numbers are exact, where JavaScript rounds those of 2^53 and more; the floors are far below that.
- AppcastCheck.CollectErrors: starts from extracted items; reading them out of the XML text is not modelled, and errors are values instead of sentences.
- LabelBatches.FetchOpenLabelItemBatches: log output and the fields of a node are not modelled. Pages past the limit are arbitrary, since none is fetched.
- CursorPaging.WalkVisitsAll: needs unique ids, a limit of at least 1 and a query that gives at most one row too many; `CursorPaging.CursorIsLastShownExactly` says what a larger answer does.
- CronUsage.Aggregate: starts from parsed lines; the order in which an object lists its properties is a parameter of the report, and names that collide with properties every JavaScript object has are not modelled.
- CronUsage.ReportIsOrderFree: sums are exact integers; in the double precision of the source a total past 2^53 can depend on the order of lines.
- Provider plugins, onboarding, catalogs, web pages, database clients and command-line scripts: configuration and network code over libraries that are not part of this model.
- Parts that share no state with the ones above: the logger that keeps the last 1000 entries, the two caches with an expiry time (`cachedApiCall` and `MemoryCache`), the normalization of poll options for chat channels, the lookup of an installed version, and the calculator.
