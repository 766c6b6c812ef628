# FlashLink, modelled and verified in Dafny

FlashLink is a sharded short-link service written in Go: links live in sixteen MySQL
tables, codes are base62 snowflake ids, reads go through a Bloom filter, a local LRU cache
and Redis, and background workers batch writes, record visits, purge expired rows and
rebuild the filter while everything else keeps running. This project models that logic and
proves what it guarantees.

## How the model is built

- **Concurrent protocols are state machines.** `BloomProtocol` (filter rebuild), `ReadPath`
  (resolve with shared loads, create, two cleaners and the caches, over the whole state of
  `BloomProtocol`) and `AsyncWriter` (N batching workers) have one atomic event per Redis
  command, SQL statement, clock reading or channel operation, and their theorems hold in every
  interleaving of any number of participants.
- **Sequential code is imperative.** The base62 loops fill a buffer and accumulate with 64-bit
  wrap-around; the local cache is a map and a doubly linked list on the heap; the repository
  loops page through tables that other sessions may change between statements; the filter,
  link service, cleanup, recorder, snowflake generator and etcd resolver are classes whose
  methods update their fields. Each is proved against a specification function, about which
  the lemmas speak.
- **External systems are atomic commands with their plain meaning.** A Bloom filter is the set
  of added codes, so only "added implies might contain" is used. Commands fail, without
  effect, according to an arbitrary oracle.

| file | contents |
|---|---|
| `Base62.dfy`, `Links.dfy`, `Snowflake.dfy` | codes, the link entity, shard routing, ids |
| `RedisStore.dfy`, `Tables.dfy` | Redis commands, table rows, keyset pages, the direct look-up |
| `BloomProtocol.dfy`, `RedisBloom.dfy` | the rebuild protocol, and the filter's own code |
| `CacheReference.dfy`, `CacheSpec.dfy`, `LocalCache.dfy`, `RemoteCache.dfy` | the local cache as a table of slots, as a recency list and on the heap; the Redis cache |
| `Repository.dfy`, `LinkService.dfy` | paged loops and single-row statements, the service as one request executes it |
| `ReadPath.dfy`, `ReadRuns.dfy`, `ReadAlone.dfy` | the read path under concurrency: its machine and invariant, what its runs answer, what one request does by itself |
| `AsyncWriter.dfy`, `Recorder.dfy` | the batching queues |
| `EtcdResolver.dfy`, `StringOrder.dfy` | the service resolver, sorting of addresses |
| `Cleanup.dfy` | retention deletes and the periodic cleanup run |

## What turned out false

- **A fresh link can be denied.** `CreateShortLink` stores the row before the filter learns its
  code, so a Resolve in between is told by the filter that there is no such link; if the
  filter's Add fails, so is every later one until a rebuild (`UnaddedLinkCanBeMissed`).
  `ResolveIsLinearizable` proves that a request's own answer agrees with the table if and only
  if it was not the filter's no to an active link, which, with a filter that was right at the
  start or has been rebuilt since, is a link whose Add is pending, failed or dropped.
- **A dead link can be served to a late joiner.** Requests that join another's load are given its
  answer, which may be older than they are (`JoinerGetsDeadLink` is a complete run).
  `SharedAnswerAgrees` proves that it was true within the load they share,
  `AnswerStaysTrueExactlyWhen` gives the exact condition under which it still is at any later
  moment, the Join included, and `DeadLinksStayDead` that such a copy is the only way to be
  given a dead item.
- **A successful Add can be lost.** `Add` writes the main filter first and the rebuild's temp
  filter second; a finish that lands in between can drop the code of an active link
  (`AddedCodeCanBeLost` is a complete run, `AddedLinkCanBeMissed` carries it on to a wrong
  answer). `AddedCodesAreFound` proves when exactly: some winning finish straddled the Add
  without having read its row, and no later winner had read it. `WinningRebuildHeals` shows
  that the next winning rebuild repairs it, and `WinEstablishesInv` that the first one makes
  the filter right from any start, over a Redis without filter or one that has lost its data.
- **A rebuild can leave its marker standing**, so that every later Add goes on writing to a key
  nobody reads (`MarkerCanBeLeft` gives runs): only when the deletion of the marker fails or the
  finish script does (`StaleMarkerHadAnError`, `NoMarkerIsLeft`).
- **Ids start over at 2^42 milliseconds** (`IdsStartOver` is a run of two calls), because the
  shift drops the upper bits of the time. `IdsOrderedExactlyWhen` gives the exact order of any
  two ids of a run. **Parsing goes wrong at 2^41** (`ParseGoesBack`, exactly as `ParseRecovers`
  says): the word is read as signed.
- **Encoding a decoded code is canonical only below 2^64** (`LongCodeIsNotCanonical`, exactly as
  `DecodeThenEncode` says): longer codes wrap silently.
- **A stale etcd snapshot loses events** (`StaleSnapshotLosesEvents`); `ConvergesExactlyWhen`
  gives the exact condition under which the resolver recovers.

## Model

| member | source | states |
|---|---|---|
| Base62.EncodeBase62 | internal/domain/link/base62.go:12-25 | the backwards loop never underruns its 11 bytes and yields the canonical digits for every 64-bit id |
| Base62.DecodeBase62 | internal/domain/link/base62.go:27-41 | rejects exactly the empty string and foreign characters, else the denoted number modulo 2^64 |
| Base62.DecodeFailsExactlyWhen | internal/domain/link/base62.go:8-34 | decoding fails on the empty string and on characters outside the literal alphabet, and on nothing else |
| Base62.DigitOfIsAlphabetIndex | internal/domain/link/base62.go:8-34 | the digit of a character is its index in the alphabet, and no character occurs twice |
| Base62.RoundTrip | internal/domain/link/base62.go:12-41 | decode(encode(n)) = n for every 64-bit n |
| Base62.EncodeInjective | internal/domain/link/base62.go:12-25 | different ids never share a code |
| Base62.DecodeThenEncode | internal/domain/link/base62.go:12-41 | encode(decode(s)) strips leading zeros if and only if the value of s fits in 64 bits |
| Base62.LongCodeIsNotCanonical | internal/domain/link/base62.go:27-41 | eleven z's are a valid code whose decoded number has another code |
| Base62.CodesSortLikeIds | internal/domain/link/base62.go:8-25 | equal-length codes compare bytewise exactly as their ids compare |
| Links.IssuedCodeIsValid | internal/domain/link/code.go:7-22 | the code issued for an id is valid and leads back to the id, through the trimming of white space |
| Links.TrimSpaceExactly | internal/domain/link/code.go:16-22 | trimming takes white space off both ends, all of it and nothing else |
| Links.SpaceAroundCodes | internal/domain/link/code.go:16-22 | white space around an issued code leads to the same id |
| Links.CodeAndIdRouteAlike | internal/domain/link/shard.go:7-32 | an id and its code route to the same existing table |
| Links.TableNamesAreDistinct | internal/domain/link/shard.go:19-24 | no two shards share a table name |
| Links.TableNameSpells | internal/domain/link/shard.go:19-24 | a name is the prefix and the two decimal digits of its index; there is none out of range |
| Links.WrapKeepsShard | internal/domain/link/shard.go:7-17 | for a valid code of any length, wrap-around in decoding does not change the shard |
| Links.ShardFromLastFour | internal/domain/link/shard.go:7-17 | the shard depends on the last four characters only |
| Snowflake.NewSnowflake | internal/domain/link/snowflake.go:37-47 | refuses exactly the node ids that do not fit ten bits |
| Snowflake.SnowflakeGenerator.NextID | internal/domain/link/snowflake.go:49-71 | for any clock: a later reading is taken over; any other yields the previous id plus one on one reading, until sequence number 4095 has been used, and then waits for the first reading past the millisecond |
| Snowflake.WaitsExactlyWhenUsedUp | internal/domain/link/snowflake.go:53-65 | counted along the run: a call waits if and only if its reading is not later and all 4096 ids of the millisecond have been issued |
| Snowflake.SnowflakeGenerator.WaitNextMillis | internal/domain/link/snowflake.go:85-93 | terminates when some later reading passes the last millisecond, and returns the first that does |
| Snowflake.IdsStrictlyIncrease | internal/domain/link/snowflake.go:49-71 | along any run, backward clocks included, ids are nonzero and strictly increasing while time stays below 2^42 ms |
| Snowflake.IdsOrderedExactlyWhen | internal/domain/link/snowflake.go:49-71 | for any two calls of any run, times of any size included: the exact condition for one id to be smaller, and for both to be equal |
| Snowflake.IdsStartOver | internal/domain/link/snowflake.go:67-70 | a run of two calls, at 2^42 - 1 and 2^42 ms, in which the second id is zero and the smaller |
| Snowflake.NodesNeverCollide | internal/domain/link/snowflake.go:67-70 | equal ids come from the same node with the same sequence number |
| Snowflake.ParseRecovers | internal/domain/link/snowflake.go:73-83 | parsing recovers node and sequence always, and the time if and only if it is below 2^41 ms |
| Snowflake.ParseGoesBack | internal/domain/link/snowflake.go:73-83 | the id of a call at 2^41 ms is parsed as a time as long before the epoch |
| Snowflake.EpochIsNewYear2026 | internal/domain/link/snowflake.go:20-20 | the epoch in milliseconds is the start of 2026 in the Gregorian calendar |
| Snowflake.TimeWasRead | internal/domain/link/snowflake.go:53-67 | the embedded time never exceeds the larger of the start and every reading seen |
| Snowflake.MillisecondSpreadsEvenly | internal/domain/link/snowflake.go:58-70 | the ids one generator issues in one millisecond load any two shards equally, up to one |
| BloomProtocol.KeepsSound | internal/infrastructure/filter/bloom.go:68-134 | every atomic step of adders, rebuilders, expiry and clock keeps the protocol's invariant, whatever the main filter holds |
| BloomProtocol.KeepsInv | internal/infrastructure/filter/bloom.go:68-134 | and, once the main filter is right about the added active rows, keeps it so |
| BloomProtocol.WinEstablishesInv | internal/infrastructure/filter/bloom.go:17-24 | from any main filter, also a missing one, a winning finish makes it right |
| BloomProtocol.AddedCodesAreFound | internal/infrastructure/filter/bloom.go:68-134 | in every state reached from a right filter, or from any start once a rebuild has won, the main filter has the code of an active row whose Add succeeded, if and only if the run did not lose it: no winning finish straddled the Add unread, or a later winner had read the row |
| BloomProtocol.DroppedExactlyWhen | internal/infrastructure/filter/bloom.go:113-134 | from any state: the record of a dropped Add is equivalent to such a finish among the run's events, with no restoring one after it |
| BloomProtocol.AddedCodeCanBeLost | internal/infrastructure/filter/bloom.go:109-134 | a run from a fresh system in which a successfully added, active code is not in the main filter |
| BloomProtocol.WinDecides | internal/infrastructure/filter/bloom.go:17-24 | after a winning finish, exactly the codes its pages contained or whose Adds had reached the temp key are in the main filter |
| BloomProtocol.WinningRebuildHeals | internal/infrastructure/filter/bloom.go:80-111 | whatever the main filter held and whatever else ran, a winning finish leaves every still-active row committed before the marker write in it |
| BloomProtocol.PageMissesNothing | internal/infrastructure/mysql/short_link_repository.go:130-157 | reading a page moves the scan past no active row it leaves out |
| BloomProtocol.WinnerHeldMarker | internal/infrastructure/filter/bloom.go:17-24 | the winner's key stood in the marker from its SET to its finish, and no other rebuild wrote, deleted or won meanwhile |
| BloomProtocol.BeatenNeverWins | internal/infrastructure/filter/bloom.go:86-111 | an overtaken or failed rebuild never changes the main filter, in any continuation |
| BloomProtocol.UndisturbedRebuildWins | internal/infrastructure/filter/bloom.go:80-111 | a rebuild that overlaps no other and meets no error, whatever Adds and deletions run beside it: its own steps are bounded, and at any time those that are left bring it to win |
| BloomProtocol.NeverStuck | internal/infrastructure/filter/bloom.go:80-111 | a rebuild in progress always has a next step |
| BloomProtocol.WinsByItself | internal/infrastructure/filter/bloom.go:80-111 | from any state in which a rebuild can still win, its own steps lead it there |
| BloomProtocol.AddMayFail | internal/infrastructure/filter/bloom.go:68-134 | an Add may fail before any of its commands, and then leaves the server as it is |
| BloomProtocol.ErrorCleansUp | internal/infrastructure/filter/bloom.go:86-100 | from an error of the reservation or the scan, in any state, the rebuild's own steps end in failure with the marker gone and, after a scan, the temp key |
| BloomProtocol.FailureSendsDeletions | internal/infrastructure/filter/bloom.go:86-100 | no rebuild fails in its reservation or scan, whatever else runs, without having sent its deletions: temp key first, then marker |
| BloomProtocol.StaleMarkerHadAnError | internal/infrastructure/filter/bloom.go:80-111 | a marker that names a returned rebuild was there before, or that rebuild's deletion of it or its finish script failed |
| BloomProtocol.MarkerCanBeLeft | internal/infrastructure/filter/bloom.go:91-110 | runs from an empty system that leave a marker behind although the only rebuild has returned: by a failed finish script, and by a failed deletion |
| BloomProtocol.NoMarkerIsLeft | internal/infrastructure/filter/bloom.go:80-111 | without these errors, and from a start without a marker, no marker stands once all rebuilds have returned |
| RedisBloom.DedupeStrings | internal/infrastructure/filter/bloom.go:144-158 | the loop computes the first occurrences of nonempty values |
| RedisBloom.DedupedKeeps | internal/infrastructure/filter/bloom.go:144-158 | no value twice, none lost but the empty one, in order of first occurrence |
| RedisBloom.Bloom.AddKeys | internal/infrastructure/filter/bloom.go:113-125 | main key first, then the marker's key if there is one |
| RedisBloom.Bloom.Add | internal/infrastructure/filter/bloom.go:68-74 | success puts the code under both keys; only a failed command prevents it, and then no key has the code that the main key lacks; no filter ever loses a code or gains another |
| RedisBloom.AddFollowsProtocol | internal/infrastructure/filter/bloom.go:68-134 | an uninterrupted Add and the protocol's events leave the same server behind, main key first and temp key second |
| RedisBloom.Bloom.Rebuild | internal/infrastructure/filter/bloom.go:80-103 | success replaces the main filter by exactly the scanned codes, clears the marker and touches no other key; it fails only when a command or statement does, and then leaves the main filter alone and has sent the deletions of the marker (reservation) or of temp key and marker (scan); with other database sessions writing, kept active rows are scanned |
| RedisBloom.RebuildFollowsProtocol | internal/infrastructure/filter/bloom.go:80-111 | from any state of the protocol, an uninterrupted rebuild is a run of its own events that wins and leaves the very server that Rebuild leaves |
| CacheSpec.CapacityInclusion | internal/infrastructure/cache/local.go:42-113 | on any trace, a cache of capacity n holds what one of capacity n + 1 holds, less at most one entry |
| CacheSpec.LargerCacheHits | internal/infrastructure/cache/local.go:42-113 | a larger cache hits, with the same item, whenever a smaller one does |
| CacheReference.ListIsReference | internal/infrastructure/cache/local.go:42-113 | on every trace the recency list answers every Get as a table of slots does that knows only set time, time to live and last use |
| CacheReference.HitExactlyWhen | internal/infrastructure/cache/local.go:42-74 | while a code is held, a Get hits exactly until the time to live of its latest Set has passed, with that Set's item |
| CacheReference.HeldAfterwards | internal/infrastructure/cache/local.go:42-113 | what is held after one more operation: what it sets, and of the rest all but what it deletes, finds expired or evicts |
| RemoteCache.Cache.Set | internal/infrastructure/cache/redis.go:37-43 | a SET that does not fail is answered until its time to live has passed, and leaves the other keys alone |
| CacheSpec.ListIsByUse | internal/infrastructure/cache/local.go:42-85 | on any trace, the recency list is in the order of each code's last Set or hitting Get |
| CacheSpec.EvictsInOrderOfUse | internal/infrastructure/cache/local.go:76-113 | on any trace, a Set of a new code into a full cache removes one entry: an expired one if there is any, and of those that qualify the one whose last use lies furthest back |
| CacheSpec.ReplayKeeps | internal/infrastructure/cache/local.go:59-85 | codes stay distinct and the size within capacity |
| LocalCache.LruList.PushFront | internal/infrastructure/cache/local.go:79-83 | relinks the doubly linked list so that the element comes first |
| LocalCache.LruList.MoveToFront | internal/infrastructure/cache/local.go:55-72 | relinks the list so that an element comes first and the others keep their order |
| LocalCache.LruList.Remove | internal/infrastructure/cache/local.go:115-119 | unlinks exactly one element, wherever it is |
| LocalCache.Local.Get | internal/infrastructure/cache/local.go:42-57 | map and list on the heap act as the pure recency list: hit, expiry and promotion |
| LocalCache.Local.Set | internal/infrastructure/cache/local.go:59-85 | map and list act as the pure recency list: replace, or evict when full and insert |
| LocalCache.Local.Delete | internal/infrastructure/cache/local.go:87-99 | map and list act as the pure recency list: removal of each code |
| LocalCache.Local.BackmostDead | internal/infrastructure/cache/local.go:101-113 | the backward walk finds the least recently used expired entry, or shows there is none |
| Repository.ListActiveCodes | internal/infrastructure/mysql/short_link_repository.go:112-162 | with other sessions writing between statements, every row they keep that is active is handed over, none twice, in order; each shard terminates |
| Repository.AloneHandsExactly | internal/infrastructure/mysql/short_link_repository.go:112-162 | alone, a successful scan hands over exactly the active rows |
| Repository.DeleteExpired | internal/infrastructure/mysql/short_link_repository.go:164-234 | with other sessions writing between statements: only expired rows are removed, each after the cache accepted its code, and counted; a nil return has removed every expired row the others leave alone, and only a failed statement or command prevents one; terminates; alone, exactly the unexpired rows remain |
| Repository.NextPage | internal/infrastructure/mysql/short_link_repository.go:183-230 | the compound cursor moves strictly forward, passes no expired row but those of its page, and a short page is the last |
| Repository.DeleteExpiredCode | internal/infrastructure/mysql/short_link_repository.go:236-254 | removes exactly the row of the code if it has expired, and says whether it did |
| Repository.Create | internal/infrastructure/mysql/short_link_repository.go:25-37 | inserts exactly the row unless its code is malformed or a key is taken |
| Repository.FindActiveByCode | internal/infrastructure/mysql/short_link_repository.go:72-110 | answers as the table does: the active row, expired, or not found |
| Tables.LookupByColumns | internal/infrastructure/mysql/short_link_repository.go:72-110 | the answers in terms of the columns: found if active and unexpired, expired if its time has come whatever its status, invalid if the code is |
| Repository.GroupShortLinksByShard | internal/infrastructure/mysql/short_link_repository.go:280-294 | each group holds the items of its shard in their order; fails exactly on a malformed code |
| Repository.GroupsPartition | internal/infrastructure/mysql/short_link_repository.go:280-294 | grouping loses and duplicates nothing |
| Repository.GroupIsSubsequence | internal/infrastructure/mysql/short_link_repository.go:280-294 | a group is the subsequence of exactly its shard's items |
| LinkService.Service.CacheTTLFor | internal/app/linkapp/service.go:215-227 | an expired item is not cached, no entry outlives its item, and none is kept shorter than it may |
| LinkService.Service.Resolve | internal/app/linkapp/service.go:115-156 | a malformed or rejected code touches nothing else; an active item of the local cache, else of Redis, is served without a statement; otherwise exactly one statement decides; answers an item exactly when a direct table read would, the same one, unless the filter denies an active code it lacks; a table hit fills both caches, an expired link leaves them and is queued for deletion |
| LinkService.Service.CreateShortLink | internal/app/linkapp/service.go:72-113 | refuses exactly what is no http or https URL with a host; stores the requested domain or else the default; row, filter, Redis in this order; fails only when the statement, a taken key or a Redis command does, stops there and leaves the later ones untouched |
| LinkService.TrimSlashesExactly | internal/app/linkapp/service.go:78-81 | trimming a domain takes off its trailing slashes, all of them and nothing else |
| LinkService.LazyExpiredCleaner.Enqueue | internal/app/linkapp/lazy_cleaner.go:64-75 | never blocks; without a repository, for the empty code, or with a full queue, the code is dropped |
| LinkService.Service.constructor | internal/app/linkapp/service.go:53-70 | the domain loses its trailing slashes, and entries are cached for half an hour unless a time is given |
| LinkService.LazyExpiredCleaner.Run | internal/app/linkapp/lazy_cleaner.go:57-95 | takes the queue's first items until its context stops it; removes only rows that had expired when queued and, without failures, all of those that other sessions leave alone |
| ReadPath.OnlyExpiredRowsGo | internal/app/linkapp/lazy_cleaner.go:77-95 | no step of any request, cleaner or rebuild deletes an unexpired row |
| ReadPath.KeepsInv | internal/app/linkapp/service.go:115-213 | every step keeps caches, requests and tasks coherent with the table, and every shared load led by a request of the same code and process whose answer its followers are given |
| ReadRuns.CachesStayCoherent | internal/app/linkapp/service.go:158-213 | in every reachable state a cached item is its table row or has expired |
| ReadRuns.ResolveIsLinearizable | internal/app/linkapp/service.go:115-173 | in every run, the answer of a request that loads for itself agrees with a direct read of the table at a moment within the request, if and only if it was not the filter's no at that moment to an active link; with a filter right or rebuilt, that is one whose Add was pending, failed or dropped |
| ReadRuns.SharedAnswerAgrees | internal/app/linkapp/service.go:133-150 | the answer of a request that shares a load was settled within the flight it joined, by a leader of the same code and process, and agreed with the table then |
| ReadRuns.AnswerStaysTrueExactlyWhen | internal/app/linkapp/service.go:133-150 | an answer that agreed with the table agrees at any later moment if and only if its item has not expired or, for none, no link of the code has been committed since |
| ReadRuns.JoinerGetsDeadLink | internal/app/linkapp/service.go:133-150 | a run in which a request that starts after the expiry is given the dead item, as the copy of an older answer |
| ReadPath.SettledAnswerAgrees | internal/app/linkapp/service.go:115-173 | in any state that keeps the invariant, the single step that settles an answer agrees with the table if and only if it is not the filter's no to an active link |
| ReadPath.DenialIsMiss | internal/app/linkapp/service.go:120-125 | a right filter says no to an active link if and only if the link's Add is pending, failed or dropped |
| ReadRuns.RunsTheProtocol | internal/app/linkapp/service.go:97-105 | what a run of the read path does to table and filters is a run of the rebuild protocol |
| ReadRuns.UnaddedExactlyWhen | internal/app/linkapp/service.go:97-105 | an Add counts as pending, failed or dropped exactly when it has not reached the main filter, has failed, or the protocol run lost its code |
| ReadRuns.MissedWhenAbsent | internal/app/linkapp/service.go:120-125 | in any state in which the filter lacks the code of an active link, a Resolve that runs there and then answers that there is no such link |
| ReadRuns.UnaddedLinkCanBeMissed | internal/app/linkapp/service.go:97-125 | runs from an empty system that deny an active link, with its Add still pending and with its Add failed |
| ReadRuns.AddedLinkCanBeMissed | internal/app/linkapp/service.go:97-125 | a run from an empty system that denies an active link whose Add returned success |
| ReadRuns.DeadLinksStayDead | internal/app/linkapp/service.go:133-213 | once a link has expired, whatever the caches hold and whatever cache writes are under way, no load of its code yields an item, and a request is given one if and only if it shares a load that was answered before |
| ReadAlone.LocalHitServes | internal/app/linkapp/service.go:127-131 | by itself, a request with an active local hit is answered with it and does nothing else |
| ReadAlone.RemoteHitServes | internal/app/linkapp/service.go:133-139 | by itself, after a local miss, an active item in Redis is the answer and goes to the local cache |
| ReadAlone.MissFillsCaches | internal/app/linkapp/service.go:141-150 | by itself, after misses in both caches, an active row is the answer and goes to both |
| ReadAlone.StaleHitIsDropped | internal/app/linkapp/service.go:166-172 | an inactive local hit is dropped from both caches |
| ReadAlone.StaleRemoteIsDropped | internal/app/linkapp/service.go:166-172 | an inactive item in Redis is dropped from both caches, and the row is read |
| ReadAlone.ExpiredRowIsForgotten | internal/app/linkapp/service.go:141-146 | by itself, an expired row is answered as expired, both caches lose the code, and it is queued with the present time |
| ReadAlone.LazyCleanerDeletes | internal/app/linkapp/lazy_cleaner.go:88-95 | a deletion by the lazy cleaner removes exactly the row of the queued code that had expired at the queued time |
| ReadAlone.CreateWarmsRedis | internal/app/linkapp/service.go:100-105 | after a successful Add, and only then, Redis gets the new item |
| ReadAlone.FailuresCanStrike | internal/app/linkapp/service.go:133-156 | entries may vanish, cache commands, statements and deletions may fail at any time, and do nothing then |
| ReadAlone.CleanupPurges | internal/app/cleanupapp/service.go:93-104 | the batch cleanup takes a page's codes out of Redis and its rows out of the table |
| AsyncWriter.NewWriter | internal/app/linkapp/async_writer.go:37-80 | a new writer is empty; queue 8192, batches of 256 and 4 workers unless given |
| AsyncWriter.KeepsConserved | internal/app/linkapp/async_writer.go:99-182 | every step of any worker keeps each accepted item in exactly one place |
| AsyncWriter.EveryItemIsSomewhereOnce | internal/app/linkapp/async_writer.go:75-182 | in every interleaving queue, batches and flushed batches hold each accepted item once; flushed batches are nonempty, bounded and in acceptance order |
| AsyncWriter.ShutdownFlushesAll | internal/app/linkapp/async_writer.go:149-169 | once all workers have exited, whatever was accepted before the last one's empty check has been flushed |
| AsyncWriter.ShortOnlyWhenDue | internal/app/linkapp/async_writer.go:120-169 | what is handed over is one worker's whole batch, and it is full unless the worker's timer has run out or its context is over |
| AsyncWriter.MayBecomeDue | internal/app/linkapp/async_writer.go:75-147 | an item is accepted while there is room; the timer of a worker with a first item may run out and hands over what it has; its context may be over at any time |
| AsyncWriter.TakesUntilFull | internal/app/linkapp/async_writer.go:120-147 | a worker takes the next item as soon as there is one, and hands over exactly when that fills its batch |
| AsyncWriter.CanceledWorkerDrains | internal/app/linkapp/async_writer.go:149-169 | once its context is over, a worker's own steps hand over its batch and all that is queued, and it exits |
| Recorder.Recorder.Record | internal/app/statapp/recorder.go:86-99 | never blocks: accepts at the end of the queue, or reports cancellation or a full queue |
| Recorder.Recorder.Run | internal/app/statapp/recorder.go:101-152 | for any schedule, producers recording during the drain included: the batches handed over have code, time, ip, user agent and referer of exactly the events accepted before the check that found the queue empty, in order, with ids of the generator that are nonzero and strictly increasing while its time is below 2^42 ms; later ones stay in the queue |
| Recorder.Recorder.Receive | internal/app/statapp/recorder.go:119-137 | an event joins the batch, which is handed over exactly when it is full |
| Recorder.LoggedIdsIncrease | internal/app/statapp/recorder.go:143-152 | logs numbered by a run of the generator carry strictly increasing, nonzero ids |
| EtcdResolver.ReplayConverges | internal/infrastructure/etcd/resolver.go:54-142 | a snapshot not behind the watch, plus the remaining events, yields the registry's true state |
| EtcdResolver.ConvergesExactlyWhen | internal/infrastructure/etcd/resolver.go:88-142 | for any snapshot, stale or not: the exact condition under which the replay ends in the true state |
| EtcdResolver.StaleSnapshotLosesEvents | internal/infrastructure/etcd/resolver.go:76-108 | a snapshot from before the watch position, installed late, leaves the resolver wrong |
| EtcdResolver.ReplayFollowsRegistry | internal/infrastructure/etcd/resolver.go:118-135 | applying trimmed events tracks the view of the raw registry |
| EtcdResolver.RegistryHoldsLatestPut | internal/infrastructure/etcd/resolver.go:118-135 | the raw registry holds under a key the value of the key's last change, if that is a put |
| EtcdResolver.InstancesAreTrimmed | internal/infrastructure/etcd/resolver.go:94-100 | an instance is known under the keys whose value is not all white space, with that value less the white space around it |
| EtcdResolver.WatchResolver.ResolveNow | internal/infrastructure/etcd/resolver.go:88-108 | replaces the instances by the nonblank addresses of a snapshot, newer or older than the watch |
| EtcdResolver.WatchResolver.HandleResponse | internal/infrastructure/etcd/resolver.go:110-142 | the event loop brings the instances to the registry's true state if and only if the resolver is caught up, and always once a snapshot not behind the watch is reached |
| EtcdResolver.WatchResolver.KnowsTheTruth | internal/infrastructure/etcd/resolver.go:88-142 | at any moment past the snapshot's revision, the instances are the registry's if and only if every key the watch has not touched since was the same at the snapshot and at the watch's position then |
| StringOrder.LessIsLexicographic | internal/infrastructure/etcd/resolver.go:169-169 | the order of addresses is that of dictionaries over their bytes |
| EtcdResolver.WatchResolver.Addresses | internal/infrastructure/etcd/resolver.go:156-176 | the sorted listing, without repeats, of the registered addresses, whatever order the map is walked in; a caught-up resolver lists the registry's own |
| Cleanup.DeleteAll | internal/app/cleanupapp/service.go:134-150 | terminates; success removes exactly the rows older than the cutoff and counts them, an error still counts truly |
| Cleanup.LogTable.DeleteBefore | internal/infrastructure/mysql/visit_repository.go:100-117 | removes min(limit, matching) rows older than the cutoff, whichever the server picks |
| Cleanup.Service.RunOnce | internal/app/cleanupapp/service.go:89-132 | with other sessions writing the links: only expired links go, their codes leave the cache, and a nil return means every kept expired link is gone, exact retention, exact counts and a filter with all kept active codes; alone, exactly the unexpired links remain and the filter has exactly the active codes; every error return had a failed statement or command, names its step, and reports and changes exactly what the steps before it did |
| Cleanup.Service.constructor | internal/app/cleanupapp/service.go:59-87 | batch size 1000, visits kept 30 days and statistics 180, unless given |

## Left out

- Network failures that take effect before they are reported: a failed command has no effect.
- Clocks of different hosts: outside the id generator there is one monotone clock.
- Freshness of temp keys, which the program takes from nanosecond timestamps, is assumed.
- Row updates and bans: no code changes a stored row, so rows are immutable.
- MySQL collation: `code = ?` is exact equality, although migrations/001_init_short_link.sql:14 declares a case-insensitive collation for case-sensitive codes.
- Bloom sizing and hashing: a filter is the set of codes added to it, and in `ReadPath` and `LinkService` it may say yes to any other; the "only if" of `AddedCodesAreFound` speaks of added codes.
- DeleteExpired: with other sessions writing, it is taken that rows are not changed in place, keys are not reused, and stored times lie past Go's zero time; what the others insert or delete meanwhile is theirs.
- RunOnce: the retention tables, the cache and the Redis server of the filter have no other writer; `BloomProtocol` has concurrent Adds and rebuilds.
- CreateShortLink: the standard library's URL parser is a parameter.
- LinkService.Service.Resolve: one clock reading for the request, and no shared load; `ReadPath` has a reading per check and write, and shared loads.
- DATETIME(3) columns (migrations/001_init_short_link.sql:6) round times to milliseconds, so that "the same item" holds up to rounding for an item cached by CreateShortLink.
- LinkService.LazyExpiredCleaner.Run: the context stops it after any number of items; its timeout per statement is a failing statement.
- ReadPath: the batch cleanup may invalidate and delete its page in any order, which includes the program's.
- LocalCache.LruList: null-terminated where Go's container/list closes a ring through a sentinel.
- AsyncWriter: a flush is one hand-over of the batch; without a batch writer the program creates the items one by one in the same order, and errors are discarded.
- EtcdResolver: responses carrying an error, and a watch closed by the server, are not modelled.
- filter/memory.go and filter/redis.go, whose rebuilds have no marker.
- CreateBatch's parallel transactions, URL parsing, statistics queries, schedulers, gRPC and HTTP layers, configuration and the load tester.
