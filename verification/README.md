# Verified model of smartcache's alias groups

smartcache keeps one cached value per primary key and lets readers reach it through many
`field:value` aliases. Writes refresh a whole group, evictions cascade through two opposite indexes
(members hash: primary -> field -> alias value; pointers: field and value -> primary), and three
implementations of one contract keep very different physical states:

- **memstore** changes two maps under a mutex; it replaces, steals and validates on read;
- **Redis colocated** is one atomic Lua script per operation; it replaces and steals on write and does
  not validate on read;
- **Redis sharded** is a protocol of small atomic steps; it neither replaces nor steals, validates on
  read, and cleans pointers up by compare-and-delete.

This project models all three over the repository's real key strings and proves that they answer
alike, what each keeps in every run, what every interleaving of sharded clients keeps, and exactly
where the strategies differ. Around the engine it models the key codec, glob escaping, bulk eviction
by prefix, batch read-through, TTL jitter and lazy expiry.

## How it is built

- `Basics`, `Keyspace`, `Glob`: strings, key builders and their decoder, SCAN patterns.
- `Redis`, `CellLayout`, `GroupConn`: a Redis server as typed cells with expiries and a clock; which
  cells an alias group occupies; each command's effect on the group, key strings included.
- `AliasIndex`, `RecordTable`, `Lifetimes`: the two indexes without key strings, the simple table they
  implement (primary -> value, aliases, expiry, one owner per alias), and the group lifetime.
- `Colocated`, `Sharded`, `MemStore`: the three implementations as classes whose methods carry out the
  code's commands and map updates; each `ensures` gives the whole new index and says that every key
  of another namespace, of the other mode or of a plain cache holds what it held.
- `Runs`, `MemRefinement`, `Equivalence`, `PointerHistory`, `Revival`, `Differences`, `Clients`:
  sequential runs, what they mean, and exactly when the strategies' answers part.
- `ShardedProtocol`, `ShardedLifetimes`, `ShardedStability`: any number of sharded clients, step by step,
  with failures; exactly what every read answers.
- `BulkIndex`, `PrefixEviction`, `BulkEviction`, `PlainStore`, `LazyExpiry`: bulk cascades, the plain store and its
  two-phase reads.
- `Cache`, `CacheOps`, `BatchAgreement`, `BatchClients`: read-through by key and in batches.
- `AliasCache`, `AliasAgreement`: read-through by alias over the three classes, against the record table.
- `Jitter`, `Staleness`, `CacheLifetimes`: TTLs and how old a served value can be.

A class carries a ghost index `ix`; its `Valid` says that the stored keys hold exactly that index. The
properties are then proved about the functions on the index that the methods are proved to compute.

## What the code demands of its callers

Alias fields are non-empty and contain no `:` (a pointer key joins field and value with `::`, and the
scripts read an empty field as "no alias"). Alias-group namespaces contain no `:`, `{` or `}`; a plain
cache's namespace contains no `:` and no `{` and is neither `grp` nor `memb`. TTLs that reach Redis are
at least a millisecond where the staleness bound is claimed. The codec round-trips and never emits the
negative marker. Values, primary keys and alias values are arbitrary.

The design document gives other key formats and says in places that a pointer stores the value key; the
code joins with `::` and stores the primary, and the model follows the code.

## Model

| member | source | states |
|---|---|---|
| KeyCodec.DecodeEncode | internal/keyspace/keyspace.go:16-46 | every well-formed plain, value, members and pointer key of every namespace and mode reads back as the parts it was built from |
| KeyCodec.EncodeInjective | internal/keyspace/keyspace.go:16-46 | two well-formed keys share a string exactly when they are the same key, so the four families are disjoint and injective |
| KeyCodec.ValueKeyInverse | internal/keyspace/keyspace.go:110-127 | PrimaryFromValueKey is the two-sided inverse of ValueKey, in both modes and for every string |
| KeyCodec.MembersKeyInverse | internal/keyspace/keyspace.go:116-127 | the same for members keys |
| KeyCodec.MatchSelectsPrefix | internal/keyspace/keyspace.go:77-106 | ValueMatch and MembersMatch contain a record's key exactly when its primary has the prefix |
| KeyCodec.PlainPrefixSelects | internal/keyspace/keyspace.go:84-86 | a plain prefix selects exactly that namespace's plain keys with the prefix, and nothing of an alias group |
| CellLayout.ForeignIsElsewhere | internal/keyspace/keyspace.go:16-46 | a well-formed key lies outside an alias group exactly when it is a plain key, of another namespace or of the other mode |
| GroupConnection.GroupConn.KeepsForeign | redisstore/scripts/colocated/evict_by_primary.lua:1-7 | so every put and eviction of a group leaves the cell of each such key as it was; the Redis and memstore operations state it |
| Glob.GlobLiteral | redisstore/scan.go:83-94 | the builder loop yields the character-by-character escaped string |
| Glob.PatternIsExact | redisstore/scan.go:98-100 | under Redis's glob matching, matchPattern matches a key exactly when the family contains it, whatever characters prefix and suffix hold |
| Glob.PrefixPatternIsExact | redisstore/redisstore.go:118 | the DeleteByPrefix pattern matches exactly the keys with the literal prefix |
| Colocated.ColocatedOps.GetValue | redisstore/colocated.go:39-45 | reads the group's value of that primary |
| Colocated.ColocatedOps.PutValue | redisstore/colocated.go:47-62 | the new index is the old one with the value stored and the whole group refreshed; nothing outside the group changes |
| Colocated.ColocatedOps.PutByAlias | redisstore/colocated.go:51-62 | the new index is the old one with the value stored, the alias moved here and the group refreshed |
| Colocated.ColocatedOps.PutScript | redisstore/scripts/colocated/put.lua:1-35 | the script's commands, in order, compute that index; an empty field means no alias, a TTL that is not positive no expiry |
| Colocated.ColocatedOps.LinkSteps | redisstore/scripts/colocated/put.lua:8-20 | replace, steal, set field and set pointer together move the alias |
| Colocated.ColocatedOps.ExpireAll | redisstore/scripts/colocated/put.lua:22-34 | the refresh loop gives every listed pointer the new expiry, in any HGETALL order |
| Colocated.ColocatedOps.GetByAlias | redisstore/colocated.go:64-82 | answers the pointer's target's value, or a miss |
| Colocated.ColocatedOps.GetScript | redisstore/scripts/colocated/get.lua:1-5 | pointer then value, built from the value prefix, without validation |
| Colocated.ColocatedOps.EvictByPrimary | redisstore/colocated.go:84-87 | the record, its members hash and every pointer the hash names are gone; every other item of the group, and every key of other caches, is as before |
| Colocated.ColocatedOps.EvictByPrimaryScript | redisstore/scripts/colocated/evict_by_primary.lua:1-7 | the deletion loop removes every listed pointer, in any order |
| Colocated.ColocatedOps.EvictByAlias | redisstore/colocated.go:89-93 | the record behind the pointer is evicted whole, or nothing happens |
| Colocated.ColocatedOps.EvictByAliasScript | redisstore/scripts/colocated/evict_by_alias.lua:1-10 | resolves the alias and cascades from keys rebuilt out of the three prefixes |
| Sharded.ShardedOps.PutValue | redisstore/sharded.go:49-52 | value and members hash get one expiry; pointers keep theirs |
| Sharded.ShardedOps.PutByAlias | redisstore/sharded.go:54-60 | record step, then pointer step; if the pointer write fails the record is written all the same and the failure is reported |
| Sharded.ShardedOps.RecordPutScript | redisstore/scripts/sharded/record_put.lua:1-7 | the value, at most one members field, one expiry for both |
| Sharded.ShardedOps.GetByAlias | redisstore/sharded.go:62-86 | the pointer's target's value if that record's members hash names the alias, otherwise a miss |
| Sharded.ShardedOps.GetValidateScript | redisstore/scripts/sharded/record_get_validate.lua:1-4 | the atomic validate-on-read step |
| Sharded.ShardedOps.EvictByPrimary | redisstore/sharded.go:88-104 | the record goes, and of the pointers it named exactly those that still target it |
| Sharded.ShardedOps.RecordEvictScript | redisstore/scripts/sharded/record_evict.lua:1-4 | deletes value and members and returns the members as they were |
| Sharded.ShardedOps.PointerCDelScript | redisstore/scripts/sharded/pointer_cdel.lua:1-4 | deletes the pointer only if it still targets that primary |
| Sharded.ShardedOps.EvictByAlias | redisstore/sharded.go:106-115 | evicts whatever record the pointer leads to, without validating it |
| MemStore.MemAliasOps.GetValue | memstore/aliasops.go:31-39 | the live value or a miss |
| MemStore.MemAliasOps.GetByAlias | memstore/aliasops.go:79-96 | a hit needs a live pointer, a live members hash that names the alias, and a live value, each at its own clock reading |
| MemStore.MemAliasOps.PutValue | memstore/aliasops.go:41-47 | value written, group refreshed, everything else in both maps unchanged |
| MemStore.MemAliasOps.PutByAlias | memstore/aliasops.go:49-77 | value written, replaced pointer dropped, alias stolen from its former owner, pointer and field set, group refreshed; everything else unchanged |
| MemStore.MemAliasOps.RefreshGroupLocked | memstore/aliasops.go:145-159 | the members hash and all pointers it names get one expiry, in any map order |
| MemStore.MemAliasOps.EvictLocked | memstore/aliasops.go:161-170 | value, members hash and every named pointer removed, in any map order |
| MemStore.MemAliasOps.EvictByPrimary | memstore/aliasops.go:98-103 | one record's cascade and nothing else |
| MemStore.MemAliasOps.EvictByAlias | memstore/aliasops.go:130-139 | the cascade from the pointer's target, expired or not |
| MemStore.MemAliasOps.EvictByPrimaryPrefix | memstore/aliasops.go:109-128 | afterwards no value, members hash or pointer of a primary with the prefix remains, everything else does, and the answer is the number of such primaries with a value or only a members hash, for every map iteration order |
| RecordTable.PutByAliasOwns | memstore/aliasops.go:56-74 | after a put by alias exactly the written record owns the alias, it owns nothing else in that field, and every other ownership stands |
| RecordTable.PutByAliasOneOwner | memstore/aliasops.go:61-68 | an alias never has two owners |
| AliasInverse.LinkInverse | redisstore/scripts/colocated/put.lua:8-20 | replacing and stealing keep members and pointers inverse of each other |
| AliasInverse.LinkMembers | memstore/aliasops.go:54-74 | who names which alias after it moved, for every primary and alias |
| TableRefinement.PutByAliasCarries | memstore/aliasops.go:49-77 | a put by alias on the index is a put by alias on the record table |
| TableRefinement.PutValueCarries | memstore/aliasops.go:41-47 | a put by primary on the index is one on the table |
| TableRefinement.EvictCarries | memstore/aliasops.go:161-170 | a cascade on the index removes exactly that record from the table |
| TableRefinement.CarriesOneOwner | memstore/aliasops.go:61-68 | inverse indexes mean one owner per alias |
| TableRefinement.PointerOwner | redisstore/scripts/colocated/get.lua:1-5 | the pointer map answers who owns an alias |
| Lifetimes.PutByAliasLifetime | memstore/aliasops.go:145-159 | after a put by alias the group shares one expiry, no earlier than its value's; with one clock reading the value shares it too |
| Lifetimes.EvictLifetime | memstore/aliasops.go:161-170 | evictions keep the group lifetimes |
| ColocatedRefinement.EveryRunAgrees | redisstore/scripts/colocated/put.lua:6-34 | in every run of puts and of evictions by primary, by alias and by prefix, the colocated indexes carry the record table, and value, members and pointers of a record always expire together |
| ColocatedRefinement.EveryReadAgrees | redisstore/scripts/colocated/get.lua:1-5 | at every time in every run, each read by key and by alias answers what the record table answers, expiry included |
| ColocatedRefinement.ValidationIsRedundant | redisstore/scripts/colocated/get.lua:1-5 | in every reachable state the unvalidated read equals a read that also checks the members hash |
| MemRefinement.EveryRunAgrees | memstore/aliasops.go:41-170 | in every such run, bulk evictions included, the two maps carry the table in which expired records are only hidden, pointers and members invert each other, and every group has one lifetime |
| MemRefinement.AliasReadIsOwnerRead | memstore/aliasops.go:79-96 | a read by alias hits exactly when the pointer is stored and a read of its owner by key hits |
| MemRefinement.EveryReadAgrees | memstore/aliasops.go:31-96 | every read after every run answers what that table answers |
| ShardedRefinement.EveryRunWithin | redisstore/sharded.go:49-115 | in every run whose evictions by alias take the record the alias belongs to, in particular in every run without any, what the sharded index serves is what the record table holds, and every owned alias is in its members hash and its pointer, if still there, leads to its owner |
| ShardedRefinement.RightEvictionIff | redisstore/sharded.go:106-115 | a sharded eviction by alias keeps that agreement exactly when the pointer's target, if it has a value, names the alias, and otherwise nobody owns it |
| ShardedRefinement.EvictMatchingWithin | redisstore/sharded.go:119-121 | a sweep by prefix removes exactly the matching records for every validated reader |
| ShardedRefinement.PutWithin | redisstore/sharded.go:54-60 | a put by alias without replacing or stealing still moves the alias for every validated reader |
| ShardedRefinement.EvictWithin | redisstore/sharded.go:88-104 | an eviction removes exactly that record for every validated reader |
| Equivalence.ThreeWay | alias.go:45-52 | started empty and given one run in which nothing expires and evictions by alias use aliases that resolve, the three strategies answer every read by key and by alias alike |
| Equivalence.ShardedHitsAreColocatedHits | redisstore/sharded.go:49-60 | with any TTLs, every sharded alias hit is a colocated hit with the same bytes, reads by key always agree, and sharded misses a colocated hit exactly when the pointer has run out |
| PointerHistory.OwnedPointersLive | redisstore/scripts/sharded/record_put.lua:6 | in every run an owned alias's sharded pointer carries the expiry of its last registration and is gone only once that has passed |
| PointerHistory.ShardedDiffersIff | redisstore/sharded.go:49-60 | a sharded alias read differs from the colocated one exactly when the alias has an owner but the TTL of its last registration has run out |
| Revival.CommutesIff | memstore/aliasops.go:145-159 | hiding expired records and dropping them come to the same over an operation exactly when it is no put to an expired record that still has aliases besides the one it registers |
| Revival.RevivalIsServed | memstore/aliasops.go:79-96 | every such put makes an alias that one serves and the other misses |
| TimedAgreement.AlikeIffClocksAgree | memstore/aliasops.go:172-188 | in every timed run, any TTLs and nanosecond times, with no revival and the clocks agreeing at its calls, memstore and colocated answer every read at a later time alike exactly when both clocks agree on which of the records held have expired |
| TimedAgreement.UnrevivedRunsAgree | memstore/aliasops.go:31-170 | the half of it a caller uses: every read at that time is answered alike |
| TimedAgreement.AgreeThroughoutIff | memstore/aliasops.go:145-188 | for every timed run, the two answer every read alike right before and right after every call exactly when no put revives the aliases of an expired record and the nanosecond and millisecond clocks agree, at each call, on which of the records held have expired |
| TimedAgreement.SameLifeOutsideWindow | redisstore/colocated.go:58 | the clocks agree on what a put stored unless its TTL is positive but below a millisecond, or the time is within two milliseconds before its expiry or one after it |
| TimedAgreement.SameLivesFromCalls | redisstore/colocated.go:55-62 | the clocks agree on the records held when they agree on what every put of the run stored |
| TimedAgreement.TimedThreeWay | alias.go:45-52 | in such runs all three strategies agree by key, and by alias too but exactly where the TTL of the alias's last registration has run out in sharded |
| Clients.RunColocated | redisstore/colocated.go:39-93 | making a whole run's calls on the colocated class and reading once gives the record table's answers |
| Clients.RunMem | memstore/aliasops.go:31-170 | the same for the in-memory class and the lasting table |
| Clients.AllThree | alias.go:45-52 | the same calls on all three classes, key strings and clock units included, return equal answers |
| Differences.ShardedEvictByAliasIsRightIff | redisstore/sharded.go:106-115 | after any run whose evictions by alias were right so far, finite TTLs included, one more does what the table means exactly when the pointer's target, if it has a value, names the alias in its members hash, and otherwise (no pointer, or one to no record) nobody owns the alias |
| Differences.StaleAliasEvictsOnlyInSharded | redisstore/sharded.go:106-115 | a run in which a replaced alias evicts the record in sharded and not in colocated |
| Differences.OutlivedAliasEvictsOnlyInColocated | redisstore/sharded.go:106-111 | a run in which an alias whose pointer ran out before its record evicts in colocated and not in sharded |
| Differences.ShardedMissesOutlivedAlias | redisstore/scripts/sharded/record_put.lua:6 | a run in which sharded misses by alias where colocated, which refreshed the pointer, hits |
| Differences.MemRevivesExpiredAlias | memstore/aliasops.go:145-159 | a run after which memstore serves an expired alias again and Redis does not |
| ShardedHistory.ReadsAreNeverWrong | redisstore/sharded.go:62-86 | in every interleaving a hit through a primary returns the last value written to it, and its alias is the last one registered for that field, with the record there ever since |
| ShardedHistory.EveryRunRemembers | redisstore/scripts/sharded/record_put.lua:1-7 | in every interleaving each stored value is the last one written and each members field the last one registered while the record was there |
| ShardedLifetimes.ValueReadIff | redisstore/sharded.go:45-52 | in every interleaving a read by key hits exactly while the record was written, not evicted since, and the TTL of its last write has not run out on the clock, and serves that write |
| ShardedLifetimes.ValidateStepIff | redisstore/scripts/sharded/record_get_validate.lua:1-4 | a validate step hits exactly under the same condition when the alias is the one last registered for its field in the record's present life |
| ShardedLifetimes.EveryValueIs | redisstore/scripts/sharded/record_put.lua:1-7 | the stored value and its expiry are those of the last write: its clock reading plus its TTL, or none for a TTL that is not positive |
| ShardedLifetimes.EveryMemberIs | redisstore/scripts/sharded/record_put.lua:1-7 | the members hash names exactly the aliases last registered in the record's present life |
| ShardedProtocol.NobodyWaits | redisstore/sharded.go:49-115 | in every state each client can begin any operation or take its next step, each step can fail, and time can pass |
| ShardedEviction.EvictionTakesEffectAtOnce | redisstore/scripts/sharded/record_evict.lua:1-4 | from the record-evict step until the next record-put, every read by key and every validate step misses, whatever clean-ups fail or come late |
| ShardedStability.PutByAliasMakesReachable | redisstore/sharded.go:54-60 | once both steps of a put by alias are done the alias is reachable, whatever quiet steps came between them |
| ShardedStability.QuietRunKeeps | redisstore/sharded.go:88-104 | writes and evictions of other primaries, the former owner included, never make a reachable alias unreachable |
| ShardedStability.BegunReadsHit | redisstore/sharded.go:62-86 | every read by alias begun while it is reachable hits the record's current value, whatever quiet steps run before or inside it |
| ShardedStability.RegisteredAliasIsServed | redisstore/sharded.go:54-86 | from registration to read: a put by alias beside quiet steps, further quiet steps, then a read by alias beside yet others hits the record's current value |
| ShardedStability.PointerLossCauses | redisstore/scripts/sharded/pointer_cdel.lua:1-4 | a step takes a pointer away from a primary exactly when it re-points the alias, compare-and-deletes it for that primary, or lets it expire |
| ShardedStability.LateCleanUpDropsFreshPointer | redisstore/sharded.go:98-102 | an interleaving in which an eviction's late clean-up drops a newer registration's pointer: the alias misses, the value stays right |
| ShardedStability.SurvivesQuietRunsIff | redisstore/sharded.go:98-102 | from every state, an alias that is in place stays in place through every quiet run exactly when no clean-up of its pointer is pending |
| ShardedStability.AlonePutByAlias | redisstore/sharded.go:54-60 | undisturbed, the protocol's put steps compute what the sequential operation computes |
| ShardedStability.AloneGet | redisstore/sharded.go:62-86 | undisturbed, the protocol's two read steps answer what the sequential read answers and change nothing |
| ShardedStability.AloneEvictByAlias | redisstore/sharded.go:106-115 | undisturbed, an eviction by alias follows its pointer and computes what the sequential operation computes |
| ShardedStability.AloneEvict | redisstore/sharded.go:88-104 | undisturbed, the protocol's eviction steps compute what the sequential operation computes |
| SortedStrings.Sorted | redisstore/prefix.go:54 | a strictly ascending list of exactly the set's elements |
| SortedStrings.LessIs | redisstore/prefix.go:54 | the order is the dictionary order: a proper prefix first, otherwise the first difference decides |
| PrefixEviction.CollectValues | redisstore/prefix.go:32-46 | exactly the primaries with the prefix whose value key was scanned, for any paging and duplication |
| PrefixEviction.EvictByPrimaryPrefix | redisstore/prefix.go:20-62 | a failed scan evicts nothing; otherwise, but for the primaries whose eviction failed, no value or members hash with the prefix remains, nor a pointer these records named (sharded: named and still targeting them), everything else does, and count plus failures is the number of primaries with the prefix and a value or members key |
| Clients.Sweep | redisstore/prefix.go:20-62 | on scanned key strings, a bulk eviction without failures evicts all matching records at once, in both Redis strategies |
| BulkIndex.EvictAllIsExact | memstore/aliasops.go:109-128 | exactly the given records go, with all their aliases; every other record keeps value, members and pointers |
| BulkIndex.SecondCallFindsNothing | memstore/aliasops.go:109-128 | a second bulk eviction with the same prefix finds nothing |
| BulkIndex.EvictMatchingCarries | memstore/aliasops.go:109-128 | a bulk eviction on the index removes exactly the table's records whose primary has the prefix |
| BulkIndex.EvictAllLifetime | memstore/aliasops.go:109-128 | the records that stay keep their group lifetimes |
| BulkIndex.EvictAllClears | memstore/aliasops.go:109-128 | evicting all matches but the failing ones clears them, their members-only records and the pointers they named, and keeps all else |
| Sharded.EvictRecordsClears | redisstore/prefix.go:54-61 | the same for sharded evictions, of the pointers that still target their record |
| BulkEviction.InTurnIsAtOnce | redisstore/prefix.go:54-61 | colocated cascades one after another equal one eviction of all the records that did not fail |
| BulkEviction.ShardedInTurn | redisstore/prefix.go:54-61 | so do sharded cascades, each taking the pointers that still target its record |
| BulkEviction.SweepIsAtOnce | redisstore/prefix.go:20-62 | a sweep without failures takes exactly the matching records, and another sweep finds nothing, in either strategy |
| PlainStore.MemPlainOps.Get | memstore/memstore.go:54-72 | the live value or a miss; a miss on an expired entry removes that entry only |
| PlainStore.MemPlainOps.DeleteByPrefix | memstore/memstore.go:97-111 | removes exactly the entries with the prefix and counts exactly those unexpired at the reading taken for each, for every map order |
| PlainStore.MemPlainOps.GetMany | memstore/memstore.go:129-143 | returns exactly the requested keys that are live at a reading taken for them, and no key reads differently afterwards |
| PlainStore.EvictByKeyPrefix | cache.go:336-363 | over a plain memstore cache: refuses the empty prefix and any prefix with a star, otherwise deletes under the namespaced prefix |
| PlainStore.DeletesOneCachesKeys | cache.go:361 | a plain prefix eviction takes exactly that cache's keys with the logical prefix, no other namespace's and nothing of an alias group |
| RedisPlain.DeleteByPrefix | redisstore/redisstore.go:111-133 | deletes exactly the scanned keys whose DEL succeeds and counts each once however often it is scanned; a complete scan takes every key with the prefix but the failed ones |
| LazyExpiry.DeletePhaseIsSafe | memstore/memstore.go:61-67 | in every interleaving of reads, writes and deletions on a monotone clock, a delete phase removes no unexpired entry |
| LazyExpiry.LazyExpiryIsInvisible | memstore/memstore.go:54-72 | at every point of every interleaving each key reads as if reads never removed anything |
| LazyExpiry.HitsWereStored | memstore/memstore.go:54-72 | a read answers what the key held when it was looked up, as far as that is unexpired at the check |
| LazyExpiry.ReadIff | memstore/memstore.go:54-111 | at every point of every interleaving a key reads as the Set that last took effect on it, until a deletion or until its TTL, counted from that Set's own clock reading, has run out |
| CacheOps.Cache.GetByKey | cache.go:166-254 | a hit or marker is served without the loader; a miss runs it once, writes what the outcome says and counts one request unless the load failed |
| CacheOps.Cache.DedupKeys | cache.go:397-408 | the loop keeps each key at its first occurrence |
| CacheOps.Cache.ReadManyRaw | cache.go:413-438 | the one-call path, translated back through the storage keys, and the per-key path find the same bytes for every key |
| CacheOps.Cache.SplitHitsAndMisses | cache.go:442-463 | hits by value, negative hits counted, absent and unreadable entries listed as misses in order |
| CacheOps.Cache.PopulateLoaded | cache.go:469-496 | every missing key is answered, written and counted as found, or marked not found |
| CacheOps.Cache.GetManyByKey | cache.go:371-394 | the loader is called at most once, with the misses; a failed load changes nothing stored |
| BatchAgreement.AnswersAgreeIff | cache.go:413-438 | whatever the loader finds, a batch answers as GetByKey over the distinct keys exactly when the batch read and the single reads find every key alike |
| BatchAgreement.ReadsAgreeWithoutBatchErrors | cache.go:415-437 | they do unless reads of a plain cache over a batch store fail: everywhere else reads may fail |
| BatchAgreement.FailedBatchReadDiffers | cache.go:423-426 | an input on which they do not: the one-call read fails, GetByKey serves the value, the batch loads it and writes the not-found marker over it |
| BatchAgreement.BatchWritesOneByOne | cache.go:469-496 | where the reads agree, a batch issues the same writes in the same order as GetByKey over the distinct keys |
| BatchAgreement.BatchAnswersOneByOne | cache.go:371-394 | and returns the same value for each of them |
| BatchAgreement.BatchCountsOneByOneIff | cache.go:488-495 | and counts the same outcomes exactly when no not-found marker failed to be stored |
| BatchAgreement.LoaderGetsTheMisses | cache.go:380-386 | the loader is asked for exactly the distinct keys the store does not serve, in the order they were first requested |
| BatchClients.BatchBesideSingles | cache.go:371-496 | on two caches over equal stores, one batch and one GetByKey per distinct key leave equal stores after equal writes and return equal values; the counters agree exactly when every not-found marker was stored, and the batch calls its loader at most once |
| BatchAgreement.NilLoadsAgreeIff | cache.go:212-214 | a nil value without an error is stored and counted alike by both exactly without negative caching |
| BatchAgreement.EveryKeyMeteredOnce | cache.go:442-496 | on success every distinct key is counted once, whichever reads and writes fail |
| BatchAgreement.BatchThenLook | cache.go:469-496 | after a batch, at every later time, a loaded key finds its value exactly while the TTL given to values lasts, its marker exactly while the one given to markers does, and misses if it could not be stored |
| BatchAgreement.PutThenLook | cache.go:202-226 | the same after GetByKey |
| BatchAgreement.CountedAsCachedIff | cache.go:216-254 | a load is counted as loaded and cached exactly when the next read would serve it; a not-found always is alone, and in a batch unless its marker is wanted and missing |
| BatchAgreement.HitsCounted | cache.go:442-463 | hits and negative hits are the numbers of distinct keys whose value, or whose marker, the batch read found |
| ReadThrough.LookIs | cache.go:166-184 | a read serves the readable, unexpired bytes that are stored; only a stored marker is a known miss; unreadable bytes are a miss |
| CacheLifetimes.BatchPutsAreDrawn | cache.go:144-155 | every write of a read-through carries a TTL drawn for what it writes: from TTL for a value, from NegativeTTL for a marker, which is the premise of the staleness bounds |
| CacheLifetimes.EveryHitIsFresh | cache.go:144-155 | after any reads, writes and evictions by key, failures included, a served value is what the last call to store the key got from the source of truth, at most TTL ago, and a negative hit a not-found at most NegativeTTL old |
| AliasCache.AliasGroupCache.GetByAlias | alias_cache.go:30-100 | over the memstore, colocated or sharded class itself: a hit is served without the loader; a miss runs it once and rebuilds the group under the value's own key and the cache's TTL when there is one; a sharded rebuild may fail between record and pointer |
| AliasCache.Handle.PutByAlias | redisstore/sharded.go:54-60 | the three classes write what the strategy's specification says; a failed sharded pointer write leaves the record written and is reported |
| AliasCache.Handle.GetByAlias | alias_cache.go:34 | the three classes answer what the strategy's specification says: sharded validates, colocated does not |
| AliasAgreement.LookAgrees | alias_cache.go:34-45 | on an index that agrees with the record table, the cache finds what the table answers by alias, in all three strategies, unless the read fails or a sharded pointer has run out |
| AliasAgreement.ServedAliasIsNamed | alias_cache.go:34-45 | a served value is that of a record whose own members name the alias, so a stale alias is never served |
| AliasAgreement.FetchAgrees | alias_cache.go:67-78 | after a miss is loaded, the index agrees with the table in which the alias has moved to the loaded record under the cache's TTL, every other record included; or, if the sharded pointer write failed, in which that record is written without it |
| AliasAgreement.EveryRunServes | alias_cache.go:30-100 | both hold at every time after every run of group calls (sharded: with right evictions by alias) |
| AliasCache.MissesAgainIff | alias_cache.go:50-80 | in all three strategies the next read of the alias misses again exactly when reading the alias fails, the loaded value could not be stored, or its pointer could not and none led to it before; otherwise it serves that value, and a stored value is served by its primary |
| AliasCache.CountedAsCachedIff | alias_cache.go:75-100 | a load by alias is counted as cached exactly when the next read serves it through what was written |
| AliasCache.WriteValueSetsOneValue | alias_cache.go:12-17 | in all three strategies a group's values change under PutValue as a plain store's do |
| Jitter.JitteredRange | jitter.go:23-29 | a jittered TTL lies in [(1-fraction)*base, base] and is positive |
| Jitter.DrawnIff | jitter.go:23-29 | exactly the whole TTLs from the lowest one to the base can be drawn |
| Jitter.NeverZeroMillisIff | redisstore/colocated.go:58 | no draw truncates to 0 ms exactly when the lowest possible draw is at least a millisecond |
| Staleness.MemValueIsFresh | cache.go:144-155 | in every memstore run a hit by key is the last value put there, at most its configured TTL ago |
| Staleness.MemAliasIsFresh | memstore/aliasops.go:79-96 | so is a hit by alias, for the alias's owner |
| Staleness.ColocatedValueIsFresh | redisstore/colocated.go:55-62 | the same bound on Redis's millisecond clock, when no draw truncates to 0 |
| Staleness.ColocatedAliasIsFresh | redisstore/scripts/colocated/put.lua:22-34 | and for colocated hits by alias |
| Staleness.BoundedIff | redisstore/colocated.go:55-62 | colocated staleness, by key and by alias, is bounded by the configured TTL in every run the settings can produce exactly when no draw truncates to 0 ms |
| Staleness.TruncatedTtlNeverExpires | redisstore/colocated.go:58 | a TTL below a millisecond is stored without expiry: the value is served at every later time |

## Left out

- Differences the code has and the model keeps: memstore keeps expired records and a later put brings their aliases back; sharded `PutValue` extends no pointer; a sharded eviction by alias follows stale pointers; a late clean-up may drop a fresh pointer. Each has a row above.
- Time between the steps of one sharded call: sequential runs take each call at one instant; the interleaved protocol lets the clock move between steps.
- Failed Redis calls in sequential runs: a failed script counts as not executed. The protocol model lets a pointer write, a clean-up or a whole client fail between steps, and the read-through by alias lets a sharded put fail between its record and its pointer.
- CacheOps.Cache.GetByKey: one caller; request deduplication is a foreign library's.
- AliasCache.AliasGroupCache.GetByAlias: one caller, for the same reason.
- BatchAgreement.BatchWritesOneByOne: the two TTLs drawn and the clock are fixed during the call, and no load fails; a failed batch load writes nothing, where single loads fail one by one.
- The cached type is a pair of unique key and content, and the codec is the graph of what marshalling and unmarshalling yield.
- CacheLifetimes.EveryHitIsFresh: the store starts empty and only this cache's calls by key change it; a batch is its single reads, as BatchWritesOneByOne says.
- PutByKey, PutAliased, PutValueByKey and the value-derived wrappers: one branch around operations that are modelled; PutByKey's write appears as an event of CacheLifetimes.
- Strings are sequences of characters in place of bytes; Redis's own glob matching covers `\`, `*`, `?` and bracket classes.
- Redis serves a cell up to and including its expiry instant; the Redis clock counts whole milliseconds, memstore's nanoseconds.
- SCAN cursors, cluster routing, `ScanAll`'s locking across nodes and stores that cannot scan: a scan is any paging of the matching keys.
- PlainStore.EvictByKeyPrefix: the plain cache over memstore only; an alias group's prefix eviction is EvictByPrimaryPrefix, which has its own rows; the refusal of stores that cannot scan and the eviction counter are not modelled.
- The defensive copies of stored bytes, telemetry export, registration and option inheritance, the PX or EX choice of the Redis client.
- Floating-point rounding in the jitter: real arithmetic, with the random draw in [0, 1).
