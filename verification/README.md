# VectorHub: a verified model

VectorHub is a sharded, replicated vector store. The service routes every vector id to a shard by a
consistent-hash ring, keeps each shard in its own Redis database, forwards writes to replicas, and answers a
search by merging the best results of all healthy shards. This project models that core in Dafny and proves
what it promises over whole runs. `dafny verify dfyconfig.toml` checks everything.

The code that changes state is modelled as classes whose methods follow the source branch by branch. Each
method is proved to take exactly one step of a pure state machine, and the theorems are about that machine:

| files | what they hold |
|---|---|
| `Vectors`, `Metrics`, `Serialization` | records, distance functions over the reals, byte form of a vector |
| `TopK` | quickselect, exchange sort, and the theory of top-k score lists |
| `Store`, `Adapter` | one Redis database, its commands, and the adapter object over it |
| `ConsistentHash`, `ShardManager` | the ring, the shard layout, routing, health checks |
| `ReplicationLog`, `Replication`, `ReplicationManager` | log, replica table and fan-out as a machine, and the manager object |
| `Service`, `VectorService` | requests as steps over shards, index table and replicas, and the service object |
| `Refinement`, `Invariants`, `Coverage`, `Mirrors`, `Batch`, `BatchDeletes`, `OneByOne`, `Search` | the whole-run theorems |

What the model assumes:

- A call to a shard or a replica is carried out fully or refused; which calls are refused is arbitrary in every
  theorem unless a theorem says otherwise.
- Requests are served one at a time. The goroutines of one parallel batch may interleave in any order
  (`Batch`), and the shards' search answers may arrive in any order (`Search`, `VectorService`).
- Vectors hold finite values and are modelled by reals; scores are totally ordered.
- A Go string is a sequence of bytes; a Dafny character stands for one byte.
- The ring hash is an arbitrary function from strings to 32-bit numbers, so nothing depends on CRC-32. The second
  hash, which picks a shard from a node's list, is the source's polynomial with its 32-bit wrap-around.
- Registrations, promotions, lag checks and late marks may come between any two requests. A mark is late when the role
  check or the refused call behind it came earlier.
- Replica databases are not the shards' own databases. Several shards may share one replica database.
- Timestamps are arbitrary integers; theorems do not need them to increase.

What the proofs found out about the code:

- `vector:<index>:<id>` is not injective. Two index names share vector keys exactly when one continues the other
  after a colon, and the whole-run refinement holds for a set of index names exactly when no two of them do
  (`KeysCollideExactlyWhenNamesClash`, `RefinementNeedsSafeNames`).
- The adapter scores every search with the cosine distance, whatever metric the index declares, and keeps the
  largest scores. What it returns is never more similar to the query than what it leaves out
  (`CosineSearchKeepsTheFarthest`), so it returns the most similar vectors exactly when nothing has to be left out
  or all candidates tie (`NearestOnlyWithoutChoice`); asked for the one best match of a stored vector it returns the
  opposite vector (`ExactMatchIsLeftOut`). The merged response of the service has the same exact condition
  (`ResponseNearestOnlyWithoutChoice`), and a positive minimum score shuts out every vector of the query's own direction
  (`PositiveMinimumDropsMatches`). Every other search theorem is about "the largest scores" of an arbitrary score
  function.
- A searchable vector can have another dimension than its index. No drop breaks this, refused or not; the step that
  does is creating the index again: it keeps the dimensions exactly when the vectors still visible under the name
  have the new dimension (`StepKeepsDimensions`), and a run keeps them throughout exactly when all its creations do
  (`DimensionsHoldExactly`). `RefusedDropBreaksDimensions` is a run that breaks them: create, insert, a drop that the
  shard refuses, create with another dimension.
- An update deletes on the shard first. When the shard then refuses the new value the request returns without
  replicating, and an active replica goes on showing the old vector (`HalfDoneUpdateLeavesReplica`). Primaries get no
  writes, so a primary that a promotion demotes becomes an active secondary without the data
  (`DemotedPrimaryLacksData`). Active secondaries hold everything their shard shows, throughout a run, exactly when
  every registration and promotion finds a store that covers the shard (`ReplicaCoverage`); they show exactly the same
  exactly when those stores are exact and no such update, no drop and no delete that a replica refuses hides a vector
  (`ReplicasAreExact`).
- Removing a node moves other nodes' keys exactly when, clockwise from some point it shares with another node, the
  first point not its own is missing or belongs to a third node (`RemovalMovesOnlyOwnKeys`,
  `RemovalMovesForeignKey`), and removing undoes adding exactly when none of the node's points was on the ring
  before (`AddThenRemove`).
- Promoting the current primary demotes it while it stays named as primary (`PromotingThePrimaryDemotesIt`), and a second
  primary is accepted beside the first (`SecondPrimaryIsAccepted`); in every run one primary per shard is kept exactly
  when neither happens (`RunKeepsAgreement`).
- The lag check reads a role and marks later, and a fan-out reads it before a call and marks after it. With a promotion
  in between, the new primary is marked failed (`MarkAfterPromotionFailsThePrimary`). A mark fails a primary exactly
  when it hits the named one (`MarkKeepsPrimaries`), which takes a promotion of that very replica after the read
  (`LateMarkWithoutPromotion`); in every run, late marks included, primaries stay active exactly when no mark hits a
  named primary, primaries are registered active, and one primary per shard is kept (`RunKeepsPrimaries`).
- A batch delete leaves ids listed, so the total that statistics report can exceed what can be found
  (`BatchDeleteBreaksCount`). The totals are exact throughout a run exactly when no batch delete reaches a shard with a
  searchable id of the batch (`CountsAreExact`).
- A drop leaves vector keys, so Get returns vectors of a dropped index (`DropLeavesVectorToGet`). Get agrees with the
  searches throughout a run exactly when no drop reaches a shard with a searchable vector of the index
  (`GetsAreExact`).

## Model

| member | source | states |
|---|---|---|
| TopK.PartitionResults | internal/storage/helpers.go:21-32 | permutes only the given range and leaves strictly larger scores before the pivot, no larger ones after it |
| TopK.QuickSelectResults | internal/storage/helpers.go:3-19 | terminates for every k, permutes its input, and for 0 <= k every entry before k scores at least as much as every entry from k on |
| TopK.BestToFront | internal/storage/helpers.go:36-41 | the inner loop brings the largest remaining score to position i and keeps the finished front |
| TopK.SortResultsByScore | internal/storage/helpers.go:34-42 | the swap-while-scanning sort permutes the slice into descending order of score |
| TopK.TopKIsSortThenTruncate | internal/storage/helpers.go:3-42 | being top-k (descending, and at every threshold as many entries as all have, capped at k) is the same as sorting everything and cutting at k |
| TopK.DistributedTopKIsExact | internal/server/vector_service.go:274-315 | for any number of shards and any arrival order, cutting each shard's list to its k best, merging and cutting again gives the k best of everything |
| TopK.MinScoreCommutesWithTruncation | internal/server/vector_service.go:310-339 | dropping low scores after taking the k best gives the k best of the scores that reach the bound |
| Adapter.SelectedIsTopK | internal/storage/redis_adapter.go:357-364 | an array split at k, cut and sorted holds exactly the k best scores of the input |
| Adapter.KeepBest | internal/storage/redis_adapter.go:357-364 | select, truncate and sort keep a sub-multiset of the results whose scores are the k best |
| Adapter.MatchesFilter | internal/storage/redis_adapter.go:336-347 | the filter loop accepts exactly when every filter key has its value in the metadata, a missing key reading as the empty string |
| Adapter.RedisAdapter.StoreVector | internal/storage/redis_adapter.go:96-124 | vector key and id-set entry are written together, or nothing when the call is refused |
| Adapter.RedisAdapter.BatchStoreVectors | internal/storage/redis_adapter.go:141-172 | the pipeline stores the vectors in order, all or none |
| Adapter.RedisAdapter.GetVector | internal/storage/redis_adapter.go:202-217 | returns the value under the vector key, whether or not the id is listed |
| Adapter.RedisAdapter.DeleteVector | internal/storage/redis_adapter.go:234-243 | removes vector key and id-set entry; an id set that becomes empty disappears |
| Adapter.RedisAdapter.BatchDeleteVectors | internal/storage/redis_adapter.go:245-265 | removes the vector keys only and reports the number of ids asked for |
| Adapter.RedisAdapter.GetAllVectorIds | internal/storage/redis_adapter.go:267-273 | every listed id once, newest timestamp first |
| Adapter.RedisAdapter.DropIndex | internal/storage/redis_adapter.go:289-297 | removes the id set only; the vector keys stay |
| Adapter.RedisAdapter.CollectHits | internal/storage/redis_adapter.go:327-355 | the scan yields exactly the listed ids whose key is present and whose metadata matches, in order, with their scores |
| Adapter.RedisAdapter.SearchVectors | internal/storage/redis_adapter.go:317-365 | the results are hits of the database (listed, key present, filter passed; each at most once) and their scores are the k best of all hits |
| Store.KeysCollideExactlyWhenNamesClash | internal/storage/redis_adapter.go:101-107 | vector keys of two different indexes can be equal if and only if one name continues the other after a colon |
| Store.StoreAllEffect | internal/storage/redis_adapter.go:141-172 | after a batch store each id of the index has its last vector and that vector's timestamp; every other id and index is as before |
| Store.DeleteOneEffect | internal/storage/redis_adapter.go:234-243 | a delete removes key and listing of its id and nothing else |
| Store.DeleteManyEffect | internal/storage/redis_adapter.go:245-265 | a batch delete removes exactly the keys of its ids and leaves every listing alone |
| Store.DropIdsEffect | internal/storage/redis_adapter.go:289-297 | a drop empties the listing of its index and leaves every vector key alone |
| Store.VisibleAfterWrite | internal/storage/redis_adapter.go:96-297 | what a search can see after any write command is determined by what it could see before: ids left by batch deletes and keys left by drops never resurface |
| ConsistentHash.HashRing.AddNode | internal/shard/consistent_hash.go:29-43 | the loop claims every point of the node, also points held by others, and the key list is the ascending arrangement of old and new points |
| ConsistentHash.AddClaimsHashes | internal/shard/consistent_hash.go:33-38 | after adding a node exactly the hashes of its name, '#' and a decimal numeral below the number of virtual nodes are its, and every other point is as before |
| ConsistentHash.NodeHasAllItsPoints | internal/shard/consistent_hash.go:33-38 | with a hash that keeps those texts apart, a node on an empty ring holds exactly as many points as it has virtual nodes |
| ConsistentHash.DecimalReads | internal/shard/consistent_hash.go:34 | the text of a number is a numeral without leading zeros, and reading it gives the number |
| ConsistentHash.HashRing.RemoveNode | internal/shard/consistent_hash.go:45-63 | removes the node's points from the map and keeps exactly the keys still mapped, in order |
| ConsistentHash.HashRing.GetNode | internal/shard/consistent_hash.go:65-83 | the binary search with wrap-around returns the node whose point comes first clockwise from the key's hash, never out of range; an error exactly on an empty ring |
| ConsistentHash.RingInvariant | internal/shard/consistent_hash.go:29-63 | after any run of adds and removes the key list is sorted, its set is the map's key set, every point belongs to its node, and only live nodes own points |
| ConsistentHash.SuccessorWrapsAround | internal/shard/consistent_hash.go:73-82 | first clockwise means the least point at or above the hash, or the least point of all if there is none |
| ConsistentHash.GrowthIsMonotone | internal/shard/consistent_hash.go:29-43 | after adding a node every key keeps its owner or moves to the new node, with duplicate and colliding points allowed |
| ConsistentHash.RemovalMovesOnlyOwnKeys | internal/shard/consistent_hash.go:45-63 | removing a node changes only the owners of its own keys if and only if, on the ring before, clockwise from each point it shares with another node the first point that is not one of its own exists and belongs to that other node |
| ConsistentHash.RemovalMovesForeignKey | internal/shard/consistent_hash.go:45-63 | nodes a and b collide at point 5, c holds point 7: removing a hands a key of b to c |
| ConsistentHash.CollidingRingIsReached | internal/shard/consistent_hash.go:29-43 | that ring is what three additions to an empty ring build |
| ConsistentHash.RemovalWithoutSharedPoints | internal/shard/consistent_hash.go:45-63 | without shared points removing a node changes only the owners of its own keys |
| ConsistentHash.AddThenRemove | internal/shard/consistent_hash.go:29-63 | adding and then removing a node restores the map and the exact key list if and only if none of its points was on the ring |
| ShardManager.Crc32Hash | internal/shard/manager.go:278-284 | the accumulator that wraps at every step equals the unbounded polynomial of the key modulo 2^32 |
| ShardManager.PolynomialIsSum | internal/shard/manager.go:278-284 | that polynomial is the sum over the positions of each byte times 31 to the power of its distance from the end |
| ShardManager.RoutePicksExactly | internal/shard/manager.go:111-119 | on any layout, a key owned by a node with n shards goes to entry j of the node's list if and only if that sum modulo 2^32 modulo n is j |
| ShardManager.OneByteRoute | internal/shard/manager.go:116-119 | a key of one byte goes to the entry whose position is the byte modulo the length of the list |
| ShardManager.RoutingInClosedForm | internal/shard/manager.go:60-120 | with the shards placed round-robin over m distinct addresses, a key owned by address j goes to shard j + p * m, where p is that sum modulo 2^32 modulo the number of shards of the address |
| ShardManager.EveryShardIsReached | internal/shard/manager.go:116-119 | with one address and at most 256 shards the key of the single byte s goes to shard s |
| ShardManager.AssignedPartitions | internal/shard/manager.go:60-77 | the node lists partition the shard numbers: each number is in exactly the list of its own address |
| ShardManager.AssignedIncreasing | internal/shard/manager.go:60-77 | each list is strictly increasing, so no shard is listed twice even when an address is added again |
| ShardManager.PlacementBalanced | internal/shard/manager.go:60-62 | with distinct addresses the j-th node gets n/m shards, one more for the first n mod m nodes |
| ShardManager.PlacementStarts | internal/shard/manager.go:60-62 | the first shards are placed in the order of the addresses |
| ShardManager.PlacementRepeats | internal/shard/manager.go:60-62 | after one round of the addresses the placement repeats |
| ShardManager.AssignedProgression | internal/shard/manager.go:60-77 | with m distinct addresses the list of the j-th is j, j + m, j + 2m, and so on |
| ShardManager.OwnerIsPlaced | internal/shard/manager.go:60-62 | on the initial ring the owner of any hash is the address of some shard |
| ShardManager.RoutingIsTotal | internal/shard/manager.go:102-120 | every key reaches a valid shard, placed on the node that owns the key |
| ShardManager.HealthNeverReroutes | internal/shard/manager.go:182-211 | no run of health checks changes the shard of any key, and every active shard has an adapter throughout |
| ShardManager.Manager.constructor | internal/shard/manager.go:46-100 | builds the ring, lists, records and empty databases of the round-robin placement; shards that cannot connect have status error and no adapter |
| ShardManager.Manager.InitialState | internal/shard/manager.go:46-100 | the constructed object is the initial state of the machine: active shards have adapters and empty databases |
| ShardManager.Manager.GetShardForKey | internal/shard/manager.go:102-120 | ring owner, then hash modulo that node's list; an error when the ring is empty or the node has no shards |
| ShardManager.Manager.GetShardAdapter | internal/shard/manager.go:122-137 | returns the shard's adapter exactly for active shards that have one |
| ShardManager.Manager.GetHealthyShards | internal/shard/manager.go:152-165 | the active shards, which are exactly those whose adapter lookup succeeds |
| ShardManager.Manager.PerformHealthCheck | internal/shard/manager.go:182-211 | every shard's status becomes no_adapter, active or unhealthy from its adapter and its answer; nothing else changes |
| ShardManager.CheckedShardsUsable | internal/shard/manager.go:182-211 | after a check the usable shards are exactly the connected ones that answered |
| ShardManager.LatestCheckDecides | internal/shard/manager.go:182-211 | after any checks a shard is active, unhealthy or without adapter according to its connection and its answer to the latest check alone |
| ShardManager.UnreachableShard | internal/shard/manager.go:78-95 | a shard that cannot connect starts in error, has no adapter after the first check, and is never active |
| ReplicationLog.Log.LogReplication | internal/replication/manager.go:436-453 | appends one entry; beyond 10000 entries the oldest 5000 go |
| ReplicationLog.Log.GetReplicationLog | internal/replication/manager.go:455-468 | exactly the last limit entries in order, all of them for a limit that is not positive or too large |
| ReplicationLog.LogIsRecentSuffix | internal/replication/manager.go:436-453 | over any run the log is the most recent suffix of the full history, of a length given exactly, never above 10000 and at least min(total, 5001) |
| ReplicationLog.RetainedIs | internal/replication/manager.go:436-453 | the length of the log after n entries in closed form: n up to 10000, then 5001 plus a remainder modulo 5000 |
| ReplicationManager.Manager.MarkReplicaFailed | internal/replication/manager.go:398-416 | the first replica with the address gets status failed; every other record and every store is unchanged |
| ReplicationManager.Manager.UpdateReplicaSync | internal/replication/manager.go:418-434 | only the sync time of the first replica with the address changes |
| ReplicationManager.Manager.RegisterReplica | internal/replication/manager.go:76-115 | refuses a duplicate address or an unreachable node, else appends the node, sets the address's adapter, and names a primary |
| ReplicationManager.Manager.DeliverTo | internal/replication/manager.go:131-159 | one goroutine: an active secondary with an adapter receives the command; a refused store marks it failed, a refused delete is only logged |
| ReplicationManager.Manager.Replicate | internal/replication/manager.go:117-289 | insert, batch, update, delete and batch-delete fan-out equal the machine's fan-out over the shard's replicas |
| ReplicationManager.Manager.PromoteReplica | internal/replication/manager.go:291-334 | fails without change for an unknown shard, unknown or inactive replica; else swaps the roles and names the new primary, with the source's order of the two address tests |
| ReplicationManager.Manager.CheckReplicaHealth | internal/replication/manager.go:369-396 | exactly the non-primary replicas whose lag exceeds both limits become failed |
| Replication.PromoteKeepsAgreement | internal/replication/manager.go:291-334 | a promotion keeps "one primary, the named one" in every shard if and only if the shard is unknown, the address is unknown or its replica inactive, or the address is not the current primary |
| Replication.PromotingThePrimaryDemotesIt | internal/replication/manager.go:291-334 | after registering a primary and promoting it the shard has only a secondary, which is named as primary |
| Replication.RegisterKeepsAgreement | internal/replication/manager.go:76-115 | a registration keeps it if and only if it does not bring a reachable primary with a new address to a shard that already names one |
| Replication.RegisterEffect | internal/replication/manager.go:76-115 | a registration that goes through appends the node, sets its address's database and names a primary; a refused one leaves the shard with a list; nothing else changes |
| Replication.SecondPrimaryIsAccepted | internal/replication/manager.go:76-115 | after registering two primaries the shard has both, and only the second is named |
| Replication.FanOutKeepsRoles | internal/replication/manager.go:117-289 | fan-out moves no replica, changes no role and never raises a status |
| Replication.FanOutKeepsPrimaries | internal/replication/manager.go:117-289 | fan-out never touches a primary: roles stay agreed and primaries active |
| Replication.StepKeepsAgreement | internal/replication/manager.go:76-416 | each registration, write, promotion, lag check or late mark keeps "the primary role is held by the named replica alone" if and only if it brings no second primary and promotes no current one |
| Replication.RunKeepsAgreement | internal/replication/manager.go:76-416 | in all states of a run the primary role is held by the named replica alone, if and only if no event of the run brings a second primary or promotes the current one, whatever the statuses |
| Replication.OnePrimaryAtMost | internal/replication/manager.go:291-334 | in those runs a shard has at most one primary-role replica, and it is the one named in the primary table |
| Replication.MarkKeepsPrimaries | internal/replication/manager.go:398-416 | a mark keeps every primary active if and only if it is not aimed at the named primary of its shard |
| Replication.CheckLagFails | internal/replication/manager.go:383-393 | after a lag check a replica is failed if and only if it was failed before or is a secondary behind by more than both limits; nothing else changes |
| Replication.RunKeepsPrimaries | internal/replication/manager.go:76-416 | in all states of a run, late marks included, the primary role is held by the named replica alone and that replica is active, if and only if each event keeps to one primary, registers a primary with status active only, and marks no named primary |
| Replication.LateMarkWithoutPromotion | internal/replication/manager.go:369-416 | a replica is read as a secondary, anything but its own promotion happens, and the late mark comes: no primary is failed by it |
| Replication.FailedIsAbsorbing | internal/replication/manager.go:398-416 | in every run whatsoever a failed replica stays failed and no status is raised to active |
| Replication.MarkAfterPromotionFailsThePrimary | internal/replication/manager.go:369-416 | a run from the empty manager: a secondary is registered and read (by a lag check that finds it behind both limits, or by a fan-out), then promoted, then marked; the shard is left with a failed primary |
| VectorService.Server.Insert | internal/server/vector_service.go:42-119 | is the machine's insert step; succeeds exactly when the vector is present and nonempty, the index exists with its dimension, and the key's shard is usable and accepts |
| VectorService.Server.Update | internal/server/vector_service.go:388-449 | is the machine's update step: delete on the shard with failure ignored, store, replicate |
| VectorService.Server.Delete | internal/server/vector_service.go:451-482 | is the machine's delete step, with no check of the index |
| VectorService.Server.Get | internal/server/vector_service.go:351-386 | returns the vector key's value on the key's shard, if that shard is usable |
| VectorService.InsertReports | internal/server/vector_service.go:42-119 | an insert that reports success is visible on its shard with the request's id, metadata, values and time; one that does not changes nothing |
| VectorService.UpdateReports | internal/server/vector_service.go:388-449 | an update that reports success is visible in the same way |
| VectorService.DeleteReports | internal/server/vector_service.go:451-482 | a delete that reports success leaves the id invisible; one that does not changes nothing |
| VectorService.Server.CreateIndex | internal/server/vector_service.go:524-574 | adds the definition exactly when the name is new and the definition validates |
| Invariants.CreationGoesThrough | internal/server/vector_service.go:524-574 | a creation changes the state if and only if the name is new, the dimension and shard count are at least 1, the replica count is not negative and the metric is cosine, euclidean or dot_product; then the definition is the name's and nothing else changes |
| VectorService.Server.DropIndex | internal/server/vector_service.go:576-607 | drops the id set on every shard that is usable and accepts, and always forgets the index |
| VectorService.Server.GroupItems | internal/server/vector_service.go:138-166 | groups the vectors of the right dimension by shard in request order and fails the others at once |
| VectorService.Server.BatchInsert | internal/server/vector_service.go:121-235 | is the machine's batch step for some order of the shards with a group, and reports its count and failed ids |
| VectorService.Server.BatchDelete | internal/server/vector_service.go:484-522 | is the machine's batch-delete step for some order of the shards, and reports the ids of the groups that went through |
| VectorService.Server.SearchShard | internal/server/vector_service.go:280-295 | one goroutine returns the k best hits of its shard |
| VectorService.Server.SearchShards | internal/server/vector_service.go:274-315 | whatever order the shards answer in, the merged, selected and sorted list holds the k best of all hits of the shards that answered |
| VectorService.Server.Search | internal/server/vector_service.go:237-349 | fails for an unknown index, a wrong dimension or no healthy shard; else the results are hits of the answering shards whose scores are the k best of those reaching a positive minimum score (k = 10 for a non-positive request) |
| VectorService.Server.GetStats | internal/server/vector_service.go:609-663 | the total is the number of listed pairs of shard and id over the usable shards that answer |
| VectorService.Server.CountAll | internal/server/vector_service.go:625-647 | the loop over the shards adds up to the number of listed pairs of shard and id over the usable shards that answer |
| VectorService.Server.CheckShards | internal/shard/manager.go:182-211 | a health check is the machine's check event: the usable shards become the connected ones that answer, nothing else changes |
| VectorService.Server.CheckReplicas | internal/replication/manager.go:369-396 | a lag check is the machine's lag event on the whole service state |
| VectorService.Server.RegisterReplica | internal/replication/manager.go:76-115 | a registration is the machine's registration event on the whole service state |
| VectorService.Server.PromoteReplica | internal/replication/manager.go:291-334 | a promotion is the machine's promotion event on the whole service state |
| VectorService.Server.MarkReplica | internal/replication/manager.go:398-416 | a mark on its own is the machine's late-mark event on the whole service state |
| VectorService.Start | internal/server/vector_service.go:27-40 | a service built over fresh managers is in an initial state of the machine, with no replicas and exactly the connected shards usable |
| Refinement.StepRefines | internal/server/vector_service.go:42-607 | every request, with any calls refused, changes what searches see the way it changes a plain table from index and id to vector |
| Refinement.SpecRunNames | internal/storage/redis_adapter.go:96-124 | in every run each table entry holds a vector with the id it is entered under |
| Refinement.RunRefines | internal/server/vector_service.go:42-607 | after any run of requests and health checks from empty stores, what searches see is the table, and every id is listed only on the shard its key routes to |
| Refinement.RefinementNeedsSafeNames | internal/storage/redis_adapter.go:101-107 | every run over a set of index names refines the table if and only if no two of the names clash |
| Invariants.StepKeepsDimensions | internal/server/vector_service.go:42-607 | a request keeps "every visible vector of an existing index has its dimension" if and only if it is not a creation that goes through and finds visible vectors of another dimension under the name |
| Invariants.OnlyCreationBreaks | internal/server/vector_service.go:42-607 | no request other than a creation breaks it, in particular no drop, refused or not |
| Invariants.DimensionsHoldExactly | internal/server/vector_service.go:524-607 | a run from empty stores keeps it in all its states if and only if every creation of the run finds vectors of its own dimension only |
| Invariants.RefusedDropBreaksDimensions | internal/server/vector_service.go:587-600 | create with dimension 1, insert, a drop the shard refuses, create with dimension 2: a vector of one component is visible in an index of dimension 2 |
| Invariants.DropFits | internal/server/vector_service.go:587-600 | a drop leaves every visible vector with an existing index of its dimension if and only if every shard that shows vectors of the index carries it out (a vector left behind has no index) |
| Invariants.DimensionInvariant | internal/server/vector_service.go:66-106 | in every reachable state whose drops found all shards usable and accepting, each visible vector belongs to an existing index and has its dimension, across drops and re-creations with another dimension |
| Invariants.ListedExtends | internal/storage/redis_adapter.go:275-277 | one shard's count adds exactly the pairs that this shard lists, so the counts of different shards never count a pair twice |
| Invariants.CountBounds | internal/server/vector_service.go:625-647 | the statistics total is never below the number of searchable vectors |
| Invariants.CountsAreExact | internal/server/vector_service.go:484-522 | in all states of a run from empty stores the total of every index equals its searchable vectors, whichever shards answer, if and only if no batch delete of the run reaches an accepting shard that shows one of its ids |
| Invariants.StepLeaves | internal/server/vector_service.go:42-607 | given that every listed id has its key (or every key is listed), a request keeps this if and only if it is not a batch delete (or drop) of an id that is searchable on an accepting shard |
| Invariants.BatchDeleteBreaksCount | internal/server/vector_service.go:484-522 | create, insert, batch delete: one vector is counted and none can be found |
| Invariants.CountIsExactWithoutBatchDelete | internal/server/vector_service.go:625-647 | in every run without batch deletes the total equals the number of searchable vectors, drops and re-creations included |
| Invariants.SearchableIsTable | internal/server/vector_service.go:237-349 | the searchable pairs are exactly the table's entries, each on the one shard its id routes to |
| Invariants.GetsAreExact | internal/server/vector_service.go:351-386 | in all states of a run from empty stores Get returns the table's entry on every usable shard if and only if no drop of the run reaches an accepting shard that shows a vector of the index |
| Invariants.DropLeavesVectorToGet | internal/server/vector_service.go:576-607 | create, insert, drop: the index is gone, no search finds the vector, and Get returns it |
| Invariants.GetAgreesWithoutDrop | internal/server/vector_service.go:351-386 | in every run without drops, Get returns exactly the table's entry |
| Coverage.FanOutDelivers | internal/replication/manager.go:117-289 | fan-out with unique addresses reaches exactly the answering active secondaries, each store once, and fails exactly the refusing ones of a store command |
| Coverage.FanOutRewrites | internal/replication/manager.go:117-289 | a refused insert or batch fails its replica, a refused delete or batch delete leaves it as it is, an answered call sets the sync time, and a replica that gets no call stays as it is |
| Coverage.FanOutLogs | internal/replication/manager.go:141-158 | a fan-out of an insert or delete logs one entry for each call in list order, with its operation, vector id, time and whether it went through; the batch commands log nothing |
| Coverage.AnsweringSurvivesLagCheck | internal/replication/manager.go:117-396 | a secondary that answered a fan-out is active after a lag check d later if and only if d is within one of the two limits |
| Coverage.CommitCovers | internal/server/vector_service.go:90-106 | a forwarded write keeps every active secondary of every shard covered, also when several shards share one replica store |
| Coverage.RegistrationsReady | internal/replication/manager.go:76-115 | any run of registrations gives unique addresses per shard and an adapter for every replica |
| Coverage.ReplicaCoverage | internal/replication/manager.go:76-416 | in all states of a run, with registrations, promotions, lag checks and late marks at any time, each active secondary holds every vector its shard makes searchable, with the same value, if and only if each registration and promotion finds what it must |
| Coverage.RegisterCovers | internal/replication/manager.go:76-115 | a registration keeps this if and only if it is refused, or its store covers the shard when the node is an active secondary and covers every shard that has an active secondary at the address |
| Coverage.PromoteCovers | internal/replication/manager.go:291-334 | a promotion keeps this if and only if it is refused, or the old primary, when active, covers the shard |
| Mirrors.CommitHere | internal/replication/manager.go:117-289 | after a forwarded write the shard's active secondaries still show exactly what it shows if and only if the write is not a delete that hides a vector while one of them refuses it |
| Mirrors.CommitElsewhere | internal/replication/manager.go:117-289 | a write of another shard changes neither a shard's secondaries nor whether they are exact, also when the shards share replica stores |
| Mirrors.StepStays | internal/server/vector_service.go:42-607 | a request keeps all active secondaries exact if and only if it meets a condition on the state before it: no hiding delete refused by a replica, no drop that hides a replicated vector, no update of a shown vector whose shard delete is accepted and whose store is refused |
| Mirrors.ReplicasAreExact | internal/replication/manager.go:76-416 | from empty shards and replica stores, each active secondary shows exactly what its shard shows in all states of a run, if and only if every request meets that condition and every registration and promotion meets its own |
| Mirrors.ChangeStays | internal/replication/manager.go:76-416 | a registration keeps all active secondaries exact if and only if its store is exact for each shard that follows the address, a promotion if and only if an active old primary is exact; lag checks and late marks always do |
| Mirrors.DemotedPrimaryLacksData | internal/replication/manager.go:291-334 | nothing is refused, yet after a promotion the old primary is an active secondary without the vector that its shard shows |
| Mirrors.LedIsRegistered | internal/replication/manager.go:76-115 | two registrations lead to the replicas that run starts from |
| Mirrors.RegistrationsEmpty | internal/replication/manager.go:76-115 | registering replicas with empty databases gives the empty replica stores that run starts from |
| Mirrors.HalfDoneUpdateLeavesReplica | internal/server/vector_service.go:434-444 | no replica and no delete is refused, yet after an update whose store the shard refuses the shard shows no vector and its active secondary still shows the old one |
| Batch.StoreAllMerges | internal/storage/redis_adapter.go:141-172 | storing a list is merging its last vector per id into the database, so later batches compose |
| Batch.ShardOrderIsIrrelevant | internal/server/vector_service.go:206-225 | a batch insert ends in the same shards, replicas and stores for any order of the shards |
| BatchDeletes.DeleteOrderIsIrrelevant | internal/server/vector_service.go:484-522 | a batch delete ends in the same shards, replicas and stores for any order of the shards |
| BatchDeletes.DeletedCountsServed | internal/server/vector_service.go:499-515 | the reported count is the number of ids in the request, repetitions included, whose shard accepts |
| Batch.ParallelEqualsSequential | internal/server/vector_service.go:170-225 | any interleaving of the parallel goroutines that completes ends in the state of the sequential loop, with the same count and the same multiset of failed ids |
| Batch.ParallelCanFinish | internal/server/vector_service.go:170-205 | the goroutines never get stuck: from every reachable point of a parallel batch some continuation brings all of them to their end |
| Batch.BatchConserves | internal/server/vector_service.go:138-225 | whatever shards refuse, inserted plus failed accounts for every vector of the request, and the failed ids are exactly those of the vectors that did not go through |
| OneByOne.BatchEqualsOneByOne | internal/server/vector_service.go:138-225 | a batch leaves every shard database and replica store as inserting its items one by one in request order, each with its own id, metadata, values and time; items of another dimension are refused and the last item of an id wins |
| Search.MoreCandidates | internal/server/vector_service.go:304-306 | appending one more shard's k best keeps the k best of all candidates so far |
| Search.SearchIsExact | internal/server/vector_service.go:237-349 | in every state that represents a table, the scores of a response are the k best of the table's matching scores that reach the minimum, whatever the shards truncated, and every result is a matching entry |
| Search.RunSearchIsExact | internal/server/vector_service.go:237-349 | in every run from empty stores the scores of a response are the k best that reach the minimum among one minus the cosine of the query and each entry of the index that is on a responding shard and has what the filter asks for; each result is such an entry with its id, vector and score |
| Search.ResponseIsExact | internal/server/vector_service.go:310-339 | cutting at k and then dropping low scores gives the k best of the hits that reach the minimum |
| Search.DroppedAreNoBetter | internal/storage/redis_adapter.go:357-364 | no candidate left out of a result scores above one that was kept |
| Search.CosineSearchKeepsTheFarthest | internal/storage/redis_adapter.go:328-364 | every vector kept by a search of the adapter is at most as similar to the query, by cosine, as every vector it leaves out |
| Search.NearestOnlyWithoutChoice | internal/storage/redis_adapter.go:328-364 | a search keeps the most similar candidates if and only if none is kept, none is left out, or all have the same cosine to the query |
| Search.ExactMatchIsLeftOut | internal/storage/redis_adapter.go:328-364 | with [1] and [-1] stored, the search for the single best match of [1] returns [-1] |
| Search.ResponseKeepsTheFarthest | internal/server/vector_service.go:274-339 | every vector in the merged response is at most as similar to the query as every candidate of the responding shards it leaves out |
| Search.ResponseNearestOnlyWithoutChoice | internal/server/vector_service.go:274-339 | the merged response holds the most similar candidates if and only if k is 0, no candidate reaches the minimum, all reach it and fit into k, or all have the same cosine to the query |
| Search.PositiveMinimumDropsMatches | internal/server/vector_service.go:323-339 | with a positive minimum score every result has a cosine of at most one minus it, so no vector of the query's own direction is ever returned |
| Metrics.DotProduct | internal/storage/vector.go:83-94 | the loop computes the dot product, zero for different lengths |
| Metrics.CosineSimilarity | internal/storage/vector.go:50-67 | the loop computes the cosine, zero for different lengths or a zero vector; its division is never by zero |
| Metrics.EuclideanDistance | internal/storage/vector.go:69-81 | the loop computes the distance; the largest float for different lengths |
| Metrics.CauchySchwarz | internal/storage/vector.go:55-66 | the squared dot product is at most the product of the squared norms |
| Metrics.DotAdditive | internal/storage/vector.go:88-91 | the dot product adds over the sum of two vectors |
| Metrics.DotUnit | internal/storage/vector.go:88-91 | the dot product with a unit vector is the component, which with additivity and homogeneity fixes it |
| Metrics.LawOfCosines | internal/storage/vector.go:55-81 | for nonzero vectors of one length the squared Euclidean distance is the sum of the squared lengths minus twice the product of the lengths and the cosine |
| Metrics.OrthogonalCosine | internal/storage/vector.go:55-66 | nonzero vectors have cosine zero if and only if their dot product is zero |
| Metrics.NoDirectionNoCosine | internal/storage/vector.go:50-64 | a zero vector, or one of another length, has cosine zero to everything |
| Metrics.CosineOfThreeFour | internal/storage/vector.go:55-66 | the cosine of [3, 4] and [4, 3] is 24/25 |
| Metrics.OtherDistances | internal/storage/vector.go:98-113 | the dot-product distance ranks by decreasing dot product, and every name but cosine and dot_product means the Euclidean distance |
| Metrics.LargestFloat | internal/storage/vector.go:69-72 | the distance of vectors of different lengths is 24 one bits times 2^104 |
| Metrics.CosineBounds | internal/storage/vector.go:50-103 | similarity lies in [-1, 1] and the cosine distance in [0, 2], for vectors of any lengths |
| Metrics.CosineSymmetric | internal/storage/vector.go:50-67 | similarity does not depend on the order of the vectors |
| Metrics.CosineDistanceZero | internal/storage/vector.go:98-103 | the cosine distance is zero if and only if the vectors are nonzero and one is a positive multiple of the other |
| Metrics.EuclideanSymmetric | internal/storage/vector.go:69-81 | the distance is symmetric |
| Metrics.EuclideanZero | internal/storage/vector.go:69-81 | the distance is nonnegative, and zero if and only if the vectors are equal, different lengths included |
| Metrics.EuclideanTriangle | internal/storage/vector.go:69-81 | the triangle inequality on vectors of one length |
| Serialization.SerializeVector | internal/storage/vector.go:34-40 | the buffer holds four little-endian bytes per component, in order |
| Serialization.ByteAt | internal/storage/vector.go:34-40 | byte k of a component is the digit of weight 256^k of its pattern |
| Serialization.DeserializeVector | internal/storage/vector.go:42-48 | reads the whole words; up to three bytes at the end are ignored |
| Serialization.DecodeEncoded | internal/storage/vector.go:34-48 | decoding the encoding of any vector gives the vector |
| Serialization.EncodeDecoded | internal/storage/vector.go:34-48 | encoding what was decoded gives the data cut to a multiple of four bytes |

## Left out

- gRPC and protobuf code, configuration, TLS, metrics, HTTP health handlers and deployment files.
- Redis itself, its network timeouts and connection pools: a command is carried out or refused as a whole.
- A failing read of one vector inside a search, which the source skips over: a search call of a shard answers or fails as a whole.
- JSON encoding of stored vectors: decoding is taken to undo encoding, so the vectors a batch store skips because they cannot be encoded do not occur.
- Metadata keys and index records in Redis: the service writes them and never reads them back.
- The sharded branch of the adapter: its search calls itself back, and no caller constructs it.
- The three streaming methods: each loop ends with the first message.
- Requests without a vector in Update, on which the source dereferences a missing message.
- Response texts, latencies, memory figures, and the truncation of reported counts to 32 bits.
- RebalanceShards, which moves nothing, and GetReplicaStatus, which copies the table.
- The rounding of timestamps to floating-point set scores, which only decides ties in the scan order.
- Float rounding, NaN and infinities; the arithmetic of the metrics is over the reals.
- CRC-32 itself: the ring hash is an arbitrary function.
- Interleavings of different requests. A mark may come late, but the other writes of a fan-out goroutine, to its store and to a sync time, happen within their request.
- The order in which concurrent goroutines write log entries.
- VectorService.Server.BatchInsert: runs the sequential loop and has no parallel flag; module Batch relates every parallel interleaving to that loop.
- VectorService.Server.GetStats: gives the total vector count only, not the per-shard statistics and the memory sum.
- Adapter.RedisAdapter.GetAllVectorIds: leaves open the order of ids with equal timestamps, which Redis fixes by comparing the ids.
- ShardManager.Manager.PerformHealthCheck: does not model the vector count and check time it stores in a record; records are values in the map, so sharing a record and updating it in place is not captured.
- ReplicationManager.Manager.RegisterReplica: a replica node is registered for one shard only; one node object in the lists of two shards is not modelled.
- ReplicationManager.Manager.Replicate: does not state the error that ReplicateInsert returns, which the service only logs.
- ReplicationManager.Manager.CheckReplicaHealth: uses one clock reading for all replicas and runs from start to end; marks that come later are the separate event of `MarkReplica`.
- Metrics.EuclideanTriangle: says nothing about vectors of different lengths, whose distance is a constant.
