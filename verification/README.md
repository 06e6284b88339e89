# pacPrism: a verified model

pacPrism is a Debian package mirror whose nodes share an index of who holds which
package shard. This project models its decision-making code in Dafny and proves what
that code promises over all inputs and all runs.

- **The index.** `DHT_operation` keeps one logical record per node spread over nine
  containers. `DhtOperations.DhtOperation` is a class with the same nine mutable fields
  (and a ghost map of live nodes). Every method is proved against a transition function
  on the nine tables (`DhtTables`) and against the simple map operation (`DhtNodes`), so
  in every reachable state the tables agree with one map. The defaults that
  `operator[]` inserts are kept: a missing ip becomes bound to `""`, a missing row
  appears empty and is erased again, and empty shard buckets linger.
- **Its histories.** `DhtRuns`, `StoreOrder`, `StorePermutations`, `BulkRemoval`,
  `RemovalOrder`, `IpOwnership`, `PhantomIps` and `ShardHistory` prove what holds over
  whole runs: last writer wins, when the order of stores or of removals matters, who owns
  an ip, which ips are left bound to the empty id, what a query answers.
- **The routers.** `QueryParams` reads a parameter of a query string, `NodeRouters`
  decodes request targets and dispatches to the index, `RequestRuns` shows that every
  sequence of node requests is answered as the simple map would answer it, and `Routers`
  puts the index and the file cache behind one server.
- **Byte ranges, the cache and the configuration file.** `Decimals` and `ByteRanges`
  model `std::stoull` and 64-bit unsigned range arithmetic over header text.
  `RangeHeaders` says exactly which headers are accepted, what becomes of every header
  of section 2.1 of RFC 7233, and which accepted headers that section does not allow.
  `FileCaches` and `CacheRuns` model the retry loop and the fill-once cache, `Configs`
  the `key=value` file.
- **Package paths.** `PackagePaths` decides, for every file name, which of four
  competing formats the parser takes it for and where it cuts it.

`Strings` models `std::string` searching and ordering, `ExpiryIndex` a
`std::set<std::pair<int64_t, std::string>>` as a strictly sorted sequence, and
`Wrappers` holds `Option`. `dafny verify dfyconfig.toml` checks the whole project.

## Where the code and its description differ

The model follows the code. Each of these has a lemma.

- docs/dht_operation.md:98 says a query returns `nullptr` if no node contains the shard.
  The code returns an empty set for a shard whose last holder has left, and `nullptr`
  only for a shard that was never accepted (`ShardHistory.QueryAnswers`,
  `ShardHistory.DrainedShardIsNotNull`). The router hides the difference.
- The comment at src/console/io/io.cpp:235 says that server errors are retried. The
  `runtime_error` they raise lands in the second handler, which gives up
  (`FileCaches.ResponsesAreFinal`).
- An explicit last byte position past the end of the file is refused, where the standard
  clamps it (`ByteRanges.OverlongLastIsRefused`). Of a list of ranges only the first is
  served, and a list whose first range has no last position is refused altogether
  (`RangeHeaders.ListIsItsFirstRange`). Empty list elements before the first range and
  other spellings of the unit are refused too (`RangeHeaders.SetRefinesStandard`).
- Headers outside the grammar are served exactly if the texts around the first dash spell
  a window with spaces, a sign or stray text, as in `bytes=5x-7y` and `bytes=--5`
  (`RangeHeaders.ServedOutsideGrammarIff`).
- A file name such as `a_1.dscx` is accepted as a `.dsc` file and its tail is dropped;
  the parsed fields are the whole file name exactly if a file taken for a `.dsc` file
  ends in `.dsc` (`PackagePaths.NothingIsLostIff`).
- The nodes that a store-only run ends with depend on the order of arrival exactly when
  two stores share a node and its greatest generation but disagree on the record
  (`StoreOrder.OrderIrrelevantIff`). The nine tables depend on it also when two nodes
  name one ip, or when only superseded stores name some shard
  (`StorePermutations.TablesIgnoreOrderIff`); the smallest cases are
  `StoreOrder.IpsDependOnOrder` and `StoreOrder.EmptyBucketsDependOnOrder`.
- The result of a bulk removal depends on the order exactly when a victim that owns its
  ip shares it with another, named victim, an ip without a named owner counting as owned
  by the empty id (`RemovalOrder.OrderIrrelevantIff`). What depends on it is whether the
  ip ends bound to the empty id (`RemovalOrder.BoundToEmptyIff`).
- A conditional request whose fetch fails is answered with a null response, where the
  plain and range routes answer 502 (`Routers.FileAnswersComeFromFirstFetch`).

## Model

| member | source | states |
|---|---|---|
| ExpiryIndex.Insert | src/node/dht/dht_operation.cpp:23 | inserting into the ordered expiry index keeps it strictly sorted and adds exactly the new pair |
| ExpiryIndex.Erase | src/node/dht/dht_operation.cpp:56 | erasing keeps the index strictly sorted and drops exactly the given pair |
| ExpiryIndex.SortedIsUnique | include/node/dht/dht_operation.hpp:22-23 | the ordered index is determined by its elements, so two runs with the same pairs have the same index |
| Strings.StringLessIff | include/node/dht/dht_operation.hpp:23 | the order of equal expiry times is lexicographic: the ids differ first where one has ended or has the smaller character |
| ExpiryIndex.ExpiredIsExact | src/node/dht/dht_operation.cpp:69-79 | the early exit loses nothing: the collected victims are a prefix of the index, all at or before the clock, and every later pair is after it |
| DhtTables.AddOneToBuckets | src/node/dht/dht_operation.cpp:25-26 | adding shards to buckets one at a time composes, in any grouping and with repeats |
| DhtTables.AddOneHolding | src/node/dht/dht_operation.cpp:25-27 | the same for the row of the node |
| DhtTables.RemoveOneFromBuckets | src/node/dht/dht_operation.cpp:53-55 | leaving buckets one at a time composes, so the iteration order of the row is irrelevant |
| DhtNodes.ShardTablesAreInverses | include/node/dht/dht_operation.hpp:26-29 | the shard-to-nodes and node-to-shards tables are mutual inverses, and both are what the live records say |
| DhtNodes.AbsentEverywhere | src/node/dht/dht_operation.cpp:40-61 | an id that is not live survives in no id-keyed table, no bucket, no expiry pair and, if it is not empty, in no ip binding |
| DhtNodes.MembersAreHolders | src/node/dht/dht_operation.cpp:33-38 | a bucket, missing ones read as empty, holds exactly the live nodes whose record names the shard |
| DhtNodes.RefinedTablesAreDetermined | include/node/dht/dht_operation.hpp:14-33 | two table states that agree with one map differ at most in the ip table and in empty buckets |
| DhtNodes.RemoveRefines | src/node/dht/dht_operation.cpp:40-61 | unpicking all nine tables is deleting one key of the map, whether or not the id is known |
| DhtNodes.InsertRefines | src/node/dht/dht_operation.cpp:19-30 | filling the tables for an unknown id is adding its record to the map |
| DhtNodes.StoreRefines | src/node/dht/dht_operation.cpp:12-31 | a store replaces the record exactly if the id is unknown or the generation is strictly newer, leaving every agreement between the tables intact |
| DhtNodes.StoreIndexesEveryShard | src/node/dht/dht_operation.cpp:25-28 | after an accepted store the node is in the bucket of exactly the shards that stand at some position of the entry, and its row holds exactly these |
| DhtNodes.StoreRecordsFields | src/node/dht/dht_operation.cpp:19-30 | after an accepted store every other table holds the entry field that belongs there, the expiry pair included, and liveness 0 |
| DhtNodes.RemoveAllRefines | src/node/dht/dht_operation.cpp:81-84 | removing a list of ids, repeated or unknown ones included, leaves the map without those ids |
| DhtNodes.VictimsAreExpired | src/node/dht/dht_operation.cpp:69-79 | the ids collected by the scan are exactly the live nodes whose expiry is at or before the clock |
| DhtNodes.CleanRefines | src/node/dht/dht_operation.cpp:63-85 | cleaning keeps precisely the nodes that expire after the clock reading, with their records unchanged |
| DhtOperations.DhtOperation.constructor | include/node/dht/dht_operation.hpp:14-33 | a new index has nine empty tables and no live nodes |
| DhtOperations.DhtOperation.VerifyEntry | src/node/dht/dht_operation.cpp:7-10 | answers whether the node is live, from one table on behalf of all nine |
| DhtOperations.DhtOperation.StoreEntry | src/node/dht/dht_operation.cpp:12-31 | the whole new state of the nine tables and of the live nodes after a store; the agreement of the tables is kept |
| DhtOperations.DhtOperation.UpdateAllTables | src/node/dht/dht_operation.cpp:19-30 | the nine in-place updates and the shard loop give the inserted tables |
| DhtOperations.DhtOperation.IndexShards | src/node/dht/dht_operation.cpp:25-28 | the loop adds the node to exactly the buckets of the entry's shards and those shards to its row |
| DhtOperations.DhtOperation.QueryNodeIdsByShardId | src/node/dht/dht_operation.cpp:33-38 | null exactly if the shard has no bucket; in either case what it denotes is the set of live holders |
| DhtOperations.DhtOperation.RemoveEntry | src/node/dht/dht_operation.cpp:40-61 | the whole new state after a removal: the node is gone from the live nodes and nothing else is |
| DhtOperations.DhtOperation.UnpickTables | src/node/dht/dht_operation.cpp:44-60 | the sequence of erasures gives the removed tables, defaults inserted on the way included |
| DhtOperations.DhtOperation.EraseRows | src/node/dht/dht_operation.cpp:56-60 | exactly the remaining rows and the expiry pair of the node are erased, the pair found by the expiry row before that goes |
| DhtOperations.DhtOperation.ReleaseNodeIp | src/node/dht/dht_operation.cpp:44-48 | a newer owner of the ip keeps it, the owner releases it, an unbound ip is left bound to the empty id |
| DhtOperations.DhtOperation.LeaveShards | src/node/dht/dht_operation.cpp:53-58 | whatever the order of the loop, the node leaves exactly the buckets of its row and the rows of other nodes are untouched |
| DhtOperations.DhtOperation.CollectExpired | src/node/dht/dht_operation.cpp:69-79 | the victims are exactly the leading expired pairs, and at most one pair that is not expired is looked at |
| DhtOperations.DhtOperation.CleanByExpiryTime | src/node/dht/dht_operation.cpp:63-85 | the whole new state after a clean: precisely the nodes expiring after the clock stay |
| DhtOperations.DhtOperation.RemoveVictims | src/node/dht/dht_operation.cpp:81-84 | the removal loop removes exactly the listed ids |
| DhtRuns.RunRefines | src/node/dht/dht_operation.cpp:7-85 | in every state reachable by stores and cleans the nine tables agree with the one map |
| DhtRuns.Winner | src/node/dht/dht_operation.cpp:12-31 | follows a run to the store that a live node's record comes from |
| DhtRuns.LastWriterWins | src/node/dht/dht_operation.cpp:14-17 | a node is live exactly if it was stored since a clean last removed it, and its record is then the store with the greatest generation, the earliest winning ties |
| DhtRuns.GenerationNeverDecreases | src/node/dht/dht_operation.cpp:14-17 | while a node stays live its generation timestamp never goes back |
| StoreOrder.SameStoresSameIndex | src/node/dht/dht_operation.cpp:12-31 | store-only runs with the same stores in any order and number end with the same id-keyed tables, expiry set and shard answers |
| StoreOrder.OrderIrrelevantIff | src/node/dht/dht_operation.cpp:14-17 | every permutation of a store-only run ends with the same nodes if and only if the newest stores of each node agree on the record |
| StorePermutations.SameStoresSameTables | src/node/dht/dht_operation.cpp:12-31 | if the newest stores of each node agree, no two nodes name one ip and every shard named is named by a newest store, runs of the same stores in any order and number end with the same nine tables |
| StorePermutations.TablesIgnoreOrderIff | src/node/dht/dht_operation.cpp:12-31 | every order of a store-only run ends with the same nine tables if and only if those three conditions hold of its stores |
| BulkRemoval.RemoveAllKeepsOtherBindings | src/node/dht/dht_operation.cpp:44-48 | a named ip binding survives a bulk removal exactly if its node does, so removing an older claimant never disturbs the owner |
| BulkRemoval.RemoveAllKeepsBuckets | src/node/dht/dht_operation.cpp:53-55 | removal neither drops nor makes a shard bucket |
| BulkRemoval.BulkRemovalIsOrderIndependent | src/node/dht/dht_operation.cpp:81-84 | removing the same nodes in any order gives the same nine tables up to phantom ip bindings, even when victims share ips and shards |
| RemovalOrder.BoundToEmptyIff | src/node/dht/dht_operation.cpp:44-48 | for every list of removals and all ids: an ip ends bound to the empty id if and only if it was so before and no node with the empty id leaves it, or some removal takes a named node from it when its named owner, if it had one, is gone and no empty id leaves it later |
| RemovalOrder.RemovalWithoutSharing | src/node/dht/dht_operation.cpp:81-84 | if the owner that operator[] reads at an ip never is a victim together with another, named victim recorded there, removing the same nodes in any order and number gives the same nine tables |
| RemovalOrder.OrderIrrelevantIff | src/node/dht/dht_operation.cpp:81-84 | every order of the same removals ends with the same nine tables if and only if no victim that is the owner operator[] reads at its ip, named or empty, shares it with another, named victim |
| BulkRemoval.CleanedExpiryIndex | src/node/dht/dht_operation.cpp:63-85 | after a clean the expiry index is exactly the part that the scan left unvisited |
| BulkRemoval.CleanTwice | src/node/dht/dht_operation.cpp:63-85 | cleaning at t1 and then at t2 >= t1 leaves the same nine tables, phantoms included, as cleaning at t2 alone |
| IpOwnership.RunKeepsOwners | src/node/dht/dht_operation.cpp:20-21 | in every reachable state an ip is bound to a named node exactly if that node is its latest accepted claimant, live, and recorded there |
| IpOwnership.OwnerIsLatestClaimant | src/node/dht/dht_operation.cpp:44-48 | the same from the history alone: the binding names the node of the last accepted store for that ip |
| PhantomIps.RunBinding | src/node/dht/dht_operation.cpp:20-48 | after any run the binding of an ip is decided by the claims and departures at that ip, in the order the run performed them |
| PhantomIps.RunEndsEmptyIff | src/node/dht/dht_operation.cpp:44-48 | for all ids: after a run an ip is bound to the empty id if and only if its last claimant has the empty id and has not left, or its last claimant has left and afterwards a named node still recorded there was removed, and then no empty id |
| IpOwnership.ExclusiveIffInverse | src/node/dht/dht_operation.cpp:14-51 | the ip-to-id and id-to-ip tables are exact inverses throughout a run if and only if no accepted store claims an ip recorded for another live node |
| ShardHistory.BucketsRecordHistory | src/node/dht/dht_operation.cpp:25-28 | the bucket keys are exactly the shards that stood at some position of an accepted store |
| ShardHistory.QueryAnswers | src/node/dht/dht_operation.cpp:33-38 | over any run a query is null exactly for shards never accepted, and otherwise lists exactly the live holders, possibly none |
| ShardHistory.BucketsOnlyGrow | src/node/dht/dht_operation.cpp:53-55 | no continuation of a run ever loses a bucket |
| ShardHistory.DrainedShardIsNotNull | docs/dht_operation.md:98 | the documented null for a shard without nodes fails: a drained shard answers an empty set |
| NodeRouters.SplitIff | src/network/router/router.cpp:51-70 | exactly which paths split into a given one-word operation and parameters |
| NodeRouters.SplitCleanIff | src/network/router/router.cpp:51-60 | exactly which paths name a clean operation |
| NodeRouters.VerifyTargets | src/network/router/router.cpp:73-75 | exactly two spellings verify an id, verify/{id} without a question mark and verify?{id}, and the id arrives unchanged |
| QueryParams.ParamIff | src/network/router/router.cpp:106-118 | exactly which parameter strings give a parameter a value: the text after the first marker, wherever it stands, up to an ampersand or the end; a missing one counts as empty |
| NodeRouters.QueryTargets | src/network/router/router.cpp:46-118 | exactly which paths after /api/dht/ ask for a shard: query, a question mark or (without one) a slash, and parameters that give shard_id= that value; the last spelling, query alone, gives none |
| NodeRouters.StoreTargets | src/network/router/router.cpp:83 | exactly which requests reach the store |
| NodeRouters.CleanTargets | src/network/router/router.cpp:145 | exactly which requests reach the clean by expiry |
| NodeRouters.LivenessTargets | src/network/router/router.cpp:155 | exactly which requests reach the clean by liveness |
| NodeRouters.UnknownTargets | src/network/router/router.cpp:165-171 | a one-word path is an unknown operation exactly if it is neither query nor a posted store |
| NodeRouters.DocumentedTargets | src/network/router/router.cpp:46-145 | the documented targets, written out, verify exactly their id, ask for exactly their shard, store and clean |
| NodeRouters.DocumentedAnswers | src/network/router/router.cpp:73-153 | the status, the body and the new state for each documented target, its error answers included |
| NodeRouters.OtherAnswers | src/network/router/router.cpp:155-178 | a target without the prefix is answered 400, an unknown operation 404, a clean by liveness 200, and none of them changes a node |
| NodeRouters.StepSimulates | src/network/router/router.cpp:73-178 | one request against the nine tables gives the response, and the new state, of the same request against the simple map |
| NodeRouters.NodeRouter.NodeResponseRouter | src/network/router/router.cpp:35-195 | every request, error routes included, is answered and changes the state as the simple map would |
| NodeRouters.NodeRouter.SplitPath | src/network/router/router.cpp:48-70 | the step-by-step assignments give the split that SplitIff and SplitCleanIff characterise |
| RequestRuns.RequestsRefine | src/network/router/router.cpp:35-195 | after any sequence of requests the tables still agree with the map |
| RequestRuns.RouterSimulatesMap | src/network/router/router.cpp:35-195 | every request of every run gets the answer the simple map would give |
| RequestRuns.RequestsAreOps | src/network/router/router.cpp:73-171 | a run of requests is the run of the stores and cleans it contains, so all history theorems apply to it |
| RequestRuns.VerifyAnswer | src/network/router/router.cpp:73-82 | verify answers true exactly if the node was stored since a clean last removed it |
| RequestRuns.QueryAnswer | src/network/router/router.cpp:120-144 | query lists exactly the nodes whose winning store has the shard at some position of its list; never-seen and drained shards get the same empty list |
| RequestRuns.StoredVerifiesUntilCleaned | src/network/router/router.cpp:83-95 | after a 201 store the node verifies as existing until a clean removes it |
| Decimals.Print | src/console/io/io.cpp:463-464 | printing a number gives a non-empty run of digits |
| Decimals.ValueOfPrint | src/console/io/io.cpp:463-464 | printing then reading a number of any magnitude gives it back |
| Decimals.DigitRun | src/console/io/io.cpp:376 | the digits read are the longest run at the front |
| Decimals.StoullIff | src/console/io/io.cpp:376 | stoull returns n exactly for spaces, an optional sign and a number of 64-bit magnitude that denotes n modulo 2^64, whatever text follows, and throws for every other text |
| Decimals.StoullReadsNumber | src/console/io/io.cpp:389-390 | a number followed by any text that is not a digit reads as its value, or throws if it does not fit 64 bits |
| Decimals.StoullOfNumber | src/console/io/io.cpp:385 | a number alone reads as its value if it fits 64 bits and throws otherwise |
| Decimals.StoullWrapsNegative | src/console/io/io.cpp:376 | a minus sign is accepted and wraps modulo 2^64; a magnitude that does not fit throws |
| Decimals.StoullFitsIff | src/console/io/io.cpp:376 | a number is read exactly if it is below 18446744073709551616 |
| Decimals.BeforeNumberIff | src/console/io/io.cpp:376 | exactly which characters may stand before a number: a digit, a sign or one of six white space characters |
| ByteRanges.RangeIsSafe | src/console/io/io.cpp:393-400 | for every header text and 64-bit size an accepted window lies in the file, its length does not wrap and is between 1 and the size; an empty file yields none |
| ByteRanges.RangeRefinesStandard | src/console/io/io.cpp:339-407 | every grammatical single range of any magnitude is accepted exactly if the standard can satisfy it and it is supported (last position inside the file, suffix fitting 64 bits), then with exactly the standard's positions |
| ByteRanges.OverlongLastIsRefused | src/console/io/io.cpp:394-398 | a last position past the end is refused although the standard serves it |
| RangeHeaders.HeaderIff | src/console/io/io.cpp:339-407 | for every header text: it is accepted as a window if and only if it is bytes=, and the texts around its first dash spell that window inside the file |
| RangeHeaders.ListIsItsFirstRange | src/console/io/io.cpp:373-391 | a list is served as its first range alone would be, whatever follows, except that a list whose first range has no last position is refused |
| RangeHeaders.SetRefinesStandard | src/console/io/io.cpp:339-407 | every header of the grammar, lists, empty elements and other cases of the unit included, gets the standard window of its first range exactly if it is supported, and is otherwise refused |
| RangeHeaders.AcceptedIsGrammaticalIff | src/console/io/io.cpp:373-391 | an accepted header is in the grammar if and only if its numbers stand alone: digits before the dash, digits and the rest of a list after it |
| RangeHeaders.ServedOutsideGrammarIff | src/console/io/io.cpp:339-407 | for every header text: it is served as a window although the grammar does not allow it if and only if the texts around its first dash spell that window with spaces, a sign or stray text |
| RangeHeaders.NegativeSuffixWraps | src/console/io/io.cpp:374-382 | a suffix of minus n bytes is served as a suffix of 2^64 - n bytes, and refused for zero or a magnitude that does not fit |
| ByteRanges.RangeFormsAgree | src/console/io/io.cpp:374-391 | the three ways to ask for the last n bytes, in any spelling of the numbers, select the same window |
| ByteRanges.PiecesJoin | src/console/io/io.cpp:447-455 | consecutive ranges, fetched one header at a time, join to exactly the part of the file they span |
| ByteRanges.PartitionIsWholeFile | src/console/io/io.cpp:447-455 | the windows of any consecutive partition of the file join to the whole file |
| ByteRanges.ResumeCompletes | src/console/io/io.cpp:383-386 | "k-" is exactly what a client holding the first k bytes lacks |
| ByteRanges.ContentRangeRoundTrip | src/console/io/io.cpp:462-465 | the positions printed in Content-Range, sent back as a range, select the same window again |
| FileCaches.Attempts | src/console/io/io.cpp:186-290 | the number of attempts is within the limit, at least one if the limit is positive, every attempt but the last was a network error, and the last was one only at the limit |
| FileCaches.ScheduleIff | src/console/io/io.cpp:186-293 | the number of attempts is the only one within the limit for which all earlier attempts were network errors and the last was one only at the limit |
| FileCaches.SleptIff | src/console/io/io.cpp:280-284 | a attempts sleep 2^(a-1)-1 seconds in all if and only if a is at most 32 |
| FileCaches.FetchSucceedsIff | src/console/io/io.cpp:181-293 | a fetch brings a body exactly if some attempt within the limit does and all earlier ones were network errors |
| FileCaches.ResponsesAreFinal | src/console/io/io.cpp:231-240 | whatever status a response has, a 5xx included, its attempt is the last one and the fetch succeeds exactly for 200 |
| FileCaches.BackoffsFitIff | src/console/io/io.cpp:281 | every backoff that any outcome sequence can reach is a positive int if and only if the limit is at most 32 |
| FileCaches.ShiftOf31 | src/console/io/io.cpp:281 | the first backoff is one second, and the shift by 31 is the least int |
| FileCaches.FileCache.AttemptOnce | src/console/io/io.cpp:187-271 | the try block returns or throws by the status, and only a 200 response whose file opens changes the disk, by exactly its body |
| FileCaches.FileCache.FetchFromUpstream | src/console/io/io.cpp:181-293 | the loop makes those attempts with the int backoffs 1 << retry between them; success writes exactly the fetched body under the path key, failure leaves the disk as it was |
| FileCaches.FileCache.EnsureCached | src/console/io/io.cpp:300-306 | fills the path at most once and reports whether it is cached afterwards |
| FileCaches.SameFileIff | src/console/io/io.cpp:161-168 | two request paths share a cached file if and only if they differ by no more than a leading slash, for a relative directory or paths without two slashes in front |
| FileCaches.FileCache.GetOrFetch | src/console/io/io.cpp:295-333 | the whole file, or a null reply and an unchanged disk |
| FileCaches.FileCache.GetOrFetchWithRange | src/console/io/io.cpp:409-473 | a window for a valid range, else the whole file; the disk changes as for a plain call |
| FileCaches.RangeReply | src/console/io/io.cpp:429-465 | the reply for a window is exactly its bytes, its length, and a Content-Range of first, last and size; for no window it is the whole file |
| FileCaches.FileCache.GetOrFetchWithConditional | src/console/io/io.cpp:552-628 | 304 or the whole file; the disk changes as for a plain call |
| FileCaches.ConditionalReply | src/console/io/io.cpp:570-627 | 304 exactly if a date header finds the file not modified or a tag header is its tag, else the whole file |
| CacheRuns.CacheHoldsFirstFetch | src/console/io/io.cpp:242-271 | over any run against a changing upstream the cache holds for each path exactly the body of its first successful fetch |
| CacheRuns.RepliesComeFromFirstFetch | src/console/io/io.cpp:295-473 | every reply of any mix of calls is null, 304, or the bytes or a window of the first successful fetch |
| CacheRuns.RepliesArePerPath | src/console/io/io.cpp:161-173 | from an empty cache every reply is served from the first successful fetch of its own request path, never from that of another |
| CacheRuns.OneSuccessfulFetchPerPath | src/console/io/io.cpp:300-306 | after a successful fetch no later call for the path contacts the upstream |
| CacheRuns.ContentStays | src/console/io/io.cpp:559-566 | cached content never changes, failed fetches included |
| CacheRuns.SameContent | src/console/io/io.cpp:415-422 | two calls of one path, the first of them answered, are served from one file |
| CacheRuns.ResumeAcrossRun | src/console/io/io.cpp:409-473 | a client that kept the first k bytes of a full reply and later asks for "k-" completes exactly that reply, whatever the upstream did in between |
| CacheRuns.RangesJoinAcrossRun | src/console/io/io.cpp:447-455 | the replies to consecutive ranges that tile a file, asked at any times of a run and in any spelling, join to the whole of its first successful fetch |
| Configs.TrimStripsPadding | src/console/io/io.cpp:98-105 | trim strips exactly the blanks around a trimmed core |
| Configs.TrimmedCharIff | src/console/io/io.cpp:99-103 | exactly space, tab, carriage return and line feed are trimmed |
| Configs.BindingReadsBack | src/console/io/io.cpp:107-137 | a padded binding reads back as its key and value, even if the value contains an equals sign |
| Configs.BindingReadsBackIff | src/console/io/io.cpp:107-137 | it reads back if and only if the key is trimmed, non-empty, without an equals sign or a leading hash, and the value is trimmed |
| Configs.ParsedIsGood | src/console/io/io.cpp:120-135 | whatever any line binds is such a key and value |
| Configs.ParseLineIff | src/console/io/io.cpp:107-137 | for every line: it binds a key to a value if and only if it is the two around an equals sign with blanks around both, the key good and the value trimmed |
| Configs.NoEqualsIsSkipped | src/console/io/io.cpp:121-125 | a line without an equals sign binds nothing |
| Configs.LoadAppliesBindings | src/console/io/io.cpp:28-36 | loading rendered lines applies exactly their bindings in order, skipping comments and blank lines |
| Configs.LinesReassemble | src/console/io/io.cpp:28-36 | the lines read are exactly what stands between the line breaks, a last line without a break included |
| Configs.LastBreakIsOptional | src/console/io/io.cpp:30 | a file loads the same with and without its last line break |
| Configs.LastBindingWins | src/console/io/io.cpp:135 | the last binding of a key wins and an unbound key keeps its old value |
| Configs.LoadInvertsRender | src/console/io/io.cpp:21-40 | any map rendered with arbitrary padding, blank lines, comments and repeats loads into an empty configuration as exactly that map |
| Configs.Config.ParseConfigLine | src/console/io/io.cpp:107-137 | reports whether the line binds a key, and changes the configuration by that binding alone |
| Configs.Config.LoadFromFile | src/console/io/io.cpp:21-40 | applies all lines in order; a file that cannot be opened changes nothing |
| PackagePaths.Cut | src/node/package/parser.cpp:30-78 | the cuts found are in order, leave a name, and leave an architecture exactly for binary packages |
| PackagePaths.CutIff | src/node/package/parser.cpp:30-83 | for every file name and every cut: the parser takes that branch and cuts there if and only if the pieces satisfy the branch's conditions |
| PackagePaths.FieldsReassemble | src/node/package/parser.cpp:30-85 | the fields reassemble the file name, except for .dsc, where they reassemble a prefix |
| PackagePaths.ParseUndoesPrintIff | src/node/package/parser.cpp:30-85 | parsing a printed file name gives its format and fields back if and only if they meet the conditions that keep the four formats apart |
| PackagePaths.PathReassembles | src/node/package/parser.cpp:6-28 | a parsed path is the pool, its component, ignored directories and the file name |
| PackagePaths.ParseUndoesPathIff | src/node/package/parser.cpp:3-86 | parsing a printed path gives format and fields back if and only if the component is known, the file name has no slash and the fields are well formed |
| PackagePaths.ParseReturnsFields | src/node/package/parser.cpp:3-86 | the result of the public parser on such a path is its fields |
| PackagePaths.DscTailIsDropped | src/node/package/parser.cpp:57-62 | the printed fields of a .dsc file are its name up to the end of its last .dsc |
| PackagePaths.NothingIsLostIff | src/node/package/parser.cpp:30-85 | in every format the printed fields are the whole file name if and only if a file taken for a .dsc file ends in .dsc |
| PackagePaths.DscTailIsAccepted | src/node/package/parser.cpp:57-62 | any dotless text may follow an accepted .dsc name without changing the result |
| PackagePaths.TarFilesAreParsed | src/node/package/parser.cpp:64-73 | every named .tar.gz and .tar.xz file that no .orig claims is parsed into its parts |
| PackagePaths.TarFilesAreCompressed | src/node/package/parser.cpp:65 | only a file with gz or xz directly after its last dot is taken for a .tar archive |
| PackagePaths.OrigFilesAreParsed | src/node/package/parser.cpp:46-54 | every named file with an .orig part, and none before it, is parsed into its parts |
| PackagePaths.DscFilesAreParsed | src/node/package/parser.cpp:56-62 | every named .dsc file that no .orig claims is parsed into its parts |
| PackagePaths.DebFilesAreParsed | src/node/package/parser.cpp:75-83 | every named .deb file that no .orig claims is parsed into its parts |
| PackagePaths.PoolPathsIff | src/node/package/parser.cpp:6-28 | a path parses exactly if it is /debian/pool/, main, contrib or non-free, directories and a file name that parses |
| Routers.PlainTargets | src/network/router/router.cpp:197-275 | exactly which targets ask for a file: any path with a target parameter that is the file, its leading slash written or not, and the file path itself, alone or with a query string that gives no target |
| Routers.RangedAnswer | src/network/router/router.cpp:247-250 | a Range header decides the answer for a cached file, whatever the other headers: its window, or the whole file |
| Routers.UnrangedAnswer | src/network/router/router.cpp:251-263 | without one the answer is 304 exactly by the conditional headers, and the whole file otherwise |
| Routers.MissingAnswer | src/network/router/router.cpp:251-268 | a file that could not be fetched is answered 502, or with a null response on the conditional route |
| Routers.GreetedOrRefused | src/network/router/router.cpp:29-32 | an invalid request is refused with 400 and the root path is greeted, without any change |
| Routers.IndexSeesOnlyNodes | src/network/router/router.cpp:18-33 | in every interleaving the index is what the node requests alone make of it |
| Routers.CacheSeesOnlyPlain | src/network/router/router.cpp:18-33 | and the cache is what the plain requests alone make of it |
| Routers.NodeAnswersAreIsolated | src/network/router/router.cpp:26-27 | a node request is answered by the simple map of the node requests before it, whatever file requests came between |
| Routers.FileAnswersComeFromFirstFetch | src/network/router/router.cpp:240-303 | a file request is answered from the first successful fetch of its path over the whole server run: 502 without one, except on the conditional route |
| Routers.Router.PlainResponseRouter | src/network/router/router.cpp:197-307 | range before conditional before plain; the disk and the answer are those of the chosen call, 502 if it fails |
| Routers.Router.GlobalRouter | src/network/router/router.cpp:18-33 | the index and the cache after a request, and its answer, by request type |

## Left out

- Sockets and sessions (src/network/transmission): Asio callbacks, no decisions in this code.
- Bytes on the wire: what Beast makes of a body, an offset and a content length. Responses carry the values the code computes.
- HTTP dates, entity tags and file times: a conditional call takes "modified" and the current tag as inputs, and nothing is claimed about RFC 7232.
- JSON: a request body is the entry it decodes to or a failure. Encoding exceptions, and with them the 500 answer, are not modelled. Node ids are listed as a set, without its printing order.
- Shard packages: an entry carries them and the index never stores them.
- Request validation and SHA256: the request type is an input, always one of the three the validator knows.
- Clocks: `now` is a parameter. Timestamps are unbounded integers, because the code only compares them.
- The real file system: the disk is a map from cache path to bytes, writes are complete, an existing file opens for reading, and a failure of `create_directories` is an exception the attempt raises. Paths are not normalised.
- Upstream attempts: an attempt enters as the exception its calls raise or the response they bring; resolving, connecting and time-outs are not modelled.
- FileCaches.FileCache.FetchFromUpstream: a shift by 32 or more is undefined in the source; the loop then goes on with a backoff of no value. `FileCaches.BackoffsFitIff` says exactly when no backoff is undefined or negative.
- Iteration order of `unordered_map` and `std::set<std::string>` values: tables are maps and sets; loops over them are proved for every order.
- `clean_by_liveness`, `entry_builder`, `verify_node_identity`: empty, undefined or constant.
- Configuration getters and defaults, command line, banner, logging, version text: easy members.
