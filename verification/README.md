# Verification of BaikalDB

A Dafny model of the algorithmic parts of BaikalDB and its client, with proofs.
`dafny verify dfyconfig.toml` checks the whole project.

| module | what it models |
|---|---|
| `WeightTree`, `WeightPublication`, `WeightFeedback`, `ConnectionPool` | the client's locality-aware load balancer: an implicit tree of weights, its caches under every interleaving of atomic additions, the weight of an instance from its latencies, and the pool with whole operations as steps |
| `ConnectionOwnership` | who may use a pooled connection, as a transition system of atomic steps on statuses, lock and vector |
| `ShardExpression` | the tokenizer and the two-stack evaluator of sharding expressions |
| `TableRewrite` | renaming a split table in the text of a statement |
| `TopK` | the min-heaps behind the 99.99 percentiles of instances and of statements |
| `KeyEncoder`, `TableKey` | keys whose byte order is the order of the values, and reading them back |
| `IncrementalUpdate`, `SchemaHeartbeat` | the two-generation update log, and the meta server's heartbeat that serves readers from two such logs |
| `LruCache` | the least-recently-used cache over a linked list and a map |
| `RangePartition` | placing rows in, and pruning, range partitions for every kind of user |
| `Histogram`, `HllRegisters`, `CountMinSketch` | column statistics |
| `Arithmetic`, `BitOperations`, `Words`, `Options` | shared definitions and facts |

Code that updates objects in place is modelled by classes and loops that are proved against
functions on values; the laws are lemmas about those functions.  Concurrent code is a transition
system, and its laws hold in every reachable state.

Where the code does not meet a property that its readers might expect, the code is modelled as it is,
a lemma exhibits an input, and the exact condition is proved:

- `Weight::update` divides by an average that can be 0, and its product can overflow
  (`BaseWeightDefined`, `AverageIsZero`, `ZeroLatencyDividesByZero`, `BurstOverflowsIff`).
- Keys with a NUL inside a string that is not the last field can sort against the values, and do not
  decode (`InnerStringsIff`, `NulExtensionBreaksOrder`, `DecodeRecoversKey`).
- The whole-word search can miss names such as a-a (`FindIsLeastIff`, `HyphenatedNameNests`).
- Table rewriting skips occurrences close behind one of another database, and misreads
  self-qualified names (`RewriteSuffixes`, `UnambiguousIff`, `AmbiguousTextFails`).
- The id of an attached partition passes through an `int` (`AttachedIsReportedIff`, `LargeIdIsLost`,
  `PlaceIsReachedIff`, `LargeIdIsMistaken`).
- A heartbeat that withholds the regions moves readers past region changes (`BeatKeepsUpIff`,
  `WithheldRegionsAreLost`).
- Closing a connection twice can share it (`StrayCloseIff`, `StrayCloseSharesConnection`).
- A wider range can be estimated at fewer rows (`TotalGrowsIff`, `GrowsAtEndIff`,
  `EstimateDropsAtEnd`).
- Large counts do not survive the `int` arithmetic of an estimate (`OneHashIsExactIff`,
  `LargeCountsAreLost`).

## Model

| member | source | states |
|---|---|---|
| `WeightTree.SumAfterChange` | baikal-client/src/baikal_client_bns_connection_pool.cpp:614-634 | a changed weight moves the sums of exactly the subtrees that hold it, by the difference |
| `WeightTree.SumAfterAppend` | baikal-client/src/baikal_client_bns_connection_pool.cpp:434-452 | an appended instance is a leaf: its weight enters the sums above it and no others |
| `WeightTree.WalkIsScan` | baikal-client/src/baikal_client_bns_connection_pool.cpp:255-272 | with exact caches the tree walk selects what a linear scan of the weights in symmetric order selects |
| `WeightTree.WalkLandsOnInstance` | baikal-client/src/baikal_client_bns_connection_pool.cpp:247-276 | every dice below the total ends inside the index range, on an instance of positive weight, inside that instance's own interval |
| `WeightTree.WalkFindsOwner` | baikal-client/src/baikal_client_bns_connection_pool.cpp:247-276 | a walk ends on an instance if and only if the dice is above the weights in front of it, in symmetric order, and not above those with its own |
| `WeightTree.EachInstanceOwnsItsWeight` | baikal-client/src/baikal_client_bns_connection_pool.cpp:247-276 | of the dice values in [0, total), exactly those of an interval of its own select an instance, as many as its weight |
| `WeightTree.ExactAfterChange` | baikal-client/src/baikal_client_bns_connection_pool.cpp:614-634 | adding one difference to the caches whose left subtree holds the instance keeps all caches exact and the total right |
| `WeightTree.ExactAfterAppend` | baikal-client/src/baikal_client_bns_connection_pool.cpp:434-452 | an instance that joins without weight leaves every cache exact |
| `WeightTree.WalkIsShort` | baikal-client/src/baikal_client_bns_connection_pool.cpp:255-272 | a walk, over exact or stale caches, visits at most one node per level |
| `WeightTree.HeightIsLogarithmic` | baikal-client/src/baikal_client_bns_connection_pool.cpp:255-272 | the number of levels is logarithmic in the number of instances |
| `WeightTree.WalkEndsWithinLoopLimit` | baikal-client/src/baikal_client_bns_connection_pool.cpp:255-259 | one walk never needs the loop limit of 50 visits below 2^50 instances |
| `WeightPublication.StepConserves` | baikal-client/src/baikal_client_bns_connection_pool.cpp:614-634 | every single fetch_add, weight change or appended instance keeps: cache plus undelivered differences equals true sum, for each left cache and for the total |
| `WeightPublication.EveryRunConserves` | baikal-client/src/baikal_client_bns_connection_pool.cpp:614-634 | the same in every state of every interleaving of threads |
| `WeightPublication.QuiescentIsExact` | baikal-client/src/baikal_client_bns_connection_pool.cpp:614-634 | whenever no thread is between a change and its last fetch_add, all left caches and the total are exact |
| `WeightPublication.PublicationProgresses` | baikal-client/src/baikal_client_bns_connection_pool.cpp:614-634 | no publishing thread gets stuck, and each of its steps leaves one hop less to do |
| `WeightPublication.EveryScheduleDrains` | baikal-client/src/baikal_client_bns_connection_pool.cpp:614-634 | from any reachable state every schedule of publication steps has at most as many steps as there are hops left, can go on while it has fewer, and with that many ends with exact left caches and total |
| `WeightPublication.PublicationsDrain` | baikal-client/src/baikal_client_bns_connection_pool.cpp:614-634 | such a schedule exists: publication steps alone, as many as there are hops left, lead to exact caches |
| `WeightFeedback.QueueIsWindow` | baikal-client/src/baikal_client_instance.cpp:68-73 | the bounded queue holds the running latency totals of exactly the latest 128 samples |
| `WeightFeedback.QueueMeasures` | baikal-client/src/baikal_client_instance.cpp:74-99 | the running totals yield the floor mean of the last n-1 samples and the throughput, and n-1 is not zero where it divides |
| `WeightFeedback.QpsFitsInt64` | baikal-client/src/baikal_client_instance.cpp:76-82 | the throughput times the weight scale fits int64 for every sample history |
| `WeightFeedback.BaseWeightDefined` | baikal-client/src/baikal_client_instance.cpp:76-100 | the base weight is defined if and only if the average is not 0 and the quotient times 100000 does not overflow; 1389 microseconds suffice for any throughput |
| `WeightFeedback.BaseWeightIs` | baikal-client/src/baikal_client_instance.cpp:100-100 | and it is the throughput over the average, rounded down, times 100000 over the average, rounded down |
| `WeightFeedback.BurstOverflowsIff` | baikal-client/src/baikal_client_instance.cpp:68-100 | and that bound is met by a history: a full queue of requests of one latency, all but the oldest ending one microsecond after it, has that average and leaves the base weight undefined if and only if the latency is below 1389 |
| `WeightFeedback.AverageIsZero` | baikal-client/src/baikal_client_instance.cpp:83-99 | the average latency, by which the source divides, is 0 exactly when the counted latencies sum to less than their number or, if no time has passed, the last of them is 0 |
| `WeightFeedback.ZeroLatencyDividesByZero` | baikal-client/src/baikal_client_instance.cpp:83-99 | one request that ends in the microsecond it began is such a history |
| `WeightFeedback.PunishmentHalves` | baikal-client/src/baikal_client_instance.cpp:159-192 | requests in flight that are late cut the weight to at most half the base before the floor of 1000; no load raises it; without requests in flight it is the base |
| `WeightFeedback.WeightInFlight` | baikal-client/src/baikal_client_instance.cpp:159-192 | the weight in every case: the base if no request is late by the mean begin time, else the base in the ratio of average to delay rounded down, at capacity divided by the rounded-up connections per configured one, and at least 1000 |
| `WeightFeedback.DivideCeilIs` | baikal-client/src/baikal_client_util.cpp:38-55 | where that divisor is the least whole number not below the quotient, or the dividend when nothing is configured |
| `WeightFeedback.FreshBaseIsPunishable` | baikal-client/src/baikal_client_instance.cpp:159-192 | a base weight that could be computed can be punished without overflow |
| `WeightFeedback.DefaultIsPunishableIff` | baikal-client/include/baikal_client_instance.h:96-102 | the default weight can be punished without overflow if and only if the average latency is at most 2^63 - 1 over that weight |
| `WeightFeedback.Instance.CalInflightWeight` | baikal-client/src/baikal_client_instance.cpp:159-192 | the weight becomes the punished base, whose value `WeightInFlight` gives, and the difference is returned, or the arithmetic is undefined and nothing changes |
| `WeightFeedback.Instance.Measure` | baikal-client/src/baikal_client_instance.cpp:74-99 | average and throughput become those of the remembered samples, and the first full queue sets the quartile value to 100 times the average |
| `WeightFeedback.Instance.Rebase` | baikal-client/src/baikal_client_instance.cpp:100-101 | base and weight become what the two formulas give, if and only if the base is computable, and the new base can be punished |
| `WeightFeedback.Instance.Update` | baikal-client/src/baikal_client_instance.cpp:56-102 | an instance without weight or a request that ends before it began changes nothing; else the sample is remembered, the measurements are those of the new window, and the weight follows if and only if it is computable |
| `WeightFeedback.Instance.RecalInflight` | baikal-client/src/baikal_client_instance.cpp:121-134 | the weight is recomputed for the requests in flight and the instance is chosen if and only if the dice is not above it; with at least one connection allowed and a base that can be punished, no arithmetic is undefined |
| `WeightFeedback.Instance.Finish` | baikal-client/src/baikal_client_connection.cpp:49-58 | the request leaves the requests in flight; an instance on line learns its latency; weight stays 0 off line and at least 1000 on line |
| `ConnectionPool.Pool.UpdateParentWeight` | baikal-client/src/baikal_client_bns_connection_pool.cpp:614-634 | the difference is added to the left cache of exactly the nodes whose left subtree holds the instance |
| `ConnectionPool.Pool.Announce` | baikal-client/src/baikal_client_instance.cpp:610-613 | after the climb and the addition to the total all caches are exact for the new weight |
| `ConnectionPool.Pool.SwitchStatus` | baikal-client/src/baikal_client_instance.cpp:607-682 | the transition happens if and only if the status is the expected one; then the weight is the default on line and 0 otherwise, the pool stays exact, and bases can still be punished unless an average latency beyond the limit meets the default weight |
| `ConnectionPool.Pool.StatusToOnline` | baikal-client/src/baikal_client_instance.cpp:684-692 | the instance is on line with the default weight, and the pool exact |
| `ConnectionPool.Pool.StatusToDelay` | baikal-client/src/baikal_client_instance.cpp:693-701 | the instance is delayed with weight 0, and the pool exact |
| `ConnectionPool.Pool.AddOnLine` | baikal-client/src/baikal_client_bns_connection_pool.cpp:104-122 | a new instance is last in the index, on line, with the default weight, and the pool exact |
| `ConnectionPool.Pool.AddFaulty` | baikal-client/src/baikal_client_bns_connection_pool.cpp:434-452 | a new instance is last in the index, faulty, with weight 0, and the pool exact |
| `ConnectionPool.Pool.Begin` | baikal-client/src/baikal_client_connection.cpp:43-48 | the request is in flight, and nothing else changes |
| `ConnectionPool.Pool.Feedback` | baikal-client/src/baikal_client_connection.cpp:49-58 | the request is no longer in flight; the pool stays exact, with the weight that the instance learned from it, and bases that can be punished stay so; an instance not on line keeps its weight |
| `ConnectionPool.Pool.RollOnce` | baikal-client/src/baikal_client_bns_connection_pool.cpp:335-361 | one round finds an eligible instance whenever there is one, and the first in turn behind the counter, unless the 64-bit counter wraps around |
| `ConnectionPool.Pool.SelectRolling` | baikal-client/src/baikal_client_bns_connection_pool.cpp:335-361 | the instance is on line or delayed and below the limit of connections or with an unused one; it is the first such in turn; nothing is returned if and only if there is none, and a delayed one to a caller that prefers others only if all on line are full |
| `ConnectionPool.Pool.Land` | baikal-client/src/baikal_client_bns_connection_pool.cpp:273-279 | the instance landed on recomputes its weight, the pool hears of it, and a chosen instance is on line |
| `ConnectionPool.Pool.RecomputedWeight` | baikal-client/src/baikal_client_instance.cpp:121-192 | the weight that landing gives an instance, in every case; the division is made exactly by those with as many connections as allowed |
| `ConnectionPool.Pool.Descend` | baikal-client/src/baikal_client_bns_connection_pool.cpp:255-272 | the loop visits the nodes of the walk, within its budget |
| `ConnectionPool.Pool.Throw` | baikal-client/src/baikal_client_bns_connection_pool.cpp:255-297 | in an exact pool the walk for a dice below the total ends on the instance of the walk and never leaves the tree; it is accepted if and only if the rest of the dice is not above its recomputed weight and it is on line with a connection to spare |
| `ConnectionPool.Pool.ThrowNext` | baikal-client/src/baikal_client_bns_connection_pool.cpp:255-297 | one more throw extends the record of landings, each with what was judged, or the budget of 50 visits is used up, which a first throw does not do below 2^50 instances |
| `ConnectionPool.Pool.TrySelect` | baikal-client/src/baikal_client_bns_connection_pool.cpp:247-297 | every landing before the last was refused, its rest of the dice being above the recomputed weight or the instance without a connection to spare, and the last one accepted; none is only if the total is 0 or the 50 visits do not suffice for the next throw |
| `ConnectionPool.Pool.SelectLocalAware` | baikal-client/src/baikal_client_bns_connection_pool.cpp:247-305 | an instance returned by the tree is on line with a connection to spare and is where the last dice landed, all earlier landings having been refused for the weight or for want of a connection; every throw walks exact caches whose weights differ from those before only where the previous throw landed; the fallback answers only if the total is 0 or the 50 visits are used up, with the first in turn; where recomputing changes no weight and all have room the owner of the first dice is returned, so that selection is proportional to weight; in a pool whose bases can all be punished no arithmetic is undefined |
| `ConnectionPool.Pool.CalmIsSteady` | baikal-client/src/baikal_client_bns_connection_pool.cpp:247-305 | that is so in a pool with nothing in flight, every weight its base and a connection to spare everywhere |
| `ShardExpression.GrammarEvaluates` | baikal-client/src/shard_operator_mgr.cpp:49-176 | every text of the grammar evaluates to its value modulo 2^32, with one datum and no operator left; the grammar, which does not know the priorities, has a left fold for each of five levels of operators: `*` `/` `%` bind most tightly, then `+` `-`, the shifts, bitwise and, and bitwise or least |
| `ShardExpression.PrintedTreeEvaluates` | baikal-client/src/shard_operator_mgr.cpp:49-103 | every expression tree, parenthesised where the grammar needs it, evaluates to its value |
| `ShardExpression.TreePushesValue` | baikal-client/src/shard_operator_mgr.cpp:49-103 | on any stacks, a subexpression acts like pushing its value: nothing below is touched |
| `ShardExpression.SplitRecoversTokens` | baikal-client/src/shard_operator_mgr.cpp:105-153 | splitting any spacing of a list of tokens without adjacent numerals gives the list back |
| `ShardExpression.PrintSplitEvaluate` | baikal-client/src/shard_operator_mgr.cpp:49-153 | write a text of the grammar with any spacing, split and evaluate it: its value, undefined exactly if an operation is, never an error |
| `ShardExpression.SumsWrapAround` | baikal-client/include/shard_operator_mgr.h:77-90 | sum and difference modulo 2^32 |
| `ShardExpression.ProductIsCut` | baikal-client/include/shard_operator_mgr.h:91-97 | the product less a multiple of 2^32 |
| `ShardExpression.QuotientAndRemainder` | baikal-client/include/shard_operator_mgr.h:70-105 | quotient and remainder, undefined exactly for the divisor 0 |
| `ShardExpression.ShiftsMoveBits` | baikal-client/include/shard_operator_mgr.h:56-69 | the shifts, undefined exactly from 32 on |
| `ShardExpression.BitwiseOperators` | baikal-client/include/shard_operator_mgr.h:42-55 | and, or bit by bit |
| `ShardExpression.TrailingOperatorFails` | baikal-client/src/shard_operator_mgr.cpp:49-103 | an operator without right operand is a compute error |
| `ShardExpression.UnclosedFails` | baikal-client/src/shard_operator_mgr.cpp:49-103 | so is a parenthesis that is not closed |
| `ShardExpression.UnopenedIsUndefined` | baikal-client/src/shard_operator_mgr.cpp:72-79 | one that was not opened makes the source read the top of an empty stack |
| `ShardExpression.SplitKeepsText` | baikal-client/src/shard_operator_mgr.cpp:105-153 | any text is refused or torn into tokens that together are the text without its blanks |
| `ShardExpression.ParseNumeral` | baikal-client/src/shard_operator_mgr.cpp:61-66 | the digit loop computes the numeral in uint32 arithmetic |
| `ShardExpression.ReduceLoop` | baikal-client/src/shard_operator_mgr.cpp:72-100 | the reducing loops compute while the top operator binds tightly enough |
| `ShardExpression.Evaluate` | baikal-client/src/shard_operator_mgr.cpp:49-103 | the loops over tokens and stacks compute what the step-by-step semantics gives, errors included; for texts of the grammar that is their value (`GrammarEvaluates`) |
| `ShardExpression.NextToken` | baikal-client/src/shard_operator_mgr.cpp:105-153 | the length of the token at a position |
| `ShardExpression.Split` | baikal-client/src/shard_operator_mgr.cpp:105-153 | the scanning loop yields the token list, or the compute error of an unknown character |
| `KeyEncoder.SignedEncoding` | include/common/key_encoder.h:104-135 | exclusive-or with the sign mask is increasing in the signed value, and decoding undoes it |
| `KeyEncoder.SignBit` | include/common/key_encoder.h:104-172 | what exclusive-or, or, and, complement and shift do to a word and its sign mask |
| `KeyEncoder.FloatOrder` | include/common/key_encoder.h:139-165 | encoded floats are ordered as the numbers are, both zeros alike |
| `KeyEncoder.NaNSortsFirst` | include/common/key_encoder.h:139-165 | NaNs with the sign bit sort below every number |
| `KeyEncoder.NaNLooksLikeNumber` | include/common/key_encoder.h:139-165 | a NaN without it is encoded like the positive number whose pattern is its complement below the sign |
| `KeyEncoder.FloatRoundTrip` | include/common/key_encoder.h:139-172 | decoding recovers a float's bits if and only if it is neither negative zero nor a NaN without sign bit |
| `KeyEncoder.BigEndianOrder` | include/common/key_encoder.h:35-67 | memory order of big-endian bytes is the order of the numbers |
| `KeyEncoder.Swap16Reverses` | include/common/key_encoder.h:35-42 | and, shift and or with the two masks of the source exchange the bytes of a word |
| `KeyEncoder.Swap32Reverses` | include/common/key_encoder.h:43-53 | those with the four masks reverse its bytes |
| `KeyEncoder.Swap64Reverses` | include/common/key_encoder.h:54-67 | and so do those with the eight masks |
| `KeyEncoder.StoredIsBig16` | include/common/key_encoder.h:35-42 | what is stored after the byte swap is big-endian on a host of either endianness |
| `KeyEncoder.StoredIsBig32` | include/common/key_encoder.h:43-53 | the same for 32 bits |
| `KeyEncoder.StoredIsBig64` | include/common/key_encoder.h:54-67 | the same for 64 bits |
| `TableKey.KeyOrderIsValueOrder` | include/common/mut_table_key.h:150-183 | byte order of composite keys is field-by-field value order, for lists of any length and types with strings anywhere, if up to the first difference floats are numbers and no string but the last field extends its counterpart by a NUL |
| `TableKey.FieldOrder` | include/common/expr_value.h:842-893 | one encoded field followed by anything compares as the values do, and equal values leave the decision to what follows, unless one string extends the other by a NUL |
| `TableKey.StringFieldOrder` | include/common/mut_table_key.h:134-139 | terminated strings compare as the strings do, whatever follows, unless one extends the other by a NUL |
| `TableKey.NulExtensionBreaksOrder` | include/common/mut_table_key.h:134-139 | any string and its extension by a NUL begin two keys of two strings that sort against their values |
| `TableKey.InnerStringsIff` | include/common/mut_table_key.h:134-183 | keys that begin with two given strings sort as their values, whatever comparable fields follow, if and only if neither string extends the other by a NUL |
| `TableKey.NulFreeIsComparable` | include/common/mut_table_key.h:134-183 | lists whose floats are numbers and whose inner strings hold no NUL meet the condition |
| `TableKey.LastStringOrder` | include/common/mut_table_key.h:134-139 | a string at the end of a key may hold NULs |
| `TableKey.DecodeRecoversKey` | src/common/table_key.cpp:179-296 | decoding field by field recovers every appended value, and then ends at the key's length, if and only if no string holds a NUL |
| `TableKey.CanonicalIsFaithful` | include/common/table_key.h:108-119 | exactly negative zeros and NaNs without sign bit do not come back as themselves |
| `TableKey.EncodeOnAnyHost` | include/common/mut_table_key.h:42-183 | hosts of either endianness append the same bytes |
| `TableKey.LoadOnAnyHost` | include/common/table_key.h:65-119 | and extract the same numbers |
| `TableKey.SkipAgreesWithDecode` | src/common/table_key.cpp:485-580 | skipping a field lands where decoding it does, and fails where it does |
| `TableKey.FoundColumn` | src/common/table_key.cpp:469-580 | the position found for a partition column is the column's offset |
| `TableKey.ReplacedColumn` | include/common/mut_table_key.h:226-238 | replacing a date or datetime column at its position gives the key of the values with just that column replaced; every other column decodes as before |
| `TableKey.EncodeAllAppend` | include/common/mut_table_key.h:150-183 | appending a value to the key of a list gives the key of the longer list |
| `TableKey.MutTableKey.AppendValue` | include/common/mut_table_key.h:150-183 | the bytes of the value are appended, on either host |
| `TableKey.MutTableKey.ReplacePartitionCol` | include/common/mut_table_key.h:226-238 | dates and datetimes are overwritten in place, other types change nothing, a position outside the key fails |
| `TableKey.GetPartitionColPos` | src/common/table_key.cpp:469-483 | the loop over columns finds the offset, or -1 when the key ends early |
| `IncrementalUpdate.InsertIsUpdate` | include/common/common.h:944-964 | assignment into the ordered map keeps it ordered, replaces the entry of that index and keeps all others |
| `IncrementalUpdate.CheckKeepsPromise` | include/common/common.h:967-1027 | one generation after the other delivers exactly the stored entries in (last, applied], ascending, each once, or asks for the whole state when entries may be missing |
| `IncrementalUpdate.TwoGenerations` | include/common/common.h:1005-1023 | the second loop, which starts from where the first one stopped, completes the delivery |
| `IncrementalUpdate.DroppedAreOld` | include/common/common.h:944-964 | after any run of puts the store holds a suffix of them, and every put that is gone was made more than the time limit before the last |
| `IncrementalUpdate.EveryRunDrops` | include/common/common.h:944-964 | after any run of puts on an empty store at most two generations are held: the young one spans no more than the time limit, and as soon as a put makes it longer it becomes the old one and the old one is dropped |
| `IncrementalUpdate.KeptAreRecent` | include/common/common.h:944-964 | so with puts no more than a gap apart nothing is kept beyond twice the limit and the gap |
| `IncrementalUpdate.Log.PutIncrementalInfo` | include/common/common.h:944-964 | insertion, swap of the generations and timer, on the fields |
| `IncrementalUpdate.Log.Deliver` | include/common/common.h:988-996 | the delivery loop yields the entries in (last, applied] of an ordered map and the last index |
| `IncrementalUpdate.Log.CheckAndUpdateIncremental` | include/common/common.h:967-1027 | the method answers as promised |
| `IncrementalUpdate.Log.Clear` | include/common/common.h:1029-1038 | both generations are emptied |
| `SchemaHeartbeat.ReadKeepsUp` | include/common/common.h:967-1027 | a reader that goes on incrementally receives exactly the changes between its old and new index, and nothing up to the applied index is left, unless the log was emptied and the reader is one index behind |
| `SchemaHeartbeat.EveryFollowerKeepsUp` | include/common/common.h:944-1038 | through any sequence of puts, swaps, clears and polls of one log, a reader has received exactly the changes up to its index: the index never moves past one it did not receive |
| `SchemaHeartbeat.PutKeepsCurrent` | include/common/common.h:944-964 | putting the changes of the next raft entry, over the placeholder or not, with or without a swap, keeps a log without gaps |
| `SchemaHeartbeat.RestartIsCurrent` | src/meta_server/meta_state_machine.cpp:670-677 | the placeholder put after a restart makes an empty log current |
| `SchemaHeartbeat.BeatKeepsUpIff` | src/meta_server/schema_manager.cpp:531-582 | an answered reader has received exactly the changes of both kinds up to its index, if and only if regions are not withheld while the schema log takes the index past a change of them |
| `SchemaHeartbeat.EveryRunKeepsUp` | src/meta_server/schema_manager.cpp:531-582 | so in every run of puts, swaps, restarts and heartbeats |
| `SchemaHeartbeat.WithheldRegionsAreLost` | src/meta_server/schema_manager.cpp:549-555 | a heartbeat that withholds the regions moves the reader past a change of them that it never receives |
| `TableRewrite.ValidKeyWordIsWholeWord` | baikal-client/src/baikal_client_mysql_connection.cpp:609-621 | the test decides whole words; the character it reads in front of the text never matters |
| `TableRewrite.FindN` | baikal-client/src/baikal_client_mysql_connection.cpp:590-607 | the search loop |
| `TableRewrite.SkippingIsHarmless` | baikal-client/src/baikal_client_mysql_connection.cpp:590-607 | for a name that cannot nest in itself the search finds the least whole-word occurrence although it skips |
| `TableRewrite.FindIsLeastIff` | baikal-client/src/baikal_client_mysql_connection.cpp:590-607 | it does so in every text if and only if no copy of the name can start inside another behind a character that ends names; names of name characters qualify |
| `TableRewrite.HyphenatedNameNests` | baikal-client/src/baikal_client_mysql_connection.cpp:590-607 | the name a-a does not: it is missed in xa-a-a |
| `TableRewrite.ParseDbName` | baikal-client/src/baikal_client_mysql_connection.cpp:345-358 | the qualifier is the longest name that ends in front of the dot |
| `TableRewrite.LastNameIsLongest` | baikal-client/src/baikal_client_mysql_connection.cpp:345-358 | what that name is |
| `TableRewrite.RewriteIsEdit` | baikal-client/src/baikal_client_mysql_connection.cpp:427-452 | the loop, which edits the text under its cursor and reads qualifiers off the edited text, makes the edits of the original's visited occurrences |
| `TableRewrite.UnambiguousIff` | baikal-client/src/baikal_client_mysql_connection.cpp:427-452 | for every connection, whatever its logic database, it does so on every text if and only if neither the table's old name nor the end of its new name alone is the database's name |
| `TableRewrite.AmbiguousTextFails` | baikal-client/src/baikal_client_mysql_connection.cpp:427-452 | every ambiguous split has a text that is rewritten otherwise than its occurrences say |
| `TableRewrite.NewNameIsDb` | baikal-client/src/baikal_client_mysql_connection.cpp:427-452 | a new name that ends in the database's name is read as a qualifier: database.table.table is rewritten once too often |
| `TableRewrite.TableIsDb` | baikal-client/src/baikal_client_mysql_connection.cpp:427-452 | a table named like its database, where unqualified names belong elsewhere, is misread behind an occurrence that the cursor skips |
| `TableRewrite.RewriteSuffixes` | baikal-client/src/baikal_client_mysql_connection.cpp:427-452 | the result is the text with every occurrence that belongs to the split database suffixed and nothing else changed, if and only if the cursor skips none of them |
| `TableRewrite.AllBelonging` | baikal-client/src/baikal_client_mysql_connection.cpp:427-452 | nothing is skipped when all occurrences belong |
| `TableRewrite.SkippedOccurrence` | baikal-client/src/baikal_client_mysql_connection.cpp:450-450 | an occurrence behind one of another database can be skipped |
| `TableRewrite.RewriteTableName` | baikal-client/src/baikal_client_mysql_connection.cpp:427-452 | the loop terminates with that result |
| `LruCache.RemoveFromList` | include/common/lru_cache.hpp:52-52 | unlinking a node of the circle leaves the circle of the others |
| `LruCache.Append` | include/common/lru_cache.hpp:53-53 | appending a node links it in front of the sentinel |
| `LruCache.Cache.constructor` | include/common/lru_cache.hpp:22-26 | an empty cache with its threshold |
| `LruCache.Cache.Check` | include/common/lru_cache.hpp:36-42 | whether a key is held |
| `LruCache.Cache.Find` | include/common/lru_cache.hpp:45-57 | a hit gives the value and makes the pair the most recent; a miss changes nothing but the counter; map and list keep holding the same nodes once each |
| `LruCache.Cache.Add` | include/common/lru_cache.hpp:60-80 | the pair is last, behind the most recent others there is room for, so that the least recently used go; at most max(1, threshold - 1) pairs remain |
| `LruCache.Cache.Del` | include/common/lru_cache.hpp:83-93 | the pair of the key is gone, all others stay in order |
| `LruCache.EveryRunIsRecent` | include/common/lru_cache.hpp:45-93 | after any run the pairs are in the order of last use and the size is bounded |
| `LruCache.EvictedIsOlder` | include/common/lru_cache.hpp:45-93 | after any run a key that was added, not deleted since and is no longer held was last added or hit before every held key |
| `LruCache.EvictedWhenFull` | include/common/lru_cache.hpp:60-80 | and it went when an addition had left the cache with max(1, threshold - 1) pairs: nothing is evicted before the cache is full |
| `LruCache.HitIsLatest` | include/common/lru_cache.hpp:45-93 | after any run a hit gives the value last added for the key |
| `ConnectionOwnership.StepKeepsOwners` | baikal-client/src/baikal_client_instance.cpp:242-329 | no atomic step of fetching, creating, closing, pinging or deleting gives a connection a second owner |
| `ConnectionOwnership.StepKeepsApart` | baikal-client/src/baikal_client_instance.cpp:261-329 | a connection under construction is neither listed nor in a pinging thread's copy |
| `ConnectionOwnership.StepKeepsListed` | baikal-client/src/baikal_client_instance.cpp:519-548 | the vector holds each connection once and none that was deleted |
| `ConnectionOwnership.StepKeepsCount` | baikal-client/src/baikal_client_instance.cpp:261-329 | the published count is the size of the vector whenever no thread holds the write lock |
| `ConnectionOwnership.StepKeepsListing` | baikal-client/src/baikal_client_instance.cpp:769-822 | a connection in use or being checked stays listed, unless connections are removed whatever their state |
| `ConnectionOwnership.StepKeepsInv` | baikal-client/src/baikal_client_instance.cpp:242-329 | every step keeps all of it |
| `ConnectionOwnership.EveryRunIsSafe` | baikal-client/src/baikal_client_instance.cpp:242-329 | in every interleaving: at most one owner, exact count with the lock free, connections in use listed |
| `ConnectionOwnership.EveryRunLeaksNothing` | baikal-client/src/baikal_client_instance.cpp:242-329 | in every interleaving no connection leaks: one in use has a thread that uses it; one being checked has a thread that checks it, unless its ping and reconnect failed; an unused one is listed or with its maker, unless its maker gave it up or connections were removed whatever their state |
| `ConnectionOwnership.StepAccounts` | baikal-client/src/baikal_client_instance.cpp:784-822 | every step keeps that |
| `ConnectionOwnership.WholeFetch` | baikal-client/src/baikal_client_instance.cpp:242-259 | undisturbed, a fetch gives the first unused connection of the vector, in use |
| `ConnectionOwnership.WholeFetchInVain` | baikal-client/src/baikal_client_instance.cpp:242-259 | or nothing, and changes nothing, when there is none |
| `ConnectionOwnership.FetchThenClose` | baikal-client/src/baikal_client_instance.cpp:242-259 | closing a fetched connection restores the state before the fetch |
| `ConnectionOwnership.WholeBatch` | baikal-client/src/baikal_client_instance.cpp:261-286 | a batch of new connections is appended whole, unused, and counted |
| `ConnectionOwnership.WholeNew` | baikal-client/src/baikal_client_instance.cpp:288-329 | a special connection is appended, counted and given out in use |
| `ConnectionOwnership.WholeDeletion` | baikal-client/src/baikal_client_instance.cpp:519-548 | deleting takes the first unused connections, and stores the count of the others |
| `ConnectionOwnership.SparedCount` | baikal-client/src/baikal_client_instance.cpp:519-548 | as many as asked for, if there are that many |
| `ConnectionOwnership.WholeDrop` | baikal-client/src/baikal_client_instance.cpp:769-783 | bad connections are dropped, all of them and no others |
| `ConnectionOwnership.ClearingEmpties` | baikal-client/src/baikal_client_instance.cpp:760-768 | clearing empties the vector |
| `ConnectionOwnership.WholePing` | baikal-client/src/baikal_client_instance.cpp:784-822 | a ping that finds every connection alive leaves all as it was |
| `ConnectionOwnership.DeletionTakesUnused` | baikal-client/src/baikal_client_instance.cpp:519-548 | deletion of unused connections removes one that no thread owns |
| `ConnectionOwnership.GoneForGood` | baikal-client/src/baikal_client_instance.cpp:519-548 | and in no continuation is it used, checked or listed again |
| `ConnectionOwnership.StrayCloseIff` | baikal-client/src/baikal_client_connection.cpp:138-148 | in every state of the invariant, a close by a thread that need not own the connection keeps single ownership, and with it the whole invariant, if and only if the connection is not in use or nobody owns it |
| `ConnectionOwnership.StrayCloseMakesTwoOwners` | baikal-client/src/baikal_client_connection.cpp:138-148 | otherwise any thread that is looking at the connection becomes a second owner in its next step |
| `ConnectionOwnership.StrayCloseSharesConnection` | baikal-client/src/baikal_client_connection.cpp:138-148 | a schedule from the empty pool: thread 1 makes a connection and closes it, thread 2 fetches it, thread 1 closes it again, and thread 3 shares it with thread 2 |
| `TopK.SiftMakesHeap` | baikal-client/src/baikal_client_util.cpp:150-167 | sifting restores the heap and permutes its elements |
| `TopK.OfferKeepsLargest` | baikal-client/src/baikal_client_instance.cpp:723-728 | replacing the root by a larger sample keeps the largest of all samples |
| `TopK.StreamKeepsLargest` | baikal-client/src/baikal_client_instance.cpp:723-728 | after any stream the heap holds the K largest of the K initial values and the samples |
| `TopK.RootIsKthLargest` | baikal-client/src/baikal_client_util.cpp:135-137 | its root is the K-th largest |
| `TopK.KthInOrder` | baikal-client/src/baikal_client_util.cpp:135-137 | which is the element at place K of any descending arrangement |
| `TopK.InitialsDoNotCount` | baikal-client/src/baikal_client_instance.cpp:723-738 | the initial values make no difference once there are K samples, none below them |
| `TopK.HeapSort.constructor` | baikal-client/src/baikal_client_util.cpp:122-134 | a heap of count initial values |
| `TopK.HeapSort.GetMinValue` | baikal-client/src/baikal_client_util.cpp:135-137 | the root, which is least |
| `TopK.HeapSort.MinHeapify` | baikal-client/src/baikal_client_util.cpp:150-167 | the recursive swaps sift the element in place |
| `TopK.HeapSort.HeapDown` | baikal-client/src/baikal_client_util.cpp:138-144 | the root is returned and replaced, and the heap restored |
| `TopK.HeapSort.Clear` | baikal-client/src/baikal_client_util.cpp:145-149 | all elements are initial again |
| `TopK.Quartile.Update` | baikal-client/src/baikal_client_instance.cpp:723-738 | a full window's value is the 100th largest of its samples and the initial values, and the ratio to the average latency is stored, unless that average is 0 and the source divides by it; until then the sample joins the window |
| `TopK.ShiftDownIsSift` | include/common/common.h:1409-1428 | the heap that starts at index 0 sifts alike |
| `TopK.Heap.ReplaceTop` | include/common/common.h:1390-1395 | a replaced top keeps the heap, and a larger one the K largest |
| `TopK.Heap.ShiftDown` | include/common/common.h:1409-1428 | the swaps on the vector |
| `TopK.Heap.Top` | include/common/common.h:1384-1389 | the least element, or the default of an empty heap |
| `TopK.WindowGrows` | include/common/schema_factory.h:943-959 | the window of a history: what the last full window, and the sample that closed it, left |
| `TopK.SqlStatistics.Update` | include/common/schema_factory.h:943-978 | after any history the values of a full window are the 100th largest of its samples and 100 zeros, the sample that closes it being in none; in the first window the maximum of the samples, and from the 1000th on the 100th largest so far; the ratio follows while the average latency is positive |
| `RangePartition.CalcPartition` | include/common/schema_factory.h:514-586 | the reverse loops find the last matching range; reads also look among the attached ranges; which ranges those are `SeenPlace` to `SwitchedWriteIsRefused` say |
| `RangePartition.CalcPartitions` | include/common/schema_factory.h:587-682 | the loops collect the ids of the ranges the user reaches that meet the query (`ReachedIff`, `MeetsIff`), or refuse a write to a switched table |
| `RangePartition.GetSpecifiedPartitionIds` | include/common/schema_factory.h:708-752 | the loops collect all ids the user reaches (`ReachedIff`) |
| `RangePartition.ContainsIff` | include/common/schema_factory.h:514-586 | ranges are closed at the left and open at the right |
| `RangePartition.SeenPlace` | include/common/schema_factory.h:514-893 | a value belongs to the last range that contains it and that the user sees: a cold one or a hot one of the user's kind, the default without a user; while the table is switched one of the other kind, and before isolation one of the primary kind |
| `RangePartition.UnseenPlace` | include/common/schema_factory.h:514-586 | without one, a write finds no partition and a read the attached one |
| `RangePartition.AttachedPlace` | include/common/schema_factory.h:514-586 | the last attached range that contains the value is all that a confined user reads or writes, and what others read beside their own |
| `RangePartition.SwitchedWriteIsRefused` | include/common/schema_factory.h:514-682 | a write to a switched table is refused |
| `RangePartition.ReachedIff` | include/common/schema_factory.h:587-752 | a query reaches exactly the ranges that the user sees and that meet it, and a read or a confined user the attached ones that meet it |
| `RangePartition.AskedIsMet` | include/common/schema_factory.h:627-648 | a range with a value that the query asks for is never pruned |
| `RangePartition.MeetsIff` | include/common/schema_factory.h:627-648 | and of a query that asks for something only ranges with a value it asks for are left, an open left end counting as closed |
| `RangePartition.PlaceIsReached` | include/common/schema_factory.h:514-682 | for every user, kind, cold, isolation and switch setting, the partitions of a value are among those of every query that asks for it, unless a read narrows the attached partition's id to another one |
| `RangePartition.PlaceIsReachedIff` | include/common/schema_factory.h:514-682 | the condition on the id is exact: it holds for every table, user and query with that attached partition if and only if the id fits an int or narrows to -1 |
| `RangePartition.LargeIdIsMistaken` | include/common/schema_factory.h:567-584 | partition 4294967303 is taken for partition 7, which the query does not reach |
| `RangePartition.AttachedIsReportedIff` | include/common/schema_factory.h:567-584 | the attached partition is reported if and only if its id fits an int |
| `RangePartition.LargeIdIsLost` | include/common/schema_factory.h:567-584 | the id 4294967295 is taken for no partition |
| `RangePartition.PrunedIsReached` | include/common/schema_factory.h:587-752 | pruning keeps a part of what the user reaches |
| `RangePartition.WrittenIsRead` | include/common/schema_factory.h:514-682 | what a user of a table that is not switched writes, it reads from the same partition and finds with every query that asks for it |
| `Histogram.Scalar` | include/common/histogram.h:92-124 | a bucket's share lies between 0 and its size, is 0 when the range misses the bucket and the size when it covers it, and in between what `FrontShare`, `InnerShare` and `BackShare` say; the fraction never divides by zero |
| `Histogram.FrontShare` | include/common/histogram.h:92-124 | from the start of a bucket to inside it the share is the rows in proportion to the length, rounded up, and at least those of one distinct value |
| `Histogram.InnerShare` | include/common/histogram.h:92-124 | so it is strictly inside |
| `Histogram.BackShare` | include/common/histogram.h:92-124 | from inside to the end it is the rest, what lies in front counting for at least one distinct value |
| `Histogram.TotalIsBounded` | include/common/histogram.h:154-192 | the estimate lies between 0 and the rows of the overlapped buckets |
| `Histogram.CoveringCountsAll` | include/common/histogram.h:154-192 | a covering range counts all rows |
| `Histogram.InsideGrowsIff` | include/common/histogram.h:92-124 | from inside a bucket the estimate grows over every pair of upper bounds if and only if reaching the bucket's end loses no rows |
| `Histogram.GrowsAtEndIff` | include/common/histogram.h:92-124 | a bucket loses none, whatever its size, if and only if the share of one distinct value fits behind the place of the bound, twice into the bucket, and in front of that place with one more step |
| `Histogram.TotalGrowsIff` | include/common/histogram.h:154-192 | over disjoint buckets the estimate for ranges from a bound grows with the upper bound if and only if the bound falls into no bucket, or into one that loses no rows when its end is reached |
| `Histogram.EstimateDropsAtEnd` | include/common/histogram.h:106-116 | a range inside a bucket can be estimated above a wider one that reaches the bucket's end |
| `Histogram.GetCount` | include/common/histogram.h:154-192 | the walk back with its early exit gives the sum of all buckets' shares; -1 without buckets and -2 outside of them |
| `HllRegisters.GetAfterWrite` | include/common/hll_common.h:218-240 | reading back gives the written value for the register written and the old one for every other, straddling or not; the byte behind the registers is untouched |
| `HllRegisters.DigitsMakeNumber` | include/common/hll_common.h:97-102 | four registers are the base-64 digits of the number that three bytes make up |
| `HllRegisters.GetIsDigit` | include/common/hll_common.h:218-226 | reading a register with the macro's shifts, or and mask gives its digit |
| `HllRegisters.WrittenGroup` | include/common/hll_common.h:230-240 | writing one with the macro's complemented masks, shifts and ors changes its digit and no other |
| `HllRegisters.EveryRunReadsLastWrite` | include/common/hll_common.h:218-240 | after any sequence of writes a register reads as last written |
| `HllRegisters.Set` | include/common/hll_common.h:230-240 | the complemented masks, shifts and ors on two bytes in place |
| `HllRegisters.DenseSet` | src/common/hll_common.cpp:84-94 | the register is written if and only if the value is larger |
| `HllRegisters.EveryRunKeepsLargest` | src/common/hll_common.cpp:84-94 | after any sequence of offers every register holds the largest value it was offered, whatever its neighbours were |
| `CountMinSketch.CellNeverUndercounts` | include/common/cmsketch.h:43-50 | for every stream a hash's cell in each row is at least its true count |
| `CountMinSketch.RowsSumToTotal` | include/common/cmsketch.h:43-50 | and every row sums to the stream's total |
| `CountMinSketch.CellsOfSum` | include/common/cmsketch.h:89-99 | the cells of two streams in a row are the sums of their cells |
| `CountMinSketch.CMsketchColumn.SetValue` | include/common/cmsketch.h:43-50 | the cells become those of the longer stream |
| `CountMinSketch.CMsketchColumn.PlusAssign` | include/common/cmsketch.h:89-99 | the cells become those of both streams; nothing changes when the dimensions differ |
| `CountMinSketch.CMsketchColumn.ToProto` | include/common/cmsketch.h:109-121 | the items add up to the cells |
| `CountMinSketch.CMsketchColumn.AddProto` | include/common/cmsketch.h:123-133 | adding another column's items gives the cells of both streams, for the same field only; the counter grows by the total of both |
| `CountMinSketch.CMsketchColumn.GetTotalRows` | include/common/cmsketch.h:101-107 | the total of the stream |
| `CountMinSketch.CMsketchColumn.GetValue` | include/common/cmsketch.h:52-87 | the median of the denoised cells as ints, cut off at the least cell, or nothing where the sum of two middle values overflows an int |
| `CountMinSketch.EstimateIsBounded` | include/common/cmsketch.h:52-87 | where there is one it lies between 0 and every cell of the hash |
| `CountMinSketch.CopiesAreExactIff` | include/common/cmsketch.h:52-87 | equal cells survive if and only if they are 0, or the total exceeds them by less than the width less one and they are below 2^31 (2^30 for an even depth), or the total is below them and the cell with its negative noise is below that bound |
| `CountMinSketch.SmallCellsAreExact` | include/common/cmsketch.h:52-87 | with cells below 2^29 nothing overflows: the estimate is the median of the denoised cells themselves |
| `CountMinSketch.OneHashIsExactIff` | include/common/cmsketch.h:52-87 | a column of any depth and width that saw one hash only, in any insertions and with any counted total, estimates it exactly if and only if its count survives |
| `CountMinSketch.LargeCountsAreLost` | include/common/cmsketch.h:52-87 | at depth 5, 2^31 insertions are estimated as 0, and without a counted total, as set_value leaves it, 5 * 2^28 insertions in a sketch two cells wide are |
| `CountMinSketch.SortedUpSorts` | include/common/cmsketch.h:72-72 | the sorted values are an ascending permutation |
| `CountMinSketch.MiddleIsMedian` | include/common/cmsketch.h:72-79 | the middle of the sorted values is their median, the mean of two rounded down |
| `CountMinSketch.DeltaBit` | include/common/cmsketch.h:44-44 | the step from row to row is the hash moved down by 17 bits or-ed with the hash moved up by 15 |

## Left out

- MySQL, brpc, RocksDB, protobuf, logging and configuration: the outcomes of connecting, pinging and
  querying are inputs or nondeterministic steps; random numbers and clock readings are parameters.
- `_select_instance_random`, the scheduling loops of `healthy_check` and `hang_check`, and the
  reallocation of connections: their steps are modelled, their order is not.
- ConnectionPool.Pool.Feedback: the latency deviation is an arbitrary non-negative parameter, because the
  source takes a floating-point square root; sums of weights and the total are unbounded integers,
  overflow is modelled for the products of the weight formulas only.
- ConnectionPool.Pool.SelectLocalAware: whole operations are atomic here; under finer interleavings only
  conservation of the caches is stated (`WeightPublication`), because a status change and its weight
  change are separate steps.
- ConnectionOwnership.EveryRunIsSafe: it covers callers that close a connection once and only while they
  own it (`StrayCloseIff` says when another close is harmless), and the status checks that precede
  fetching and pinging are dropped, so that the model has more runs than the code; killing a connection's query in `hang_check` has no effect on statuses.
- ShardExpression.PrintSplitEvaluate: `|` and literals that start with 0 are evaluated but not lexed by the
  source, so texts with them are outside the round trip and only in `GrammarEvaluates`; division by zero
  and shifts by 32 or more are undefined in the source and in the model.
- TableKey.KeyOrderIsValueOrder: excludes NaN, which compares as equal to every float; `ExprValue::compare`
  across different types, and the HEX, JSON and DECIMAL types, are not modelled.
- IncrementalUpdate: the two copies inside `DoublyBufferedData` are one store, so that a modification is
  a single step.
- SchemaHeartbeat.EveryRunKeepsUp: a heartbeat reads applied index and logs at one moment; filters by
  table and partition, which drop changes a reader did not subscribe to, are not modelled; when regions
  are withheld is an input.
- TableRewrite.RewriteSuffixes: the table name is a non-empty name; parsing of statements to find table
  names, case-insensitive search and the choice of the shard are not modelled.
- TableRewrite.FindN: an empty key word, on which the source does not terminate or wraps around, is excluded.
- LruCache: deallocation of nodes and the mutex are not modelled.
- TopK.SqlStatistics.Update: counts and samples are unbounded; the average latency is set elsewhere, and
  `dynamic_timeout_ms` is not modelled.
- RangePartition: expressions other than a plain column, on which `calc_partitions` ignores the account
  settings, are not modelled; column values are integers by rank, since only their order matters.
- Histogram.GetCount: ratios are reals and values integers; string prefixes, the count of a single value
  and sums beyond 32 bits are not modelled.
- CountMinSketch.CMsketchColumn.SetValue: overflow of the 64-bit cells is not modelled.
- The sparse HyperLogLog representation, t-digest, token buckets, transactions, the SQL planner and
  executor, raft and storage.
