# Search-result pipeline of the search server, in Dafny

This project models the in-memory core of a search server that sits in front of a vector store. A search request names a ranking, and the server runs one of two kinds:

- a single nearest-neighbour (KNN) query;
- a Reciprocal Rank Fusion (RRF) of several KNN queries.

The server then:

1. turns the store's raw, batch-nested answer into result items;
2. fuses the ranked lists, when there are several;
3. applies the offset and the limit;
4. projects each item onto the requested fields;
5. optionally groups the items and keeps the top k of each group.

The modules follow the services of `packages/server/src/services`, one file each:

| file | module | models |
|---|---|---|
| `types.dfy` | `Types` | result items, metadata values, KNN queries, RRF clauses |
| `text_order.dfy` | `TextOrder` | the string order used for string sort keys |
| `stable_sort.dfy` | `StableSort` | the stable comparator sort (`Array.prototype.sort`) |
| `result_transformer.dfy` | `ResultTransformer` | `chroma-result-transformer.service.ts` |
| `rrf_fusion.dfy` | `RrfFusion` | `rrf-fusion.service.ts` |
| `group_by.dfy` | `GroupByAggregator` | `group-by-aggregator.service.ts` |
| `field_selector.dfy` | `FieldSelector` | `field-selector.service.ts` |
| `search_executor.dfy` | `SearchExecutor` | `search-executor.service.ts`, and the KNN step of `knn-query-executor.service.ts` |

Where the source works step by step, the model is a `method`, and each method is proved equal to a specification function:

- the transformer's index loop;
- the nested loops that fill RRF's score map;
- the loop that partitions items into groups;
- the loop that builds a partial metadata map;
- the executor's sequence of slice, select and group steps.

The lemmas state what those functions mean.

The vector store is a parameter of the executor. It is a function from the query the executor sends (query, `nResults`, filters) to the store's raw answer, or to `None` when the store call fails. Numbers are `real`.

Some behaviours follow the code even where one might expect otherwise:

- **Pagination counts items, not groups.** The offset and the limit apply to the ranked items. Grouping then runs on the paginated, projected items. `totalGroups` and `totalItems` therefore describe that page (`search-executor.service.ts:40-67`).
- **Missing sort values.** Under `$min_k`, an item without a value for a sort key sorts after items that have one. Under `$max_k` it sorts before them, because the comparator mirrors the direction (`group-by-aggregator.service.ts:111-112`).
- **First occurrence wins in RRF.** A fused item keeps every field of its id's first occurrence, the distance included. Only the score is replaced (`rrf-fusion.service.ts:47-56`, `:68-71`).
- **The RRF formula.** Each occurrence contributes `weight / (k + rank + 1)`, with zero-based ranks. The clause schema's comment writes `k + rank_i`. The service code and its own comment add 1, and the model follows the code (`rrf-fusion.service.ts:12`, `:45`).
- **Rank mode.** Rank mode is on only when `returnRank` is `true`. The score is then the item's position in the store's list, and positions skipped for an empty id still count (`chroma-result-transformer.service.ts:26-42`).

## Model

| member | source | states |
|---|---|---|
| TextOrder.CompareZeroIffEqual | packages/server/src/services/group-by-aggregator.service.ts:123-127 | the string comparison standing for `localeCompare` reports a tie exactly for equal strings |
| TextOrder.CompareAntisymmetric | packages/server/src/services/group-by-aggregator.service.ts:123-127 | swapping the strings negates the comparison |
| TextOrder.CompareTransitive | packages/server/src/services/group-by-aggregator.service.ts:123-127 | "not after" is transitive, so strings are totally ordered |
| StableSort.Sort | packages/server/src/services/group-by-aggregator.service.ts:104 | the sort returns a permutation of its input: same length, same multiset |
| StableSort.SortSorted | packages/server/src/services/rrf-fusion.service.ts:65 | for a total-preorder comparator, the output is sorted: no element comes after a later one |
| StableSort.SortStable | packages/server/src/services/group-by-aggregator.service.ts:104-131 | for a total-preorder comparator, the elements tying with any v keep their input order |
| StableSort.SortNoRepeats | packages/server/src/services/rrf-fusion.service.ts:65 | sorting a sequence without repeats gives one without repeats |
| ResultTransformer.TransformQueryResults | packages/server/src/services/chroma-result-transformer.service.ts:12-49 | the index loop with `continue` builds exactly `Transform` of the raw answer |
| ResultTransformer.KeptIndicesExact | packages/server/src/services/chroma-result-transformer.service.ts:26-28 | the kept positions are exactly the positions with a non-empty id, strictly ascending, each at least its output index |
| ResultTransformer.TransformItems | packages/server/src/services/chroma-result-transformer.service.ts:26-46 | output item j is the item built from the j-th kept position; one output item per kept position |
| ResultTransformer.TransformIds | packages/server/src/services/chroma-result-transformer.service.ts:20-28 | the output ids are the non-empty ids of the first batch, in order, one item each |
| ResultTransformer.TransformReadsFirstBatchOnly | packages/server/src/services/chroma-result-transformer.service.ts:20-24 | two answers with the same first batch give the same items: later batches are ignored |
| ResultTransformer.NullableAtAbsent | packages/server/src/services/chroma-result-transformer.service.ts:30-38 | a field is absent exactly when its array is missing, too short or holds null there; never an error |
| ResultTransformer.TransformFields | packages/server/src/services/chroma-result-transformer.service.ts:30-43 | each field of output item j comes from its source position i; rank mode gives score i and no distance, otherwise no score and the distance at i |
| ResultTransformer.TransformEmpty | packages/server/src/services/chroma-result-transformer.service.ts:20 | no batch, or an empty first batch, gives no items |
| ResultTransformer.RankModeCountsSkippedPositions | packages/server/src/services/chroma-result-transformer.service.ts:26-42 | in rank mode, ids `doc1, "", doc3` give items doc1 and doc3 with scores 0 and 2 and no distances |
| RrfFusion.Process | packages/server/src/services/rrf-fusion.service.ts:17-72 | the service's steps (k, weights, normalization, accumulation, sort, output) compute `Fuse` |
| RrfFusion.AccumulateScores | packages/server/src/services/rrf-fusion.service.ts:31-58 | the nested loops build the score map the visit order defines |
| RrfFusion.EffectiveWeights | packages/server/src/services/rrf-fusion.service.ts:22-28 | normalization keeps the number of weights |
| RrfFusion.TableAt | packages/server/src/services/rrf-fusion.service.ts:47-56 | the map's insertion order lists exactly its keys |
| RrfFusion.TableAtFacts | packages/server/src/services/rrf-fusion.service.ts:34-58 | at every point of the loops, the keys are the ids seen so far, without repeats; each holds its first occurrence's item and the sum of its contributions so far |
| RrfFusion.TableAtOrder | packages/server/src/services/rrf-fusion.service.ts:31-58 | at every point of the loops, the map's keys are in first-seen order: each position holding a later key comes after a position holding an earlier one |
| RrfFusion.FuseIds | packages/server/src/services/rrf-fusion.service.ts:47-71 | the output holds every id of the input lists exactly once, and no other id |
| RrfFusion.FuseIdsDistinct | packages/server/src/services/rrf-fusion.service.ts:47-71 | no id is output twice |
| RrfFusion.FuseHasId | packages/server/src/services/rrf-fusion.service.ts:47-71 | an id is output exactly when some input list holds it |
| RrfFusion.FuseItem | packages/server/src/services/rrf-fusion.service.ts:47-71 | output item j is the first occurrence of its id, with score `-sum(weight_q / (k + rank + 1))` over all its occurrences |
| RrfFusion.FuseScoresNonDecreasing | packages/server/src/services/rrf-fusion.service.ts:65-71 | every output item has a score, and scores never decrease along the output (best first) |
| RrfFusion.FuseTiesKeepInsertionOrder | packages/server/src/services/rrf-fusion.service.ts:65 | entries with equal sums keep the map's insertion order: the sort is stable |
| RrfFusion.FuseTiesInFirstSeenOrder | packages/server/src/services/rrf-fusion.service.ts:31-71 | of two outputs with equal scores, the earlier one's id was seen first: every position holding the later id comes after a position holding the earlier one |
| RrfFusion.NormalizedWeightsSumToOne | packages/server/src/services/rrf-fusion.service.ts:25-28 | with `normalize` and at least one weight, the weights used sum to 1 |
| RrfFusion.ListWeight | packages/server/src/services/rrf-fusion.service.ts:22-36 | list q's weight is the given one, 1 past the given weights, 1 when none are given, and divided by the sum under `normalize` (1/n with no weights given) |
| RrfFusion.LoneItemScore | packages/server/src/services/rrf-fusion.service.ts:21-45 | a lone item at rank 0 scores -1/61 with the default k |
| RrfFusion.LoneItemCustomK | packages/server/src/services/rrf-fusion.service.ts:21-45 | a lone item at rank 0 scores -1/11 with k = 10 |
| RrfFusion.FuseLoneItem | packages/server/src/services/rrf-fusion.service.ts:21-45 | a lone item at rank 0 of one list with weight 1 scores -1/(k + 1) |
| RrfFusion.FuseOfEntries | packages/server/src/services/rrf-fusion.service.ts:47-71 | a final map of two entries with equal sums is output in map order with negated sums |
| RrfFusion.RepeatedIdSumsAndKeepsFirst | packages/server/src/services/rrf-fusion.service.ts:47-56 | an id at rank 0 of two lists scores -2/61 and keeps the first occurrence's distance |
| RrfFusion.WeightedScore | packages/server/src/services/rrf-fusion.service.ts:36-45 | weights [2, 2] give each rank-0 item -2/61, and the tie keeps first-seen order |
| RrfFusion.NormalizedWeightsScore | packages/server/src/services/rrf-fusion.service.ts:25-45 | normalized weights [2, 2] become [0.5, 0.5] and give each rank-0 item -0.5/61 |
| GroupByAggregator.ValuesOfMeaning | packages/server/src/services/group-by-aggregator.service.ts:64-71 | the composite value exists exactly when every key has a value, and then lists them in key order |
| GroupByAggregator.GroupValueMeaning | packages/server/src/services/group-by-aggregator.service.ts:59-72 | one key gives its raw value; several keys give the tuple, or no group when any is missing; no keys put every item in the empty-tuple group |
| GroupByAggregator.GetGroupValue | packages/server/src/services/group-by-aggregator.service.ts:59-72 | the loop with early return computes the item's group value |
| GroupByAggregator.PartitionOf | packages/server/src/services/group-by-aggregator.service.ts:40-57 | the map's insertion order lists exactly its keys |
| GroupByAggregator.GroupResults | packages/server/src/services/group-by-aggregator.service.ts:40-57 | the grouping loop builds the partition the items define |
| GroupByAggregator.PartitionGroups | packages/server/src/services/group-by-aggregator.service.ts:44-56 | one group per group value that occurs, none twice; each holds exactly the items with that value, in input order, and is non-empty |
| GroupByAggregator.PartitionNoRepeats | packages/server/src/services/group-by-aggregator.service.ts:44-56 | the map's key order never holds a value twice |
| GroupByAggregator.PartitionKeys | packages/server/src/services/group-by-aggregator.service.ts:44-56 | the map has a key exactly for each group value some item has |
| GroupByAggregator.PartitionMembers | packages/server/src/services/group-by-aggregator.service.ts:46-53 | each group holds exactly the items with its value, in input order, and is non-empty |
| GroupByAggregator.PartitionExtends | packages/server/src/services/group-by-aggregator.service.ts:51-53 | visiting an item keeps the key order so far and appends its value only when no earlier item had it |
| GroupByAggregator.MembersExact | packages/server/src/services/group-by-aggregator.service.ts:46-53 | a group's items all have its value, and every item with that value is in it |
| GroupByAggregator.PartitionOrderFirstSeen | packages/server/src/services/group-by-aggregator.service.ts:44-56 | the map's key order is the items' group values, skipping items in no group, each kept at its first occurrence only |
| GroupByAggregator.PartitionFirstSeenOrder | packages/server/src/services/group-by-aggregator.service.ts:20 | groups come in first-seen order: each earlier group has an item before any item of a later group |
| GroupByAggregator.MemberCountBound | packages/server/src/services/group-by-aggregator.service.ts:46-53 | distinct groups together hold no more items than there are |
| GroupByAggregator.KeyCompareAntisymmetric | packages/server/src/services/group-by-aggregator.service.ts:105-128 | one key's verdict is antisymmetric |
| GroupByAggregator.KeyCompareTransitive | packages/server/src/services/group-by-aggregator.service.ts:105-128 | when values are of one kind, one key's verdict is transitive |
| GroupByAggregator.CompareItemsAntisymmetric | packages/server/src/services/group-by-aggregator.service.ts:104-131 | the item comparator is antisymmetric |
| GroupByAggregator.CompareItemsTransitive | packages/server/src/services/group-by-aggregator.service.ts:104-131 | the item comparator is transitive when each key's values are of one kind |
| GroupByAggregator.ComparatorTotal | packages/server/src/services/group-by-aggregator.service.ts:104-131 | on well-typed items the comparator is a total preorder |
| GroupByAggregator.SortAndSliceSize | packages/server/src/services/group-by-aggregator.service.ts:133 | min(k, size) items are kept, each from the group and none more often than it occurs |
| GroupByAggregator.SortAndSliceOrder | packages/server/src/services/group-by-aggregator.service.ts:98-134 | kept items are in comparator order, and no item left out comes before a kept one |
| GroupByAggregator.FirstKeyInOrder | packages/server/src/services/group-by-aggregator.service.ts:109-128 | "not after" means, on the first key: ascending numbers or strings with missing values last, or the mirror image descending |
| GroupByAggregator.SortAndSliceFirstKey | packages/server/src/services/group-by-aggregator.service.ts:85-133 | `$min_k` output runs non-decreasing on the first key with missing values last; `$max_k` runs non-increasing with missing first |
| GroupByAggregator.SortAndSliceStable | packages/server/src/services/group-by-aggregator.service.ts:104-133 | kept items that tie on every sort key are the first such items of the group, in group order |
| GroupByAggregator.Process | packages/server/src/services/group-by-aggregator.service.ts:10-31 | the service's loop over the groups computes `GroupBy` |
| GroupByAggregator.AggregateGroups | packages/server/src/services/group-by-aggregator.service.ts:18-30 | the loop over the map entries builds `MakeGroups`: one group per key, in key order, each with the key name and the aggregated items |
| GroupByAggregator.MakeGroups | packages/server/src/services/group-by-aggregator.service.ts:20-28 | one group per entry of the key order, group j carrying the j-th value |
| GroupByAggregator.ApplyAggregationSize | packages/server/src/services/group-by-aggregator.service.ts:85-95 | either aggregate keeps min(k, size) items, each from the group and none more often than it occurs |
| GroupByAggregator.GroupAt | packages/server/src/services/group-by-aggregator.service.ts:20-28 | output group j has the j-th first-seen value, the joined key name, and min(k, size) of that value's (non-empty) items |
| GroupByAggregator.GroupByValues | packages/server/src/services/group-by-aggregator.service.ts:10-31 | the output groups are those, and only those, of the occurring group values, none twice |
| GroupByAggregator.GroupByGroups | packages/server/src/services/group-by-aggregator.service.ts:10-31 | there is one output group per occurring value, none twice; key name is the fields joined by ","; min(k, size) items are drawn from exactly that value's items |
| GroupByAggregator.GroupByOrderedWithinGroups | packages/server/src/services/group-by-aggregator.service.ts:20-27 | on well-typed results, every group's items are in comparator order and in the aggregate's direction on the first key |
| GroupByAggregator.GroupByEmpty | packages/server/src/services/group-by-aggregator.service.ts:10-31 | no results give no groups |
| GroupByAggregator.FourGroups | packages/server/src/services/group-by-aggregator.service.ts:10-31 | five results with group values g1, g2, g1, g3, g4, all distinct, make exactly the four groups g1, g2, g3, g4, in that order |
| GroupByAggregator.CompositeKeysExample | packages/server/src/services/group-by-aggregator.service.ts:10-31 | grouping the tests' five results on category and year gives four groups: A/2024, A/2023, B/2024, B/2023 |
| GroupByAggregator.GroupKeyJoinsFields | packages/server/src/services/group-by-aggregator.service.ts:24 | key names `category` and `category,year` |
| GroupByAggregator.MissingScoreSortsLast | packages/server/src/services/group-by-aggregator.service.ts:109-112 | ascending on `#score`, scores 0.1, none, 0.3 sort as 0.1, 0.3, none |
| FieldSelector.MetadataFields | packages/server/src/services/field-selector.service.ts:17-19 | the metadata fields are exactly the keys not starting with `#` |
| FieldSelector.Restrict | packages/server/src/services/field-selector.service.ts:58-63 | the partial map holds exactly the named fields that exist, with their values |
| FieldSelector.PartialMetadata | packages/server/src/services/field-selector.service.ts:58-63 | the loop over the named fields builds `Restrict`: exactly the named entries that exist, with their values |
| FieldSelector.FilterMetadata | packages/server/src/services/field-selector.service.ts:52-68 | the metadata branch yields `ProjectMetadata`: the whole map under `#metadata` or an empty key set, otherwise the non-empty partial map or nothing |
| FieldSelector.ProjectItem | packages/server/src/services/field-selector.service.ts:22-70 | the conditional assignments build `Project` of the item |
| FieldSelector.Process | packages/server/src/services/field-selector.service.ts:8-72 | every item is projected, in order |
| FieldSelector.SelectKeepsIds | packages/server/src/services/field-selector.service.ts:21-25 | same length as the input, and item j keeps item j's id |
| FieldSelector.EmptySelectionIsIdentity | packages/server/src/services/field-selector.service.ts:13-55 | an empty key set copies every item unchanged |
| FieldSelector.ProjectSynthesisesNothing | packages/server/src/services/field-selector.service.ts:28-66 | every present output field is the input's own value; output metadata is part of the input's |
| FieldSelector.ScoreSelectsDistance | packages/server/src/services/field-selector.service.ts:42-49 | `#score` selects both score and distance, each when present; `#distance` alone selects neither |
| FieldSelector.MetadataMarkerWins | packages/server/src/services/field-selector.service.ts:52-55 | `#metadata` keeps the whole metadata map, whatever named fields accompany it |
| FieldSelector.NamedMetadataFields | packages/server/src/services/field-selector.service.ts:56-66 | named fields keep exactly the entries that exist, and no metadata when none do |
| FieldSelector.UnselectedFieldsAbsent | packages/server/src/services/field-selector.service.ts:22-70 | a non-empty key set leaves out every field it does not select |
| FieldSelector.ProjectIdempotent | packages/server/src/services/field-selector.service.ts:21-71 | projecting twice onto the same keys changes nothing more |
| FieldSelector.SelectIdempotent | packages/server/src/services/field-selector.service.ts:8-72 | selecting twice onto the same keys equals selecting once |
| FieldSelector.NamedFieldsExample | packages/server/src/services/field-selector.service.ts:56-66 | `#score, title, author` keep score, distance and those two entries |
| FieldSelector.MissingFieldsExample | packages/server/src/services/field-selector.service.ts:56-66 | `nonexistent` keeps only the id |
| SearchExecutor.SubQueryResults | packages/server/src/services/search-executor.service.ts:96-105 | on success there is one result list per sub-query |
| SearchExecutor.ExecuteKnn | packages/server/src/services/knn-query-executor.service.ts:17-64 | the KNN step computes `KnnSearch`: key check, store call, transform |
| SearchExecutor.ExecuteRrf | packages/server/src/services/search-executor.service.ts:91-109 | the sub-query loop, stopping at the first error, then fusion, computes `RrfSearch` |
| SearchExecutor.Execute | packages/server/src/services/search-executor.service.ts:27-78 | ranking, offset, limit, selection and grouping in turn compute `Search` |
| SearchExecutor.SubQueryErrorSticks | packages/server/src/services/search-executor.service.ts:98-105 | once a sub-query fails, later ones do not change the outcome |
| SearchExecutor.SubQueryResultsMeaning | packages/server/src/services/search-executor.service.ts:96-105 | success exactly when every sub-query succeeds, with list q the result of sub-query q; otherwise the error of the first failing one |
| SearchExecutor.FusesSubQueriesInOrder | packages/server/src/services/search-executor.service.ts:91-109 | fusion receives the sub-queries' lists in sub-query order |
| SearchExecutor.MissingRankRejected | packages/server/src/services/search-executor.service.ts:32-38 | a request without a rank fails with the missing-rank error whatever the store holds |
| SearchExecutor.CustomKeyRejected | packages/server/src/services/knn-query-executor.service.ts:23-28 | a key other than `#embedding` fails whatever the store holds |
| SearchExecutor.KnnAsksStore | packages/server/src/services/knn-query-executor.service.ts:34-63 | the store is asked for `limit ?? 100` results; its failure is an error, its answer is transformed with `returnRank` |
| SearchExecutor.PaginateWindow | packages/server/src/services/search-executor.service.ts:40-50 | the page is `ranked[offset..]` cut to at most limit items |
| SearchExecutor.BareCountIsWindow | packages/server/src/services/search-executor.service.ts:111-121 | a bare count n is the window of n at offset 0; no limit clause keeps every item |
| SearchExecutor.GroupedIffGroupBy | packages/server/src/services/search-executor.service.ts:58-77 | the response is grouped exactly when the request has `groupBy` |
| SearchExecutor.UngroupedResponse | packages/server/src/services/search-executor.service.ts:40-77 | without grouping, the response lists the selected page with the page's ids in order, and `total` is its length |
| SearchExecutor.GroupedResponse | packages/server/src/services/search-executor.service.ts:40-67 | with grouping, the groups are those of the selected page; `totalGroups` and `totalItems` are their count and item count, neither over the page size |
| SearchExecutor.GroupTotalsBound | packages/server/src/services/search-executor.service.ts:64-65 | n items give at most n groups holding at most n items |

## Left out

- The vector store and the network are not modelled. The store is a function parameter, and its failure is `None`. The ChromaDB client (`chroma-client.service.ts`) and the HTTP routes are not part of this model.
- The `where` and `whereDocument` filters are passed to the store unread. The model carries them as opaque text.
- The `took` timing from `performance.now()` is not modelled. Responses carry no `took` field.
- Batch concurrency in the search route (`Promise.all`) is not modelled. The model runs one request.
- Floating point is not modelled: scores and weights are `real`. IEEE rounding, `NaN`, `Infinity` and `-0` are outside the model.
- `localeCompare` is replaced by `TextOrder.Compare`, a lexicographic order on UTF-16 code units. Locale collation rules are not modelled.
- The composite group value is `JSON.stringify` of the key values in the source. The model uses the sequence of values itself, which is injective. JSON-level merges, such as `0` and `-0`, are outside the model.
- Metadata lookups see only a map's own entries. JavaScript would also find inherited object properties such as `constructor`.
- `Array.prototype.sort` is modelled by a stable insertion sort. When one sort key holds values of mixed kinds, the source's comparator is not consistent. The engine's order is then implementation-defined, and the model's order lemmas require well-typed keys (`WellTyped`).
- RrfFusion.Process: it requires a non-zero weight sum when `normalize` is set. The source divides by the sum unguarded, which yields non-finite scores that `real` cannot represent. SearchExecutor.Execute carries the same requirement through `ValidRequest`.
- RrfFusion.Process: it requires a positive `k` when one is given, which the request schema guarantees.
- Some source branches cannot be reached with the schema's inputs, and the model omits them:
  - `String(k)` for a non-object key in `normalizeKeys`; keys are field names here.
  - the fall-through `return items` in `applyAggregation`, since an aggregate is `$min_k` or `$max_k`;
  - the `!results` and `!item` guards in RRF, since lists have no holes.
- The KNN `default` rank is accepted and unused, as in the source. Fusion imputes nothing for lists an id is missing from.
- Text and embedding queries both reach the store as `QueryContent`. How the store embeds text is not modelled.
- The store call's fixed `include` list is not modelled. Any array of the raw answer may be present or missing.
- The schema's positivity of the page `limit`, the KNN `limit` and the aggregate's `k` is not required. A zero page limit or aggregate `k` keeps no items, as `slice` does, and a zero KNN `limit` is passed to the store unchanged.
- Inputs are never mutated because the model uses values. The source's in-place updates of `scoreMap` entries and group arrays are modelled as map and sequence reassignment. No aliasing is observable in the source.
