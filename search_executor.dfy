/**
 * Running one search request end to end
 * (packages/server/src/services/search-executor.service.ts, with the
 * nearest-neighbour step of packages/server/src/services/knn-query-executor.service.ts):
 * ranking by one nearest-neighbour query or by fusing several, then offset,
 * limit, field selection and grouping, in that order.
 *
 * The vector store is a parameter: a function from the query the executor
 * sends to the store's raw answer, or `None` when the store call fails.
 */
module SearchExecutor {
  import opened Types
  import ResultTransformer
  import RrfFusion
  import GroupByAggregator
  import FieldSelector

  /** `nResults` when the query gives no limit. */
  const DefaultNResults: nat := 100

  /** The only embedding key the store supports. */
  const EmbeddingKey: string := "#embedding"

  /** Pagination: a bare count, or a limit with an optional offset. */
  datatype LimitClause = Count(n: nat) | Window(limit: nat, offset: Option<nat>)

  /** The ranking of a request; a fusion clause is recognised by its `ranks`. */
  datatype RankSpec = Knn(knn: KnnQuery) | Rrf(rrf: RrfClause)

  /** The metadata and document filters, in their JSON text form; the executor passes them to the store unread. */
  datatype Filter = Filter(where: Option<string>, whereDocument: Option<string>)

  datatype SearchRequest = SearchRequest(
    rank: Option<RankSpec>,
    filter: Filter,
    limit: Option<LimitClause>,
    select: Option<FieldSelector.SelectClause>,
    groupBy: Option<GroupByAggregator.GroupByClause>)

  /** What one nearest-neighbour search asks of the store. */
  datatype StoreQuery = StoreQuery(query: QueryContent, nResults: nat, filter: Filter)

  type Store = StoreQuery -> Option<ResultTransformer.ChromaQueryResult>

  /** The errors a search can raise. */
  datatype SearchError = MissingRank | UnsupportedKey(key: string) | StoreFailure

  datatype SearchResponse =
    | Ungrouped(results: seq<Item>, total: nat)
    | Grouped(groups: seq<GroupByAggregator.Group>, totalGroups: nat, totalItems: nat)

  // ---------------------------------------------------------------------
  // Ranking
  // ---------------------------------------------------------------------

  /** One nearest-neighbour search: reject a custom key, ask the store, transform its answer. */
  function KnnSearch(knn: KnnQuery, filter: Filter, store: Store): Result<seq<Item>, SearchError> {
    if knn.key.Some? && knn.key.value != EmbeddingKey then Err(UnsupportedKey(knn.key.value))
    else
      match store(StoreQuery(knn.query, knn.limit.GetOr(DefaultNResults), filter))
      case None => Err(StoreFailure)
      case Some(raw) => Ok(ResultTransformer.Transform(raw, knn.returnRank))
  }

  /** The result lists of the first n sub-queries, run in order, or the first error. */
  function SubQueryResults(ranks: seq<KnnQuery>, filter: Filter, store: Store, n: nat): (r: Result<seq<seq<Item>>, SearchError>)
    requires n <= |ranks|
    ensures r.Ok? ==> |r.value| == n
  {
    if n == 0 then Ok([])
    else
      match SubQueryResults(ranks, filter, store, n - 1)
      case Err(e) => Err(e)
      case Ok(lists) =>
        match KnnSearch(ranks[n - 1], filter, store)
        case Err(e) => Err(e)
        case Ok(results) => Ok(lists + [results])
  }

  /** Fusing the sub-queries' lists, or the first sub-query error. */
  function RrfSearch(rrf: RrfClause, filter: Filter, store: Store): Result<seq<Item>, SearchError>
    requires RrfFusion.ValidConfig(|rrf.ranks|, rrf)
  {
    match SubQueryResults(rrf.ranks, filter, store, |rrf.ranks|)
    case Err(e) => Err(e)
    case Ok(lists) => Ok(RrfFusion.Fuse(lists, rrf))
  }

  /** What the request schema and the fusion demand of a fusion clause. */
  predicate ValidRequest(request: SearchRequest) {
    request.rank.Some? && request.rank.value.Rrf? ==>
      RrfFusion.ValidConfig(|request.rank.value.rrf.ranks|, request.rank.value.rrf)
  }

  /** The ranked results: fusion, one nearest-neighbour search, or an error for no rank. */
  function RankedResults(request: SearchRequest, store: Store): Result<seq<Item>, SearchError>
    requires ValidRequest(request)
  {
    match request.rank
    case None => Err(MissingRank)
    case Some(Knn(knn)) => KnnSearch(knn, request.filter, store)
    case Some(Rrf(rrf)) => RrfSearch(rrf, request.filter, store)
  }

  // ---------------------------------------------------------------------
  // Pagination, selection, grouping
  // ---------------------------------------------------------------------

  /** `getOffset` */
  function GetOffset(limit: Option<LimitClause>): nat {
    match limit
    case None => 0
    case Some(Count(_)) => 0
    case Some(Window(_, offset)) => offset.GetOr(0)
  }

  /** `getLimit` */
  function GetLimit(limit: Option<LimitClause>): Option<nat> {
    match limit
    case None => None
    case Some(Count(n)) => Some(n)
    case Some(Window(n, _)) => Some(n)
  }

  /** `slice(offset)` when the offset is positive, then `slice(0, limit)` when there is a limit. */
  function Paginate(results: seq<Item>, limit: Option<LimitClause>): seq<Item> {
    var offset := GetOffset(limit);
    var skipped := if offset > 0 then results[GroupByAggregator.Min(offset, |results|)..] else results;
    match GetLimit(limit)
    case None => skipped
    case Some(n) => skipped[..GroupByAggregator.Min(n, |skipped|)]
  }

  /** `groups.reduce((sum, g) => sum + g.items.length, 0)` */
  function TotalItems(groups: seq<GroupByAggregator.Group>): nat {
    if groups == [] then 0
    else TotalItems(groups[..|groups| - 1]) + |groups[|groups| - 1].items|
  }

  /** The response for the final list: grouped when the request asks for grouping. */
  function Respond(results: seq<Item>, groupBy: Option<GroupByAggregator.GroupByClause>): SearchResponse {
    match groupBy
    case None => Ungrouped(results, |results|)
    case Some(config) =>
      var groups := GroupByAggregator.GroupBy(results, config);
      Grouped(groups, |groups|, TotalItems(groups))
  }

  /** The page after field selection. */
  function SelectedPage(ranked: seq<Item>, request: SearchRequest): seq<Item> {
    var page := Paginate(ranked, request.limit);
    if request.select.Some? then FieldSelector.Select(page, request.select.value) else page
  }

  /** What executing a request yields. */
  function Search(request: SearchRequest, store: Store): Result<SearchResponse, SearchError>
    requires ValidRequest(request)
  {
    match RankedResults(request, store)
    case Err(e) => Err(e)
    case Ok(ranked) => Ok(Respond(SelectedPage(ranked, request), request.groupBy))
  }

  // ---------------------------------------------------------------------
  // The executor
  // ---------------------------------------------------------------------

  /** `KnnQueryExecutorService.execute` */
  method ExecuteKnn(knn: KnnQuery, filter: Filter, store: Store) returns (r: Result<seq<Item>, SearchError>)
    ensures r == KnnSearch(knn, filter, store)
  {
    if knn.key.Some? && knn.key.value != EmbeddingKey {
      return Err(UnsupportedKey(knn.key.value));
    }
    var raw := store(StoreQuery(knn.query, knn.limit.GetOr(DefaultNResults), filter));
    if raw.None? {
      return Err(StoreFailure);
    }
    var results := ResultTransformer.TransformQueryResults(raw.value, knn.returnRank);
    return Ok(results);
  }

  /** `executeRrf`: the sub-queries one after another, then fusion. */
  method ExecuteRrf(rrf: RrfClause, filter: Filter, store: Store) returns (r: Result<seq<Item>, SearchError>)
    requires RrfFusion.ValidConfig(|rrf.ranks|, rrf)
    ensures r == RrfSearch(rrf, filter, store)
  {
    var queryResults: seq<seq<Item>> := [];
    for q := 0 to |rrf.ranks|
      invariant SubQueryResults(rrf.ranks, filter, store, q) == Ok(queryResults)
    {
      var results := ExecuteKnn(rrf.ranks[q], filter, store);
      if results.Err? {
        SubQueryErrorSticks(rrf.ranks, filter, store, q + 1, |rrf.ranks|);
        return Err(results.error);
      }
      queryResults := queryResults + [results.value];
    }
    var fused := RrfFusion.Process(queryResults, rrf);
    return Ok(fused);
  }

  /** `SearchExecutorService.execute` */
  method Execute(request: SearchRequest, store: Store) returns (r: Result<SearchResponse, SearchError>)
    requires ValidRequest(request)
    ensures r == Search(request, store)
  {
    var results: seq<Item>;
    if request.rank.Some? && request.rank.value.Rrf? {
      var fused := ExecuteRrf(request.rank.value.rrf, request.filter, store);
      if fused.Err? {
        return Err(fused.error);
      }
      results := fused.value;
    } else if request.rank.Some? {
      var found := ExecuteKnn(request.rank.value.knn, request.filter, store);
      if found.Err? {
        return Err(found.error);
      }
      results := found.value;
    } else {
      return Err(MissingRank);
    }
    var offset := GetOffset(request.limit);
    if offset > 0 {
      results := results[GroupByAggregator.Min(offset, |results|)..];
    }
    var limit := GetLimit(request.limit);
    if limit.Some? {
      results := results[..GroupByAggregator.Min(limit.value, |results|)];
    }
    if request.select.Some? {
      results := FieldSelector.Process(results, request.select.value);
    }
    if request.groupBy.Some? {
      var groups := GroupByAggregator.Process(results, request.groupBy.value);
      return Ok(Grouped(groups, |groups|, TotalItems(groups)));
    }
    return Ok(Ungrouped(results, |results|));
  }

  // ---------------------------------------------------------------------
  // Properties
  // ---------------------------------------------------------------------

  /** Once a sub-query fails, no later one is consulted: the error stands. */
  lemma {:induction false} SubQueryErrorSticks(ranks: seq<KnnQuery>, filter: Filter, store: Store, n: nat, m: nat)
    requires n <= m <= |ranks|
    requires SubQueryResults(ranks, filter, store, n).Err?
    ensures SubQueryResults(ranks, filter, store, m) == SubQueryResults(ranks, filter, store, n)
  {
    if m > n {
      SubQueryErrorSticks(ranks, filter, store, n, m - 1);
    }
  }

  /**
   * The sub-queries run in order: the lists are their results, one per
   * sub-query and in sub-query order, when all succeed; otherwise the error
   * is that of the first sub-query that fails.
   */
  lemma {:induction false} SubQueryResultsMeaning(ranks: seq<KnnQuery>, filter: Filter, store: Store, n: nat)
    requires n <= |ranks|
    ensures var r := SubQueryResults(ranks, filter, store, n);
      && (r.Ok? <==> forall q :: 0 <= q < n ==> KnnSearch(ranks[q], filter, store).Ok?)
      && (r.Ok? ==> forall q :: 0 <= q < n ==> r.value[q] == KnnSearch(ranks[q], filter, store).value)
      && (r.Err? ==> exists q :: 0 <= q < n && KnnSearch(ranks[q], filter, store) == Err(r.error)
                       && forall q' :: 0 <= q' < q ==> KnnSearch(ranks[q'], filter, store).Ok?)
  {
    if n > 0 {
      SubQueryResultsMeaning(ranks, filter, store, n - 1);
    }
  }

  /** Fusion gets the sub-queries' result lists in sub-query order. */
  lemma FusesSubQueriesInOrder(rrf: RrfClause, filter: Filter, store: Store)
    requires RrfFusion.ValidConfig(|rrf.ranks|, rrf)
    requires forall q :: 0 <= q < |rrf.ranks| ==> KnnSearch(rrf.ranks[q], filter, store).Ok?
    ensures var lists := seq(|rrf.ranks|, q requires 0 <= q < |rrf.ranks| => KnnSearch(rrf.ranks[q], filter, store).value);
      RrfSearch(rrf, filter, store) == Ok(RrfFusion.Fuse(lists, rrf))
  {
    SubQueryResultsMeaning(rrf.ranks, filter, store, |rrf.ranks|);
    var lists := seq(|rrf.ranks|, q requires 0 <= q < |rrf.ranks| => KnnSearch(rrf.ranks[q], filter, store).value);
    var r := SubQueryResults(rrf.ranks, filter, store, |rrf.ranks|);
    assert r.Ok? && r.value == lists;
  }

  /** A request without a rank fails whatever the store holds, so no store answer matters. */
  lemma MissingRankRejected(request: SearchRequest, store: Store)
    requires request.rank.None?
    ensures Search(request, store) == Err(MissingRank)
  {
  }

  /** A nearest-neighbour query with a key other than `#embedding` fails whatever the store holds. */
  lemma CustomKeyRejected(knn: KnnQuery, filter: Filter, store: Store)
    requires knn.key.Some? && knn.key.value != EmbeddingKey
    ensures KnnSearch(knn, filter, store) == Err(UnsupportedKey(knn.key.value))
  {
  }

  /** The store is asked for `limit ?? 100` results of the query, under the request's filters. */
  lemma KnnAsksStore(knn: KnnQuery, filter: Filter, store: Store)
    requires knn.key.None? || knn.key == Some(EmbeddingKey)
    ensures var answer := store(StoreQuery(knn.query, if knn.limit.Some? then knn.limit.value else 100, filter));
      && (answer.None? ==> KnnSearch(knn, filter, store) == Err(StoreFailure))
      && (answer.Some? ==> KnnSearch(knn, filter, store) == Ok(ResultTransformer.Transform(answer.value, knn.returnRank)))
  {
  }

  /**
   * The page is the window of the ranked list that starts at the offset and
   * holds at most limit items.
   */
  lemma PaginateWindow(results: seq<Item>, limit: Option<LimitClause>)
    ensures var page, offset := Paginate(results, limit), GetOffset(limit);
      var available := if offset <= |results| then |results| - offset else 0;
      && |page| == (if GetLimit(limit).Some? then GroupByAggregator.Min(GetLimit(limit).value, available) else available)
      && forall j :: 0 <= j < |page| ==> offset + j < |results| && page[j] == results[offset + j]
  {
  }

  /** A bare count n is the window of n items at offset 0; no limit clause keeps everything. */
  lemma BareCountIsWindow(results: seq<Item>, n: nat)
    ensures Paginate(results, Some(Count(n))) == Paginate(results, Some(Window(n, None)))
    ensures Paginate(results, Some(Count(n))) == Paginate(results, Some(Window(n, Some(0))))
    ensures Paginate(results, Some(Count(n))) == results[..GroupByAggregator.Min(n, |results|)]
    ensures Paginate(results, None) == results
  {
  }

  /** The response is grouped exactly when the request asks for grouping. */
  lemma GroupedIffGroupBy(request: SearchRequest, store: Store)
    requires ValidRequest(request)
    requires Search(request, store).Ok?
    ensures Search(request, store).value.Grouped? <==> request.groupBy.Some?
  {
  }

  /**
   * Without grouping, the response lists the selected window of the ranked
   * results, with their ids in ranked order, and `total` is its length.
   */
  lemma UngroupedResponse(request: SearchRequest, store: Store)
    requires ValidRequest(request)
    requires request.groupBy.None? && RankedResults(request, store).Ok?
    ensures var ranked := RankedResults(request, store).value;
      var page := Paginate(ranked, request.limit);
      && Search(request, store) == Ok(Ungrouped(SelectedPage(ranked, request), |page|))
      && Ids(SelectedPage(ranked, request)) == Ids(page)
  {
    var ranked := RankedResults(request, store).value;
    var page := Paginate(ranked, request.limit);
    if request.select.Some? {
      FieldSelector.SelectKeepsIds(page, request.select.value);
    }
  }

  /**
   * With grouping, the groups are those of the selected window (pagination
   * counts items, not groups); `totalGroups` is their number and
   * `totalItems` their item count, neither more than the window holds.
   */
  lemma GroupedResponse(request: SearchRequest, store: Store)
    requires ValidRequest(request)
    requires request.groupBy.Some? && RankedResults(request, store).Ok?
    ensures var ranked := RankedResults(request, store).value;
      var selected := SelectedPage(ranked, request);
      var groups := GroupByAggregator.GroupBy(selected, request.groupBy.value);
      && Search(request, store) == Ok(Grouped(groups, |groups|, TotalItems(groups)))
      && |groups| <= |Paginate(ranked, request.limit)|
      && TotalItems(groups) <= |Paginate(ranked, request.limit)|
  {
    var ranked := RankedResults(request, store).value;
    var page := Paginate(ranked, request.limit);
    if request.select.Some? {
      FieldSelector.SelectKeepsIds(page, request.select.value);
    }
    GroupTotalsBound(SelectedPage(ranked, request), request.groupBy.value);
  }

  /** Grouping n items gives at most n groups holding at most n items. */
  lemma GroupTotalsBound(results: seq<Item>, config: GroupByAggregator.GroupByClause)
    ensures |GroupByAggregator.GroupBy(results, config)| <= |results|
    ensures TotalItems(GroupByAggregator.GroupBy(results, config)) <= |results|
  {
    var keys := GroupByAggregator.NormalizeKeys(config.keys);
    var p := GroupByAggregator.PartitionOf(results, keys);
    var out := GroupByAggregator.GroupBy(results, config);
    GroupByAggregator.PartitionNoRepeats(results, keys);
    forall j | 0 <= j < |out|
      ensures |out[j].items| <= |GroupByAggregator.Members(results, keys, p.order[j])|
      ensures GroupByAggregator.Members(results, keys, p.order[j]) != []
    {
      GroupByAggregator.GroupAt(results, config, j);
    }
    GroupTotalsUpTo(results, keys, out, p.order, |out|);
    assert out[..|out|] == out && p.order[..|out|] == p.order;
    GroupByAggregator.MemberCountBound(results, keys, p.order);
  }

  /**
   * Groups matched position by position with group values, each value with
   * at least one member and each group no larger than its value's members:
   * the first n groups number at most, and hold at most, those members.
   */
  lemma {:induction false} GroupTotalsUpTo(results: seq<Item>, keys: seq<string>, groups: seq<GroupByAggregator.Group>, order: seq<GroupByAggregator.GroupValue>, n: nat)
    requires n <= |groups| == |order|
    requires forall j :: 0 <= j < |groups| ==>
      && |groups[j].items| <= |GroupByAggregator.Members(results, keys, order[j])|
      && GroupByAggregator.Members(results, keys, order[j]) != []
    ensures n <= GroupByAggregator.MemberCount(results, keys, order[..n])
    ensures TotalItems(groups[..n]) <= GroupByAggregator.MemberCount(results, keys, order[..n])
  {
    if n > 0 {
      GroupTotalsUpTo(results, keys, groups, order, n - 1);
      assert groups[..n][..n - 1] == groups[..n - 1];
      assert order[..n][..n - 1] == order[..n - 1];
    }
  }
}
