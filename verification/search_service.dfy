/** `SearchService.Search`: a guard on the query, then one store query run
    through the resilience pipeline, whose rows are returned as they come.

    The store is a parameter from the query's parameters to the rows it
    answers with, or the exception it raises. The pipeline is the one the
    service's tests install, `ResiliencePipeline.Empty`, which runs its
    callback once. */
module SearchService {
  import opened Wrappers
  import opened Text
  import opened Domain
  import Configuration

  /** What one store query depends on: the two settings spliced into the
      statement text (`VECTOR(dimensions)` and `USE MODEL model`) and the
      two bound parameters `@query` and `@k`. */
  datatype StoreQuery = StoreQuery(dimensions: int, model: string, query: string, k: int)

  /** The rows a store query answers with, or the exception it raises. */
  type Store = StoreQuery -> Result<seq<SearchResultItem>, Error>

  /** The rows or the exception a search ends with, and the store queries
      it made. */
  datatype SearchOutcome = SearchOutcome(result: Result<seq<SearchResultItem>, Error>, calls: seq<StoreQuery>)

  /** `string.IsNullOrEmpty(searchRequest?.Query)`: the requests answered
      without a store query. A query of white space only is not one of
      them. */
  predicate ShortCircuits(request: Option<SearchRequest>) {
    request.None? || IsNullOrEmpty(request.value.query)
  }

  /** The store query a request that passes the guard makes. */
  function QueryFor(query: string, top: int, settings: AISettings): StoreQuery {
    StoreQuery(settings.embeddingModelDimensions, settings.externalEmbeddingModel, query, top)
  }

  /** `Search`. A request without a query is answered with no rows and no
      store query; any other makes exactly one store query, with the
      request's query and `Top`, and ends as that query ends: its rows,
      unchanged, or its exception, rethrown. */
  function Search(request: Option<SearchRequest>, settings: AISettings, store: Store): (o: SearchOutcome)
    ensures ShortCircuits(request) <==> o.calls == []
    ensures ShortCircuits(request) ==> o.result == Success([])
    ensures !ShortCircuits(request) ==>
              && |o.calls| == 1
              && o.calls[0].query == request.value.query.value
              && o.calls[0].k == request.value.top
              && o.calls[0].model == settings.externalEmbeddingModel
              && o.calls[0].dimensions == settings.embeddingModelDimensions
    ensures !ShortCircuits(request) ==> o.result == store(o.calls[0])
    ensures o.result.Failure? ==> !ShortCircuits(request) && store(o.calls[0]).Failure?
  {
    if ShortCircuits(request) then SearchOutcome(Success([]), [])
    else
      var q := QueryFor(request.value.query.value, request.value.top, settings);
      SearchOutcome(store(q), [q])
  }

  /** Rows in the order `ORDER BY [Distance] ASC` returns them, no more
      than `TOP(@k)` of them. */
  predicate Ranked(rows: seq<SearchResultItem>, k: int) {
    && |rows| <= (if k < 0 then 0 else k)
    && forall i, j :: 0 <= i < j < |rows| ==> rows[i].distance <= rows[j].distance
  }

  /** A store that honours `TOP(@k) ... ORDER BY [Distance] ASC` gives a
      search that does too: the service neither reorders nor pads the
      rows. */
  lemma SearchKeepsRanking(request: Option<SearchRequest>, settings: AISettings, store: Store)
    requires forall q :: store(q).Success? ==> Ranked(store(q).value, q.k)
    requires !ShortCircuits(request)
    ensures var o := Search(request, settings, store);
      o.result.Success? ==> Ranked(o.result.value, request.value.top)
  {
    var o := Search(request, settings, store);
    assert o.calls[0].k == request.value.top;
  }

  /** A query of white space only is not short-circuited: it reaches the
      store, and what the store does decides the answer. */
  lemma WhiteSpaceQueryReachesStore(query: string, top: int, settings: AISettings, store: Store)
    requires |query| > 0 && AllWhiteSpace(query)
    ensures Search(Some(SearchRequest(Some(query), top)), settings, store).calls == [QueryFor(query, top, settings)]
  {
  }

  /** A body that sets only the query asks the store for the default five
      rows. */
  lemma DefaultTopQuery(query: string, settings: AISettings, store: Store)
    requires query != ""
    ensures Search(Some(SearchRequestFor(query)), settings, store).calls == [QueryFor(query, 5, settings)]
  {
  }

  /** A failing store is never turned into an empty answer: the search
      fails with the store's own exception. */
  lemma SearchRethrows(request: Option<SearchRequest>, settings: AISettings, store: Store, e: Error)
    requires !ShortCircuits(request)
    requires store(QueryFor(request.value.query.value, request.value.top, settings)) == Failure(e)
    ensures Search(request, settings, store).result == Failure(e)
  {
  }

  /** With the settings `GetAISettings` builds, every store query declares
      `VECTOR(0)`, whatever dimension count the configuration holds and
      whatever the fallback count is. */
  lemma SearchDeclaresZeroDimensions(config: map<string, string>, defaultDimensions: int,
                                     request: Option<SearchRequest>, store: Store)
    requires Configuration.GetAISettings(config).Success?
    requires !ShortCircuits(request) && defaultDimensions > 0
    ensures var q := Search(request, Configuration.GetAISettings(config).value, store).calls[0];
      && q.dimensions == 0
      && q.dimensions != Configuration.DimensionsOf(Configuration.Lookup(config, Configuration.EmbeddingDimensionsKey), defaultDimensions)
  {
  }

  /** With the settings read as evidently intended, the store query
      declares the configured dimension count, which is positive. */
  lemma SearchDeclaresConfiguredDimensions(config: map<string, string>, defaultDimensions: int,
                                           request: Option<SearchRequest>, store: Store)
    requires Configuration.GetAISettingsWithDimensions(config, defaultDimensions).Success?
    requires !ShortCircuits(request) && defaultDimensions > 0
    ensures var q := Search(request, Configuration.GetAISettingsWithDimensions(config, defaultDimensions).value, store).calls[0];
      && q.dimensions > 0
      && q.dimensions == Configuration.DimensionsOf(Configuration.Lookup(config, Configuration.EmbeddingDimensionsKey), defaultDimensions)
  {
  }
}
