/** `RAGService`: embed the query text, then run one vector search with an
    alias fixed per operation. The embedding model is foreign; it is the
    `createEmbedding` function each operation receives. */
module RagService {
  import opened PyDict
  import opened SearchStrategy

  /** The embedding model: the query's vector, or the exception it raises. */
  type Embedder = string -> Result<Embedding>

  datatype RagService = RagService(baseStrategy: BaseSearchStrategy)

  /** `RAGService(base_strategy)`: the injected strategy, or else a default
      `BaseSearchStrategy()`, which holds the client `connect` produces. */
  function NewRagService(baseStrategy: Option<BaseSearchStrategy>, connect: Client): (svc: RagService)
    ensures baseStrategy.Some? ==> svc.baseStrategy == baseStrategy.value
    ensures baseStrategy.None? ==> svc.baseStrategy.client == connect
  {
    RagService(if baseStrategy.Some? then baseStrategy.value else NewBaseSearchStrategy(None, connect))
  }

  /** `search_documents`: if embedding fails its exception is the answer and
      the store is not asked; otherwise the store is asked, on collection
      `docs`, with the query's embedding and `match_count` and the filter
      as given, and its flattened answer comes back untouched. */
  function SearchDocuments(
    svc: RagService,
    createEmbedding: Embedder,
    query: string,
    matchCount: int := 5,
    filterMetadata: Option<Dict<Value>> := None
  ): (r: Result<seq<Dict<Value>>>)
    ensures createEmbedding(query).Raised? ==> r == Raised(createEmbedding(query).error)
    ensures createEmbedding(query).Ok? ==>
              FlattenedReply(
                svc.baseStrategy.client(SearchRequest("docs", createEmbedding(query).value, matchCount, BuildFilter(filterMetadata))),
                r)
  {
    match createEmbedding(query)
    case Raised(e) => Raised(e)
    case Ok(queryEmbedding) =>
      VectorSearch(svc.baseStrategy, queryEmbedding, matchCount, filterMetadata, DocsAlias)
  }

  /** `search_code_examples`: the same protocol on collection `code`. */
  function SearchCodeExamples(
    svc: RagService,
    createEmbedding: Embedder,
    query: string,
    matchCount: int := 5,
    filterMetadata: Option<Dict<Value>> := None
  ): (r: Result<seq<Dict<Value>>>)
    ensures createEmbedding(query).Raised? ==> r == Raised(createEmbedding(query).error)
    ensures createEmbedding(query).Ok? ==>
              FlattenedReply(
                svc.baseStrategy.client(SearchRequest("code", createEmbedding(query).value, matchCount, BuildFilter(filterMetadata))),
                r)
  {
    match createEmbedding(query)
    case Raised(e) => Raised(e)
    case Ok(queryEmbedding) =>
      VectorSearch(svc.baseStrategy, queryEmbedding, matchCount, filterMetadata, CodeAlias)
  }

  /** Called without `match_count` and filter, both operations ask the
      store for five hits with no filter. */
  lemma DefaultsAskForFiveUnfiltered(svc: RagService, createEmbedding: Embedder, query: string)
    ensures createEmbedding(query).Ok? ==>
      && FlattenedReply(svc.baseStrategy.client(SearchRequest("docs", createEmbedding(query).value, 5, None)),
                        SearchDocuments(svc, createEmbedding, query))
      && FlattenedReply(svc.baseStrategy.client(SearchRequest("code", createEmbedding(query).value, 5, None)),
                        SearchCodeExamples(svc, createEmbedding, query))
  {
  }

  /** A failing embedding makes the whole call fail whatever the store
      would have answered: the store is never consulted. */
  lemma EmbeddingFailureSkipsStore(
    svc1: RagService, svc2: RagService, createEmbedding: Embedder, query: string,
    matchCount: int, filterMetadata: Option<Dict<Value>>)
    requires createEmbedding(query).Raised?
    ensures SearchDocuments(svc1, createEmbedding, query, matchCount, filterMetadata)
         == SearchDocuments(svc2, createEmbedding, query, matchCount, filterMetadata)
    ensures SearchCodeExamples(svc1, createEmbedding, query, matchCount, filterMetadata)
         == SearchCodeExamples(svc2, createEmbedding, query, matchCount, filterMetadata)
  {
  }

  /** The end-to-end promise of a code search with a filter: when the store
      honours the request, the answer has at most `match_count` records,
      one per hit in the store's order, each with the hit's payload, and
      every record carries every filter entry. */
  lemma CodeSearchEndToEnd(
    svc: RagService, createEmbedding: Embedder, query: string, matchCount: int, m: Dict<Value>)
    requires m != []
    requires createEmbedding(query).Ok?
    requires var req := SearchRequest("code", createEmbedding(query).value, matchCount, BuildFilter(Some(m)));
      svc.baseStrategy.client(req).Ok? && StoreHonours(req, svc.baseStrategy.client(req).value)
    ensures var hits := svc.baseStrategy.client(SearchRequest("code", createEmbedding(query).value, matchCount, BuildFilter(Some(m)))).value;
      var r := SearchCodeExamples(svc, createEmbedding, query, matchCount, Some(m));
      && r.Ok? && |r.value| == |hits| <= matchCount
      && (forall i :: 0 <= i < |hits| ==> r.value[i] == FlattenPoint(hits[i]))
      && (forall i, j :: 0 <= i < |hits| && 0 <= j < |m| ==> Get(r.value[i], m[j].0) == Some(m[j].1))
  {
    FilteredSearchHonoursFilter(svc.baseStrategy, createEmbedding(query).value, matchCount, m, CodeAlias);
  }
}
