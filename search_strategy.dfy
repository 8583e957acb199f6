/** `BaseSearchStrategy`: turns a vector-search call made with a caller-facing
    alias and a metadata dict into one query against the vector store, and
    flattens each hit the store returns into a single record.

    The store client (a Qdrant client) is foreign: it is the `client`
    function a strategy holds, from the request it is sent to either the
    ranked hits or the exception it raises. */
module SearchStrategy {
  import opened PyDict

  /** A payload or record value, as JSON would hold it. */
  datatype Value =
    | Null
    | Bool(b: bool)
    | Int(i: int)
    | Float(f: real)
    | Str(s: string)
    | List(items: seq<Value>)
    | Object(fields: seq<(string, Value)>)

  /** A point id: an unsigned integer or a UUID string. */
  datatype PointId = NumId(n: nat) | UuidId(uuid: string)

  function IdValue(id: PointId): Value
  {
    match id
    case NumId(n) => Int(n)
    case UuidId(u) => Str(u)
  }

  /** One store hit. The score is opaque: nothing here computes with it. */
  datatype ScoredPoint = ScoredPoint(id: PointId, score: real, payload: Option<Dict<Value>>)

  datatype MatchValue = MatchValue(value: Value)
  datatype FieldCondition = FieldCondition(key: string, matchValue: MatchValue)

  /** A store filter; every condition in `must` has to hold. */
  datatype Filter = Filter(must: seq<FieldCondition>)

  type Embedding = seq<real>

  /** The arguments of one `client.search(...)` call. */
  datatype SearchRequest = SearchRequest(
    collectionName: string,
    queryVector: Embedding,
    limit: int,
    queryFilter: Option<Filter>)

  /** An exception raised by a foreign collaborator (the store or the embedder). */
  datatype Exception = Exception(message: string)

  /** A call to foreign code either returns or raises. */
  datatype Result<+T> = Ok(value: T) | Raised(error: Exception)

  type Client = SearchRequest -> Result<seq<ScoredPoint>>

  /** The one field of a strategy: the store client it holds. */
  datatype BaseSearchStrategy = BaseSearchStrategy(client: Client)

  /** `BaseSearchStrategy(client)`: the given client, or else the one
      `connect` (the default client factory) produces. */
  function NewBaseSearchStrategy(client: Option<Client>, connect: Client): (s: BaseSearchStrategy)
    ensures client.Some? ==> s.client == client.value
    ensures client.None? ==> s.client == connect
  {
    BaseSearchStrategy(if client.Some? then client.value else connect)
  }

  const DocsAlias := "match_archon_crawled_pages"
  const CodeAlias := "match_archon_code_examples"

  /** `COLLECTION_MAP`: caller-facing alias to store collection. */
  const CollectionMap: Dict<string> := [(DocsAlias, "docs"), (CodeAlias, "code")]

  /** `COLLECTION_MAP.get(table_rpc, table_rpc)`: the two known aliases name
      the `docs` and `code` collections; any other name is used as it is. */
  function ResolveCollection(tableRpc: string): (collection: string)
    ensures tableRpc == DocsAlias ==> collection == "docs"
    ensures tableRpc == CodeAlias ==> collection == "code"
    ensures tableRpc != DocsAlias && tableRpc != CodeAlias ==> collection == tableRpc
  {
    assert Keys(CollectionMap) == [DocsAlias, CodeAlias];
    match Get(CollectionMap, tableRpc)
    case Some(c) => c
    case None => tableRpc
  }

  /** The query filter built from `filter_metadata`: none when it is absent
      or empty, otherwise one equality condition per entry, in the dict's
      order, all of them under `must`. */
  function BuildFilter(filterMetadata: Option<Dict<Value>>): (f: Option<Filter>)
    ensures f.None? <==> (filterMetadata.None? || filterMetadata.value == [])
    ensures f.Some? ==>
      && |f.value.must| == |filterMetadata.value|
      && forall i :: 0 <= i < |filterMetadata.value| ==>
           f.value.must[i] == FieldCondition(filterMetadata.value[i].0, MatchValue(filterMetadata.value[i].1))
  {
    match filterMetadata
    case None => None
    case Some(m) =>
      if m == [] then None
      else Some(Filter(seq(|m|, i requires 0 <= i < |m| => FieldCondition(m[i].0, MatchValue(m[i].1)))))
  }

  /** Equality matching of one condition against a payload. */
  predicate ConditionHolds(c: FieldCondition, payload: Dict<Value>)
  {
    Get(payload, c.key) == Some(c.matchValue.value)
  }

  /** A payload passes a filter when every `must` condition holds. */
  predicate FilterHolds(f: Filter, payload: Dict<Value>)
  {
    forall i :: 0 <= i < |f.must| ==> ConditionHolds(f.must[i], payload)
  }

  /** `r.payload or {}`. */
  function PayloadOf(p: ScoredPoint): Dict<Value>
  {
    if p.payload.Some? then p.payload.value else []
  }

  /** The filter built from a non-empty dict is the conjunction of its
      entries: a payload passes it exactly when the payload holds every
      (key, value) pair of the dict. */
  lemma BuildFilterIsConjunction(m: Dict<Value>, payload: Dict<Value>)
    requires m != []
    ensures BuildFilter(Some(m)).Some?
    ensures FilterHolds(BuildFilter(Some(m)).value, payload)
        <==> forall i :: 0 <= i < |m| ==> Get(payload, m[i].0) == Some(m[i].1)
  {
    var f := BuildFilter(Some(m)).value;
    if forall i :: 0 <= i < |m| ==> Get(payload, m[i].0) == Some(m[i].1) {
      forall i | 0 <= i < |f.must| ensures ConditionHolds(f.must[i], payload) {
        assert f.must[i] == FieldCondition(m[i].0, MatchValue(m[i].1));
      }
    }
  }

  /** One flattened hit, `{"id": r.id, "score": r.score, **(r.payload or {})}`.
      `id` and `score` come first, then the payload keys in payload order;
      payload entries are merged last, so a payload key `id` or `score`
      overrides the hit's own value in place. */
  function FlattenPoint(p: ScoredPoint): (rec: Dict<Value>)
    ensures Keys(rec) == ["id", "score"] + NewKeys(Keys(PayloadOf(p)), ["id", "score"])
    ensures forall k ::
              Get(rec, k) ==
                if Get(PayloadOf(p), k).Some? then Get(PayloadOf(p), k)
                else if k == "id" then Some(IdValue(p.id))
                else if k == "score" then Some(Float(p.score))
                else None
  {
    var head: Dict<Value> := [("id", IdValue(p.id)), ("score", Float(p.score))];
    assert Keys(head) == ["id", "score"];
    Merge(head, PayloadOf(p))
  }

  /** `r` is what `vector_search` makes of the store's reply: the store's
      exception unchanged, or exactly one flattened record per hit, in the
      store's order. */
  predicate FlattenedReply(reply: Result<seq<ScoredPoint>>, r: Result<seq<Dict<Value>>>)
  {
    && (reply.Raised? ==> r == Raised(reply.error))
    && (reply.Ok? ==>
          && r.Ok? && |r.value| == |reply.value|
          && forall i :: 0 <= i < |reply.value| ==> r.value[i] == FlattenPoint(reply.value[i]))
  }

  /** `vector_search`, with the filter condition built by keyword,
      `MatchValue(value=v)`: one store call, on the resolved collection,
      with the embedding untouched, `match_count` as the limit and the
      built filter, and the store's reply flattened. */
  function VectorSearch(
    s: BaseSearchStrategy,
    queryEmbedding: Embedding,
    matchCount: int,
    filterMetadata: Option<Dict<Value>> := None,
    tableRpc: string := DocsAlias
  ): (r: Result<seq<Dict<Value>>>)
    ensures FlattenedReply(s.client(SearchRequest(ResolveCollection(tableRpc), queryEmbedding, matchCount, BuildFilter(filterMetadata))), r)
  {
    var collection := ResolveCollection(tableRpc);
    var queryFilter := BuildFilter(filterMetadata);
    match s.client(SearchRequest(collection, queryEmbedding, matchCount, queryFilter))
    case Raised(e) => Raised(e)
    case Ok(results) => Ok(seq(|results|, i requires 0 <= i < |results| => FlattenPoint(results[i])))
  }

  /** The `TypeError` a pydantic model raises when it is given a positional
      argument; its message text is not modelled. */
  const PositionalArgumentError := Exception("TypeError")

  /** The filter step as written: the first condition of a non-empty dict
      calls `MatchValue(v)` positionally, which raises before any filter
      exists. An absent or empty dict builds no condition and so no filter. */
  function BuildFilterAsWritten(filterMetadata: Option<Dict<Value>>): (f: Result<Option<Filter>>)
    ensures f.Raised? <==> (filterMetadata.Some? && filterMetadata.value != [])
    ensures f.Raised? ==> f.error == PositionalArgumentError
    ensures f.Ok? ==> f.value.None?
  {
    match filterMetadata
    case None => Ok(None)
    case Some(m) => if m == [] then Ok(None) else Raised(PositionalArgumentError)
  }

  /** `vector_search` as written: the filter is built before the store is
      called, so a raising filter step ends the call. */
  function VectorSearchAsWritten(
    s: BaseSearchStrategy,
    queryEmbedding: Embedding,
    matchCount: int,
    filterMetadata: Option<Dict<Value>> := None,
    tableRpc: string := DocsAlias
  ): (r: Result<seq<Dict<Value>>>)
    ensures BuildFilterAsWritten(filterMetadata).Raised? ==> r == Raised(BuildFilterAsWritten(filterMetadata).error)
    ensures BuildFilterAsWritten(filterMetadata).Ok? ==>
              FlattenedReply(s.client(SearchRequest(ResolveCollection(tableRpc), queryEmbedding, matchCount, None)), r)
  {
    match BuildFilterAsWritten(filterMetadata)
    case Raised(e) => Raised(e)
    case Ok(queryFilter) =>
      match s.client(SearchRequest(ResolveCollection(tableRpc), queryEmbedding, matchCount, queryFilter))
      case Raised(e) => Raised(e)
      case Ok(results) => Ok(seq(|results|, i requires 0 <= i < |results| => FlattenPoint(results[i])))
  }

  /** As written, every filtered search raises, whatever the store would
      answer; the corrected search answers it. Without a filter the two
      agree. */
  lemma {:induction false} FilteredSearchAsWrittenRaises(
    s: BaseSearchStrategy, queryEmbedding: Embedding, matchCount: int, filterMetadata: Option<Dict<Value>>, tableRpc: string)
    ensures filterMetadata.Some? && filterMetadata.value != [] ==>
              VectorSearchAsWritten(s, queryEmbedding, matchCount, filterMetadata, tableRpc) == Raised(PositionalArgumentError)
    ensures filterMetadata.None? || filterMetadata.value == [] ==>
              VectorSearchAsWritten(s, queryEmbedding, matchCount, filterMetadata, tableRpc)
              == VectorSearch(s, queryEmbedding, matchCount, filterMetadata, tableRpc)
  {
    if filterMetadata.None? || filterMetadata.value == [] {
      assert BuildFilter(filterMetadata).None?;
      var r1 := VectorSearchAsWritten(s, queryEmbedding, matchCount, filterMetadata, tableRpc);
      var r2 := VectorSearch(s, queryEmbedding, matchCount, filterMetadata, tableRpc);
      if r1.Ok? {
        assert r1.value == r2.value;
      }
    }
  }

  /** A concrete input that shows it: a store that always answers with no
      hits, and the filter `{"source": "docs"}`. The corrected search
      answers with no records; the search as written raises. */
  lemma FilteredSearchCounterexample()
    ensures var s := BaseSearchStrategy(req => Ok([]));
      var m := Some([("source", Str("docs"))]);
      && VectorSearch(s, [], 5, m) == Ok([])
      && VectorSearchAsWritten(s, [], 5, m) == Raised(PositionalArgumentError)
  {
    var s := BaseSearchStrategy(req => Ok([]));
    var r := VectorSearch(s, [], 5, Some([("source", Str("docs"))]));
    assert r.Ok? && |r.value| == 0;
  }

  /** What a well-behaved store answers: no more hits than the limit, and
      only hits whose payload passes the filter. */
  predicate StoreHonours(req: SearchRequest, hits: seq<ScoredPoint>)
  {
    && |hits| <= req.limit
    && (req.queryFilter.Some? ==>
          forall i :: 0 <= i < |hits| ==> FilterHolds(req.queryFilter.value, PayloadOf(hits[i])))
  }

  /** With no alias given the search goes to the `docs` collection. */
  lemma DefaultAliasSearchesDocs(s: BaseSearchStrategy, queryEmbedding: Embedding, matchCount: int, filterMetadata: Option<Dict<Value>>)
    ensures FlattenedReply(s.client(SearchRequest("docs", queryEmbedding, matchCount, BuildFilter(filterMetadata))),
                           VectorSearch(s, queryEmbedding, matchCount, filterMetadata))
  {
  }

  /** When the store honours the request, the search returns at most
      `match_count` records, and every record carries every (key, value)
      pair of a non-empty filter dict. */
  lemma FilteredSearchHonoursFilter(
    s: BaseSearchStrategy, queryEmbedding: Embedding, matchCount: int, m: Dict<Value>, tableRpc: string)
    requires m != []
    requires var req := SearchRequest(ResolveCollection(tableRpc), queryEmbedding, matchCount, BuildFilter(Some(m)));
      s.client(req).Ok? && StoreHonours(req, s.client(req).value)
    ensures var r := VectorSearch(s, queryEmbedding, matchCount, Some(m), tableRpc);
      && r.Ok? && |r.value| <= matchCount
      && forall i, j :: 0 <= i < |r.value| && 0 <= j < |m| ==> Get(r.value[i], m[j].0) == Some(m[j].1)
  {
    var req := SearchRequest(ResolveCollection(tableRpc), queryEmbedding, matchCount, BuildFilter(Some(m)));
    var hits := s.client(req).value;
    var r := VectorSearch(s, queryEmbedding, matchCount, Some(m), tableRpc);
    forall i, j | 0 <= i < |r.value| && 0 <= j < |m| ensures Get(r.value[i], m[j].0) == Some(m[j].1) {
      BuildFilterIsConjunction(m, PayloadOf(hits[i]));
      assert Get(PayloadOf(hits[i]), m[j].0) == Some(m[j].1);
      assert r.value[i] == FlattenPoint(hits[i]);
    }
  }

  /** Without a filter the request carries none, so the store may return
      any hits; the records still number at most `match_count` when the
      store keeps to the limit. */
  lemma UnfilteredSearchHasNoFilter(
    s: BaseSearchStrategy, queryEmbedding: Embedding, matchCount: int, filterMetadata: Option<Dict<Value>>, tableRpc: string)
    requires filterMetadata.None? || filterMetadata == Some([])
    requires var req := SearchRequest(ResolveCollection(tableRpc), queryEmbedding, matchCount, BuildFilter(filterMetadata));
      s.client(req).Ok? && |s.client(req).value| <= matchCount
    ensures SearchRequest(ResolveCollection(tableRpc), queryEmbedding, matchCount, BuildFilter(filterMetadata)).queryFilter.None?
    ensures var r := VectorSearch(s, queryEmbedding, matchCount, filterMetadata, tableRpc);
      r.Ok? && |r.value| <= matchCount
  {
  }
}
