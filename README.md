# Archon retrieval layer and project/task stores, modelled in Dafny

This project models two parts of the Archon knowledge-management backend.

- **Retrieval.** `BaseSearchStrategy.vector_search` resolves a caller-facing
  alias (`match_archon_crawled_pages`, `match_archon_code_examples`) to a
  vector-store collection (`docs`, `code`). It turns a metadata dict into a
  conjunctive equality filter, sends one search to the store, and flattens
  each hit into a record `{"id", "score", **payload}`. `RAGService` embeds
  the query text and runs that search with a fixed alias, either for
  documents or for code examples.
- **Structured stores.** `TaskService` and `ProjectService` run
  INSERT / SELECT / UPDATE / DELETE statements against the `archon_tasks`
  and `archon_projects` SQLite tables.

Files:

- `py_dict.dfy` (`PyDict`): Python's insertion-ordered `dict`. It covers
  `get`, item assignment and the `{**d, **o}` display, with their ordering
  rules.
- `py_str.dfy` (`PyStr`): `str.strip()` with Python's whitespace set,
  code-point ordering of text, and `str()` of an integer.
- `sql_table.dfy` (`SqlTable`): a table keyed by its integer primary key.
  It models `UPDATE … WHERE id = ?` and `DELETE … WHERE id = ?`, each with
  its `rowcount`.
- `search_strategy.dfy` (`SearchStrategy`): the alias table, filter
  construction, hit flattening and `vector_search`.
- `rag_service.dfy` (`RagService`): `search_documents` and
  `search_code_examples`.
- `task_service.dfy` (`TaskService`): a class holding the task table and
  the next rowid.
- `project_service.dfy` (`ProjectService`): a class holding the project
  table, the next rowid and the two `Project` timestamp defaults.

Foreign collaborators become parameters:

- The Qdrant client is the `client` function a strategy holds. It maps a
  `SearchRequest` to either an ordered sequence of hits or a raised
  exception.
- The embedding model is the `createEmbedding` function passed to each
  retrieval operation.
- The clock readings `datetime.now().isoformat()` are string parameters.
- The default client factory `get_qdrant_client()` is the `connect`
  argument.

The retrieval functions are pure. So for a fixed store and embedder,
repeated calls with the same arguments give the same answer.

The filter step as written raises on every non-empty filter dict (see
"## Findings"). The search the retrieval service uses in this model builds
the condition by keyword instead, as evidently intended.
`VectorSearchAsWritten` keeps the code's own behaviour beside it.

Two behaviours of the code are kept as they are:

- `vector_search` does not reject a `match_count` of zero or less; it
  passes the value on to the store as the limit.
- Payload keys `id` and `score` overwrite the hit's own values in place,
  keeping the first two positions of the record (`FlattenPoint`).

## Model

| member | source | states |
|---|---|---|
| `PyDict.Put` | python/src/server/services/search/base_search_strategy.py:58-62 | Assigning a key: lookups see the new value for that key and the old value for every other key. An existing key keeps its position; a new key is appended. Keys stay distinct. |
| `PyDict.Merge` | python/src/server/services/search/base_search_strategy.py:58-62 | `{**d, **o}`: every key of `o` takes `o`'s value; other keys keep `d`'s. The key order is `d`'s keys, then the keys only `o` has, in `o`'s order. |
| `SearchStrategy.ResolveCollection` | python/src/server/services/search/base_search_strategy.py:24-39 | `match_archon_crawled_pages` resolves to `docs` and `match_archon_code_examples` to `code`. Any other alias is used unchanged as the collection name. |
| `SearchStrategy.BuildFilter` | python/src/server/services/search/base_search_strategy.py:45-48 | There is no filter exactly when the dict is absent or empty. Otherwise there is one equality condition per entry, in dict order, all under `must`. |
| `SearchStrategy.BuildFilterIsConjunction` | python/src/server/services/search/base_search_strategy.py:47-48 | A payload passes the filter built from a non-empty dict exactly when it holds every (key, value) entry of that dict. |
| `SearchStrategy.FlattenPoint` | python/src/server/services/search/base_search_strategy.py:57-64 | Each record looks up a payload key to the payload's value, `id` to the hit id and `score` to the hit score, where the payload lacks them. A null payload counts as empty. The keys are `id`, `score`, then the payload's other keys in payload order. |
| `SearchStrategy.NewBaseSearchStrategy` | python/src/server/services/search/base_search_strategy.py:29-30 | A strategy holds the injected client, or the default client when none is given. |
| `SearchStrategy.VectorSearch` | python/src/server/services/search/base_search_strategy.py:32-64 | The search with the filter condition built by keyword (see Findings). Exactly one store request is made: the resolved collection, the embedding untouched, `match_count` as the limit and the built filter. A store exception is returned unchanged. Otherwise there is one flattened record per hit, in store order. |
| `SearchStrategy.BuildFilterAsWritten` | python/src/server/services/search/base_search_strategy.py:45-48 | As written: a non-empty dict raises the `TypeError` of the positional `MatchValue(v)` call, and no filter is built. An absent or empty dict builds no filter. |
| `SearchStrategy.VectorSearchAsWritten` | python/src/server/services/search/base_search_strategy.py:32-64 | As written: a raising filter step is the result and the store is not called. Otherwise the store's reply to the unfiltered request is flattened. |
| `SearchStrategy.FilteredSearchAsWrittenRaises` | python/src/server/services/search/base_search_strategy.py:45-50 | As written, every search with a non-empty filter raises whatever the store holds. Without a filter, the as-written and corrected searches agree. |
| `SearchStrategy.FilteredSearchCounterexample` | python/src/server/services/search/base_search_strategy.py:47 | With a store that answers no hits and the filter `{"source": "docs"}`, the corrected search returns no records and the as-written one raises. |
| `SearchStrategy.DefaultAliasSearchesDocs` | python/src/server/services/search/base_search_strategy.py:37-39 | A call without an alias sends its request to the `docs` collection and returns that answer flattened. |
| `SearchStrategy.FilteredSearchHonoursFilter` | python/src/server/services/search/base_search_strategy.py:45-64 | Assume the store keeps to the limit and the filter. Then a filtered search returns at most `match_count` records, and every record carries every filter entry. |
| `SearchStrategy.UnfilteredSearchHasNoFilter` | python/src/server/services/search/base_search_strategy.py:45-55 | An absent or empty filter dict sends no filter. If the store keeps to the limit, at most `match_count` records come back. |
| `RagService.NewRagService` | python/src/server/services/search/rag_service.py:17-18 | The service uses the injected strategy. Without one, it uses a default strategy that holds the default client. |
| `RagService.SearchDocuments` | python/src/server/services/search/rag_service.py:20-37 | If embedding fails, that exception is the result. Otherwise the store's answer is returned unchanged. That answer is for collection `docs`, with the query's embedding, `match_count` and the filter as given, flattened one record per hit. |
| `RagService.SearchCodeExamples` | python/src/server/services/search/rag_service.py:39-53 | The same protocol as document search, on collection `code`. |
| `RagService.DefaultsAskForFiveUnfiltered` | python/src/server/services/search/rag_service.py:20-40 | Without `match_count` and filter, both operations ask the store for 5 hits with no filter. |
| `RagService.EmbeddingFailureSkipsStore` | python/src/server/services/search/rag_service.py:28-35 | When embedding fails, the result does not depend on the store at all. |
| `RagService.CodeSearchEndToEnd` | python/src/server/services/search/rag_service.py:39-53 | Assume the store honours the request. A filtered code search then returns one record per hit in store order, at most `match_count` of them, and each record carries every filter entry. |
| `SqlTable.UpdateWhereId` | python/src/server/services/projects/task_service.py:76-82 | The WHERE-id UPDATE changes only the matching row. Its rowcount is at most 1, and it is 0 exactly when no row has that id. |
| `SqlTable.DeleteWhereId` | python/src/server/services/projects/project_service.py:91-93 | The WHERE-id DELETE removes exactly that id and keeps every other row. Its rowcount is 1 exactly when the row existed. |
| `TaskService.TaskService.CreateTask` | python/src/server/services/projects/task_service.py:28-57 | An invalid status gives an error, and the table is unchanged. Otherwise one row is added under a fresh id, with defaults `""`, `todo` and `User`. The result carries that id, the title and the status. |
| `TaskService.TaskService.ListTasks` | python/src/server/services/projects/task_service.py:59-70 | Returns exactly the rows of the given project (all rows when none is given), each once, in rowid order. `total_count` is their number. |
| `TaskService.TaskService.UpdateStatus` | python/src/server/services/projects/task_service.py:72-84 | An invalid status gives an error; an unknown id gives "not found". Neither changes anything. Otherwise only that row's status and updated_at change, whatever its current status. |
| `TaskService.ReopenDoneTask` | python/src/server/services/projects/task_service.py:72-84 | A task created as `done` can be moved back to `todo`. |
| `PyStr.Strip` | python/src/server/services/projects/project_service.py:47 | The result is the middle of the input with whitespace on both sides removed. It neither starts nor ends with whitespace. It is empty exactly when the input is all whitespace. |
| `PyStr.StripIdempotent` | python/src/server/services/projects/project_service.py:47 | Stripping a stripped title changes nothing. |
| `PyStr.LexLeTotal` | python/src/server/services/projects/project_service.py:67 | Any two timestamps are comparable under text order. |
| `PyStr.LexLeTransitive` | python/src/server/services/projects/project_service.py:67 | Text order is transitive. |
| `ProjectService.InsertNewestFirst` | python/src/server/services/projects/project_service.py:67 | Inserting a row into a newest-first list keeps it newest-first, and adds exactly that row to its multiset. |
| `ProjectService.ProjectService.CreateProject` | python/src/server/services/projects/project_service.py:41-60 | An empty title gives an error and inserts nothing. Otherwise one row is added under a fresh id, with the stripped title and the class-default timestamps. The returned project carries that id. |
| `ProjectService.ProjectService.ListProjects` | python/src/server/services/projects/project_service.py:62-71 | Every row appears exactly once and nothing else appears. The rows are ordered by created_at, newest first, and `total_count` is their number. |
| `ProjectService.ProjectService.GetProject` | python/src/server/services/projects/project_service.py:73-86 | Returns the row for an existing id, and "not found" otherwise. |
| `ProjectService.ProjectService.DeleteProject` | python/src/server/services/projects/project_service.py:88-98 | Succeeds exactly when the id existed. Afterwards the id is absent and every other row is unchanged. |
| `ProjectService.CreatedTogetherShareTimestamps` | python/src/server/services/projects/project_service.py:22-28 | Two projects created through one service get the same created_at and updated_at, and different ids. The service's two constants stand for the `Project` class's defaults, read once when the class was defined and shared by every service. |

## Left out

- `client_manager.py` is not part of this model: the SQLite connection, the cursor's commit, rollback and close, environment variables, and building the Qdrant client. Each table is a map held by its service object.
- `BuildFilter`: does not model that Qdrant's `MatchValue` accepts only a bool, an int or a string. Any `Value`, including a float, null, list or object, forms an equality condition here. With a real client such a value is refused when the condition is built.
- Qdrant's nearest-neighbour search and the meaning of `score`: the store is an abstract function. "At most `limit` hits" and "every hit passes the filter" (`StoreHonours`) are stated assumptions about that function. Qdrant's match-any-element rule for array payloads is not modelled; conditions are plain equality.
- The embedding model `create_embedding`: an uninterpreted function, so embedding dimensions are not checked. Vectors and scores are `real`s that nothing computes with, so floating point is out of scope.
- `async`/`await`, the `safe_span` attributes (query length, match count, results found) and logger calls: observability only. The calls are modelled as sequential.
- SQL parsing and SQLite specifics: `lastrowid` is modelled only as a fresh id (`nextId`); SQLite's choice of rowid is not. The row factory is not modelled. Column types are unbounded integers and strings.
- `ListTasks`: returns rows in rowid order. A plain `SELECT *` on a rowid table scans in that order, but SQL does not promise it. Ties in `ORDER BY created_at DESC` come back in whatever order `InsertNewestFirst` leaves them; SQL leaves that order open.
- The `isinstance(title, str)` check in `create_project`: the title is typed `string`.
- Error bodies are kept as structured errors. Each error's `Message()` renders the source's text; the text itself is not given a contract.
- `create_task` reads the clock twice (`clockCreated`, `clockUpdated`), so the two timestamps can differ; the model takes both readings as parameters.

## Findings

| source | as written | input that shows it | evidently intended | confidence | as-written member | corrected member |
|---|---|---|---|---|---|---|
| python/src/server/services/search/base_search_strategy.py:47 | `models.MatchValue(v)` passes the value positionally. Qdrant's models are pydantic models, whose constructor takes keyword arguments only, so the call raises `TypeError` before the store is called. | any non-empty `filter_metadata`, e.g. `{"source": "docs"}` with a store that answers no hits | `models.MatchValue(value=v)`: one equality condition per entry, and the store's filtered answer | not executed; rests on the pydantic constructor, which is outside this repository | `SearchStrategy.VectorSearchAsWritten` (`FilteredSearchAsWrittenRaises`, `FilteredSearchCounterexample`) | `SearchStrategy.VectorSearch` (`BuildFilter`, `FilteredSearchHonoursFilter`) |
