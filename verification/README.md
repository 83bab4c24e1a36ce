# TEDx search backend: TF-IDF ranking and Honeycomb configuration, in Dafny

This project models three small pieces of logic from the search backend and proves properties about them.

1. **The TF-IDF ranking pipeline** of `semantic_search`. The cache files are taken as already loaded.
   - A query is lower-cased and split on whitespace.
   - Its distinct tokens are counted and weighted by their IDF values, giving a sparse query vector.
   - That vector is densified, and so is every row of the CSR document matrix. Each row is scored by cosine similarity, with the zero-norm guard.
   - The `(score, row)` list is sorted by a stable descending sort and cut to `top_n`. Each kept entry is paired with its document.
   - A failure in vectorisation is reported as "Query vectorization failed". A failure in the later stages is reported as "Semantic search failed".
2. **`configure_honeycomb`**, as a pure function. Its inputs are the keyword arguments, the process environment and the current global tracer provider. Its result is either "disabled" (`None`, global provider untouched) or the provider it builds and installs globally.
   - The provider has a resource, an OTLP exporter with its URL and headers, and a batch processor followed by a baggage processor.
   - The API key is resolved in a chain. The last link parses `OTEL_EXPORTER_OTLP_HEADERS` by string splitting.
3. **The integration check script**:
   - the API-key mask in `check_environment`, and the report it prints;
   - the return logic of `test_configuration`;
   - the aggregation of the four results into `main`'s exit code.

Modules:
- `Results`: `Option`, `Result`, `Min`, `Max`.
- `PyText`: the Python string semantics the code relies on: `str.isspace`, ASCII `str.lower`, `str.split()`, `str.split(sep)`, `sep.join`, and slicing with negative bounds.
- `TfidfVectors`: vectorisation, densifying and the cosine similarity.
- `Ranking`: the stable descending sort and the `[:top_n]` cut.
- `SemanticSearch`: the pipeline and its error wrapping.
- `Honeycomb`: `configure_honeycomb`.
- `HoneycombCheck`: the check script.

Parameters stand in for what the model does not compute:
- **Hash order.** The iteration order of `set(tokens)` depends on string hashing. It is a parameter `order` that enumerates the distinct tokens. The query vector's dictionary keeps insertion order, so the order in which densifying visits its items is computed from `order` (`KeyOrder`).
- **The Euclidean norm.** It needs a square root. It is a parameter `norm`, of which the model assumes only that it is non-negative and zero exactly on the zero vector (`ValidNorm`).
- **The failure flags.** Whether the package and module imports succeed, and whether the OpenTelemetry SDK raises, are boolean parameters.
- Scores, IDF values and matrix data are `real`.

Facts about `configure_honeycomb` that the model follows:
- The default service name is "tedxsdg-search-backend".
- `configure_honeycomb` has no guard against being called twice.
- Exceptions from the SDK propagate out of `configure_honeycomb`; nothing falls back to a no-op exporter.
- The sample rate is an integer that is added as an attribute only when it is above 1.
- The endpoint is `endpoint or os.getenv(VAR, default)`. So an endpoint variable that is set but empty yields the empty endpoint, not the default.

## Model

| member | source | states |
|---|---|---|
| PyText.Lower | backend/fastapi/services/semantic_search.py:92 | `str.lower()` on ASCII: the result has the same length, each character is mapped on its own, no ASCII capital remains, and whitespace stays whitespace |
| PyText.Words | backend/fastapi/services/semantic_search.py:92 | `str.split()` with no argument: every word is non-empty and free of whitespace; WordsEmptyIff and WordsOfJoin state when it yields nothing and that it inverts joining with spaces |
| PyText.Split | backend/fastapi/observability/honeycomb.py:46 | `str.split(sep)` for a non-empty separator: there is always at least one piece; JoinOfSplit and SplitLast state that joining the pieces gives the string back and what the last piece is |
| PyText.WordsEmptyIff | backend/fastapi/services/semantic_search.py:92 | `str.split()` yields no tokens exactly when the string is empty or whitespace-only |
| PyText.WordsOfJoin | backend/fastapi/services/semantic_search.py:92 | round trip: splitting non-empty, whitespace-free words joined by single spaces gives the same words back |
| PyText.JoinOfSplit | backend/fastapi/observability/honeycomb.py:46 | round trip: joining the pieces of `s.split(sep)` with `sep` gives `s` back |
| PyText.SplitLast | backend/fastapi/observability/honeycomb.py:46 | the last piece of `s.split(sep)` contains no `sep`; when `sep` occurs, `s` ends with `sep` followed by that piece; otherwise the split is `[s]` |
| PyText.LastPieceAfterLastOccurrence | backend/fastapi/observability/honeycomb.py:46 | for a separator that cannot overlap itself, the last piece is exactly the text after the last occurrence of the separator |
| TfidfVectors.VectorizeQuery | backend/fastapi/services/semantic_search.py:87-105 | `vectorize_query`: the tokens of the lower-cased query, each distinct token visited in hash order, counted and written as count times IDF under its vocabulary column; the lemmas below state its error case, keys, weights and order independence |
| TfidfVectors.VectorizeQueryFails | backend/fastapi/services/semantic_search.py:95-98 | vectorisation raises `IndexError` exactly when some query token is a vocabulary term whose column has no IDF value, whatever order the tokens are visited in |
| TfidfVectors.VectorizeQueryKeys | backend/fastapi/services/semantic_search.py:92-100 | the query vector's keys are exactly the columns of the in-vocabulary tokens, so out-of-vocabulary tokens contribute nothing |
| TfidfVectors.VectorizeQuerySize | backend/fastapi/services/semantic_search.py:92-100 | the query vector has at most as many entries as the query has distinct tokens |
| TfidfVectors.VectorizeQueryLastWrite | backend/fastapi/services/semantic_search.py:93-98 | for every token that is the last one visited for its column, that column holds the token's count times the column's IDF value: when two tokens share a column, the one visited last wins |
| TfidfVectors.VectorizeQueryWeights | backend/fastapi/services/semantic_search.py:93-98 | when distinct query tokens map to distinct columns, each in-vocabulary token's column holds its count times the column's IDF value, so a repeated token scales its weight by its multiplicity |
| TfidfVectors.VectorizeQueryOrderIrrelevant | backend/fastapi/services/semantic_search.py:93-98 | when the vocabulary maps distinct query tokens to distinct columns, the query vector does not depend on the hash order of `set(tokens)` |
| TfidfVectors.BlankQueryVector | backend/fastapi/services/semantic_search.py:92-100 | an empty or whitespace-only query yields the empty query vector |
| TfidfVectors.KeyOrderSpec | backend/fastapi/services/semantic_search.py:95-98 | the query vector's insertion order lists each column of an in-vocabulary token exactly once, and no other column |
| TfidfVectors.VectorizeQueryKeyOrder | backend/fastapi/services/semantic_search.py:93-98 | the keys of a successful query vector, in dictionary order, are the columns in the order they are first assigned while visiting the distinct tokens |
| TfidfVectors.DenseQuery | backend/fastapi/services/semantic_search.py:164-167 | `np.zeros(shape[1])` followed by `query_sparse_vector[index] = value` for each item of the query vector, in dictionary order; DenseQuerySpec states what it computes |
| TfidfVectors.AssignItemsSpec | backend/fastapi/services/semantic_search.py:166-167 | the assignment loop raises `IndexError` exactly when some key is past the end of the array; otherwise every listed column holds its item's value and every other column keeps its old value |
| TfidfVectors.DenseQuerySpec | backend/fastapi/services/semantic_search.py:164-167 | for every order of the items, densifying fails exactly when the query vector names a column at or past `shape[1]`, and otherwise gives the query value at each key and 0 elsewhere |
| TfidfVectors.DenseQueryOrderIrrelevant | backend/fastapi/services/semantic_search.py:164-167 | the dense query is the same whatever order the query vector's items are visited in |
| TfidfVectors.RowVector | backend/fastapi/services/semantic_search.py:171-175 | one densified CSR row: a successful result has `shape[1]` entries; RowVectorScatter, RowVectorWritten and RowVectorUnwritten state its contents and when it succeeds |
| TfidfVectors.ScatterSpec | backend/fastapi/services/semantic_search.py:175 | after `v[cols] = vals`, each written column holds the value of its last write, with a single value broadcast; every other column keeps its old value |
| TfidfVectors.RowVectorScatter | backend/fastapi/services/semantic_search.py:171-175 | a well-formed CSR row densifies without error, by scattering its `data` slice into its `indices` slice over zeros |
| TfidfVectors.RowVectorWritten | backend/fastapi/services/semantic_search.py:171-175 | a densified row has length `shape[1]` and holds `data[k]` at `indices[k]` for every `k` of the row, the last such `k` when a column repeats |
| TfidfVectors.RowVectorUnwritten | backend/fastapi/services/semantic_search.py:171-175 | a densified row is 0 at every column that the row's index slice does not name |
| TfidfVectors.Cosine | backend/fastapi/services/semantic_search.py:107-115 | `cosine_similarity_manual`, with the norm as a parameter; CosineZeroGuard, CosineSymmetric and CosineNonNegative state its guard, symmetry and sign |
| TfidfVectors.CosineZeroGuard | backend/fastapi/services/semantic_search.py:107-115 | the similarity is exactly 0 when either vector is zero, and the dot product over the product of the norms otherwise |
| TfidfVectors.CosineSymmetric | backend/fastapi/services/semantic_search.py:107-115 | the similarity does not depend on the order of its arguments |
| TfidfVectors.CosineNonNegative | backend/fastapi/services/semantic_search.py:107-115 | two vectors of non-negative weights have a non-negative similarity |
| Ranking.SortDescending | backend/fastapi/services/semantic_search.py:187 | `list.sort(reverse=True, key=score)`, as a stable insertion sort; it keeps the length, and SortPermutes and SortRanked state that it is a permutation into ranking order |
| Ranking.Rank | backend/fastapi/services/semantic_search.py:187-188 | the sort followed by `[:top_n]`; RankSpec and RankIsTopRanking state the length, order and choice of the kept entries |
| Ranking.SortPermutes | backend/fastapi/services/semantic_search.py:187 | the sort rearranges its input: every entry is kept as often as it occurs and none is added |
| Ranking.SortRanked | backend/fastapi/services/semantic_search.py:187 | the stable descending sort of a list in ascending row order puts higher scores first, and equal scores in ascending row order |
| Ranking.RankedUnique | backend/fastapi/services/semantic_search.py:187 | two arrangements of the same entries, both in that ranking order, are equal: the sort result is determined |
| Ranking.RankSpec | backend/fastapi/services/semantic_search.py:187-188 | the top-n has `min(top_n, rows)` entries for non-negative `top_n` (all but the last `-top_n` otherwise), in ranking order with non-increasing scores; each kept entry is the list's own entry for its row, no row is kept twice, and every entry left out ranks behind every entry kept |
| Ranking.RankEqualScores | backend/fastapi/services/semantic_search.py:187-188 | when all scores are equal, the kept entries are the first rows in row order |
| Ranking.TopRankingDistinct | backend/fastapi/services/semantic_search.py:187-188 | the rows of a top ranking are distinct |
| Ranking.RankIsTopRanking | backend/fastapi/services/semantic_search.py:187-188 | the rows kept by the sort and cut form a top ranking of the scores, each carrying its own row's score |
| SemanticSearch.SimilaritiesFromFails | backend/fastapi/services/semantic_search.py:170-179 | the similarity loop from row `i` fails exactly when some row from `i` on cannot be densified |
| SemanticSearch.SimilaritiesFromEntries | backend/fastapi/services/semantic_search.py:170-179 | when the similarity loop from row `i` succeeds, its entry `k` is row `i + k` with that row's cosine score |
| SemanticSearch.Similarities | backend/fastapi/services/semantic_search.py:170-179 | the similarity list has one entry per row, in row order, each with its row's cosine score, and fails exactly when some row cannot be densified |
| SemanticSearch.Assemble | backend/fastapi/services/semantic_search.py:191-197 | each result is the kept score with `documents[idx]`, in ranking order; an index past the documents raises `IndexError` |
| SemanticSearch.Similar | backend/fastapi/services/semantic_search.py:164-197 | the guarded block after vectorisation: densify, score every row, sort, cut and attach documents; SimilarFails, SimilarHits and SimilarRanking state its error cases and its results |
| SemanticSearch.SimilarFails | backend/fastapi/services/semantic_search.py:164-197 | with a document per row, the guarded stage fails exactly when the query vector names a column past the matrix or some row cannot be densified |
| SemanticSearch.SimilarHits | backend/fastapi/services/semantic_search.py:187-197 | for a consistent index, the hits are the ranked entries, each paired with its own document |
| SemanticSearch.SimilarRanking | backend/fastapi/services/semantic_search.py:170-197 | for a consistent index, there are `min(top_n, rows)` hits, and they are the rows of a top ranking by cosine score, each with its score and document |
| SemanticSearch.Search | backend/fastapi/services/semantic_search.py:117-209 | `semantic_search` over loaded components, with both failure wrappings; SearchSucceeds, SearchRanking and SearchFailureStage state its outcomes |
| SemanticSearch.QueryVectorFits | backend/fastapi/services/semantic_search.py:87-105 | when every vocabulary column is inside the IDF array and the matrix, vectorisation succeeds and its keys stay inside the matrix |
| SemanticSearch.SearchSucceeds | backend/fastapi/services/semantic_search.py:142-209 | a consistent index never fails, and the results are those of the similarity stage on the query vector |
| SemanticSearch.SearchRanking | backend/fastapi/services/semantic_search.py:142-197 | for a consistent index, the search succeeds with `min(top_n, rows)` results, and they are the rows of a top ranking by cosine similarity with the dense query vector, each with its score and document |
| SemanticSearch.DefaultSearchCount | backend/fastapi/services/semantic_search.py:117 | called with the default `top_n` of 5, a search over a consistent index returns 5 results, or one per row when there are fewer |
| SemanticSearch.SearchFailureStage | backend/fastapi/services/semantic_search.py:142-209 | "Query vectorization failed" is raised exactly when a query token is a vocabulary term without an IDF value, wrapping an `IndexError`; "Semantic search failed" is raised exactly when vectorisation succeeded and the later stage raised |
| SemanticSearch.ZeroQueryScores | backend/fastapi/services/semantic_search.py:170-179 | against the zero query every row scores 0 |
| SemanticSearch.EmptyQuerySimilar | backend/fastapi/services/semantic_search.py:164-197 | the empty query vector yields the first `min(top_n, rows)` documents in row order, each with score 0 |
| SemanticSearch.UnmatchedQuery | backend/fastapi/services/semantic_search.py:170-197 | a query with no vocabulary token, including an empty one, returns documents `0 .. min(top_n, rows) - 1`, all with score 0 |
| Honeycomb.HeaderKey | backend/fastapi/observability/honeycomb.py:46 | the last link of the key chain: `headers.split("x-honeycomb-team=")[-1].split(",")[0]`; the HeaderKey lemmas state what it reads back |
| Honeycomb.ResolveApiKey | backend/fastapi/observability/honeycomb.py:46 | the `or` chain over the argument, `HONEYCOMB_API_KEY` and the headers variable; ApiKeyChain states which link supplies the key |
| Honeycomb.HeaderKeyEmpty | backend/fastapi/observability/honeycomb.py:46 | an unset or empty headers variable yields the empty key |
| Honeycomb.HeaderKeyWithoutMarker | backend/fastapi/observability/honeycomb.py:46 | without `x-honeycomb-team=`, the key is the whole headers string up to its first comma |
| Honeycomb.HeaderKeyAfterLastMarker | backend/fastapi/observability/honeycomb.py:46 | with the marker, the key is the text after its last occurrence, up to the next comma |
| Honeycomb.HeaderKeyRoundTrip | backend/fastapi/observability/honeycomb.py:46 | a comma-free key written after the marker, followed by nothing or by further comma-separated headers, is read back |
| Honeycomb.ApiKeyChain | backend/fastapi/observability/honeycomb.py:46 | the key is the non-empty argument, else a non-empty `HONEYCOMB_API_KEY`, else the key parsed from the headers variable, which is empty when that variable is unset or empty |
| Honeycomb.ResourceAttributes | backend/fastapi/observability/honeycomb.py:58-64 | the attributes hold the service name, hold `SampleRate` exactly when the rate is above 1, and hold nothing else |
| Honeycomb.ExporterHeaders | backend/fastapi/observability/honeycomb.py:72-78 | the headers map `x-honeycomb-team` to the key, hold `x-honeycomb-dataset` exactly for a non-empty dataset, and hold nothing else |
| Honeycomb.Configure | backend/fastapi/observability/honeycomb.py:25-100 | `configure_honeycomb` as a function of its arguments, the environment and the global provider; the Configure lemmas state when it is disabled and what it builds and installs |
| Honeycomb.ConfigureEnabledIff | backend/fastapi/observability/honeycomb.py:51-100 | the call returns `None` exactly when the resolved key is empty, and then the global provider is unchanged; otherwise the returned provider is the global one |
| Honeycomb.ConfigureWithoutKey | backend/fastapi/observability/honeycomb.py:46-53 | with no key in the arguments, in `HONEYCOMB_API_KEY` or in the headers variable, nothing is built or installed |
| Honeycomb.ConfigureEnabled | backend/fastapi/observability/honeycomb.py:47-93 | when enabled: exactly two processors, batch export first and baggage with all keys second; the exporter URL is the argument endpoint, else the variable, else the US endpoint, followed by `/v1/traces`; the headers are as resolved |
| Honeycomb.ConfigureResource | backend/fastapi/observability/honeycomb.py:58-66 | when enabled, the resource names the service ("tedxsdg-search-backend" by default) and carries a sample rate exactly when it is above 1 |
| HoneycombCheck.MaskKey | test_honeycomb.py:64 | the key mask of `check_environment`; the MaskKey lemmas state its shape and what it reveals |
| HoneycombCheck.MaskKeyShape | test_honeycomb.py:64 | a key longer than 12 characters is shown as its first 8 characters, "..." and its last 4, 15 characters in all; a shorter key is shown as "***" |
| HoneycombCheck.MaskKeyRevealsOnlyEnds | test_honeycomb.py:64 | two long keys share a mask exactly when their first 8 and last 4 characters agree, so the middle is never revealed |
| HoneycombCheck.MaskKeyShortHidden | test_honeycomb.py:64 | all short keys share one mask, and it is never the mask of a long key |
| HoneycombCheck.CheckEnvironment | test_honeycomb.py:54-76 | `check_environment`: the report of the four variables and its result; CheckEnvironmentReport states what it reports |
| HoneycombCheck.CheckEnvironmentReport | test_honeycomb.py:54-76 | the environment check always passes; a masked key is reported exactly when `HONEYCOMB_API_KEY` is non-empty; unset variables report the default service name and endpoint; the reported endpoint is the one `configure_honeycomb` resolves with no arguments |
| HoneycombCheck.TestConfiguration | test_honeycomb.py:78-98 | `test_configuration`: import, configure with a test service name, and the result; TestConfigurationPasses states when it passes |
| HoneycombCheck.TestConfigurationPasses | test_honeycomb.py:78-98 | the configuration test passes both with a provider and with `None`, and fails exactly when configuring raises |
| HoneycombCheck.SummaryExitCode | test_honeycomb.py:119-138 | the exit code is 0 exactly when every result passed, and 1 exactly when one failed |
| HoneycombCheck.RunChecks | test_honeycomb.py:100-138 | the script exits with 0 exactly when the packages and the module import and the configuration test does not raise; a missing key never fails it |

## Left out

- `load_tfidf_components` reads `.npz` files. It is I/O, so the matrix, vocabulary, IDF values and documents are inputs. Its error path at `semantic_search.py:138` names `trace`, which that file never imports, so that path would raise a `NameError` of its own. Nothing in the model depends on it.
- Spans, span attributes, exception recording, logging and `debug_log` output, the timing of the similarity loop, and every `print` of the check script are left out. None of them affects a returned value.
- Floating point: scores are exact `real`s, and the norm is a parameter. The model does not compute a square root, rounding, or NaN.
- TfidfVectors.DenseQuerySpec: vocabulary columns and CSR indices are natural numbers, so numpy's negative-index wrap-around is not modelled.
- TfidfVectors.RowVectorWritten: when a row names the same column twice, the model keeps the later value. numpy does not promise which write wins, so the lemma states the value only for the last write to a column.
- TfidfVectors.VectorizeQueryWeights: the order in which `set(tokens)` is iterated is an input, because it depends on string hashing. The lemma names every weight only when distinct tokens map to distinct columns; for shared columns, TfidfVectors.VectorizeQueryLastWrite names the value only for the token visited last.
- PyText.Lower: only ASCII capitals are lowered. Python's full Unicode case mapping is not modelled.
- Honeycomb.ConfigureEnabledIff: installing the global provider is modelled as replacing it. The OpenTelemetry SDK ignores a second `set_tracer_provider`, which is behaviour of that foreign library.
- The OpenTelemetry SDK objects are records that keep only what `configure_honeycomb` puts into them. `Resource.create` merging in SDK default attributes is not modelled.
- `check_imports` and `check_honeycomb_module` perform dynamic imports. They enter as the booleans they return.
- `instrument_fastapi`, `get_tracer`, `add_span_attribute`, `add_baggage_attribute` and `detach_baggage` are one-line wrappers over OpenTelemetry context APIs, so they are left out.
- `backend/fastapi/observability/middleware.py` is left out. It is request middleware that only times requests and sets span attributes.
