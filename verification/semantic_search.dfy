/** `semantic_search`: vectorise the query, score every document row of the
    TF-IDF matrix by cosine similarity, rank, cut to `top_n` and attach the
    documents. Failures are wrapped by stage, as the Python code wraps them
    in a `RuntimeError` whose message names the stage. */
module SemanticSearch {
  import opened Results
  import opened PyText
  import opened TfidfVectors
  import opened Ranking

  /** The loaded search components: the matrix, the fitted vocabulary and
      IDF values, and the document records, one per matrix row. */
  datatype TfidfIndex<D> = TfidfIndex(matrix: CsrMatrix, vocabulary: Vocabulary, idf: seq<real>, documents: seq<D>)

  /** One result: `{"score": score, "document": document}`. */
  datatype Hit<D> = Hit(score: real, document: D)

  /** The `RuntimeError` raised, by stage, with the exception it wraps:
      "Query vectorization failed: ..." or "Semantic search failed: ...". */
  datatype SearchError = QueryVectorizationFailed(cause: Exception) | SemanticSearchFailed(cause: Exception)

  /** What a consistent set of cache files guarantees: a well-formed matrix,
      every vocabulary column inside both the IDF array and the matrix, and
      a document for every row. */
  predicate Consistent<D>(index: TfidfIndex<D>) {
    && WellFormed(index.matrix)
    && (forall t :: t in index.vocabulary ==>
          index.vocabulary[t] < |index.idf| && index.vocabulary[t] < index.matrix.cols)
    && |index.documents| >= index.matrix.rows
  }

  /** The similarity of row `i` with the dense query `q` (0 for a row that
      cannot be densified, which never reaches a result). */
  function RowScore(m: CsrMatrix, q: seq<real>, norm: Norm, i: nat): real
    requires |q| == m.cols && i < m.rows
  {
    var row := RowVector(m, i);
    if row.Ok? then Cosine(row.value, q, norm) else 0.0
  }

  /** The similarity loop from row `i` on: one `(score, row)` entry per row,
      stopping at the first row that cannot be densified. */
  function SimilaritiesFrom(m: CsrMatrix, q: seq<real>, norm: Norm, i: nat): (r: Result<seq<Scored>, Exception>)
    requires |q| == m.cols && i <= m.rows
    ensures r.Ok? ==> |r.value| == m.rows - i
    decreases m.rows - i
  {
    if i == m.rows then Ok([])
    else
      var row := RowVector(m, i);
      if row.Err? then Err(row.error)
      else
        var rest := SimilaritiesFrom(m, q, norm, i + 1);
        if rest.Err? then Err(rest.error)
        else Ok([Scored(Cosine(row.value, q, norm), i)] + rest.value)
  }

  /** The loop from row `i` fails exactly when a row from `i` on cannot be
      densified. */
  lemma {:induction false} SimilaritiesFromFails(m: CsrMatrix, q: seq<real>, norm: Norm, i: nat)
    requires |q| == m.cols && i <= m.rows
    ensures SimilaritiesFrom(m, q, norm, i).Err? <==> exists k :: i <= k < m.rows && RowVector(m, k).Err?
    decreases m.rows - i
  {
    if i < m.rows {
      SimilaritiesFromFails(m, q, norm, i + 1);
      if RowVector(m, i).Err? {
        assert SimilaritiesFrom(m, q, norm, i).Err?;
      } else if SimilaritiesFrom(m, q, norm, i + 1).Err? {
        var k :| i + 1 <= k < m.rows && RowVector(m, k).Err?;
      } else {
        forall k | i <= k < m.rows
          ensures RowVector(m, k).Ok?
        {
          if k > i {
            assert !(i + 1 <= k < m.rows && RowVector(m, k).Err?);
          }
        }
      }
    }
  }

  /** When the loop from row `i` succeeds, its entry `k` is row `i + k`
      with its score. */
  lemma {:induction false} SimilaritiesFromEntries(m: CsrMatrix, q: seq<real>, norm: Norm, i: nat)
    requires |q| == m.cols && i <= m.rows
    ensures var r := SimilaritiesFrom(m, q, norm, i);
      r.Ok? ==> forall k :: 0 <= k < |r.value| ==> r.value[k] == Scored(RowScore(m, q, norm, i + k), i + k)
    decreases m.rows - i
  {
    if i < m.rows && SimilaritiesFrom(m, q, norm, i).Ok? {
      SimilaritiesFromEntries(m, q, norm, i + 1);
      var row := RowVector(m, i);
      var rest := SimilaritiesFrom(m, q, norm, i + 1);
      var r := SimilaritiesFrom(m, q, norm, i).value;
      assert r == [Scored(Cosine(row.value, q, norm), i)] + rest.value;
      forall k | 0 <= k < |r|
        ensures r[k] == Scored(RowScore(m, q, norm, i + k), i + k)
      {
        if k > 0 {
          assert r[k] == rest.value[k - 1];
        }
      }
    }
  }

  /** `cosine_similarities`: the similarity list, in row order. */
  function Similarities(m: CsrMatrix, q: seq<real>, norm: Norm): (r: Result<seq<Scored>, Exception>)
    requires |q| == m.cols
    ensures r.Err? <==> exists k :: 0 <= k < m.rows && RowVector(m, k).Err?
    ensures r.Ok? ==> |r.value| == m.rows && RowOrder(r.value)
    ensures r.Ok? ==> forall k :: 0 <= k < m.rows ==> r.value[k].score == RowScore(m, q, norm, k)
  {
    SimilaritiesFromFails(m, q, norm, 0);
    SimilaritiesFromEntries(m, q, norm, 0);
    SimilaritiesFrom(m, q, norm, 0)
  }

  /** `documents[idx]` for every kept entry; an entry past the documents
      raises `IndexError`. */
  function Assemble<D>(top: seq<Scored>, documents: seq<D>): (r: Result<seq<Hit<D>>, Exception>)
    ensures r.Err? <==> exists j :: 0 <= j < |top| && top[j].index >= |documents|
    ensures r.Ok? ==> |r.value| == |top|
    ensures r.Ok? ==> forall j :: 0 <= j < |top| ==>
      r.value[j] == Hit(top[j].score, documents[top[j].index])
  {
    if |top| == 0 then Ok([])
    else if top[0].index >= |documents| then Err(IndexError)
    else
      var rest := Assemble(top[1..], documents);
      if rest.Err? then Err(rest.error)
      else Ok([Hit(top[0].score, documents[top[0].index])] + rest.value)
  }

  /** The guarded block after vectorisation: densify the query vector,
      its items visited in `keys` order, score every row, sort, cut to
      `top_n`, attach the documents. */
  function Similar<D>(qv: SparseVector, keys: seq<nat>, index: TfidfIndex<D>, topN: int, norm: Norm)
    : Result<seq<Hit<D>>, Exception>
    requires ListsKeys(keys, qv)
  {
    var q := DenseQuery(qv, index.matrix.cols, keys);
    if q.Err? then Err(q.error)
    else
      var s := Similarities(index.matrix, q.value, norm);
      if s.Err? then Err(s.error)
      else Assemble(Rank(s.value, topN), index.documents)
  }

  /** The default of `semantic_search`'s `top_n` parameter. */
  const DefaultTopN: int := 5

  /** `semantic_search(query, cache_dir, top_n)` over already loaded
      components, with the query's distinct tokens visited in `order`. */
  function Search<D>(query: string, index: TfidfIndex<D>, topN: int, order: seq<string>, norm: Norm)
    : Result<seq<Hit<D>>, SearchError>
    requires Enumerates(order, Tokens(query))
  {
    var qv := VectorizeQuery(query, index.vocabulary, index.idf, order);
    if qv.Err? then Err(QueryVectorizationFailed(qv.error))
    else
      VectorizeQueryKeyOrder(query, index.vocabulary, index.idf, order);
      var hits := Similar(qv.value, KeyOrder(order, index.vocabulary), index, topN, norm);
      if hits.Err? then Err(SemanticSearchFailed(hits.error)) else Ok(hits.value)
  }

  /* ---------------------------------------------------------------------- */
  /* Properties                                                              */
  /* ---------------------------------------------------------------------- */

  /** The number of results: `top_n` capped by the number of rows, or, for
      a negative `top_n`, all rows but the last `-top_n`. */
  function ResultCount(topN: int, rows: nat): nat {
    if topN >= 0 then Min(topN, rows) else Max(0, rows + topN)
  }

  /** The similarity of every row with `q`, in row order. */
  function RowScores(m: CsrMatrix, q: seq<real>, norm: Norm): (r: seq<real>)
    requires |q| == m.cols
    ensures |r| == m.rows
  {
    seq(m.rows, i requires 0 <= i < m.rows => RowScore(m, q, norm, i))
  }

  /** The similarity stage fails exactly when the query vector names a
      column past the matrix or some row cannot be densified, provided there
      is a document for every row. */
  lemma SimilarFails<D>(qv: SparseVector, keys: seq<nat>, index: TfidfIndex<D>, topN: int, norm: Norm)
    requires ListsKeys(keys, qv)
    requires |index.documents| >= index.matrix.rows
    ensures Similar(qv, keys, index, topN, norm).Err? <==>
      (exists c :: c in qv && c >= index.matrix.cols) ||
      (exists k :: 0 <= k < index.matrix.rows && RowVector(index.matrix, k).Err?)
  {
    var m := index.matrix;
    var q := DenseQuery(qv, m.cols, keys);
    DenseQuerySpec(qv, m.cols, keys);
    if q.Ok? {
      var s := Similarities(m, q.value, norm);
      if s.Ok? {
        RankSpec(s.value, topN);
      }
    }
  }

  /** For a consistent index, the similarity stage succeeds on every query
      vector inside the matrix. */
  lemma SimilarSucceeds<D>(qv: SparseVector, keys: seq<nat>, index: TfidfIndex<D>, topN: int, norm: Norm)
    requires ListsKeys(keys, qv)
    requires Consistent(index)
    requires forall c :: c in qv ==> c < index.matrix.cols
    ensures Similar(qv, keys, index, topN, norm).Ok?
  {
    AllRowsDensify(index.matrix);
    SimilarFails(qv, keys, index, topN, norm);
  }

  /** Every row of a well-formed matrix densifies. */
  lemma AllRowsDensify(m: CsrMatrix)
    requires WellFormed(m)
    ensures forall k :: 0 <= k < m.rows ==> RowVector(m, k).Ok?
  {
    forall k | 0 <= k < m.rows
      ensures RowVector(m, k).Ok?
    {
      RowVectorScatter(m, k);
    }
  }

  /** The scores of a successful similarity list are the row scores. */
  lemma SimilarityScores(m: CsrMatrix, q: seq<real>, norm: Norm)
    requires |q| == m.cols && Similarities(m, q, norm).Ok?
    ensures ScoresOf(Similarities(m, q, norm).value) == RowScores(m, q, norm)
  {
  }

  /** The hits of a successful similarity stage are the ranked entries of
      the similarity list, each with its document. */
  lemma SimilarHits<D>(qv: SparseVector, keys: seq<nat>, index: TfidfIndex<D>, topN: int, norm: Norm)
    requires ListsKeys(keys, qv)
    requires Consistent(index)
    requires forall c :: c in qv ==> c < index.matrix.cols
    ensures Similarities(index.matrix, Densified(qv, index.matrix.cols), norm).Ok?
    ensures var top := Rank(Similarities(index.matrix, Densified(qv, index.matrix.cols), norm).value, topN);
      && Similar(qv, keys, index, topN, norm).Ok?
      && |Similar(qv, keys, index, topN, norm).value| == |top|
      && forall j :: 0 <= j < |top| ==>
           (top[j].index < |index.documents| &&
            Similar(qv, keys, index, topN, norm).value[j] == Hit(top[j].score, index.documents[top[j].index]))
  {
    AllRowsDensify(index.matrix);
    DenseQuerySpec(qv, index.matrix.cols, keys);
    SimilarFails(qv, keys, index, topN, norm);
  }

  /** For a consistent index and a query vector inside the matrix, the
      similarity stage succeeds with `ResultCount` hits: the rows of a top
      ranking by cosine similarity, each with its score and its document. */
  lemma SimilarRanking<D>(qv: SparseVector, keys: seq<nat>, index: TfidfIndex<D>, topN: int, norm: Norm)
    requires ListsKeys(keys, qv)
    requires Consistent(index)
    requires forall c :: c in qv ==> c < index.matrix.cols
    ensures Similar(qv, keys, index, topN, norm).Ok?
    ensures |Similar(qv, keys, index, topN, norm).value| == ResultCount(topN, index.matrix.rows)
    ensures var scores := RowScores(index.matrix, Densified(qv, index.matrix.cols), norm);
      var hits := Similar(qv, keys, index, topN, norm).value;
      exists rows: seq<nat> ::
        && |rows| == |hits|
        && IsTopRanking(scores, rows)
        && (forall j :: 0 <= j < |rows| ==> hits[j] == Hit(scores[rows[j]], index.documents[rows[j]]))
  {
    var m := index.matrix;
    var q := Densified(qv, m.cols);
    SimilarHits(qv, keys, index, topN, norm);
    var s := Similarities(m, q, norm).value;
    SimilarityScores(m, q, norm);
    RankSpec(s, topN);
    RankIsTopRanking(s, topN);
    var rows := RowsOf(Rank(s, topN));
    assert IsTopRanking(RowScores(m, q, norm), rows);
  }

  /** With every vocabulary column inside the IDF array and the matrix,
      vectorisation succeeds and its vector stays inside the matrix. */
  lemma QueryVectorFits(query: string, vocabulary: Vocabulary, idf: seq<real>, cols: nat, order: seq<string>)
    requires Enumerates(order, Tokens(query))
    requires forall t :: t in vocabulary ==> vocabulary[t] < |idf| && vocabulary[t] < cols
    ensures VectorizeQuery(query, vocabulary, idf, order).Ok?
    ensures forall c :: c in VectorizeQuery(query, vocabulary, idf, order).value ==> c < cols
  {
    VectorizeQueryFails(query, vocabulary, idf, order);
    VectorizeQueryKeys(query, vocabulary, idf, order);
  }

  /** A consistent index never fails: vectorisation finds an IDF value for
      every vocabulary column, and the similarity stage succeeds on the
      resulting query vector. */
  lemma SearchSucceeds<D>(query: string, index: TfidfIndex<D>, topN: int, order: seq<string>, norm: Norm)
    requires Enumerates(order, Tokens(query))
    requires Consistent(index)
    ensures VectorizeQuery(query, index.vocabulary, index.idf, order).Ok?
    ensures forall c :: c in VectorizeQuery(query, index.vocabulary, index.idf, order).value ==> c < index.matrix.cols
    ensures ListsKeys(KeyOrder(order, index.vocabulary), VectorizeQuery(query, index.vocabulary, index.idf, order).value)
    ensures Search(query, index, topN, order, norm).Ok?
    ensures Search(query, index, topN, order, norm).value ==
      Similar(VectorizeQuery(query, index.vocabulary, index.idf, order).value, KeyOrder(order, index.vocabulary),
              index, topN, norm).value
  {
    QueryVectorFits(query, index.vocabulary, index.idf, index.matrix.cols, order);
    var qv := VectorizeQuery(query, index.vocabulary, index.idf, order).value;
    VectorizeQueryKeyOrder(query, index.vocabulary, index.idf, order);
    SimilarSucceeds(qv, KeyOrder(order, index.vocabulary), index, topN, norm);
  }

  /** A search over a consistent index returns `ResultCount` results: the
      rows of a top ranking by cosine similarity with the dense query
      vector, each with its score and its document. */
  lemma SearchRanking<D>(query: string, index: TfidfIndex<D>, topN: int, order: seq<string>, norm: Norm)
    requires Enumerates(order, Tokens(query))
    requires Consistent(index)
    ensures VectorizeQuery(query, index.vocabulary, index.idf, order).Ok?
    ensures Search(query, index, topN, order, norm).Ok?
    ensures |Search(query, index, topN, order, norm).value| == ResultCount(topN, index.matrix.rows)
    ensures var qv := VectorizeQuery(query, index.vocabulary, index.idf, order).value;
      var scores := RowScores(index.matrix, Densified(qv, index.matrix.cols), norm);
      var hits := Search(query, index, topN, order, norm).value;
      exists rows: seq<nat> ::
        && |rows| == |hits|
        && IsTopRanking(scores, rows)
        && (forall j :: 0 <= j < |rows| ==> hits[j] == Hit(scores[rows[j]], index.documents[rows[j]]))
  {
    SearchSucceeds(query, index, topN, order, norm);
    var qv := VectorizeQuery(query, index.vocabulary, index.idf, order).value;
    SimilarRanking(qv, KeyOrder(order, index.vocabulary), index, topN, norm);
  }

  /** Called with the default `top_n`, a search over a consistent index
      returns five results, or one per row when the matrix has fewer. */
  lemma DefaultSearchCount<D>(query: string, index: TfidfIndex<D>, order: seq<string>, norm: Norm)
    requires Enumerates(order, Tokens(query))
    requires Consistent(index)
    ensures Search(query, index, DefaultTopN, order, norm).Ok?
    ensures |Search(query, index, DefaultTopN, order, norm).value| == if index.matrix.rows < 5 then index.matrix.rows else 5
  {
    SearchRanking(query, index, DefaultTopN, order, norm);
  }

  /** Which stage a failure is reported under: "Query vectorization
      failed" exactly when some query token is a vocabulary term without an
      IDF value (an `IndexError`), and "Semantic search failed" exactly when
      vectorisation succeeded but the similarity stage raised. */
  lemma SearchFailureStage<D>(query: string, index: TfidfIndex<D>, topN: int, order: seq<string>, norm: Norm)
    requires Enumerates(order, Tokens(query))
    ensures var r := Search(query, index, topN, order, norm);
      r.Err? && r.error.QueryVectorizationFailed? <==>
        exists t :: t in Tokens(query) && t in index.vocabulary && index.vocabulary[t] >= |index.idf|
    ensures var r := Search(query, index, topN, order, norm);
      r.Err? && r.error.QueryVectorizationFailed? ==> r.error.cause == IndexError
    ensures var qv := VectorizeQuery(query, index.vocabulary, index.idf, order);
      qv.Ok? ==> ListsKeys(KeyOrder(order, index.vocabulary), qv.value)
    ensures var r := Search(query, index, topN, order, norm);
      var qv := VectorizeQuery(query, index.vocabulary, index.idf, order);
      r.Err? && r.error.SemanticSearchFailed? <==>
        qv.Ok? && Similar(qv.value, KeyOrder(order, index.vocabulary), index, topN, norm).Err?
  {
    VectorizeQueryKeyOrder(query, index.vocabulary, index.idf, order);
    VectorizeQueryFails(query, index.vocabulary, index.idf, order);
    AccumulateFails(order, Tokens(query), index.vocabulary, index.idf, map[]);
  }

  /** A query none of whose tokens is in the vocabulary vectorises to the
      empty vector. */
  lemma UnmatchedQueryVector(query: string, vocabulary: Vocabulary, idf: seq<real>, order: seq<string>)
    requires Enumerates(order, Tokens(query))
    requires forall t :: t in Tokens(query) ==> t !in vocabulary
    ensures VectorizeQuery(query, vocabulary, idf, order) == Ok(map[])
  {
    VectorizeQueryFails(query, vocabulary, idf, order);
    VectorizeQueryKeys(query, vocabulary, idf, order);
  }

  /** Against the zero query every row of a well-formed matrix scores 0. */
  lemma ZeroQueryScores(m: CsrMatrix, q: seq<real>, norm: Norm)
    requires WellFormed(m) && |q| == m.cols && IsZero(q) && ValidNorm(norm)
    ensures Similarities(m, q, norm).Ok?
    ensures forall k :: 0 <= k < m.rows ==> Similarities(m, q, norm).value[k].score == 0.0
  {
    AllRowsDensify(m);
    forall k | 0 <= k < m.rows
      ensures RowScore(m, q, norm, k) == 0.0
    {
      CosineZeroGuard(RowVector(m, k).value, q, norm);
    }
  }

  /** Against the empty query vector, a consistent index yields the first
      `ResultCount` documents in row order, each with score 0. */
  lemma EmptyQuerySimilar<D>(index: TfidfIndex<D>, topN: int, norm: Norm)
    requires Consistent(index) && ValidNorm(norm)
    ensures Similar(map[], [], index, topN, norm).Ok?
    ensures |Similar(map[], [], index, topN, norm).value| == ResultCount(topN, index.matrix.rows)
    ensures forall j :: 0 <= j < ResultCount(topN, index.matrix.rows) ==>
      Similar(map[], [], index, topN, norm).value[j] == Hit(0.0, index.documents[j])
  {
    var m := index.matrix;
    var q := Densified(map[], m.cols);
    assert IsZero(q);
    ZeroQueryScores(m, q, norm);
    SimilarHits(map[], [], index, topN, norm);
    var s := Similarities(m, q, norm).value;
    RankEqualScores(s, topN, 0.0);
    RankSpec(s, topN);
    var top := Rank(s, topN);
    var hits := Similar(map[], [], index, topN, norm).value;
    forall j | 0 <= j < |top|
      ensures hits[j] == Hit(0.0, index.documents[j])
    {
      assert top[j] == s[j];
      assert s[j].index == j && s[j].score == 0.0;
    }
  }

  /** A query none of whose tokens is in the vocabulary (an empty or blank
      query among them) scores 0 against every row, so the results are the
      first `ResultCount` documents in row order, each with score 0. */
  lemma UnmatchedQuery<D>(query: string, index: TfidfIndex<D>, topN: int, order: seq<string>, norm: Norm)
    requires Enumerates(order, Tokens(query))
    requires Consistent(index) && ValidNorm(norm)
    requires forall t :: t in Tokens(query) ==> t !in index.vocabulary
    ensures Search(query, index, topN, order, norm).Ok?
    ensures |Search(query, index, topN, order, norm).value| == ResultCount(topN, index.matrix.rows)
    ensures forall j :: 0 <= j < ResultCount(topN, index.matrix.rows) ==>
      Search(query, index, topN, order, norm).value[j] == Hit(0.0, index.documents[j])
  {
    SearchSucceeds(query, index, topN, order, norm);
    UnmatchedQueryVector(query, index.vocabulary, index.idf, order);
    EmptyQuerySimilar(index, topN, norm);
  }
}
