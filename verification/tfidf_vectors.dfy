/** The vector side of the TF-IDF search: turning a query into a sparse
    weighted vector, densifying it and one row of the CSR document matrix,
    and the cosine similarity with its zero-norm guard. */
module TfidfVectors {
  import opened Results
  import opened PyText

  /** Term to column, as fitted by the vectorizer. */
  type Vocabulary = map<string, nat>

  /** The query vector: column to weight, absent columns being zero. */
  type SparseVector = map<nat, real>

  /** The Python exceptions the modelled numpy operations can raise. */
  datatype Exception = IndexError | ValueError

  /** The document-term matrix in compressed sparse row form: row `i` holds
      `data[k]` in column `indices[k]` for `k` in `indptr[i] .. indptr[i+1]`. */
  datatype CsrMatrix = CsrMatrix(data: seq<real>, indices: seq<nat>, indptr: seq<nat>, rows: nat, cols: nat)

  /* ---------------------------------------------------------------------- */
  /* Query vectorisation                                                     */
  /* ---------------------------------------------------------------------- */

  /** `query.lower().split()`. */
  function Tokens(query: string): seq<string> {
    Words(Lower(query))
  }

  /** `tokens.count(t)`. */
  function Count(tokens: seq<string>, t: string): nat {
    multiset(tokens)[t]
  }

  predicate Distinct<T(==)>(s: seq<T>) {
    forall j, k :: 0 <= j < k < |s| ==> s[j] != s[k]
  }

  /** `order` lists every distinct token exactly once: it is an iteration
      order of `set(tokens)`. Python's string hashing fixes that order per
      process, so the model takes it as a parameter. */
  predicate Enumerates(order: seq<string>, tokens: seq<string>) {
    && Distinct(order)
    && (forall t :: t in order ==> t in tokens)
    && (forall t :: t in tokens ==> t in order)
  }

  /** The columns that the in-vocabulary terms of `terms` map to. */
  function Columns(terms: seq<string>, vocabulary: Vocabulary): set<nat> {
    set t | t in terms && t in vocabulary :: vocabulary[t]
  }

  /** Some in-vocabulary term maps to a column without an IDF value, so
      `idf_values[index]` raises `IndexError`. */
  predicate HasUnweightedTerm(terms: seq<string>, vocabulary: Vocabulary, idf: seq<real>) {
    exists t :: t in terms && t in vocabulary && vocabulary[t] >= |idf|
  }

  /** `count * idf_values[index]`. */
  function Weight(tokens: seq<string>, term: string, idf: seq<real>, column: nat): real
    requires column < |idf|
  {
    Count(tokens, term) as real * idf[column]
  }

  /** The loop over `token_counts.items()`, visiting the terms in `terms`
      order and writing each in-vocabulary term's weight into `acc`. */
  function Accumulate(terms: seq<string>, tokens: seq<string>, vocabulary: Vocabulary,
                      idf: seq<real>, acc: SparseVector): Result<SparseVector, Exception>
    decreases |terms|
  {
    if |terms| == 0 then Ok(acc)
    else
      var term := terms[0];
      if term !in vocabulary then Accumulate(terms[1..], tokens, vocabulary, idf, acc)
      else
        var column := vocabulary[term];
        if column >= |idf| then Err(IndexError)
        else Accumulate(terms[1..], tokens, vocabulary, idf, acc[column := Weight(tokens, term, idf, column)])
  }

  /** `vectorize_query`: the sparse TF-IDF vector of `query`, with the
      distinct tokens visited in `order`. */
  function VectorizeQuery(query: string, vocabulary: Vocabulary, idf: seq<real>, order: seq<string>)
    : Result<SparseVector, Exception>
    requires Enumerates(order, Tokens(query))
  {
    Accumulate(order, Tokens(query), vocabulary, idf, map[])
  }

  /** No later term of `terms` writes the column of `terms[j]`. */
  predicate LastWriter(terms: seq<string>, vocabulary: Vocabulary, j: nat)
    requires j < |terms| && terms[j] in vocabulary
  {
    forall k :: j < k < |terms| && terms[k] in vocabulary ==> vocabulary[terms[k]] != vocabulary[terms[j]]
  }

  /** Distinct terms of `terms` never share a column. */
  predicate InjectiveOn(vocabulary: Vocabulary, terms: seq<string>) {
    forall t, u :: t in terms && u in terms && t in vocabulary && u in vocabulary && t != u ==>
      vocabulary[t] != vocabulary[u]
  }

  lemma {:induction false} AccumulateFails(terms: seq<string>, tokens: seq<string>, vocabulary: Vocabulary,
                                           idf: seq<real>, acc: SparseVector)
    ensures Accumulate(terms, tokens, vocabulary, idf, acc).Err? <==> HasUnweightedTerm(terms, vocabulary, idf)
    ensures Accumulate(terms, tokens, vocabulary, idf, acc).Err? ==>
      Accumulate(terms, tokens, vocabulary, idf, acc).error == IndexError
    decreases |terms|
  {
    if |terms| > 0 {
      var term := terms[0];
      assert forall t :: t in terms <==> t == term || t in terms[1..];
      if term !in vocabulary {
        AccumulateFails(terms[1..], tokens, vocabulary, idf, acc);
      } else if vocabulary[term] < |idf| {
        var column := vocabulary[term];
        AccumulateFails(terms[1..], tokens, vocabulary, idf, acc[column := Weight(tokens, term, idf, column)]);
      }
    }
  }

  lemma {:induction false} AccumulateKeys(terms: seq<string>, tokens: seq<string>, vocabulary: Vocabulary,
                                          idf: seq<real>, acc: SparseVector)
    ensures var r := Accumulate(terms, tokens, vocabulary, idf, acc);
      r.Ok? ==> r.value.Keys == acc.Keys + Columns(terms, vocabulary)
    decreases |terms|
  {
    if |terms| > 0 {
      var term := terms[0];
      assert forall t :: t in terms <==> t == term || t in terms[1..];
      if term !in vocabulary {
        AccumulateKeys(terms[1..], tokens, vocabulary, idf, acc);
        assert Columns(terms, vocabulary) == Columns(terms[1..], vocabulary);
      } else if vocabulary[term] < |idf| {
        var column := vocabulary[term];
        var acc' := acc[column := Weight(tokens, term, idf, column)];
        AccumulateKeys(terms[1..], tokens, vocabulary, idf, acc');
        assert Columns(terms, vocabulary) == {column} + Columns(terms[1..], vocabulary);
      }
    }
  }

  lemma {:induction false} AccumulateKeeps(terms: seq<string>, tokens: seq<string>, vocabulary: Vocabulary,
                                           idf: seq<real>, acc: SparseVector)
    ensures var r := Accumulate(terms, tokens, vocabulary, idf, acc);
      r.Ok? ==> forall c :: c in acc && c !in Columns(terms, vocabulary) ==> c in r.value && r.value[c] == acc[c]
    decreases |terms|
  {
    if |terms| > 0 {
      var term := terms[0];
      if term !in vocabulary {
        AccumulateKeeps(terms[1..], tokens, vocabulary, idf, acc);
        assert Columns(terms, vocabulary) == Columns(terms[1..], vocabulary);
      } else if vocabulary[term] < |idf| {
        var column := vocabulary[term];
        var acc' := acc[column := Weight(tokens, term, idf, column)];
        AccumulateKeeps(terms[1..], tokens, vocabulary, idf, acc');
        assert Columns(terms, vocabulary) == {column} + Columns(terms[1..], vocabulary);
      }
    }
  }

  lemma {:induction false} AccumulateSize(terms: seq<string>, tokens: seq<string>, vocabulary: Vocabulary,
                                          idf: seq<real>, acc: SparseVector)
    ensures var r := Accumulate(terms, tokens, vocabulary, idf, acc);
      r.Ok? ==> |r.value| <= |acc| + |terms|
    decreases |terms|
  {
    if |terms| > 0 {
      var term := terms[0];
      if term !in vocabulary {
        AccumulateSize(terms[1..], tokens, vocabulary, idf, acc);
      } else if vocabulary[term] < |idf| {
        var column := vocabulary[term];
        var acc' := acc[column := Weight(tokens, term, idf, column)];
        AccumulateSize(terms[1..], tokens, vocabulary, idf, acc');
        assert acc'.Keys == acc.Keys + {column};
        assert |acc'.Keys| <= |acc.Keys| + |{column}|;
      }
    }
  }

  lemma {:induction false} AccumulateLastWrite(terms: seq<string>, tokens: seq<string>, vocabulary: Vocabulary,
                                               idf: seq<real>, acc: SparseVector)
    ensures var r := Accumulate(terms, tokens, vocabulary, idf, acc);
      r.Ok? ==> forall j :: 0 <= j < |terms| && terms[j] in vocabulary && LastWriter(terms, vocabulary, j) ==>
        vocabulary[terms[j]] < |idf| && vocabulary[terms[j]] in r.value &&
        r.value[vocabulary[terms[j]]] == Weight(tokens, terms[j], idf, vocabulary[terms[j]])
    decreases |terms|
  {
    var r := Accumulate(terms, tokens, vocabulary, idf, acc);
    if |terms| > 0 && r.Ok? {
      var term := terms[0];
      if term !in vocabulary {
        AccumulateLastWrite(terms[1..], tokens, vocabulary, idf, acc);
        forall j | 0 <= j < |terms| && terms[j] in vocabulary && LastWriter(terms, vocabulary, j)
          ensures vocabulary[terms[j]] < |idf| && vocabulary[terms[j]] in r.value
          ensures r.value[vocabulary[terms[j]]] == Weight(tokens, terms[j], idf, vocabulary[terms[j]])
        {
          assert terms[j] == terms[1..][j - 1];
          assert LastWriter(terms[1..], vocabulary, j - 1);
        }
      } else {
        var column := vocabulary[term];
        var acc' := acc[column := Weight(tokens, term, idf, column)];
        AccumulateLastWrite(terms[1..], tokens, vocabulary, idf, acc');
        AccumulateKeeps(terms[1..], tokens, vocabulary, idf, acc');
        forall j | 0 <= j < |terms| && terms[j] in vocabulary && LastWriter(terms, vocabulary, j)
          ensures vocabulary[terms[j]] < |idf| && vocabulary[terms[j]] in r.value
          ensures r.value[vocabulary[terms[j]]] == Weight(tokens, terms[j], idf, vocabulary[terms[j]])
        {
          if j == 0 {
            if column in Columns(terms[1..], vocabulary) {
              assert false;
            }
          } else {
            assert terms[j] == terms[1..][j - 1];
            assert LastWriter(terms[1..], vocabulary, j - 1);
          }
        }
      }
    }
  }

  lemma HeadIn<T>(s: seq<T>)
    requires |s| > 0
    ensures s[0] in s
  {
  }

  /** A sequence without repetitions has as many elements as its set. */
  lemma {:induction false} DistinctCardinality<T>(s: seq<T>)
    requires Distinct(s)
    ensures |set x | x in s| == |s|
  {
    if |s| > 0 {
      DistinctCardinality(s[1..]);
      assert (set x | x in s) == {s[0]} + (set x | x in s[1..]);
      assert s[0] !in s[1..];
    }
  }

  /** `vectorize_query` raises `IndexError` exactly when some token of the
      query is a vocabulary term whose column has no IDF value, whatever the
      order the tokens are visited in. */
  lemma VectorizeQueryFails(query: string, vocabulary: Vocabulary, idf: seq<real>, order: seq<string>)
    requires Enumerates(order, Tokens(query))
    ensures VectorizeQuery(query, vocabulary, idf, order).Err? <==>
      exists t :: t in Tokens(query) && t in vocabulary && vocabulary[t] >= |idf|
  {
    AccumulateFails(order, Tokens(query), vocabulary, idf, map[]);
  }

  /** The keys of the query vector are exactly the columns of the query's
      in-vocabulary tokens; out-of-vocabulary tokens contribute nothing. */
  lemma VectorizeQueryKeys(query: string, vocabulary: Vocabulary, idf: seq<real>, order: seq<string>)
    requires Enumerates(order, Tokens(query))
    ensures var r := VectorizeQuery(query, vocabulary, idf, order);
      r.Ok? ==> forall c :: c in r.value <==> exists t :: t in Tokens(query) && t in vocabulary && vocabulary[t] == c
  {
    AccumulateKeys(order, Tokens(query), vocabulary, idf, map[]);
  }

  /** The query vector has at most as many entries as the query has
      distinct tokens. */
  lemma VectorizeQuerySize(query: string, vocabulary: Vocabulary, idf: seq<real>, order: seq<string>)
    requires Enumerates(order, Tokens(query))
    ensures var r := VectorizeQuery(query, vocabulary, idf, order);
      r.Ok? ==> |r.value| <= |set t | t in Tokens(query)|
  {
    AccumulateSize(order, Tokens(query), vocabulary, idf, map[]);
    DistinctCardinality(order);
    assert (set t | t in order) == (set t | t in Tokens(query));
  }

  /** With distinct terms and a vocabulary that separates them, every
      in-vocabulary term's column ends up holding that term's weight. */
  lemma AccumulateWeightAt(terms: seq<string>, tokens: seq<string>, vocabulary: Vocabulary,
                           idf: seq<real>, t: string)
    requires Distinct(terms) && InjectiveOn(vocabulary, terms)
    requires t in terms && t in vocabulary
    requires Accumulate(terms, tokens, vocabulary, idf, map[]).Ok?
    ensures vocabulary[t] < |idf|
    ensures vocabulary[t] in Accumulate(terms, tokens, vocabulary, idf, map[]).value
    ensures Accumulate(terms, tokens, vocabulary, idf, map[]).value[vocabulary[t]] == Weight(tokens, t, idf, vocabulary[t])
  {
    AccumulateLastWrite(terms, tokens, vocabulary, idf, map[]);
    var j :| 0 <= j < |terms| && terms[j] == t;
    assert LastWriter(terms, vocabulary, j);
  }

  /** A column that no later-visited token writes holds the count of the
      token that wrote it times the column's IDF value: when two tokens
      share a column, the one visited last wins. */
  lemma VectorizeQueryLastWrite(query: string, vocabulary: Vocabulary, idf: seq<real>, order: seq<string>)
    requires Enumerates(order, Tokens(query))
    ensures var r := VectorizeQuery(query, vocabulary, idf, order);
      r.Ok? ==> forall j :: 0 <= j < |order| && order[j] in vocabulary && LastWriter(order, vocabulary, j) ==>
        vocabulary[order[j]] < |idf| && vocabulary[order[j]] in r.value &&
        r.value[vocabulary[order[j]]] == Count(Tokens(query), order[j]) as real * idf[vocabulary[order[j]]]
  {
    AccumulateLastWrite(order, Tokens(query), vocabulary, idf, map[]);
  }

  /** When distinct tokens have distinct columns, each in-vocabulary
      token's column holds its count times the column's IDF value, so
      repeating a token scales its weight by its multiplicity. */
  lemma VectorizeQueryWeights(query: string, vocabulary: Vocabulary, idf: seq<real>, order: seq<string>)
    requires Enumerates(order, Tokens(query))
    requires InjectiveOn(vocabulary, Tokens(query))
    ensures var r := VectorizeQuery(query, vocabulary, idf, order);
      r.Ok? ==> forall t :: t in Tokens(query) && t in vocabulary ==>
        vocabulary[t] < |idf| && vocabulary[t] in r.value &&
        r.value[vocabulary[t]] == Count(Tokens(query), t) as real * idf[vocabulary[t]]
  {
    var tokens := Tokens(query);
    var r := VectorizeQuery(query, vocabulary, idf, order);
    if r.Ok? {
      forall t | t in tokens && t in vocabulary
        ensures vocabulary[t] < |idf| && vocabulary[t] in r.value
        ensures r.value[vocabulary[t]] == Weight(tokens, t, idf, vocabulary[t])
      {
        AccumulateWeightAt(order, tokens, vocabulary, idf, t);
      }
    }
  }

  /** Two enumerations of the same distinct terms that do not share
      columns fill the same vector. */
  lemma SameMapFromEitherOrder(order1: seq<string>, order2: seq<string>, tokens: seq<string>,
                               vocabulary: Vocabulary, idf: seq<real>)
    requires Enumerates(order1, tokens) && Enumerates(order2, tokens)
    requires InjectiveOn(vocabulary, tokens)
    requires Accumulate(order1, tokens, vocabulary, idf, map[]).Ok?
    requires Accumulate(order2, tokens, vocabulary, idf, map[]).Ok?
    ensures Accumulate(order1, tokens, vocabulary, idf, map[]).value ==
            Accumulate(order2, tokens, vocabulary, idf, map[]).value
  {
    var m1 := Accumulate(order1, tokens, vocabulary, idf, map[]).value;
    var m2 := Accumulate(order2, tokens, vocabulary, idf, map[]).value;
    AccumulateKeys(order1, tokens, vocabulary, idf, map[]);
    AccumulateKeys(order2, tokens, vocabulary, idf, map[]);
    assert Columns(order1, vocabulary) == Columns(order2, vocabulary);
    forall c | c in m1
      ensures c in m2 && m1[c] == m2[c]
    {
      var t :| t in order1 && t in vocabulary && vocabulary[t] == c;
      AccumulateWeightAt(order1, tokens, vocabulary, idf, t);
      AccumulateWeightAt(order2, tokens, vocabulary, idf, t);
    }
  }

  /** With a vocabulary that gives distinct tokens distinct columns, the
      order in which the set of tokens is visited does not matter: both
      orders fail together, with the same exception, or succeed with the
      same vector. */
  lemma VectorizeQueryOrderIrrelevant(query: string, vocabulary: Vocabulary, idf: seq<real>,
                                      order1: seq<string>, order2: seq<string>)
    requires Enumerates(order1, Tokens(query)) && Enumerates(order2, Tokens(query))
    requires InjectiveOn(vocabulary, Tokens(query))
    ensures VectorizeQuery(query, vocabulary, idf, order1) == VectorizeQuery(query, vocabulary, idf, order2)
  {
    var tokens := Tokens(query);
    var r1 := Accumulate(order1, tokens, vocabulary, idf, map[]);
    var r2 := Accumulate(order2, tokens, vocabulary, idf, map[]);
    AccumulateFails(order1, tokens, vocabulary, idf, map[]);
    AccumulateFails(order2, tokens, vocabulary, idf, map[]);
    assert HasUnweightedTerm(order1, vocabulary, idf) <==> HasUnweightedTerm(order2, vocabulary, idf);
    if r1.Ok? {
      SameMapFromEitherOrder(order1, order2, tokens, vocabulary, idf);
    }
  }

  /** An empty or whitespace-only query yields an empty query vector. */
  lemma BlankQueryVector(query: string, vocabulary: Vocabulary, idf: seq<real>, order: seq<string>)
    requires Enumerates(order, Tokens(query))
    requires AllSpace(query)
    ensures VectorizeQuery(query, vocabulary, idf, order) == Ok(map[])
  {
    WordsEmptyIff(Lower(query));
    assert Tokens(query) == [];
    if |order| > 0 {
      HeadIn(order);
    }
  }

  /* ---------------------------------------------------------------------- */
  /* Densifying                                                              */
  /* ---------------------------------------------------------------------- */

  /** `keys` lists every key of the query vector exactly once: it is the
      iteration order of `query_vector.items()`. */
  predicate ListsKeys(keys: seq<nat>, qv: SparseVector) {
    && Distinct(keys)
    && (forall c :: c in keys ==> c in qv)
    && (forall c :: c in qv ==> c in keys)
  }

  /** The query vector's keys in insertion order: visiting `terms` in turn,
      the column of each in-vocabulary term the first time it is assigned. */
  function KeyOrder(terms: seq<string>, vocabulary: Vocabulary): seq<nat>
    decreases |terms|
  {
    if |terms| == 0 then []
    else
      var keys := KeyOrder(terms[..|terms| - 1], vocabulary);
      var term := terms[|terms| - 1];
      if term in vocabulary && vocabulary[term] !in keys then keys + [vocabulary[term]] else keys
  }

  /** Insertion order lists each column of an in-vocabulary term once. */
  lemma {:induction false} KeyOrderSpec(terms: seq<string>, vocabulary: Vocabulary)
    ensures Distinct(KeyOrder(terms, vocabulary))
    ensures forall c :: c in KeyOrder(terms, vocabulary) <==> c in Columns(terms, vocabulary)
    decreases |terms|
  {
    if |terms| > 0 {
      var init := terms[..|terms| - 1];
      KeyOrderSpec(init, vocabulary);
      assert terms == init + [terms[|terms| - 1]];
      assert forall t :: t in terms <==> t in init || t == terms[|terms| - 1];
    }
  }

  /** The vector of a successful vectorisation has its keys in the order
      `KeyOrder` gives. */
  lemma VectorizeQueryKeyOrder(query: string, vocabulary: Vocabulary, idf: seq<real>, order: seq<string>)
    requires Enumerates(order, Tokens(query))
    ensures var r := VectorizeQuery(query, vocabulary, idf, order);
      r.Ok? ==> ListsKeys(KeyOrder(order, vocabulary), r.value)
  {
    VectorizeQueryKeys(query, vocabulary, idf, order);
    KeyOrderSpec(order, vocabulary);
  }

  /** The loop `query_sparse_vector[index] = value` over the items whose
      keys are `keys`, in that order; an index past the end raises
      `IndexError`. */
  function AssignItems(v: seq<real>, keys: seq<nat>, qv: SparseVector): (r: Result<seq<real>, Exception>)
    requires forall c :: c in keys ==> c in qv
    ensures r.Ok? ==> |r.value| == |v|
    ensures r.Err? ==> r.error == IndexError
    decreases |keys|
  {
    if |keys| == 0 then Ok(v)
    else if keys[0] >= |v| then Err(IndexError)
    else AssignItems(v[keys[0] := qv[keys[0]]], keys[1..], qv)
  }

  /** The assignment loop fails exactly when some key is past the end, and
      otherwise sets every listed column to the item's value and leaves the
      others alone. */
  lemma {:induction false} AssignItemsSpec(v: seq<real>, keys: seq<nat>, qv: SparseVector)
    requires forall c :: c in keys ==> c in qv
    ensures AssignItems(v, keys, qv).Err? <==> exists c :: c in keys && c >= |v|
    ensures var r := AssignItems(v, keys, qv);
      r.Ok? ==> |r.value| == |v| && forall c :: 0 <= c < |v| ==> r.value[c] == if c in keys then qv[c] else v[c]
    decreases |keys|
  {
    if |keys| > 0 {
      assert forall c :: c in keys <==> c == keys[0] || c in keys[1..];
      if keys[0] < |v| {
        var v' := v[keys[0] := qv[keys[0]]];
        AssignItemsSpec(v', keys[1..], qv);
      } else {
        assert keys[0] in keys;
      }
    }
  }

  /** `query_sparse_vector = np.zeros(shape[1])`, then the assignment loop
      over the query vector's items, visited in `keys` order. */
  function DenseQuery(qv: SparseVector, cols: nat, keys: seq<nat>): (r: Result<seq<real>, Exception>)
    requires ListsKeys(keys, qv)
    ensures r.Ok? ==> |r.value| == cols
  {
    AssignItems(Zeros(cols), keys, qv)
  }

  /** The dense form of a sparse vector with `cols` columns: its weight in
      every column it names, 0 elsewhere. */
  function Densified(qv: SparseVector, cols: nat): seq<real> {
    seq(cols, c requires 0 <= c < cols => if c in qv then qv[c] else 0.0)
  }

  /** Whatever order the items are visited in, densifying fails exactly when
      the query vector names a column past the end, and otherwise yields the
      dense form of the query vector. */
  lemma DenseQuerySpec(qv: SparseVector, cols: nat, keys: seq<nat>)
    requires ListsKeys(keys, qv)
    ensures DenseQuery(qv, cols, keys).Err? <==> exists c :: c in qv && c >= cols
    ensures DenseQuery(qv, cols, keys).Ok? ==> DenseQuery(qv, cols, keys).value == Densified(qv, cols)
  {
    AssignItemsSpec(Zeros(cols), keys, qv);
  }

  /** The dense query does not depend on the order of the items. */
  lemma DenseQueryOrderIrrelevant(qv: SparseVector, cols: nat, keys1: seq<nat>, keys2: seq<nat>)
    requires ListsKeys(keys1, qv) && ListsKeys(keys2, qv)
    ensures DenseQuery(qv, cols, keys1) == DenseQuery(qv, cols, keys2)
  {
    DenseQuerySpec(qv, cols, keys1);
    DenseQuerySpec(qv, cols, keys2);
  }

  /** The value numpy assigns for the `k`-th index when `vals` is
      broadcast against the index array. */
  function Broadcast(vals: seq<real>, k: nat): real
    requires |vals| == 1 || k < |vals|
  {
    if |vals| == 1 then vals[0] else vals[k]
  }

  /** `v[cols] = vals`: the writes happen in index order, so a column named
      twice keeps the later value. */
  function Scatter(v: seq<real>, cols: seq<nat>, vals: seq<real>): (r: seq<real>)
    requires forall k :: 0 <= k < |cols| ==> cols[k] < |v|
    requires |vals| == |cols| || |vals| == 1
    ensures |r| == |v|
    decreases |cols|
  {
    if |cols| == 0 then v
    else Scatter(v[cols[0] := Broadcast(vals, 0)], cols[1..], if |vals| == 1 then vals else vals[1..])
  }

  /** Every column of the result holds the value of the last write to it,
      or its old value when nothing writes it. */
  lemma {:induction false} ScatterSpec(v: seq<real>, cols: seq<nat>, vals: seq<real>)
    requires forall k :: 0 <= k < |cols| ==> cols[k] < |v|
    requires |vals| == |cols| || |vals| == 1
    ensures var r := Scatter(v, cols, vals);
      forall c :: 0 <= c < |v| && (forall k :: 0 <= k < |cols| ==> cols[k] != c) ==> r[c] == v[c]
    ensures var r := Scatter(v, cols, vals);
      forall k :: 0 <= k < |cols| && (forall k' :: k < k' < |cols| ==> cols[k'] != cols[k]) ==>
        r[cols[k]] == Broadcast(vals, k)
    decreases |cols|
  {
    if |cols| > 0 {
      var v' := v[cols[0] := Broadcast(vals, 0)];
      var vals' := if |vals| == 1 then vals else vals[1..];
      ScatterSpec(v', cols[1..], vals');
      var r := Scatter(v, cols, vals);
      forall k | 0 <= k < |cols| && (forall k' :: k < k' < |cols| ==> cols[k'] != cols[k])
        ensures r[cols[k]] == Broadcast(vals, k)
      {
        if k == 0 {
          assert forall k' :: 0 <= k' < |cols[1..]| ==> cols[1..][k'] != cols[0];
        } else {
          assert cols[k] == cols[1..][k - 1];
          assert Broadcast(vals', k - 1) == Broadcast(vals, k);
        }
      }
    }
  }

  /** The assumptions under which the CSR arrays describe a matrix:
      `indptr` has one entry per row plus one, never decreases and stays
      within `indices`; `data` and `indices` have the same length; every
      column index is below the column count. */
  predicate WellFormed(m: CsrMatrix) {
    && |m.indptr| == m.rows + 1
    && (forall i :: 0 <= i < m.rows ==> m.indptr[i] <= m.indptr[i + 1])
    && (forall i :: 0 <= i < |m.indptr| ==> m.indptr[i] <= |m.indices|)
    && |m.data| == |m.indices|
    && (forall k :: 0 <= k < |m.indices| ==> m.indices[k] < m.cols)
  }

  /** `np.zeros(n)`. */
  function Zeros(n: nat): (r: seq<real>)
    ensures |r| == n && forall c :: 0 <= c < n ==> r[c] == 0.0
  {
    seq(n, _ => 0.0)
  }

  /** One iteration of the similarity loop's densifying step:
      `document_vector = np.zeros(shape[1])`, then
      `document_vector[indices[start:end]] = data[start:end]`. Reading
      `indptr[i + 1]` past the end, a column past the end, or value and
      index slices that numpy cannot broadcast together all raise. */
  function RowVector(m: CsrMatrix, i: nat): (r: Result<seq<real>, Exception>)
    requires i < m.rows
    ensures r.Ok? ==> |r.value| == m.cols
  {
    if i + 1 >= |m.indptr| then Err(IndexError)
    else
      var lo := m.indptr[i];
      var hi := m.indptr[i + 1];
      var cols := Slice(m.indices, lo, hi);
      var vals := Slice(m.data, lo, hi);
      if exists k :: 0 <= k < |cols| && cols[k] >= m.cols then Err(IndexError)
      else if |vals| != |cols| && |vals| != 1 then Err(ValueError)
      else Ok(Scatter(Zeros(m.cols), cols, vals))
  }

  /** For a well-formed matrix, row `i` densifies without error by
      scattering the row's slice of `data` into the row's slice of columns. */
  lemma RowVectorScatter(m: CsrMatrix, i: nat)
    requires WellFormed(m) && i < m.rows
    ensures m.indptr[i] <= m.indptr[i + 1] <= |m.indices|
    ensures forall k :: m.indptr[i] <= k < m.indptr[i + 1] ==> m.indices[k] < m.cols
    ensures RowVector(m, i).Ok?
    ensures RowVector(m, i).value ==
      Scatter(Zeros(m.cols), m.indices[m.indptr[i]..m.indptr[i + 1]], m.data[m.indptr[i]..m.indptr[i + 1]])
  {
    var lo := m.indptr[i];
    var hi := m.indptr[i + 1];
    assert Slice(m.indices, lo, hi) == m.indices[lo..hi];
    assert Slice(m.data, lo, hi) == m.data[lo..hi];
  }

  /** With as many values as columns, the last write to a column is the
      value at the same position. */
  lemma ScatterLast(v: seq<real>, cols: seq<nat>, vals: seq<real>, j: nat)
    requires forall k :: 0 <= k < |cols| ==> cols[k] < |v|
    requires |vals| == |cols| && j < |cols|
    requires forall k :: j < k < |cols| ==> cols[k] != cols[j]
    ensures |Scatter(v, cols, vals)| == |v|
    ensures Scatter(v, cols, vals)[cols[j]] == vals[j]
  {
    ScatterSpec(v, cols, vals);
  }

  /** A last writer among `indices[lo..hi]` is still one within the slice. */
  lemma SliceLastWriter(indices: seq<nat>, lo: nat, hi: nat, k: nat)
    requires lo <= k < hi <= |indices|
    requires forall k' :: k < k' < hi ==> indices[k'] != indices[k]
    ensures indices[lo..hi][k - lo] == indices[k]
    ensures forall j :: k - lo < j < hi - lo ==> indices[lo..hi][j] != indices[lo..hi][k - lo]
  {
    forall j | k - lo < j < hi - lo
      ensures indices[lo..hi][j] != indices[k]
    {
      assert indices[lo..hi][j] == indices[j + lo];
    }
  }

  /** The entry written by position `k` of row `i`, when no later position
      of the row names the same column. */
  lemma RowVectorAt(m: CsrMatrix, i: nat, k: nat)
    requires WellFormed(m) && i < m.rows
    requires m.indptr[i] <= k < m.indptr[i + 1]
    requires forall k' :: k < k' < m.indptr[i + 1] ==> m.indices[k'] != m.indices[k]
    ensures RowVector(m, i).Ok? && |RowVector(m, i).value| == m.cols
    ensures RowVector(m, i).value[m.indices[k]] == m.data[k]
  {
    RowVectorScatter(m, i);
    var lo := m.indptr[i];
    var hi := m.indptr[i + 1];
    SliceLastWriter(m.indices, lo, hi, k);
    assert m.data[lo..hi][k - lo] == m.data[k];
    ScatterLast(Zeros(m.cols), m.indices[lo..hi], m.data[lo..hi], k - lo);
  }

  /** For a well-formed matrix, row `i` densifies without error into a
      vector of `cols` entries that holds `data[k]` at `indices[k]` for every
      `k` of the row, the last such `k` when a column repeats. */
  lemma RowVectorWritten(m: CsrMatrix, i: nat)
    requires WellFormed(m) && i < m.rows
    ensures RowVector(m, i).Ok?
    ensures |RowVector(m, i).value| == m.cols
    ensures forall k :: m.indptr[i] <= k < m.indptr[i + 1] &&
                        (forall k' :: k < k' < m.indptr[i + 1] ==> m.indices[k'] != m.indices[k]) ==>
      RowVector(m, i).value[m.indices[k]] == m.data[k]
  {
    RowVectorScatter(m, i);
    forall k | m.indptr[i] <= k < m.indptr[i + 1] &&
               (forall k' :: k < k' < m.indptr[i + 1] ==> m.indices[k'] != m.indices[k])
      ensures RowVector(m, i).value[m.indices[k]] == m.data[k]
    {
      RowVectorAt(m, i, k);
    }
  }

  /** A column no position writes keeps its old value. */
  lemma ScatterUntouched(v: seq<real>, cols: seq<nat>, vals: seq<real>, c: nat)
    requires forall k :: 0 <= k < |cols| ==> cols[k] < |v|
    requires |vals| == |cols| || |vals| == 1
    requires c < |v| && forall k :: 0 <= k < |cols| ==> cols[k] != c
    ensures |Scatter(v, cols, vals)| == |v|
    ensures Scatter(v, cols, vals)[c] == v[c]
  {
    ScatterSpec(v, cols, vals);
  }

  /** The densified row `i` is 0 in column `c` when the row does not name
      `c`. */
  lemma RowVectorZeroAt(m: CsrMatrix, i: nat, c: nat)
    requires WellFormed(m) && i < m.rows && c < m.cols
    requires forall k :: m.indptr[i] <= k < m.indptr[i + 1] ==> m.indices[k] != c
    ensures RowVector(m, i).Ok? && |RowVector(m, i).value| == m.cols
    ensures RowVector(m, i).value[c] == 0.0
  {
    RowVectorScatter(m, i);
    var lo := m.indptr[i];
    var hi := m.indptr[i + 1];
    var cols := m.indices[lo..hi];
    forall k | 0 <= k < |cols|
      ensures cols[k] != c
    {
      assert cols[k] == m.indices[k + lo];
    }
    ScatterUntouched(Zeros(m.cols), cols, m.data[lo..hi], c);
  }

  /** For a well-formed matrix, the densified row `i` is 0 in every column
      the row does not name. */
  lemma RowVectorUnwritten(m: CsrMatrix, i: nat)
    requires WellFormed(m) && i < m.rows
    ensures RowVector(m, i).Ok?
    ensures |RowVector(m, i).value| == m.cols
    ensures forall c :: 0 <= c < m.cols &&
                        (forall k :: m.indptr[i] <= k < m.indptr[i + 1] ==> m.indices[k] != c) ==>
      RowVector(m, i).value[c] == 0.0
  {
    RowVectorScatter(m, i);
    forall c | 0 <= c < m.cols && (forall k :: m.indptr[i] <= k < m.indptr[i + 1] ==> m.indices[k] != c)
      ensures RowVector(m, i).value[c] == 0.0
    {
      RowVectorZeroAt(m, i, c);
    }
  }

  /* ---------------------------------------------------------------------- */
  /* Cosine similarity                                                       */
  /* ---------------------------------------------------------------------- */

  predicate IsZero(v: seq<real>) {
    forall i :: 0 <= i < |v| ==> v[i] == 0.0
  }

  /** `np.dot` on two vectors of the same length. */
  function Dot(a: seq<real>, b: seq<real>): real
    requires |a| == |b|
  {
    if |a| == 0 then 0.0 else a[0] * b[0] + Dot(a[1..], b[1..])
  }

  /** The Euclidean norm `np.linalg.norm` involves a square root the model
      does not compute; it is a parameter, and `ValidNorm` is all the model
      relies on: it is never negative and is zero exactly for the zero
      vector. */
  type Norm = seq<real> -> real

  ghost predicate ValidNorm(norm: Norm) {
    forall v :: norm(v) >= 0.0 && (norm(v) == 0.0 <==> IsZero(v))
  }

  /** `cosine_similarity_manual(a, b)`: the dot product over the product of
      the norms when both norms are non-zero, and exactly 0 otherwise. */
  function Cosine(a: seq<real>, b: seq<real>, norm: Norm): real
    requires |a| == |b|
  {
    if norm(a) != 0.0 && norm(b) != 0.0 then Dot(a, b) / (norm(a) * norm(b)) else 0.0
  }

  /** The zero-norm guard: the similarity is 0 whenever either vector is
      zero, and the quotient otherwise. */
  lemma CosineZeroGuard(a: seq<real>, b: seq<real>, norm: Norm)
    requires |a| == |b| && ValidNorm(norm)
    ensures IsZero(a) || IsZero(b) ==> Cosine(a, b, norm) == 0.0
    ensures !IsZero(a) && !IsZero(b) ==> Cosine(a, b, norm) == Dot(a, b) / (norm(a) * norm(b))
  {
  }

  lemma {:induction false} DotSymmetric(a: seq<real>, b: seq<real>)
    requires |a| == |b|
    ensures Dot(a, b) == Dot(b, a)
    decreases |a|
  {
    if |a| > 0 {
      DotSymmetric(a[1..], b[1..]);
    }
  }

  /** The similarity does not depend on which vector comes first. */
  lemma CosineSymmetric(a: seq<real>, b: seq<real>, norm: Norm)
    requires |a| == |b|
    ensures Cosine(a, b, norm) == Cosine(b, a, norm)
  {
    DotSymmetric(a, b);
    assert norm(a) * norm(b) == norm(b) * norm(a);
  }

  predicate NonNegative(v: seq<real>) {
    forall i :: 0 <= i < |v| ==> v[i] >= 0.0
  }

  lemma MulNonNegative(x: real, y: real)
    requires x >= 0.0 && y >= 0.0
    ensures x * y >= 0.0
  {
  }

  lemma {:induction false} DotNonNegative(a: seq<real>, b: seq<real>)
    requires |a| == |b| && NonNegative(a) && NonNegative(b)
    ensures Dot(a, b) >= 0.0
    decreases |a|
  {
    if |a| > 0 {
      MulNonNegative(a[0], b[0]);
      DotNonNegative(a[1..], b[1..]);
    }
  }

  /** TF-IDF weights are never negative, and neither is the similarity of
      two vectors of such weights. */
  lemma CosineNonNegative(a: seq<real>, b: seq<real>, norm: Norm)
    requires |a| == |b| && NonNegative(a) && NonNegative(b) && ValidNorm(norm)
    ensures Cosine(a, b, norm) >= 0.0
  {
    if norm(a) != 0.0 && norm(b) != 0.0 {
      DotNonNegative(a, b);
      var d := norm(a) * norm(b);
      MulNonNegative(norm(a), norm(b));
      assert d > 0.0;
      assert Dot(a, b) / d >= 0.0;
    }
  }
}
