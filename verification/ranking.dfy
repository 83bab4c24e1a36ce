/** Ranking the similarity list: `cosine_similarities.sort(reverse=True,
    key=lambda x: x[0])` followed by the `[:top_n]` cut. Python's sort is
    stable, also with `reverse=True`, so entries with equal scores stay in
    the order they were appended, which is ascending row order. */
module Ranking {
  import opened Results
  import opened PyText

  /** One `(score, i)` entry of the similarity list. */
  datatype Scored = Scored(score: real, index: nat)

  /** `a` ranks strictly ahead of `b`: a higher score, or the same score
      and a lower row. */
  predicate Before(a: Scored, b: Scored) {
    a.score > b.score || (a.score == b.score && a.index < b.index)
  }

  /** Scores never increase along `s`. */
  predicate NonIncreasing(s: seq<Scored>) {
    forall j, k :: 0 <= j < k < |s| ==> s[j].score >= s[k].score
  }

  /** `s` is in ranking order: descending score, ties by ascending row. */
  predicate Ranked(s: seq<Scored>) {
    forall j, k :: 0 <= j < k < |s| ==> Before(s[j], s[k])
  }

  /** Entry `i` of the similarity list belongs to row `i`. */
  predicate RowOrder(s: seq<Scored>) {
    forall i :: 0 <= i < |s| ==> s[i].index == i
  }

  /** Rows strictly increase along `s`. */
  predicate AscendingRows(s: seq<Scored>) {
    forall j, k :: 0 <= j < k < |s| ==> s[j].index < s[k].index
  }

  /** Places `x` ahead of the first entry whose score does not exceed its
      own, so that it stays ahead of entries with an equal score. */
  function Insert(x: Scored, ys: seq<Scored>): (r: seq<Scored>)
    ensures |r| == |ys| + 1
  {
    if |ys| == 0 || ys[0].score <= x.score then [x] + ys
    else [ys[0]] + Insert(x, ys[1..])
  }

  /** The stable descending sort, as an insertion sort: every entry is
      inserted ahead of the equal-scored entries that followed it. */
  function SortDescending(xs: seq<Scored>): (r: seq<Scored>)
    ensures |r| == |xs|
  {
    if |xs| == 0 then []
    else Insert(xs[0], SortDescending(xs[1..]))
  }

  /** `sorted(...)[:top_n]`. */
  function Rank(scores: seq<Scored>, topN: int): seq<Scored> {
    SliceTo(SortDescending(scores), topN)
  }

  /* ---------------------------------------------------------------------- */
  /* Sortedness and stability                                                */
  /* ---------------------------------------------------------------------- */

  /** Inserting adds exactly `x` to the entries. */
  lemma {:induction false} InsertPermutes(x: Scored, ys: seq<Scored>)
    ensures multiset(Insert(x, ys)) == multiset(ys) + multiset{x}
    decreases |ys|
  {
    if |ys| > 0 && ys[0].score > x.score {
      InsertPermutes(x, ys[1..]);
      assert ys == [ys[0]] + ys[1..];
    }
  }

  /** The sort rearranges its input: it keeps every entry, as often as it
      occurs, and adds none. */
  lemma {:induction false} SortPermutes(xs: seq<Scored>)
    ensures multiset(SortDescending(xs)) == multiset(xs)
    decreases |xs|
  {
    if |xs| > 0 {
      SortPermutes(xs[1..]);
      InsertPermutes(xs[0], SortDescending(xs[1..]));
      assert xs == [xs[0]] + xs[1..];
    }
  }

  lemma MemberOfMultiset<T>(s: seq<T>, x: T)
    requires x in multiset(s)
    ensures exists p :: 0 <= p < |s| && s[p] == x
  {
    assert x in s;
  }

  /** Ranking order forces non-increasing scores. */
  lemma RankedNonIncreasing(s: seq<Scored>)
    requires Ranked(s)
    ensures NonIncreasing(s)
  {
    forall j, k | 0 <= j < k < |s|
      ensures s[j].score >= s[k].score
    {
      assert Before(s[j], s[k]);
    }
  }

  /** An entry ranking ahead of every entry of a ranked sequence can lead it. */
  lemma RankedCons(y: Scored, ys: seq<Scored>)
    requires Ranked(ys)
    requires forall k :: 0 <= k < |ys| ==> Before(y, ys[k])
    ensures Ranked([y] + ys)
  {
    var r := [y] + ys;
    forall j, k | 0 <= j < k < |r|
      ensures Before(r[j], r[k])
    {
      assert r[k] == ys[k - 1];
      if j > 0 {
        assert r[j] == ys[j - 1];
      }
    }
  }

  /** Every entry of `Insert(x, ys)` is `x` or an entry of `ys`. */
  lemma InsertElement(x: Scored, ys: seq<Scored>, k: nat)
    requires k < |Insert(x, ys)|
    ensures Insert(x, ys)[k] == x || Insert(x, ys)[k] in ys
  {
    InsertPermutes(x, ys);
    var e := Insert(x, ys)[k];
    assert e in multiset(Insert(x, ys));
  }

  lemma {:induction false} InsertRanked(x: Scored, ys: seq<Scored>)
    requires Ranked(ys)
    requires forall k :: 0 <= k < |ys| ==> x.index < ys[k].index
    ensures Ranked(Insert(x, ys))
    decreases |ys|
  {
    if |ys| == 0 {
    } else if ys[0].score <= x.score {
      RankedNonIncreasing(ys);
      RankedCons(x, ys);
    } else {
      var tail := ys[1..];
      RankedTail(ys);
      InsertRanked(x, tail);
      var ins := Insert(x, tail);
      forall k | 0 <= k < |ins|
        ensures Before(ys[0], ins[k])
      {
        InsertElement(x, tail, k);
        if ins[k] != x {
          var p :| 0 <= p < |tail| && tail[p] == ins[k];
          assert Before(ys[0], ys[p + 1]);
        }
      }
      RankedCons(ys[0], ins);
    }
  }

  /** The sort is stable: given the similarity list's ascending rows, its
      result is in ranking order, so scores never increase and equal scores
      keep ascending rows. */
  lemma {:induction false} SortRanked(xs: seq<Scored>)
    requires AscendingRows(xs)
    ensures Ranked(SortDescending(xs))
    decreases |xs|
  {
    if |xs| > 0 {
      var tail := xs[1..];
      assert AscendingRows(tail) by {
        forall j, k | 0 <= j < k < |tail|
          ensures tail[j].index < tail[k].index
        {
          assert tail[j] == xs[j + 1] && tail[k] == xs[k + 1];
        }
      }
      SortRanked(tail);
      SortPermutes(tail);
      var sorted := SortDescending(tail);
      forall k | 0 <= k < |sorted|
        ensures xs[0].index < sorted[k].index
      {
        assert sorted[k] in multiset(sorted);
        MemberOfMultiset(tail, sorted[k]);
        var p :| 0 <= p < |tail| && tail[p] == sorted[k];
        assert xs[p + 1] == sorted[k];
      }
      InsertRanked(xs[0], sorted);
    }
  }

  lemma RankedTail(s: seq<Scored>)
    requires Ranked(s) && |s| > 0
    ensures Ranked(s[1..])
  {
    forall p, q | 0 <= p < q < |s| - 1
      ensures Before(s[1..][p], s[1..][q])
    {
      assert s[1..][p] == s[p + 1] && s[1..][q] == s[q + 1];
    }
  }

  lemma MultisetTail<T>(s: seq<T>)
    requires |s| > 0
    ensures multiset(s[1..]) == multiset(s) - multiset{s[0]}
  {
    assert s == [s[0]] + s[1..];
  }

  /** Two ranked orderings of the same entries start with the same entry:
      each head ranks ahead of everything else in its own sequence. */
  lemma RankedSameHead(a: seq<Scored>, b: seq<Scored>)
    requires Ranked(a) && Ranked(b) && |a| > 0 && |b| > 0
    requires multiset(a) == multiset(b)
    ensures a[0] == b[0]
  {
    assert a[0] in multiset(b);
    MemberOfMultiset(b, a[0]);
    var k :| 0 <= k < |b| && b[k] == a[0];
    assert b[0] in multiset(a);
    MemberOfMultiset(a, b[0]);
    var j :| 0 <= j < |a| && a[j] == b[0];
    if j > 0 && k > 0 {
      assert false;
    }
  }

  /** Ranking order is strict, so two orderings of the same entries that
      are both in ranking order are the same sequence: the sort's result is
      the only ranked permutation of its input. */
  lemma {:induction false} RankedUnique(a: seq<Scored>, b: seq<Scored>)
    requires Ranked(a) && Ranked(b)
    requires multiset(a) == multiset(b)
    ensures a == b
    decreases |a|
  {
    assert |a| == |multiset(a)| == |multiset(b)| == |b|;
    if |a| > 0 {
      RankedSameHead(a, b);
      MultisetTail(a);
      MultisetTail(b);
      RankedTail(a);
      RankedTail(b);
      RankedUnique(a[1..], b[1..]);
      assert a == [a[0]] + a[1..] && b == [b[0]] + b[1..];
    }
  }

  /* ---------------------------------------------------------------------- */
  /* Top-n                                                                   */
  /* ---------------------------------------------------------------------- */

  lemma RankedPrefix(s: seq<Scored>, n: nat)
    requires Ranked(s) && n <= |s|
    ensures Ranked(s[..n])
  {
    forall j, k | 0 <= j < k < n
      ensures Before(s[..n][j], s[..n][k])
    {
      assert s[..n][j] == s[j] && s[..n][k] == s[k];
    }
  }

  /** The top-n is a ranked prefix of the sorted list, which is as long as
      the input. */
  lemma RankIsSortedPrefix(scores: seq<Scored>, topN: int)
    requires RowOrder(scores)
    ensures |SortDescending(scores)| == |scores|
    ensures Ranked(SortDescending(scores))
    ensures Rank(scores, topN) == SortDescending(scores)[..|Rank(scores, topN)|]
  {
    assert AscendingRows(scores);
    SortRanked(scores);
  }

  /** Every kept entry is the list's own entry for its row. */
  lemma RankKeepsOwnEntries(scores: seq<Scored>, topN: int)
    requires RowOrder(scores)
    ensures var top := Rank(scores, topN);
      forall j :: 0 <= j < |top| ==> top[j].index < |scores| && scores[top[j].index] == top[j]
  {
    RankIsSortedPrefix(scores, topN);
    SortPermutes(scores);
    var sorted := SortDescending(scores);
    var top := Rank(scores, topN);
    forall j | 0 <= j < |top|
      ensures top[j].index < |scores| && scores[top[j].index] == top[j]
    {
      assert top[j] == sorted[j];
      assert sorted[j] in multiset(sorted);
      MemberOfMultiset(scores, sorted[j]);
    }
  }

  /** Every entry left out ranks behind every entry kept. */
  lemma RankLeavesOutLater(scores: seq<Scored>, topN: int)
    requires RowOrder(scores)
    ensures var top := Rank(scores, topN);
      forall i :: 0 <= i < |scores| && scores[i] !in top ==>
        forall j :: 0 <= j < |top| ==> Before(top[j], scores[i])
  {
    RankIsSortedPrefix(scores, topN);
    SortPermutes(scores);
    var sorted := SortDescending(scores);
    var top := Rank(scores, topN);
    forall i | 0 <= i < |scores| && scores[i] !in top
      ensures forall j :: 0 <= j < |top| ==> Before(top[j], scores[i])
    {
      assert scores[i] in multiset(sorted);
      MemberOfMultiset(sorted, scores[i]);
      var p :| 0 <= p < |sorted| && sorted[p] == scores[i];
      if p < |top| {
        assert false;
      }
      forall j | 0 <= j < |top|
        ensures Before(top[j], scores[i])
      {
        assert top[j] == sorted[j];
      }
    }
  }

  /** The ranked top-n of a similarity list in row order: it has
      `min(top_n, rows)` entries for a non-negative `top_n` (Python's
      slice drops `-top_n` entries from the end otherwise); it is in ranking
      order; every kept entry is the list's own entry for its row, with no
      row kept twice; and every entry left out ranks behind every entry
      kept. */
  lemma RankSpec(scores: seq<Scored>, topN: int)
    requires RowOrder(scores)
    ensures var top := Rank(scores, topN);
      |top| == (if topN >= 0 then Min(topN, |scores|) else Max(0, |scores| + topN))
    ensures Ranked(Rank(scores, topN))
    ensures NonIncreasing(Rank(scores, topN))
    ensures var top := Rank(scores, topN);
      forall j :: 0 <= j < |top| ==> top[j].index < |scores| && scores[top[j].index] == top[j]
    ensures var top := Rank(scores, topN);
      forall j, k :: 0 <= j < k < |top| ==> top[j].index != top[k].index
    ensures var top := Rank(scores, topN);
      forall i :: 0 <= i < |scores| && scores[i] !in top ==>
        forall j :: 0 <= j < |top| ==> Before(top[j], scores[i])
  {
    RankIsSortedPrefix(scores, topN);
    var top := Rank(scores, topN);
    RankedPrefix(SortDescending(scores), |top|);
    RankedNonIncreasing(top);
    RankKeepsOwnEntries(scores, topN);
    RankLeavesOutLater(scores, topN);
    forall j, k | 0 <= j < k < |top|
      ensures top[j].index != top[k].index
    {
      assert Before(top[j], top[k]);
    }
  }

  /** When every row scores the same, the ranking keeps the first rows in
      row order. */
  lemma RankEqualScores(scores: seq<Scored>, topN: int, s: real)
    requires RowOrder(scores)
    requires forall i :: 0 <= i < |scores| ==> scores[i].score == s
    ensures Rank(scores, topN) == SliceTo(scores, topN)
  {
    assert AscendingRows(scores);
    SortRanked(scores);
    SortPermutes(scores);
    assert Ranked(scores);
    RankedUnique(SortDescending(scores), scores);
  }

  /* ---------------------------------------------------------------------- */
  /* Top rankings of a score list                                            */
  /* ---------------------------------------------------------------------- */

  /** The scores of a similarity list, by position. */
  function ScoresOf(s: seq<Scored>): (r: seq<real>)
    ensures |r| == |s| && forall k :: 0 <= k < |s| ==> r[k] == s[k].score
  {
    seq(|s|, k requires 0 <= k < |s| => s[k].score)
  }

  /** The rows of a list of entries, by position. */
  function RowsOf(s: seq<Scored>): (r: seq<nat>)
    ensures |r| == |s| && forall k :: 0 <= k < |s| ==> r[k] == s[k].index
  {
    seq(|s|, k requires 0 <= k < |s| => s[k].index)
  }

  /** `rows` lists rows of `scores` (one score per row) in ranking order,
      higher score first and ties by lower row, and every row it leaves out
      ranks behind every row it lists. */
  predicate IsTopRanking(scores: seq<real>, rows: seq<nat>) {
    && (forall j :: 0 <= j < |rows| ==> rows[j] < |scores|)
    && (forall j, k :: 0 <= j < k < |rows| ==>
          Before(Scored(scores[rows[j]], rows[j]), Scored(scores[rows[k]], rows[k])))
    && (forall i, j :: 0 <= i < |scores| && i !in rows && 0 <= j < |rows| ==>
          Before(Scored(scores[rows[j]], rows[j]), Scored(scores[i], i)))
  }

  /** The rows of a top ranking are distinct. */
  lemma TopRankingDistinct(scores: seq<real>, rows: seq<nat>)
    requires IsTopRanking(scores, rows)
    ensures forall j, k :: 0 <= j < k < |rows| ==> rows[j] != rows[k]
  {
    forall j, k | 0 <= j < k < |rows|
      ensures rows[j] != rows[k]
    {
      assert Before(Scored(scores[rows[j]], rows[j]), Scored(scores[rows[k]], rows[k]));
    }
  }

  /** The rows `Rank` keeps from a similarity list in row order form a top
      ranking of its scores, and each kept entry carries its row's score. */
  lemma RankIsTopRanking(s: seq<Scored>, topN: int)
    requires RowOrder(s)
    ensures var top := Rank(s, topN);
      IsTopRanking(ScoresOf(s), RowsOf(top))
    ensures var top := Rank(s, topN);
      forall j :: 0 <= j < |top| ==> top[j].index < |s| && top[j].score == ScoresOf(s)[top[j].index]
  {
    RankSpec(s, topN);
    var top := Rank(s, topN);
    var rows := RowsOf(top);
    var scores := ScoresOf(s);
    forall j | 0 <= j < |top|
      ensures top[j] == Scored(scores[rows[j]], rows[j])
    {
      assert s[top[j].index] == top[j];
    }
    forall i, j | 0 <= i < |s| && i !in rows && 0 <= j < |rows|
      ensures Before(Scored(scores[rows[j]], rows[j]), Scored(scores[i], i))
    {
      assert s[i] !in top by {
        forall p | 0 <= p < |top|
          ensures top[p] != s[i]
        {
          assert rows[p] == top[p].index;
        }
      }
      assert s[i] == Scored(scores[i], i);
    }
  }
}
