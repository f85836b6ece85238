/** `recommend(title, df, similarity, top_n=5)`: look the title up
    case-insensitively, rank the row of the similarity matrix that belongs to
    the first matching movie, drop the first-ranked entry by position, keep the
    next `top_n` and map them back to titles. The similarity matrix is an
    input; the model does not compute it. */
module Recommender {
  import opened Text
  import opened Ranking

  datatype Option<T> = None | Some(value: T)

  /** The default number of recommendations. */
  const DEFAULT_TOP_N: int := 5

  /** The first position at or after `from` whose key equals `key`. */
  function FindFirst(keys: seq<string>, key: string, from: nat): (r: Option<nat>)
    ensures r.Some? ==> from <= r.value < |keys| && keys[r.value] == key
    ensures r.Some? ==> forall j :: from <= j < r.value ==> keys[j] != key
    ensures r.None? <==> forall j :: from <= j < |keys| ==> keys[j] != key
    decreases |keys| - from
  {
    if from >= |keys| then None
    else if keys[from] == key then Some(from)
    else FindFirst(keys, key, from + 1)
  }

  /** `df['title'].str.lower()`. */
  function LowerTitles(titles: seq<string>): (r: seq<string>)
    ensures |r| == |titles|
    ensures forall i :: 0 <= i < |titles| ==> r[i] == Lower(titles[i])
  {
    seq(|titles|, i requires 0 <= i < |titles| => Lower(titles[i]))
  }

  /** The row the query resolves to: `None` when no lowercased title equals
      the lowercased query (line 36), otherwise the lowest such row, the
      `.index[0]` of line 39. */
  function Lookup(titles: seq<string>, query: string): (r: Option<nat>)
    ensures r.None? <==> forall j :: 0 <= j < |titles| ==> Lower(titles[j]) != Lower(query)
    ensures r.Some? ==> r.value < |titles| && Lower(titles[r.value]) == Lower(query)
    ensures r.Some? ==> forall j :: 0 <= j < r.value ==> Lower(titles[j]) != Lower(query)
  {
    FindFirst(LowerTitles(titles), Lower(query), 0)
  }

  /** `sim` is an n-by-n matrix. */
  predicate IsSquare(sim: seq<seq<Score>>, n: nat) {
    |sim| == n && forall i :: 0 <= i < n ==> |sim[i]| == n
  }

  /** A Python slice bound: a negative bound counts from the end, and the
      result is clamped to `0 .. len`. */
  function SliceBound(i: int, len: nat): (k: nat)
    ensures k <= len
    ensures 0 <= i <= len ==> k == i
    ensures i > len ==> k == len
    ensures i < 0 ==> k == if i + len < 0 then 0 else i + len
  {
    if i < 0 then (if i + len < 0 then 0 else i + len)
    else if i > len then len
    else i
  }

  /** `s[start:stop]` on a Python list. */
  function Slice<T>(s: seq<T>, start: int, stop: int): (r: seq<T>)
    ensures |r| <= |s|
    ensures SliceBound(start, |s|) <= SliceBound(stop, |s|) ==>
      r == s[SliceBound(start, |s|)..SliceBound(stop, |s|)]
    ensures SliceBound(stop, |s|) < SliceBound(start, |s|) ==> r == []
  {
    var lo, hi := SliceBound(start, |s|), SliceBound(stop, |s|);
    if lo <= hi then s[lo..hi] else []
  }

  /** The rows `recommend` returns, before they are mapped to titles:
      positions `1 .. top_n` of the stable descending ranking of the query's
      similarity row, in the slice semantics of line 41. */
  function RecommendRows(titles: seq<string>, sim: seq<seq<Score>>, query: string, topN: int): (rows: seq<nat>)
    requires IsSquare(sim, |titles|)
    ensures forall p :: 0 <= p < |rows| ==> rows[p] < |titles|
  {
    match Lookup(titles, query)
    case None => []
    case Some(idx) =>
      var ranked := Rank(sim[idx]);
      var rows := Slice(ranked, 1, topN + 1);
      assert forall p :: 0 <= p < |rows| ==> rows[p] in ranked;
      rows
  }

  /** `recommend(title, df, similarity, top_n)`: the titles of
      `RecommendRows`, in rank order (line 42). */
  function Recommend(titles: seq<string>, sim: seq<seq<Score>>, query: string, topN: int): (r: seq<string>)
    requires IsSquare(sim, |titles|)
    ensures forall p :: 0 <= p < |r| ==> r[p] in titles
    ensures r != [] ==> |r| < |titles|
  {
    var rows := RecommendRows(titles, sim, query, topN);
    seq(|rows|, p requires 0 <= p < |rows| => titles[rows[p]])
  }

  function Min(a: int, b: int): int {
    if a <= b then a else b
  }

  /** A query that matches no title yields the empty list (lines 36-37). */
  lemma NotFoundIsEmpty(titles: seq<string>, sim: seq<seq<Score>>, query: string, topN: int)
    requires IsSquare(sim, |titles|)
    requires forall j :: 0 <= j < |titles| ==> Lower(titles[j]) != Lower(query)
    ensures Recommend(titles, sim, query, topN) == []
  {
  }

  /** Two queries with the same lowercase form give identical results. */
  lemma CaseInsensitive(titles: seq<string>, sim: seq<seq<Score>>, q1: string, q2: string, topN: int)
    requires IsSquare(sim, |titles|)
    requires Lower(q1) == Lower(q2)
    ensures Recommend(titles, sim, q1, topN) == Recommend(titles, sim, q2, topN)
  {
  }

  /** Line 35 lowercases the query first, so passing it already lowercased
      changes nothing. */
  lemma LoweredQuery(titles: seq<string>, sim: seq<seq<Score>>, query: string, topN: int)
    requires IsSquare(sim, |titles|)
    ensures Recommend(titles, sim, Lower(query), topN) == Recommend(titles, sim, query, topN)
  {
    LowerIdempotent(query);
    CaseInsensitive(titles, sim, Lower(query), query, topN);
  }

  /** For a found title and `top_n >= 0` the result is exactly positions
      `1 .. top_n` of the ranking of row `idx`, as many as there are: it has
      `min(top_n, n - 1)` entries. */
  lemma FoundRows(titles: seq<string>, sim: seq<seq<Score>>, query: string, topN: int, idx: nat)
    requires IsSquare(sim, |titles|) && topN >= 0
    requires Lookup(titles, query) == Some(idx)
    ensures var rows := RecommendRows(titles, sim, query, topN);
      |rows| == Min(topN, |titles| - 1)
      && rows == Rank(sim[idx])[1..1 + Min(topN, |titles| - 1)]
  {
  }

  /** Under `top_n >= 0` the titles returned are those of positions
      `1 .. top_n` of the ranking, in that order, and the result is empty
      exactly when the title is not found, `top_n` is 0, or the table has a
      single row. */
  lemma RecommendTitles(titles: seq<string>, sim: seq<seq<Score>>, query: string, topN: int)
    requires IsSquare(sim, |titles|) && topN >= 0
    ensures Lookup(titles, query).None? ==> Recommend(titles, sim, query, topN) == []
    ensures Lookup(titles, query).Some? ==>
      var idx := Lookup(titles, query).value;
      var r := Recommend(titles, sim, query, topN);
      |r| == Min(topN, |titles| - 1)
      && forall p :: 0 <= p < |r| ==> r[p] == titles[Rank(sim[idx])[p + 1]]
    ensures Recommend(titles, sim, query, topN) == [] <==>
      Lookup(titles, query).None? || topN == 0 || |titles| == 1
  {
    if Lookup(titles, query).Some? {
      FoundRows(titles, sim, query, topN, Lookup(titles, query).value);
    }
  }

  /** A negative `top_n` is a negative slice bound: -1 gives nothing, and
      `-k` for `k >= 2` drops the first-ranked entry and the last `k - 1`. */
  lemma NegativeTopN(titles: seq<string>, sim: seq<seq<Score>>, query: string, topN: int, idx: nat)
    requires IsSquare(sim, |titles|) && topN < 0
    requires Lookup(titles, query) == Some(idx)
    ensures topN == -1 ==> RecommendRows(titles, sim, query, topN) == []
    ensures topN < -1 && |titles| + topN + 1 >= 1 ==>
      RecommendRows(titles, sim, query, topN) == Rank(sim[idx])[1..|titles| + topN + 1]
    ensures topN < -1 && |titles| + topN + 1 < 1 ==> RecommendRows(titles, sim, query, topN) == []
  {
  }

  /** Whatever `top_n` is, the returned rows are pairwise distinct, their
      scores are non-increasing in result order, equal scores come in
      ascending row order, and the first-ranked row is never among them. */
  lemma RowsOrdered(titles: seq<string>, sim: seq<seq<Score>>, query: string, topN: int, idx: nat)
    requires IsSquare(sim, |titles|)
    requires Lookup(titles, query) == Some(idx)
    ensures Distinct(RecommendRows(titles, sim, query, topN))
    ensures NonIncreasing(sim[idx], RecommendRows(titles, sim, query, topN))
    ensures TiesAscending(sim[idx], RecommendRows(titles, sim, query, topN))
    ensures Rank(sim[idx])[0] !in RecommendRows(titles, sim, query, topN)
  {
    var row, ranked := sim[idx], Rank(sim[idx]);
    var rows := RecommendRows(titles, sim, query, topN);
    var lo, hi := SliceBound(1, |ranked|), SliceBound(topN + 1, |ranked|);
    if lo <= hi {
      assert rows == ranked[lo..hi];
      assert lo == 1;
      forall p | 0 <= p < |rows| ensures rows[p] != ranked[0] {
        assert rows[p] == ranked[p + 1];
      }
    } else {
      assert rows == [];
    }
  }

  /** When every row is asked for (`top_n >= n - 1`), the result holds every
      row except the first-ranked one, each once. */
  lemma AllButFirst(titles: seq<string>, sim: seq<seq<Score>>, query: string, topN: int, idx: nat)
    requires IsSquare(sim, |titles|) && topN >= |titles| - 1
    requires Lookup(titles, query) == Some(idx)
    ensures forall i :: 0 <= i < |titles| ==>
      (i in RecommendRows(titles, sim, query, topN) <==> i != Rank(sim[idx])[0])
  {
    var ranked := Rank(sim[idx]);
    FoundRows(titles, sim, query, topN, idx);
    assert RecommendRows(titles, sim, query, topN) == ranked[1..];
    forall i | 0 <= i < |titles|
      ensures i in ranked[1..] <==> i != ranked[0]
    {
      assert i in ranked;
      var q :| 0 <= q < |ranked| && ranked[q] == i;
      if q > 0 {
        assert ranked[1..][q - 1] == i;
      }
    }
  }

  /** The rows ranked before row `i` of `row`. */
  function BeforeSet(row: seq<Score>, i: nat): set<nat>
    requires i < |row|
  {
    set j: nat | j < |row| && Before(row, j, i)
  }

  /** The lower-indexed rows whose score ties that of row `i`. */
  function LowerTies(row: seq<Score>, i: nat): set<nat>
    requires i < |row|
  {
    set j: nat | j < i && row[j] == row[i]
  }

  /** The set of the first `p` entries of a sequence without repeats has
      `p` members. */
  lemma {:induction false} PrefixSetSize(s: seq<nat>, p: nat)
    requires p <= |s| && Distinct(s)
    ensures |set q | 0 <= q < p :: s[q]| == p
  {
    if p > 0 {
      PrefixSetSize(s, p - 1);
      var prev := set q | 0 <= q < p - 1 :: s[q];
      assert (set q | 0 <= q < p :: s[q]) == prev + {s[p - 1]};
      assert s[p - 1] !in prev;
    }
  }

  /** An index's position in the ranking is the number of indices ranked
      before it. */
  lemma RankPosition(row: seq<Score>, p: nat)
    requires p < |row|
    ensures |BeforeSet(row, Rank(row)[p])| == p
  {
    var r := Rank(row);
    RankIsStableSort(row, r);
    var i := r[p];
    assert BeforeSet(row, i) == set q | 0 <= q < p :: r[q] by {
      forall j: nat | j < |row| && Before(row, j, i) ensures j in set q | 0 <= q < p :: r[q] {
        assert j in r;
        var q :| 0 <= q < |r| && r[q] == j;
        RankOrder(row, q, p);
      }
      forall q | 0 <= q < p ensures r[q] in BeforeSet(row, i) {
        RankOrder(row, q, p);
      }
    }
    PrefixSetSize(r, p);
  }

  /** `Rank(row)` is `Before`-ordered. */
  lemma RankedOf(row: seq<Score>)
    ensures Ranked(row, Rank(row))
  {
    var r := Rank(row);
    forall p, q | 0 <= p < q < |r| ensures Before(row, r[p], r[q]) {
      assert row[r[p]] >= row[r[q]];
    }
  }

  /** Ranking order and position order agree. */
  lemma RankOrder(row: seq<Score>, p: nat, q: nat)
    requires p < |row| && q < |row|
    ensures Before(row, Rank(row)[p], Rank(row)[q]) <==> p < q
  {
    RankedOf(row);
    var r := Rank(row);
    if q < p {
      assert Before(row, r[q], r[p]);
    }
  }

  /** Where the query row itself ends up. With self-similarity maximal in its
      row (as cosine similarity gives), the query row sits at the position
      equal to the number of lower-indexed rows that tie its score; so it is
      dropped exactly when there is none, and otherwise it is returned
      whenever that number is at most `top_n`. The code drops the
      first-ranked row, not the query row. */
  lemma QueryRowPlacement(titles: seq<string>, sim: seq<seq<Score>>, query: string, topN: int, idx: nat)
    requires IsSquare(sim, |titles|) && topN >= 0
    requires Lookup(titles, query) == Some(idx)
    requires forall j :: 0 <= j < |titles| ==> sim[idx][j] <= sim[idx][idx]
    ensures idx in RecommendRows(titles, sim, query, topN) <==>
      0 < |LowerTies(sim[idx], idx)| <= topN
    ensures |LowerTies(sim[idx], idx)| == 0 ==> idx !in RecommendRows(titles, sim, query, topN)
  {
    var row, r := sim[idx], Rank(sim[idx]);
    assert idx in r;
    var p :| 0 <= p < |r| && r[p] == idx;
    RankPosition(row, p);
    MaxBeforeSet(row, idx);
    FoundRows(titles, sim, query, topN, idx);
    SliceMember(r, p, Min(topN, |titles| - 1));
  }

  /** For a row holding the row maximum, the rows ranked before it are the
      lower rows that tie it. */
  lemma MaxBeforeSet(row: seq<Score>, i: nat)
    requires i < |row|
    requires forall j :: 0 <= j < |row| ==> row[j] <= row[i]
    ensures BeforeSet(row, i) == LowerTies(row, i)
  {
    forall j: nat | j in BeforeSet(row, i) ensures j in LowerTies(row, i) {
      assert row[j] <= row[i];
    }
  }

  /** In a sequence without repeats, the entry at position `p` lies in
      positions `1 .. m` exactly when `p` does. */
  lemma SliceMember(r: seq<nat>, p: nat, m: nat)
    requires Distinct(r) && p < |r| && 1 + m <= |r|
    ensures r[p] in r[1..1 + m] <==> 0 < p <= m
  {
    var rows := r[1..1 + m];
    if r[p] in rows {
      var k :| 0 <= k < |rows| && rows[k] == r[p];
      assert r[k + 1] == r[p];
    }
    if 0 < p <= m {
      assert rows[p - 1] == r[p];
    }
  }

  /** A row whose scores already never increase ranks in index order. */
  lemma RankOfNonIncreasingRow(row: seq<Score>)
    requires forall i, j :: 0 <= i < j < |row| ==> row[i] >= row[j]
    ensures Rank(row) == seq(|row|, i => i)
  {
    var ids: seq<nat> := seq(|row|, i => i);
    assert forall x :: x in ids <==> 0 <= x < |row| by {
      forall x | 0 <= x < |row| ensures x in ids {
        assert ids[x] == x;
      }
    }
    RankIsStableSort(row, ids);
  }

  /** When the query row's scores never increase with the row index, the
      ranking is table order, so the result is simply the next titles of
      the table after the first. */
  lemma RecommendOfNonIncreasingRow(titles: seq<string>, sim: seq<seq<Score>>, query: string, topN: int, idx: nat)
    requires IsSquare(sim, |titles|) && topN >= 0
    requires Lookup(titles, query) == Some(idx)
    requires forall i, j :: 0 <= i < j < |titles| ==> sim[idx][i] >= sim[idx][j]
    ensures Recommend(titles, sim, query, topN) == titles[1..1 + Min(topN, |titles| - 1)]
  {
    RankOfNonIncreasingRow(sim[idx]);
    FoundRows(titles, sim, query, topN, idx);
  }

  // The scenarios below take their table as parameters fixed by `requires`
  // rather than as literals in the `ensures`: with literal arguments the
  // verifier unfolds `Rank` and `Lookup` on the data and the proof becomes
  // far more expensive.

  /** Two movies with identical features: recommending "A" with `top_n = 2`
      ranks B (score 1) above C (score 0). */
  lemma ScenarioSimilarFirst(titles: seq<string>, sim: seq<seq<Score>>)
    requires titles == ["A", "B", "C"]
    requires sim == [[1.0, 1.0, 0.0], [1.0, 1.0, 0.0], [0.0, 0.0, 1.0]]
    ensures Recommend(titles, sim, "A", 2) == ["B", "C"]
  {
    assert Lookup(titles, "A") == Some(0) by {
      assert Lower("A") == Lower(titles[0]);
    }
    calc {
      Recommend(titles, sim, "A", 2);
      { RecommendOfNonIncreasingRow(titles, sim, "A", 2, 0); }
      titles[1..1 + Min(2, |titles| - 1)];
      ["B", "C"];
    }
  }

  /** The first-ranked row is dropped, not the query row: B ties A, A has
      the lower index and ranks first, so "b" gets its own title back. */
  lemma ScenarioTieReturnsQuery(titles: seq<string>, sim: seq<seq<Score>>)
    requires titles == ["A", "B"]
    requires sim == [[1.0, 1.0], [1.0, 1.0]]
    ensures Recommend(titles, sim, "b", DEFAULT_TOP_N) == ["B"]
  {
    assert Lookup(titles, "b") == Some(1) by {
      assert Lower("b") == Lower(titles[1]) && Lower(titles[0]) != Lower("b");
    }
    calc {
      Recommend(titles, sim, "b", DEFAULT_TOP_N);
      { RecommendOfNonIncreasingRow(titles, sim, "b", DEFAULT_TOP_N, 1); }
      titles[1..1 + Min(DEFAULT_TOP_N, |titles| - 1)];
      ["B"];
    }
  }

  /** A movie with an empty tag has similarity 0 to everything, itself
      included: every row ties, row 0 ranks first and is dropped, and the
      query's own title is returned. */
  lemma ScenarioEmptyTag(titles: seq<string>, sim: seq<seq<Score>>)
    requires titles == ["A", "B", "C"]
    requires sim == [[1.0, 1.0, 0.0], [1.0, 1.0, 0.0], [0.0, 0.0, 0.0]]
    ensures Recommend(titles, sim, "C", DEFAULT_TOP_N) == ["B", "C"]
  {
    assert Lookup(titles, "C") == Some(2) by {
      assert Lower("C") == Lower(titles[2]) && Lower(titles[0]) != Lower("C") && Lower(titles[1]) != Lower("C");
    }
    calc {
      Recommend(titles, sim, "C", DEFAULT_TOP_N);
      { RecommendOfNonIncreasingRow(titles, sim, "C", DEFAULT_TOP_N, 2); }
      titles[1..1 + Min(DEFAULT_TOP_N, |titles| - 1)];
      ["B", "C"];
    }
  }
}
