/** The ranking step of `recommend`: `sorted(enumerate(row), key=score,
    reverse=True)`. Python's sort is stable and `reverse=True` keeps that
    stability, so the result orders indices by descending score and, among
    equal scores, by ascending index. `Rank` computes it by insertion, and
    `RankIsStableSort` shows that any ordering with those two properties is
    `Rank`. */
module Ranking {

  /** A similarity score. Only its total order matters to the ranking. */
  type Score = real

  /** Index `a` comes strictly before index `b` in the stable descending
      ranking of `row`. */
  predicate Before(row: seq<Score>, a: nat, b: nat)
    requires a < |row| && b < |row|
  {
    row[a] > row[b] || (row[a] == row[b] && a < b)
  }

  /** Every entry of `s` is an index of `row`. */
  predicate InRange(row: seq<Score>, s: seq<nat>) {
    forall p :: 0 <= p < |s| ==> s[p] < |row|
  }

  /** `s` lists indices of `row` in strictly increasing `Before` order. */
  predicate Ranked(row: seq<Score>, s: seq<nat>) {
    InRange(row, s) && forall p, q :: 0 <= p < q < |s| ==> Before(row, s[p], s[q])
  }

  /** Scores never increase along `s`. */
  predicate NonIncreasing(row: seq<Score>, s: seq<nat>)
    requires InRange(row, s)
  {
    forall p, q :: 0 <= p < q < |s| ==> row[s[p]] >= row[s[q]]
  }

  /** Entries of `s` with equal scores appear in ascending index order. */
  predicate TiesAscending(row: seq<Score>, s: seq<nat>)
    requires InRange(row, s)
  {
    forall p, q :: 0 <= p < q < |s| && row[s[p]] == row[s[q]] ==> s[p] < s[q]
  }

  /** No index occurs twice in `s`. */
  predicate Distinct(s: seq<nat>) {
    forall p, q :: 0 <= p < q < |s| ==> s[p] != s[q]
  }

  /** Insert index `i`, larger than every index already ranked, after every
      entry whose score is at least `row[i]`: that is where a stable
      descending sort puts it. */
  function Insert(row: seq<Score>, i: nat, s: seq<nat>): (r: seq<nat>)
    requires i < |row| && Ranked(row, s)
    requires forall p :: 0 <= p < |s| ==> s[p] < i
    ensures |r| == |s| + 1
    ensures forall x :: x in r <==> x == i || x in s
    ensures Ranked(row, r)
  {
    if s == [] || row[s[0]] < row[i] then
      assert forall q :: 0 <= q < |s| ==> row[s[0]] >= row[s[q]] by {
        forall q | 0 < q < |s| ensures row[s[0]] >= row[s[q]] {
          assert Before(row, s[0], s[q]);
        }
      }
      [i] + s
    else
      var t := Insert(row, i, s[1..]);
      assert forall x :: x in t ==> Before(row, s[0], x) by {
        forall x | x in t ensures Before(row, s[0], x) {
          if x != i {
            var q :| 0 <= q < |s[1..]| && s[1..][q] == x;
            assert s[q + 1] == x;
          }
        }
      }
      [s[0]] + t
  }

  /** The stable descending ranking of the indices `0 .. k-1` of `row`. */
  function RankPrefix(row: seq<Score>, k: nat): (r: seq<nat>)
    requires k <= |row|
    ensures |r| == k
    ensures forall x :: x in r <==> 0 <= x < k
    ensures Ranked(row, r)
  {
    if k == 0 then []
    else
      var s := RankPrefix(row, k - 1);
      assert forall p :: 0 <= p < |s| ==> s[p] < k - 1 by {
        forall p | 0 <= p < |s| ensures s[p] < k - 1 {
          assert s[p] in s;
        }
      }
      Insert(row, k - 1, s)
  }

  /** `sorted(enumerate(row), key=lambda x: x[1], reverse=True)`, keeping
      only the indices: every index once, scores non-increasing, ties in
      ascending index order. */
  function Rank(row: seq<Score>): (r: seq<nat>)
    ensures |r| == |row|
    ensures forall x :: x in r <==> 0 <= x < |row|
    ensures InRange(row, r) && Distinct(r)
    ensures NonIncreasing(row, r) && TiesAscending(row, r)
  {
    var r := RankPrefix(row, |row|);
    assert Distinct(r) by {
      forall p, q | 0 <= p < q < |r| ensures r[p] != r[q] {
        assert Before(row, r[p], r[q]);
      }
    }
    r
  }

  /** Two `Before`-ordered sequences with the same members are equal. */
  lemma {:induction false} RankedUnique(row: seq<Score>, s: seq<nat>, t: seq<nat>)
    requires Ranked(row, s) && Ranked(row, t)
    requires forall x :: x in s <==> x in t
    ensures s == t
    decreases |s|
  {
    if s != [] {
      assert s[0] in t;
      NoMembersEmpty(t);
      RankedHead(row, s, t[0]);
      RankedHead(row, t, s[0]);
      forall x ensures x in s[1..] <==> x in t[1..] {
        RankedTail(row, s, x);
        RankedTail(row, t, x);
      }
      RankedUnique(row, s[1..], t[1..]);
      assert s == [s[0]] + s[1..] && t == [t[0]] + t[1..];
    } else {
      NoMembersEmpty(t);
    }
  }

  /** A sequence with no members is empty. */
  lemma NoMembersEmpty<T>(t: seq<T>)
    ensures (forall x :: x !in t) ==> t == []
  {
    if t != [] {
      assert t[0] in t;
    }
  }

  /** The head of a `Before`-ordered sequence comes before its other members. */
  lemma RankedHead(row: seq<Score>, s: seq<nat>, x: nat)
    requires Ranked(row, s) && x in s
    ensures x == s[0] || Before(row, s[0], x)
  {
    var q :| 0 <= q < |s| && s[q] == x;
    if q > 0 {
      assert Before(row, s[0], s[q]);
    }
  }

  /** The tail of a `Before`-ordered sequence holds all its members but the
      head. */
  lemma RankedTail(row: seq<Score>, s: seq<nat>, x: nat)
    requires Ranked(row, s) && s != []
    ensures x in s[1..] <==> x in s && x != s[0]
  {
    if x in s[1..] {
      var q :| 0 <= q < |s[1..]| && s[1..][q] == x;
      assert Before(row, s[0], s[q + 1]);
    }
    if x in s && x != s[0] {
      var q :| 0 <= q < |s| && s[q] == x;
      assert s[1..][q - 1] == x;
    }
  }

  /** The ranking is the unique ordering of all indices with non-increasing
      scores and ascending indices among ties, so every stable descending
      sort of `enumerate(row)` yields exactly `Rank(row)`. */
  lemma RankIsStableSort(row: seq<Score>, s: seq<nat>)
    requires forall x :: x in s <==> 0 <= x < |row|
    requires InRange(row, s) && NonIncreasing(row, s) && TiesAscending(row, s)
    ensures s == Rank(row)
  {
    assert Ranked(row, s) by {
      forall p, q | 0 <= p < q < |s| ensures Before(row, s[p], s[q]) {
        assert row[s[p]] >= row[s[q]];
      }
    }
    var r := RankPrefix(row, |row|);
    RankedUnique(row, s, r);
  }

  /** The first-ranked index is the lowest index holding the row's maximum. */
  lemma FirstRanked(row: seq<Score>)
    requires |row| > 0
    ensures forall j :: 0 <= j < |row| ==> row[j] <= row[Rank(row)[0]]
    ensures forall j :: 0 <= j < Rank(row)[0] ==> row[j] < row[Rank(row)[0]]
  {
    var r := Rank(row);
    forall j | 0 <= j < |row| ensures row[j] <= row[r[0]] && (j < r[0] ==> row[j] < row[r[0]]) {
      assert j in r;
      var q :| 0 <= q < |r| && r[q] == j;
    }
  }

  /** Index `i` is ranked first exactly when it holds the row's maximum and
      no lower index holds the same score. */
  lemma FirstRankedIff(row: seq<Score>, i: nat)
    requires i < |row|
    ensures Rank(row)[0] == i <==>
      (forall j :: 0 <= j < |row| ==> row[j] <= row[i]) && (forall j :: 0 <= j < i ==> row[j] != row[i])
  {
    FirstRanked(row);
    var f := Rank(row)[0];
    if (forall j :: 0 <= j < |row| ==> row[j] <= row[i]) && (forall j :: 0 <= j < i ==> row[j] != row[i]) {
      assert row[f] <= row[i] && row[i] <= row[f];
    }
  }
}
