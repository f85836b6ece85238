/** `movie_list = df['title'].sort_values().unique()`: the titles sorted in
    Python's string order, each kept once, in order of first appearance in
    the sorted column. `MovieList` is proved strictly ascending with exactly
    the table's titles as members, which makes it the only such list. */
module TitleList {
  import opened Text
  import opened Recommender
  import Ranking

  /** Every entry is at most every later one. */
  predicate NonDecreasing(s: seq<string>) {
    forall p, q :: 0 <= p < q < |s| ==> LexLeq(s[p], s[q])
  }

  /** Every entry is below every later one, so no title repeats. */
  predicate StrictlyAscending(s: seq<string>) {
    forall p, q :: 0 <= p < q < |s| ==> LexLess(s[p], s[q])
  }

  lemma LeqTransitive(a: string, b: string, c: string)
    requires LexLeq(a, b) && LexLeq(b, c)
    ensures LexLeq(a, c)
  {
    if a != b && b != c {
      LexTransitive(a, b, c);
    }
  }

  lemma LeqAntisymmetric(a: string, b: string)
    ensures LexLeq(a, b) && LexLeq(b, a) ==> a == b
  {
    if LexLess(a, b) {
      LexAsymmetric(a, b);
    }
  }

  /** Insert `t` into a sorted sequence before the first entry not below it. */
  function InsertSorted(t: string, s: seq<string>): (r: seq<string>)
    requires NonDecreasing(s)
    ensures NonDecreasing(r)
    ensures multiset(r) == multiset(s) + multiset{t}
  {
    if s == [] || LexLeq(t, s[0]) then
      BelowHead(t, s);
      [t] + s
    else
      LexTotal(t, s[0]);
      var u := InsertSorted(t, s[1..]);
      assert s == [s[0]] + s[1..];
      HeadBelowInsert(t, s, u);
      [s[0]] + u
  }

  /** A title at most the head of a sorted list is at most all its entries. */
  lemma BelowHead(t: string, s: seq<string>)
    requires NonDecreasing(s)
    requires s == [] || LexLeq(t, s[0])
    ensures forall q :: 0 <= q < |s| ==> LexLeq(t, s[q])
  {
    forall q | 0 < q < |s| ensures LexLeq(t, s[q]) {
      LeqTransitive(t, s[0], s[q]);
    }
  }

  /** The head of a sorted list is at most every entry of its tail with a
      title at least the head added. */
  lemma HeadBelowInsert(t: string, s: seq<string>, u: seq<string>)
    requires NonDecreasing(s) && s != [] && LexLeq(s[0], t)
    requires multiset(u) == multiset(s[1..]) + multiset{t}
    ensures forall x :: x in u ==> LexLeq(s[0], x)
  {
    forall x | x in u ensures LexLeq(s[0], x) {
      assert x in multiset(u);
      if x != t {
        assert x in multiset(s[1..]);
        var q :| 0 <= q < |s[1..]| && s[1..][q] == x;
        assert s[q + 1] == x;
      }
    }
  }

  /** `sort_values()`: the same titles, in non-decreasing order. */
  function SortValues(s: seq<string>): (r: seq<string>)
    ensures NonDecreasing(r)
    ensures multiset(r) == multiset(s)
  {
    if s == [] then []
    else
      var init := s[..|s| - 1];
      assert s == init + [s[|s| - 1]];
      InsertSorted(s[|s| - 1], SortValues(init))
  }

  /** `unique()`: each value once, at the place it first occurs; on a sorted
      input the result is strictly ascending. */
  function Unique(s: seq<string>): (r: seq<string>)
    ensures forall x :: x in r <==> x in s
    ensures forall p, q :: 0 <= p < q < |r| ==> r[p] != r[q]
    ensures NonDecreasing(s) ==> StrictlyAscending(r)
  {
    if s == [] then []
    else
      var init, x := s[..|s| - 1], s[|s| - 1];
      assert s == init + [x];
      var u := Unique(init);
      assert NonDecreasing(s) ==> NonDecreasing(init);
      if x in u then u
      else
        assert NonDecreasing(s) ==> forall y :: y in u ==> LexLess(y, x) by {
          if NonDecreasing(s) {
            forall y | y in u ensures LexLess(y, x) {
              var q :| 0 <= q < |init| && init[q] == y;
              assert LexLeq(s[q], s[|s| - 1]);
            }
          }
        }
        u + [x]
  }

  /** The title list offered for selection (line 52). */
  function MovieList(titles: seq<string>): (r: seq<string>)
    ensures StrictlyAscending(r)
  {
    Unique(SortValues(titles))
  }

  /** The list is strictly ascending and its members are exactly the titles
      of the table. */
  lemma MovieListSorted(titles: seq<string>)
    ensures StrictlyAscending(MovieList(titles))
    ensures forall t :: t in MovieList(titles) <==> t in titles
  {
    var sorted := SortValues(titles);
    forall t ensures t in sorted <==> t in titles {
      assert t in sorted <==> t in multiset(sorted);
      assert t in titles <==> t in multiset(titles);
    }
  }

  /** Two strictly ascending lists with the same members are equal. */
  lemma {:induction false} AscendingUnique(s: seq<string>, t: seq<string>)
    requires StrictlyAscending(s) && StrictlyAscending(t)
    requires forall x :: x in s <==> x in t
    ensures s == t
    decreases |s|
  {
    if s != [] {
      assert s[0] in t;
      Ranking.NoMembersEmpty(t);
      AscendingHead(s, t[0]);
      AscendingHead(t, s[0]);
      LeqAntisymmetric(s[0], t[0]);
      forall x ensures x in s[1..] <==> x in t[1..] {
        AscendingTail(s, x);
        AscendingTail(t, x);
      }
      AscendingUnique(s[1..], t[1..]);
      assert s == [s[0]] + s[1..] && t == [t[0]] + t[1..];
    } else {
      Ranking.NoMembersEmpty(t);
    }
  }

  /** The head of a strictly ascending list is at most each of its members. */
  lemma AscendingHead(s: seq<string>, x: string)
    requires StrictlyAscending(s) && x in s
    ensures LexLeq(s[0], x)
  {
    var q :| 0 <= q < |s| && s[q] == x;
    if q > 0 {
      assert LexLess(s[0], s[q]);
    }
  }

  /** The tail of a strictly ascending list holds all its members but the
      head. */
  lemma AscendingTail(s: seq<string>, x: string)
    requires StrictlyAscending(s) && s != []
    ensures x in s[1..] <==> x in s && x != s[0]
  {
    if x in s[1..] {
      var q :| 0 <= q < |s[1..]| && s[1..][q] == x;
      assert LexLess(s[0], s[q + 1]);
      LexIrreflexive(s[0]);
    }
    if x in s && x != s[0] {
      var q :| 0 <= q < |s| && s[q] == x;
      assert s[1..][q - 1] == x;
    }
  }

  /** `MovieList` is the only strictly ascending list of the table's titles. */
  lemma MovieListIsCanonical(titles: seq<string>, s: seq<string>)
    requires StrictlyAscending(s)
    requires forall t :: t in s <==> t in titles
    ensures s == MovieList(titles)
  {
    MovieListSorted(titles);
    AscendingUnique(s, MovieList(titles));
  }

  /** Every title offered for selection is found by `recommend`'s lookup,
      which resolves it to the first row whose title has the same lowercase
      form. */
  lemma SelectableTitlesFound(titles: seq<string>, t: string)
    requires t in MovieList(titles)
    ensures Lookup(titles, t).Some?
    ensures Lower(titles[Lookup(titles, t).value]) == Lower(t)
  {
    MovieListSorted(titles);
    var j :| 0 <= j < |titles| && titles[j] == t;
  }

  /** Titles differing only in case are separate entries of the list ... */
  lemma CaseVariantsListed()
    ensures MovieList(["Hero", "HERO"]) == ["HERO", "Hero"]
  {
    var titles: seq<string> := ["Hero", "HERO"];
    assert LexLess("HERO", "Hero") by {
      assert "HERO"[0] == "Hero"[0];
      assert "HERO"[1..] == "ERO" && "Hero"[1..] == "ero";
      assert LexLess("ERO", "ero");
    }
    MovieListIsCanonical(titles, ["HERO", "Hero"]);
  }

  /** ... yet both resolve to the first of them, row 0. */
  lemma CaseVariantsShareRow()
    ensures Lookup(["Hero", "HERO"], "HERO") == Some(0)
    ensures Lookup(["Hero", "HERO"], "Hero") == Some(0)
  {
    assert Lower("Hero") == "hero" && Lower("HERO") == "hero";
  }
}
