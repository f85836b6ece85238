# Bollywood movie recommender: verified model of the content-similarity core

The application, a single Streamlit script (`app.py`), recommends movies
similar to a selected one. It builds a lowercase "tag" for each movie from
genre, actors, directors and writers. The tags are vectorised and compared by
cosine similarity. For a queried title it ranks the matching movie's similarity
row and returns the titles at positions 1 to `top_n` of that ranking. It also
offers a sorted, deduplicated list of titles to pick from.

This project models, in Dafny:

- **Tag building** (`load_data`, `tag_builder.dfy`). `MovieFrame` is the data
  frame. It has one method per in-place column step: fill missing text cells,
  clear placeholder genres, join the four fields, lowercase them. `LoadData`
  runs these steps in the source's order and is proved to give `Tag` of every
  row. `Tag` is the per-row meaning, and its lemmas state the field layout.
- **Ranking** (`ranking.dfy`). `Rank` orders the row indices by descending
  score, with ties in ascending index order. This is what Python's stable
  `sorted(..., reverse=True)` yields. `RankIsStableSort` proves that any
  ordering with those two properties is `Rank`.
- **Recommendation** (`recommender.dfy`). Covers case-insensitive lookup of
  the first matching row, Python slice semantics for `[1:top_n+1]` (including
  negative `top_n`), and the mapping back to titles. The similarity matrix is an
  input: an n-by-n matrix of `real` scores, of which only the order is used.
- **Title list** (`title_list.dfy`). `sort_values().unique()` is proved
  strictly ascending in Python's string order, holding exactly the table's
  titles. That makes it the only such list.
- `text.dfy` holds ASCII lowercasing and Python's code-point lexicographic
  string order.

Some behaviours differ from what a reader might expect; the model follows
the code:

- One might expect `recommend` never to return the query's own title. The
  code instead drops the *first-ranked* row (line 41). With the query row
  (index `idx`, the first row whose lowercased title matches) having its own
  score maximal in its row, as cosine similarity gives, row `idx` is
  returned exactly when 1 <= (number of lower-indexed rows tying its score)
  <= `top_n` (`QueryRowPlacement`). With no such tie it is the dropped row;
  with more than `top_n` the slice cuts it off. `ScenarioTieReturnsQuery`
  gives a two-movie instance where it is returned. Titles can repeat (exact
  duplicates, or case variants such as "Hero" and "HERO"), so another row
  carrying the same title can bring that title back even when row `idx` is
  dropped.
- For a movie with an empty tag (similarity 0 everywhere), one might expect
  the other movies back in table order. An all-zero row ranks in table order
  (`RankOfNonIncreasingRow`), so the result is rows 1 .. min(`top_n`, n-1)
  (`RecommendOfNonIncreasingRow`). The query row `idx` is among them
  exactly when `idx` is in 1 .. `top_n`; at row 0 it is the dropped entry.
  Another row with the same title, or a case variant of it, can still
  return that title. `ScenarioEmptyTag` gives an instance where the query
  row is returned.
- One might expect `top_n >= 1`. The code accepts any integer and slices
  with it, so a negative `top_n` counts from the end (`NegativeTopN`).
- The placeholder clean-up of line 17 applies to the genre column only. In
  the actors, directors and writers a "-" cell stays in the tag
  (`TagFields`). A cell that is exactly "nan" (or empty) never reaches
  line 17: the CSV reader's default missing-value markers include both, so
  it is read as missing and line 14 turns it into "". The "nan"
  replacement therefore never applies to input the reader produces.
- A row whose title is missing is kept, with title "" (line 14): it is
  neither excluded from the table nor from the title list
  (`MovieFrame.Titles`, `LoadData`).

## Model

| member | source | states |
|---|---|---|
| Text.Lower | app.py:21 | the lowercase form has the same length, each character is the ASCII-lowercased input character, and no upper-case letter remains |
| Text.LowerAppend | app.py:21 | lowercasing a concatenation is the concatenation of the lowercased parts |
| Text.LowerIdempotent | app.py:35-36 | lowercasing an already lowercased string changes nothing |
| Text.LexLess | app.py:52 | Python's `<` on `str`, which `sort_values` uses; no contract of its own, its order properties are `LexIrreflexive`, `LexAsymmetric`, `LexTransitive` and `LexTotal` |
| Text.LexTransitive | app.py:52 | Python's string order is transitive |
| Text.LexTotal | app.py:52 | any two different strings are ordered one way or the other |
| TagBuilder.FillCell | app.py:14 | a missing text cell reads as "" and any other cell keeps its text |
| TagBuilder.CleanGenre | app.py:17 | a genre equal to exactly "-" or "nan" becomes "" and every other genre is kept unchanged |
| TagBuilder.TagGenre | app.py:14-17 | the genre entering the tag is empty exactly when the cell is missing, empty, "-" or "nan" |
| TagBuilder.Tag | app.py:20-21 | the tag of one row holds no upper-case letter; its layout is `TagFields`, `TagShape`, `PlaceholderGenreDropped` and `OtherGenreKept` |
| TagBuilder.LowerJoin | app.py:20-21 | lowercasing the space-joined fields equals joining the lowercased fields |
| TagBuilder.TagFields | app.py:20-21 | the tag is lower(genre) + " " + lower(actors) + " " + lower(directors) + " " + lower(writers), with missing cells as "" |
| TagBuilder.TagShape | app.py:20-21 | the tag has no upper-case letter and is exactly three separator characters longer than the four fields |
| TagBuilder.PlaceholderGenreDropped | app.py:14-20 | a missing, "-" or "nan" genre contributes nothing, so the tag begins with the separator space |
| TagBuilder.OtherGenreKept | app.py:17-21 | any other genre is kept whole, lowercased, at the front of the tag, followed by a space |
| TagBuilder.PlaceholderIsWholeCell | app.py:17 | the placeholder replacement matches whole cells: "Drama-" and "nan-thriller" are kept |
| TagBuilder.MovieFrame.FromRows | app.py:11 | the frame holds the rows as read, one cell per row in every column |
| TagBuilder.MovieFrame.FillMissing | app.py:14 | every text column is rewritten in place with missing cells replaced by "" and other cells kept; the tag column is untouched |
| TagBuilder.MovieFrame.ClearGenrePlaceholders | app.py:17 | only the genre column changes: each cell becomes its cleaned genre |
| TagBuilder.MovieFrame.JoinTags | app.py:20 | only the tag column changes: each tag is genre, actors, directors and writers joined by single spaces |
| TagBuilder.MovieFrame.LowerTags | app.py:21 | only the tag column changes: each tag is lowercased |
| TagBuilder.MovieFrame.Titles | app.py:14 | the title column read with missing titles as "" |
| TagBuilder.LoadData | app.py:10-23 | after the four steps in source order, every row's tag equals `Tag` of the raw row and every title is the filled title cell |
| Ranking.Insert | app.py:40-41 | inserting a new largest index into a stable descending ranking keeps it ranked and adds exactly that index |
| Ranking.RankPrefix | app.py:40-41 | the ranking of indices 0..k-1 holds each of them once in stable descending order |
| Ranking.Rank | app.py:40-41 | the ranking is a permutation of the row's indices with non-increasing scores and ties in ascending index order |
| Ranking.RankedUnique | app.py:40-41 | two stable-descending orderings of the same indices are identical |
| Ranking.RankIsStableSort | app.py:40-41 | any permutation of the indices with non-increasing scores and ascending ties is exactly `Rank`, so the sort result is determined |
| Ranking.FirstRanked | app.py:41 | the first-ranked index holds the row maximum and no lower index reaches it |
| Ranking.FirstRankedIff | app.py:41 | an index is ranked first if and only if it holds the maximum and no lower index ties it |
| Recommender.FindFirst | app.py:39 | returns the first matching position at or after the start, or None exactly when there is no match |
| Recommender.LowerTitles | app.py:36 | the lowercased title column, entry by entry |
| Recommender.Lookup | app.py:35-39 | None exactly when no lowercased title equals the lowercased query; otherwise the lowest such row |
| Recommender.SliceBound | app.py:41 | a Python slice bound: negative counts from the end, the result is clamped to the list length |
| Recommender.Slice | app.py:41 | Python's `s[start:stop]`: the run between the two clamped bounds, or empty when they cross |
| Recommender.RecommendRows | app.py:34-42 | every returned row index is a row of the table |
| Recommender.Recommend | app.py:34-42 | `recommend` itself: every returned title is a title of the table, and a non-empty result is shorter than the table; which titles and in what order are `FoundRows`, `RecommendTitles`, `RowsOrdered` and `NegativeTopN` |
| Recommender.NotFoundIsEmpty | app.py:35-37 | a query whose lowercase form matches no title gives [] |
| Recommender.CaseInsensitive | app.py:35-39 | two queries with the same lowercase form give identical results |
| Recommender.LoweredQuery | app.py:35 | a query passed already lowercased gives the same result as the original query |
| Recommender.FoundRows | app.py:39-41 | for a found title and top_n >= 0 the rows are positions 1..top_n of the ranking of the query row, min(top_n, n-1) of them |
| Recommender.RecommendTitles | app.py:34-42 | for top_n >= 0 the p-th title is that of ranking position p+1, the length is min(top_n, n-1), and the result is empty exactly when the title is not found, top_n is 0 or there is one row |
| Recommender.NegativeTopN | app.py:41 | top_n = -1 gives nothing; top_n = -k for k >= 2 gives ranking positions 1 up to n-k, or nothing when that is empty |
| Recommender.RowsOrdered | app.py:40-41 | for any top_n the returned rows are distinct, scores non-increasing in result order, ties in ascending row order, and the first-ranked row is never returned |
| Recommender.AllButFirst | app.py:41 | when top_n >= n-1 every row except the first-ranked one is returned |
| Recommender.PrefixSetSize | app.py:40 | the first p entries of a repetition-free ranking form a set of p rows |
| Recommender.RankPosition | app.py:40-41 | a row's ranking position equals the number of rows ranked before it |
| Recommender.RankedOf | app.py:40-41 | the ranking lists indices in strictly increasing rank order |
| Recommender.RankOrder | app.py:40-41 | one index ranks before another exactly when its position is smaller |
| Recommender.QueryRowPlacement | app.py:39-41 | with self-similarity maximal in its row, the query row is returned exactly when 1 <= (number of lower rows tying its score) <= top_n, and is dropped when no lower row ties it |
| Recommender.RankOfNonIncreasingRow | app.py:40-41 | a row whose scores never increase with the index ranks in plain index order |
| Recommender.RecommendOfNonIncreasingRow | app.py:39-42 | when the query row's scores never increase with the index, the result is the titles of rows 1 .. min(top_n, n-1) in table order |
| Recommender.ScenarioSimilarFirst | app.py:34-42 | three movies, A and B identical: recommending "A" with top_n = 2 gives ["B", "C"] |
| Recommender.ScenarioTieReturnsQuery | app.py:39-42 | two tied movies A and B: recommending "b" returns ["B"], the query's own title |
| Recommender.ScenarioEmptyTag | app.py:39-42 | a movie whose similarities are all 0 gets ["B", "C"]: row 0 is dropped and the query itself is returned |
| TitleList.InsertSorted | app.py:52 | inserting into a sorted list keeps it sorted and adds exactly that title |
| TitleList.SortValues | app.py:52 | `sort_values()` gives the same titles as a multiset, in non-decreasing string order |
| TitleList.Unique | app.py:52 | `unique()` keeps each value once, has the same members, and on sorted input is strictly ascending |
| TitleList.MovieList | app.py:52 | `movie_list` itself: strictly ascending in Python's string order; `MovieListSorted` adds that its members are exactly the table's titles |
| TitleList.MovieListSorted | app.py:52 | the title list is strictly ascending and holds exactly the titles of the table |
| TitleList.AscendingUnique | app.py:52 | two strictly ascending lists with the same members are equal |
| TitleList.MovieListIsCanonical | app.py:52 | the title list is the only strictly ascending list of the table's titles |
| TitleList.SelectableTitlesFound | app.py:52-57 | every selectable title is found by the lookup, at a row whose lowercased title equals the selection's |
| TitleList.CaseVariantsListed | app.py:52 | titles "Hero" and "HERO" are two separate list entries, "HERO" first since upper case sorts before lower case |
| TitleList.CaseVariantsShareRow | app.py:35-39 | selecting either "Hero" or "HERO" resolves to row 0, the first title with that lowercase form |

## Left out

- Streamlit page setup, the select box, the button, the result widgets and the
  release-year chart (app.py:45-70) are presentation only.
- `@st.cache_data` caching (app.py:9, 26) is framework plumbing. The model has no caching.
- Reading the CSV file (app.py:11) is I/O. `LoadData` takes the rows as read
  as a parameter.
- `CountVectorizer(stop_words='english')` and `cosine_similarity`
  (app.py:28-30) are not modelled. The tokeniser and stopword list are an opaque
  library default, and the similarity is floating-point library code. The
  similarity matrix is an input of `real` scores. Its cosine properties
  (symmetry, range, maximal diagonal) are not assumed, except that
  `QueryRowPlacement` requires the query row's own score to be maximal in its row.
- Text.Lower: lowercases ASCII A-Z only, not Python's full Unicode `str.lower`.
- Scores are finite floats: a zero vector's similarity row is 0.0, never
  NaN. They are modelled exactly by `real`, whose order matches the floats'
  order. NaN is not modelled.
- Pandas index labels are assumed to be the default range index, so the label
  from `.index[0]` (line 39) is the position `iloc` uses (line 42).
- A text column that pandas does not read as `object` (for example one that is
  entirely empty) is not modelled: every column is taken to hold text cells,
  so `fillna('')` applies to all of them.
- The whole-row `DataFrame` (the columns other than title, genre, actors,
  directors and writers) is not modelled. Those columns only feed the excluded chart.
- `RawMovie` allows cells that the CSV reader never yields, such as
  `Value("nan")` and `Value("")`: the reader turns those into missing
  cells. The model treats them as line 17 would, and every input the reader
  can yield is covered.
