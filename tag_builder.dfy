/** The tag builder of `load_data`: each movie's genre, actors, directors and
    writers are joined with single spaces and lowercased into one "tag" string.
    `Tag` is the per-row meaning; `MovieFrame` is the data frame that
    `load_data` rewrites column by column, and `LoadData` runs its steps in the
    source's order and is proved to produce `Tag` of every row. */
module TagBuilder {
  import opened Text

  /** One cell of a text column as the CSV reader yields it: absent (NaN) or a
      string. */
  datatype Cell = Missing | Value(text: string)

  /** One raw row of the movie table, restricted to the columns the core uses. */
  datatype RawMovie = RawMovie(title: Cell, genre: Cell, actors: Cell, directors: Cell, writers: Cell)

  /** `fillna('')`: a missing cell reads as the empty string. */
  function FillCell(c: Cell): (s: string)
    ensures c.Missing? ==> s == ""
    ensures c.Value? ==> s == c.text
  {
    match c
    case Missing => ""
    case Value(t) => t
  }

  /** The genre cells that mean "unknown". */
  predicate IsGenrePlaceholder(g: string) {
    g == "-" || g == "nan"
  }

  /** `.replace('-', '').replace('nan', '')` on one genre value: a whole-cell
      match, so a genre that merely contains "-" or "nan" is kept. */
  function CleanGenre(g: string): (r: string)
    ensures IsGenrePlaceholder(g) ==> r == ""
    ensures !IsGenrePlaceholder(g) ==> r == g
  {
    if g == "-" then "" else if g == "nan" then "" else g
  }

  /** The genre as it enters the tag: missing and placeholder cells are "". */
  function TagGenre(m: RawMovie): (g: string)
    ensures g == "" <==> m.genre.Missing? || m.genre.text == "" || IsGenrePlaceholder(m.genre.text)
  {
    CleanGenre(FillCell(m.genre))
  }

  /** Four fields joined by single spaces, as `a + ' ' + b + ' ' + c + ' ' + d`
      does on text columns. */
  function Join(g: string, a: string, d: string, w: string): string {
    g + " " + a + " " + d + " " + w
  }

  /** The tag of one movie: genre, actors, directors and writers joined by
      single spaces, the whole lowercased. */
  function Tag(m: RawMovie): (t: string)
    ensures forall i :: 0 <= i < |t| ==> !IsUpper(t[i])
  {
    Lower(Join(TagGenre(m), FillCell(m.actors), FillCell(m.directors), FillCell(m.writers)))
  }

  /** Lowercasing a join lowercases each field and keeps the separators. */
  lemma LowerJoin(g: string, a: string, d: string, w: string)
    ensures Lower(Join(g, a, d, w)) == Join(Lower(g), Lower(a), Lower(d), Lower(w))
  {
    assert Lower(" ") == " ";
    LowerAppend(g + " " + a + " " + d + " ", w);
    LowerAppend(g + " " + a + " " + d, " ");
    LowerAppend(g + " " + a + " ", d);
    LowerAppend(g + " " + a, " ");
    LowerAppend(g + " ", a);
    LowerAppend(g, " ");
  }

  /** The tag is the four lowercased fields with exactly one space between
      consecutive fields, in the order genre, actors, directors, writers. */
  lemma TagFields(m: RawMovie)
    ensures Tag(m) == Lower(TagGenre(m)) + " " + Lower(FillCell(m.actors)) + " "
                      + Lower(FillCell(m.directors)) + " " + Lower(FillCell(m.writers))
  {
    LowerJoin(TagGenre(m), FillCell(m.actors), FillCell(m.directors), FillCell(m.writers));
  }

  /** The tag holds no upper-case letter and is exactly three characters
      longer than the four fields together. */
  lemma TagShape(m: RawMovie)
    ensures forall i :: 0 <= i < |Tag(m)| ==> !IsUpper(Tag(m)[i])
    ensures |Tag(m)| == |TagGenre(m)| + |FillCell(m.actors)| + |FillCell(m.directors)| + |FillCell(m.writers)| + 3
  {
  }

  /** A missing, "-" or "nan" genre contributes nothing: the tag starts with
      the separator space. */
  lemma PlaceholderGenreDropped(m: RawMovie)
    requires m.genre.Missing? || IsGenrePlaceholder(m.genre.text)
    ensures Tag(m) == " " + Lower(FillCell(m.actors)) + " " + Lower(FillCell(m.directors))
                      + " " + Lower(FillCell(m.writers))
  {
    var g, a, d, w := TagGenre(m), FillCell(m.actors), FillCell(m.directors), FillCell(m.writers);
    assert g == "";
    calc {
      Tag(m);
      Lower(Join(g, a, d, w));
      { LowerJoin(g, a, d, w); }
      Join(Lower(g), Lower(a), Lower(d), Lower(w));
      { assert Lower(g) == ""; }
      Join("", Lower(a), Lower(d), Lower(w));
    }
  }

  /** Any other genre is kept whole (only lowercased) at the front of the tag,
      followed by the separator space. */
  lemma OtherGenreKept(m: RawMovie)
    requires m.genre.Value? && !IsGenrePlaceholder(m.genre.text)
    ensures Tag(m)[..|m.genre.text|] == Lower(m.genre.text)
    ensures Tag(m)[|m.genre.text|] == ' '
  {
    var g := m.genre.text;
    assert TagGenre(m) == g;
    var j := Join(g, FillCell(m.actors), FillCell(m.directors), FillCell(m.writers));
    assert forall i :: 0 <= i < |g| ==> j[i] == g[i];
    assert j[|g|] == ' ';
    var t := Tag(m);
    assert t == Lower(j);
    forall i | 0 <= i < |g| ensures t[..|g|][i] == Lower(g)[i] {
      assert t[i] == LowerChar(j[i]);
    }
  }

  /** The placeholder test is a whole-cell match: "-" is dropped, "Drama-"
      and "nan-thriller" are kept. */
  lemma PlaceholderIsWholeCell()
    ensures CleanGenre("-") == "" && CleanGenre("nan") == ""
    ensures CleanGenre("Drama-") == "Drama-" && CleanGenre("nan-thriller") == "nan-thriller"
  {
  }

  /** The movie table, column by column, as `load_data` rewrites it in place. */
  class MovieFrame {
    var titles: seq<Cell>
    var genres: seq<Cell>
    var actors: seq<Cell>
    var directors: seq<Cell>
    var writers: seq<Cell>
    var tags: seq<string>

    /** All columns have one cell per row. */
    ghost predicate Valid()
      reads this
    {
      |genres| == |titles| && |actors| == |titles| && |directors| == |titles|
      && |writers| == |titles| && |tags| == |titles|
    }

    ghost function Rows(): nat
      reads this
    {
      |titles|
    }

    /** Every text cell holds a string. */
    ghost predicate Filled()
      reads this
    {
      (forall i :: 0 <= i < |titles| ==> titles[i].Value?)
      && (forall i :: 0 <= i < |genres| ==> genres[i].Value?)
      && (forall i :: 0 <= i < |actors| ==> actors[i].Value?)
      && (forall i :: 0 <= i < |directors| ==> directors[i].Value?)
      && (forall i :: 0 <= i < |writers| ==> writers[i].Value?)
    }

    /** The table as read from the CSV source (line 11); the tag column does
        not exist yet and is modelled as all empty. */
    constructor FromRows(rows: seq<RawMovie>)
      ensures Valid() && Rows() == |rows|
      ensures forall i :: 0 <= i < |rows| ==>
        titles[i] == rows[i].title && genres[i] == rows[i].genre && actors[i] == rows[i].actors
        && directors[i] == rows[i].directors && writers[i] == rows[i].writers && tags[i] == ""
    {
      titles := seq(|rows|, i requires 0 <= i < |rows| => rows[i].title);
      genres := seq(|rows|, i requires 0 <= i < |rows| => rows[i].genre);
      actors := seq(|rows|, i requires 0 <= i < |rows| => rows[i].actors);
      directors := seq(|rows|, i requires 0 <= i < |rows| => rows[i].directors);
      writers := seq(|rows|, i requires 0 <= i < |rows| => rows[i].writers);
      tags := seq(|rows|, i => "");
    }

    /** Line 14: every missing text cell becomes "" and every other cell is
        kept. */
    method FillMissing()
      requires Valid()
      modifies this
      ensures Valid() && Filled() && Rows() == old(Rows()) && tags == old(tags)
      ensures forall i :: 0 <= i < Rows() ==>
        titles[i] == Value(FillCell(old(titles[i]))) && genres[i] == Value(FillCell(old(genres[i])))
        && actors[i] == Value(FillCell(old(actors[i]))) && directors[i] == Value(FillCell(old(directors[i])))
        && writers[i] == Value(FillCell(old(writers[i])))
    {
      var titles0 := titles;
      titles := seq(|titles0|, i requires 0 <= i < |titles0| => Value(FillCell(titles0[i])));
      var genres0 := genres;
      genres := seq(|genres0|, i requires 0 <= i < |genres0| => Value(FillCell(genres0[i])));
      var actors0 := actors;
      actors := seq(|actors0|, i requires 0 <= i < |actors0| => Value(FillCell(actors0[i])));
      var directors0 := directors;
      directors := seq(|directors0|, i requires 0 <= i < |directors0| => Value(FillCell(directors0[i])));
      var writers0 := writers;
      writers := seq(|writers0|, i requires 0 <= i < |writers0| => Value(FillCell(writers0[i])));
    }

    /** Line 17: a genre cell that is exactly "-" or "nan" becomes ""; no
        other column changes. */
    method ClearGenrePlaceholders()
      requires Valid() && Filled()
      modifies this`genres
      ensures Valid() && Filled()
      ensures forall i :: 0 <= i < Rows() ==> genres[i] == Value(CleanGenre(old(genres[i]).text))
    {
      var genres0 := genres;
      genres := seq(|genres0|, i requires 0 <= i < |genres0| => Value(CleanGenre(genres0[i].text)));
    }

    /** Line 20: the tag column is genre, actors, directors and writers joined
        by single spaces. */
    method JoinTags()
      requires Valid() && Filled()
      modifies this`tags
      ensures Valid() && Filled()
      ensures forall i :: 0 <= i < Rows() ==>
        tags[i] == Join(genres[i].text, actors[i].text, directors[i].text, writers[i].text)
    {
      var g, a, d, w := genres, actors, directors, writers;
      tags := seq(|titles|, i requires 0 <= i < |g| && |g| == |a| == |d| == |w| =>
        Join(g[i].text, a[i].text, d[i].text, w[i].text));
    }

    /** Line 21: the tag column is lowercased. */
    method LowerTags()
      requires Valid()
      modifies this`tags
      ensures Valid()
      ensures forall i :: 0 <= i < Rows() ==> tags[i] == Lower(old(tags[i]))
    {
      var tags0 := tags;
      tags := seq(|tags0|, i requires 0 <= i < |tags0| => Lower(tags0[i]));
    }

    /** The filled title column, as the recommender and the title list read it. */
    function Titles(): (r: seq<string>)
      reads this
      ensures |r| == |titles|
      ensures forall i :: 0 <= i < |titles| ==> r[i] == FillCell(titles[i])
    {
      var t := titles;
      seq(|t|, i requires 0 <= i < |t| => FillCell(t[i]))
    }
  }

  /** `load_data` after the CSV has been read: the four column steps in the
      source's order. Every row's tag is `Tag` of that row and every title is
      the filled title cell. */
  method LoadData(rows: seq<RawMovie>) returns (frame: MovieFrame)
    ensures fresh(frame) && frame.Valid() && frame.Rows() == |rows|
    ensures forall i :: 0 <= i < |rows| ==> frame.tags[i] == Tag(rows[i])
    ensures frame.Titles() == seq(|rows|, i requires 0 <= i < |rows| => FillCell(rows[i].title))
  {
    frame := new MovieFrame.FromRows(rows);
    frame.FillMissing();
    frame.ClearGenrePlaceholders();
    frame.JoinTags();
    frame.LowerTags();
  }
}
