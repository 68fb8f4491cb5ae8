/** The search page: the title filter over the catalog and what the page shows. */
module Search {
  import opened Wrappers
  import opened Sequences
  import opened Catalog
  import opened JsText

  /** `const { q: searchTerm = "" } = router.query`. */
  function SearchTerm(q: Option<string>): string {
    q.GetOr("")
  }

  function TitleMatches(term: string): Movie -> bool {
    (m: Movie) => Includes(Lower(m.title), Lower(term))
  }

  /**
   * `filteredMovies`: exactly the catalog movies whose lower-cased title
   * includes the lower-cased term.
   */
  function FilteredMovies(movies: seq<Movie>, term: string): (r: seq<Movie>)
    ensures forall i :: 0 <= i < |r| ==> r[i] in movies && Includes(Lower(r[i].title), Lower(term))
    ensures forall i :: 0 <= i < |movies| && Includes(Lower(movies[i].title), Lower(term)) ==> movies[i] in r
  {
    Filter(movies, TitleMatches(term))
  }

  /** The results keep catalog order. */
  lemma FilteredIsSubseq(movies: seq<Movie>, term: string)
    ensures IsSubseq(FilteredMovies(movies, term), movies)
  {
    FilterIsSubseq(movies, TitleMatches(term));
  }

  /** With no `q`, the term is empty and the whole catalog comes back in order. */
  lemma MissingTermShowsAll(movies: seq<Movie>)
    ensures FilteredMovies(movies, SearchTerm(None)) == movies
  {
    forall i | 0 <= i < |movies| ensures TitleMatches("")(movies[i]) {
      IncludesEmpty(Lower(movies[i].title));
    }
    FilterKeepsAll(movies, TitleMatches(""));
  }

  /** Filtering the results again with the same term changes nothing. */
  lemma FilterAgainUnchanged(movies: seq<Movie>, term: string)
    ensures FilteredMovies(FilteredMovies(movies, term), term) == FilteredMovies(movies, term)
  {
    FilterIdempotent(movies, TitleMatches(term));
  }

  /** Terms that differ only in letter case give the same results. */
  lemma CaseInsensitive(movies: seq<Movie>, t1: string, t2: string)
    requires Lower(t1) == Lower(t2)
    ensures FilteredMovies(movies, t1) == FilteredMovies(movies, t2)
  {
    FilterAgree(movies, TitleMatches(t1), TitleMatches(t2));
  }

  /** In particular, searching for the lower-cased term is the same search. */
  lemma LowerCasedTermSame(movies: seq<Movie>, term: string)
    ensures FilteredMovies(movies, Lower(term)) == FilteredMovies(movies, term)
  {
    LowerIdempotent(term);
    CaseInsensitive(movies, Lower(term), term);
  }

  /** What the page body shows. */
  datatype View =
    | LoadingView
    | ErrorView
    | NoResults(term: string)
    | Results(title: string, movies: seq<Movie>)

  /**
   * The display precedence: loading, then an error, then "No Results Found"
   * for an empty result, then the result row (with `data = []` when undefined).
   */
  function Display(isLoading: bool, error: Option<string>, data: Option<seq<Movie>>, q: Option<string>): (v: View)
    ensures isLoading ==> v == LoadingView
    ensures !isLoading && error.Some? ==> v == ErrorView
    ensures !isLoading && error.None? ==>
      var found := FilteredMovies(data.GetOr([]), SearchTerm(q));
      (found == [] ==> v == NoResults(SearchTerm(q))) &&
      (found != [] ==> v.Results? && v.movies == found)
  {
    var term := SearchTerm(q);
    var filtered := FilteredMovies(data.GetOr([]), term);
    if isLoading then LoadingView
    else if error.Some? then ErrorView
    else if |filtered| == 0 then NoResults(term)
    else Results("Search Results for \"" + term + "\"", filtered)
  }

  /** Both 'Alpha' and 'beta' contain an 'a', so the term 'A' finds both. */
  lemma AlphaBetaExample(alpha: Movie, beta: Movie)
    requires alpha.title == "Alpha" && beta.title == "beta"
    ensures FilteredMovies([alpha, beta], "A") == [alpha, beta]
  {
    assert Lower("A") == "a";
    assert Lower("Alpha") == "alpha" && Lower("beta") == "beta";
    assert Lower("Alpha")[..1] == "a";
    assert Includes(Lower("beta")[3..], "a");
    assert Includes(Lower("beta"), "a") by {
      var b := Lower("beta");
      assert b[1..][1..][1..] == b[3..];
      assert Includes(b[1..][1..], "a");
    }
    FilterKeepsAll([alpha, beta], TitleMatches("A"));
  }
}
