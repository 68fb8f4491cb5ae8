/** The home page's rows of movies. */
module Home {
  import opened Wrappers
  import opened Sequences
  import opened Catalog

  /** A row: the `Category` interface the pages hand to `MovieList`. */
  datatype Category = Category(title: string, data: seq<Movie>, isLoading: bool, error: Option<string>)

  /** `m.genre.includes('Comedy') || m.genre.includes('Drama')`. */
  predicate Classic(m: Movie) {
    GenreIncludes(m.genre, "Comedy") || GenreIncludes(m.genre, "Drama")
  }

  function IsClassic(): Movie -> bool {
    (m: Movie) => Classic(m)
  }

  /**
   * `categories`: 'Trending Now' with the whole list, then 'Classics' with the
   * comedies and dramas; both carry the list's loading and error values.
   */
  function Categories(data: Option<seq<Movie>>, isLoading: bool, error: Option<string>): (r: seq<Category>)
    ensures |r| == 2 && r[0].title == "Trending Now" && r[1].title == "Classics"
    ensures r[0].data == data.GetOr([])
    ensures forall i :: 0 <= i < |r[1].data| ==> r[1].data[i] in r[0].data && Classic(r[1].data[i])
    ensures forall i :: 0 <= i < |r[0].data| && Classic(r[0].data[i]) ==> r[0].data[i] in r[1].data
    ensures forall i :: 0 <= i < |r| ==> r[i].isLoading == isLoading && r[i].error == error
  {
    var movies := data.GetOr([]);
    [ Category("Trending Now", movies, isLoading, error),
      Category("Classics", Filter(movies, IsClassic()), isLoading, error) ]
  }

  /** 'Classics' is an order-preserving subsequence of 'Trending Now'. */
  lemma ClassicsWithinTrending(data: Option<seq<Movie>>, isLoading: bool, error: Option<string>)
    ensures var r := Categories(data, isLoading, error);
      IsSubseq(r[1].data, r[0].data)
  {
    FilterIsSubseq(data.GetOr([]), IsClassic());
  }
}
