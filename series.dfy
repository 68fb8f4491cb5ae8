/** The series page: one row of dramas. */
module Series {
  import opened Wrappers
  import opened Sequences
  import opened Catalog
  import Home

  function IsDrama(): Movie -> bool {
    (m: Movie) => GenreIncludes(m.genre, "Drama")
  }

  /** The 'Series' row: exactly the dramas, with loading and error passed through. */
  function SeriesRow(data: Option<seq<Movie>>, isLoading: bool, error: Option<string>): (c: Home.Category)
    ensures c.title == "Series" && c.isLoading == isLoading && c.error == error
    ensures |c.data| <= |data.GetOr([])|
    ensures forall i :: 0 <= i < |c.data| ==> c.data[i] in data.GetOr([]) && GenreIncludes(c.data[i].genre, "Drama")
    ensures forall i :: 0 <= i < |data.GetOr([])| && GenreIncludes(data.GetOr([])[i].genre, "Drama") ==>
      data.GetOr([])[i] in c.data
  {
    Home.Category("Series", Filter(data.GetOr([]), IsDrama()), isLoading, error)
  }

  /** The row keeps catalog order. */
  lemma SeriesIsSubseq(data: Option<seq<Movie>>, isLoading: bool, error: Option<string>)
    ensures IsSubseq(SeriesRow(data, isLoading, error).data, data.GetOr([]))
  {
    FilterIsSubseq(data.GetOr([]), IsDrama());
  }

  /**
   * Every series also sits in the home page's 'Classics' row, in the same
   * relative order.
   */
  lemma SeriesWithinClassics(data: Option<seq<Movie>>, isLoading: bool, error: Option<string>)
    ensures IsSubseq(SeriesRow(data, isLoading, error).data, Home.Categories(data, isLoading, error)[1].data)
  {
    FilterStronger(data.GetOr([]), IsDrama(), Home.IsClassic());
  }

  /** Every series is also in the home page's 'Trending Now' row, in the same relative order. */
  lemma SeriesWithinTrending(data: Option<seq<Movie>>, isLoading: bool, error: Option<string>)
    ensures IsSubseq(SeriesRow(data, isLoading, error).data, Home.Categories(data, isLoading, error)[0].data)
  {
    SeriesWithinClassics(data, isLoading, error);
    Home.ClassicsWithinTrending(data, isLoading, error);
    SubseqTrans(SeriesRow(data, isLoading, error).data, Home.Categories(data, isLoading, error)[1].data,
                Home.Categories(data, isLoading, error)[0].data);
  }
}
