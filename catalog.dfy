/** The movie record the pages and API handlers pass around. */
module Catalog {
  import JsText

  /**
   * The declared type of `genre` is `string | string[]`, and the pages test it
   * with `includes`, which means a substring test on a string and a membership
   * test on an array.
   */
  datatype Genre = Label(text: string) | Labels(items: seq<string>)

  datatype Movie = Movie(
    id: string,
    title: string,
    description: string,
    videoUrl: string,
    thumbnailUrl: string,
    genre: Genre,
    duration: string)

  /** `genre.includes(name)`. */
  predicate GenreIncludes(g: Genre, name: string) {
    match g
    case Label(text) => JsText.Includes(text, name)
    case Labels(items) => name in items
  }

  /** The catalog's ids are unique (they are the table's primary key). */
  predicate UniqueIds(movies: seq<Movie>) {
    forall i, j :: 0 <= i < |movies| && 0 <= j < |movies| && movies[i].id == movies[j].id ==> i == j
  }

  /** `findUnique({ where: { id } })` finds a row. */
  predicate HasMovie(movies: seq<Movie>, id: string) {
    exists i :: 0 <= i < |movies| && movies[i].id == id
  }
}
