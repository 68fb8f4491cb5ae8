/**
 * The API routes over an in-memory stand-in for the database: a movie catalog
 * and a user table keyed by email. Covers `POST`/`DELETE /api/favorite`,
 * `GET /api/favorites`, `POST /api/register` and `GET /api/random`.
 *
 * The signed-in user that `serverAuth` looks up is a parameter (`current`),
 * the bcrypt hash is a function parameter, and the random index of
 * `/api/random` is an input.
 */
module Server {
  import opened Wrappers
  import opened Sequences
  import opened Catalog

  datatype User = User(
    id: string,
    name: string,
    email: Option<string>,
    emailVerified: Option<string>,
    image: Option<string>,
    hashedPassword: Option<string>,
    favoriteIds: seq<string>)

  /** A request body or query value as it arrives: absent, a string, or any other JSON value. */
  datatype Field = Absent | Text(s: string) | NonString

  /** The JSON a handler sends, or none (`res.end()`). */
  datatype Body =
    | NoBody
    | ErrorBody(error: string)
    | UserBody(user: User)
    | MoviesBody(movies: seq<Movie>)
    | MovieBody(movie: Movie)
    | CreatedBody(id: string, email: string, name: string)

  datatype Response = Response(status: int, body: Body)

  /** A handler's response together with the user table it leaves behind. */
  datatype Outcome = Outcome(response: Response, users: map<string, User>)

  const MethodNotAllowed := Response(405, ErrorBody("Method not allowed"))

  /** What the catch-all answers when a database call throws. */
  const InternalError := Response(500, ErrorBody("Internal server error"))

  /** Every row of the user table sits under its own email (the unique key). */
  predicate KeyedByEmail(users: map<string, User>) {
    forall k :: k in users ==> users[k].email == Some(k)
  }

  // ---------------------------------------------------------------------------
  // favorite.ts

  datatype FavoriteRequest = FavoriteRequest(httpMethod: string, bodyMovieId: Field, queryMovieId: Field)

  predicate IsFavoriteMutation(httpMethod: string) {
    httpMethod == "POST" || httpMethod == "DELETE"
  }

  /** POST reads `movieId` from the body, DELETE from the query string. */
  function RequestedId(req: FavoriteRequest): Field {
    if req.httpMethod == "POST" then req.bodyMovieId else req.queryMovieId
  }

  /** `movieId` is truthy and `typeof movieId === 'string'`. */
  predicate IsValidMovieId(f: Field) {
    f.Text? && f.s != ""
  }

  /** `currentUser.email || ''`: the key the update is addressed to. */
  function WriteKey(current: User): string {
    current.email.GetOr("")
  }

  function Differs(x: string): string -> bool {
    (y: string) => y != x
  }

  /**
   * lodash `without(xs, x)`: `xs` with every occurrence of `x` removed, and
   * every other id kept as often as it occurs.
   */
  function Without(xs: seq<string>, x: string): (r: seq<string>)
    ensures forall i :: 0 <= i < |r| ==> r[i] != x && r[i] in xs
    ensures forall i :: 0 <= i < |xs| && xs[i] != x ==> xs[i] in r
    ensures forall y :: multiset(r)[y] == if y == x then 0 else multiset(xs)[y]
  {
    FilterMultiset(xs, Differs(x));
    Filter(xs, Differs(x))
  }

  /**
   * The whole of `/api/favorite`: the status code is decided in the order
   * 405, 400, 404, then 500 when no user row has the write key (the update
   * throws), else 200. POST pushes onto the stored row; DELETE writes
   * `without(currentUser.favoriteIds, movieId)`. Only the addressed row changes.
   */
  function FavoriteOutcome(movies: seq<Movie>, users: map<string, User>, req: FavoriteRequest, current: User): (r: Outcome)
    ensures r.response.status == 405 <==> !IsFavoriteMutation(req.httpMethod)
    ensures r.response.status == 400 <==>
      IsFavoriteMutation(req.httpMethod) && !IsValidMovieId(RequestedId(req))
    ensures r.response.status == 404 <==>
      IsFavoriteMutation(req.httpMethod) && IsValidMovieId(RequestedId(req)) &&
      !HasMovie(movies, RequestedId(req).s)
    ensures r.response.status == 500 <==>
      IsFavoriteMutation(req.httpMethod) && IsValidMovieId(RequestedId(req)) &&
      HasMovie(movies, RequestedId(req).s) && WriteKey(current) !in users
    ensures r.response.status == 200 <==>
      IsFavoriteMutation(req.httpMethod) && IsValidMovieId(RequestedId(req)) &&
      HasMovie(movies, RequestedId(req).s) && WriteKey(current) in users
    ensures r.response.status != 200 ==> r.users == users
    ensures r.response.status == 200 ==>
      var key, id := WriteKey(current), RequestedId(req).s;
      var newIds := if req.httpMethod == "POST" then users[key].favoriteIds + [id]
                    else Without(current.favoriteIds, id);
      && r.response.body == UserBody(users[key].(favoriteIds := newIds))
      && r.users == users[key := users[key].(favoriteIds := newIds)]
  {
    if !IsFavoriteMutation(req.httpMethod) then Outcome(MethodNotAllowed, users)
    else
      var movieId := RequestedId(req);
      if !IsValidMovieId(movieId) then Outcome(Response(400, ErrorBody("Invalid movie ID")), users)
      else if !HasMovie(movies, movieId.s) then Outcome(Response(404, ErrorBody("Movie not found")), users)
      else
        var key := WriteKey(current);
        if key !in users then Outcome(InternalError, users)
        else
          var ids := if req.httpMethod == "POST" then users[key].favoriteIds + [movieId.s]
                     else Without(current.favoriteIds, movieId.s);
          var user := users[key].(favoriteIds := ids);
          Outcome(Response(200, UserBody(user)), users[key := user])
  }

  /**
   * A successful POST appends exactly one copy of the id, even when it is
   * already a favorite, and keeps the earlier entries as they were.
   */
  lemma PostAppendsOne(movies: seq<Movie>, users: map<string, User>, req: FavoriteRequest, current: User)
    requires req.httpMethod == "POST"
    requires FavoriteOutcome(movies, users, req, current).response.status == 200
    ensures var key, r := WriteKey(current), FavoriteOutcome(movies, users, req, current);
      var before, after := users[key].favoriteIds, r.users[key].favoriteIds;
      && |after| == |before| + 1
      && after[..|before|] == before
      && after[|before|] == req.bodyMovieId.s
      && multiset(after) == multiset(before) + multiset{req.bodyMovieId.s}
  {
  }

  /** `without` keeps the remaining ids in their original relative order. */
  lemma WithoutIsSubseq(xs: seq<string>, x: string)
    ensures IsSubseq(Without(xs, x), xs)
  {
    FilterIsSubseq(xs, Differs(x));
  }

  /** `without` applied twice with the same id is `without` applied once. */
  lemma WithoutIdempotent(xs: seq<string>, x: string)
    ensures Without(Without(xs, x), x) == Without(xs, x)
  {
    FilterIdempotent(xs, Differs(x));
  }

  /** Removing an id that was just appended to a list without it restores the list. */
  lemma WithoutAppendFresh(xs: seq<string>, x: string)
    requires x !in xs
    ensures Without(xs + [x], x) == xs
  {
    FilterConcat(xs, [x], Differs(x));
    FilterKeepsAll(xs, Differs(x));
    assert Filter([x], Differs(x)) == [];
  }

  /**
   * A successful DELETE leaves no occurrence of the id, and the list it writes
   * is the signed-in user's list with every other id kept, as often as it
   * occurred and in the same order.
   */
  lemma DeleteRemovesAll(movies: seq<Movie>, users: map<string, User>, req: FavoriteRequest, current: User)
    requires req.httpMethod == "DELETE"
    requires FavoriteOutcome(movies, users, req, current).response.status == 200
    ensures var after := FavoriteOutcome(movies, users, req, current).users[WriteKey(current)].favoriteIds;
      && req.queryMovieId.s !in after
      && (forall y :: multiset(after)[y] ==
            if y == req.queryMovieId.s then 0 else multiset(current.favoriteIds)[y])
      && IsSubseq(after, current.favoriteIds)
  {
    WithoutIsSubseq(current.favoriteIds, req.queryMovieId.s);
  }

  /**
   * DELETE is idempotent: repeating it, as the user the first call left behind,
   * leaves the table as the first call did.
   */
  lemma DeleteIdempotent(movies: seq<Movie>, users: map<string, User>, req: FavoriteRequest, current: User)
    requires KeyedByEmail(users)
    requires req.httpMethod == "DELETE"
    requires FavoriteOutcome(movies, users, req, current).response.status == 200
    ensures var first := FavoriteOutcome(movies, users, req, current);
      var again := first.users[WriteKey(current)];
      FavoriteOutcome(movies, first.users, req, again).users == first.users
  {
    var first := FavoriteOutcome(movies, users, req, current);
    var key := WriteKey(current);
    var again := first.users[key];
    assert WriteKey(again) == key;
    WithoutIdempotent(current.favoriteIds, req.queryMovieId.s);
    assert again.(favoriteIds := Without(again.favoriteIds, req.queryMovieId.s)) == again;
  }

  /**
   * POST of an id not yet among the favorites, then DELETE of it by the user
   * the POST left behind, restores the original table.
   */
  lemma PostThenDeleteRestores(
    movies: seq<Movie>, users: map<string, User>, id: string, current: User, bodyOfDelete: Field, queryOfPost: Field)
    requires KeyedByEmail(users)
    requires FavoriteOutcome(movies, users, FavoriteRequest("POST", Text(id), queryOfPost), current).response.status == 200
    requires id !in users[WriteKey(current)].favoriteIds
    ensures var post := FavoriteOutcome(movies, users, FavoriteRequest("POST", Text(id), queryOfPost), current);
      var after := post.users[WriteKey(current)];
      FavoriteOutcome(movies, post.users, FavoriteRequest("DELETE", bodyOfDelete, Text(id)), after).users == users
  {
    var key := WriteKey(current);
    var post := FavoriteOutcome(movies, users, FavoriteRequest("POST", Text(id), queryOfPost), current);
    var after := post.users[key];
    assert WriteKey(after) == key;
    WithoutAppendFresh(users[key].favoriteIds, id);
    assert users[key := users[key]] == users;
  }

  // ---------------------------------------------------------------------------
  // favorites.ts

  function IdIn(ids: seq<string>): Movie -> bool {
    (m: Movie) => m.id in ids
  }

  /**
   * `GET /api/favorites`: the catalog movies whose id is among the user's
   * favorites, in catalog order; an empty list short-cuts to `[]`.
   */
  function ListFavorites(httpMethod: string, current: User, movies: seq<Movie>): (r: Response)
    ensures r.status == 405 <==> httpMethod != "GET"
    ensures httpMethod == "GET" ==> r.status == 200 && r.body.MoviesBody?
    ensures httpMethod == "GET" && current.favoriteIds == [] ==> r.body.movies == []
    ensures httpMethod == "GET" ==> forall i :: 0 <= i < |r.body.movies| ==>
      r.body.movies[i] in movies && r.body.movies[i].id in current.favoriteIds
    ensures httpMethod == "GET" ==> forall i :: 0 <= i < |movies| && movies[i].id in current.favoriteIds ==>
      movies[i] in r.body.movies
  {
    if httpMethod != "GET" then MethodNotAllowed
    else if |current.favoriteIds| == 0 then Response(200, MoviesBody([]))
    else Response(200, MoviesBody(Filter(movies, IdIn(current.favoriteIds))))
  }

  /** The empty-list shortcut answers what the query would have answered. */
  lemma EmptyShortcutAgrees(movies: seq<Movie>)
    ensures Filter(movies, IdIn([])) == []
  {
  }

  /**
   * Favorites come back in catalog order, with no movie twice however often
   * its id is repeated, and never more of them than the catalog holds.
   */
  lemma FavoritesAreCatalogSubseq(current: User, movies: seq<Movie>)
    requires UniqueIds(movies)
    ensures var r := ListFavorites("GET", current, movies).body.movies;
      IsSubseq(r, movies) && NoDup(r) && |r| <= |movies|
  {
    var r := ListFavorites("GET", current, movies).body.movies;
    if current.favoriteIds == [] {
    } else {
      FilterIsSubseq(movies, IdIn(current.favoriteIds));
      assert NoDup(movies);
      FilterNoDup(movies, IdIn(current.favoriteIds));
    }
  }

  // ---------------------------------------------------------------------------
  // random.ts

  /**
   * `GET /api/random` given the index `Math.floor(Math.random() * count)`
   * produced: `findMany({ take: 1, skip: idx })` is the slice at `idx`.
   */
  function PickRandom(httpMethod: string, movies: seq<Movie>, idx: nat): (r: Response)
    ensures r.status == 405 <==> httpMethod != "GET"
    ensures httpMethod == "GET" && movies == [] ==> r == Response(404, ErrorBody("No movies found"))
    ensures httpMethod == "GET" && movies != [] && idx >= |movies| ==>
      r == Response(404, ErrorBody("Movie not found"))
    ensures r.status == 200 <==> httpMethod == "GET" && idx < |movies|
    ensures r.status == 200 ==> r.body == MovieBody(movies[idx]) && r.body.movie in movies
  {
    if httpMethod != "GET" then MethodNotAllowed
    else if |movies| == 0 then Response(404, ErrorBody("No movies found"))
    else
      var skip := if idx < |movies| then idx else |movies|;
      var page := movies[skip..if skip + 1 <= |movies| then skip + 1 else |movies|];
      if |page| == 0 then Response(404, ErrorBody("Movie not found"))
      else Response(200, MovieBody(page[0]))
  }

  // ---------------------------------------------------------------------------
  // register.ts

  datatype RegisterRequest = RegisterRequest(
    httpMethod: string, email: Option<string>, name: Option<string>, password: Option<string>)

  /** A present, non-empty string: JavaScript truthiness of a string field. */
  predicate Truthy(f: Option<string>) {
    f.Some? && f.value != ""
  }

  /** The input check of `/api/register`. */
  predicate AcceptsInput(req: RegisterRequest) {
    Truthy(req.email) && '@' in req.email.value && Truthy(req.name) && Truthy(req.password)
  }

  /** The row `prismadb.user.create` inserts; `id` is the one the database assigns. */
  function NewUser(id: string, email: string, name: string, hashed: string): User {
    User(id, name, Some(email), None, None, Some(hashed), [])
  }

  /**
   * The whole of `/api/register`: 405, 400 before the table is looked at,
   * 422 for a taken email, else one new row under that email and 201 with
   * only id, email and name.
   */
  function RegisterOutcome(users: map<string, User>, req: RegisterRequest, newId: string, hash: string -> string): (r: Outcome)
    ensures r.response.status == 405 <==> req.httpMethod != "POST"
    ensures r.response.status == 400 <==> req.httpMethod == "POST" && !AcceptsInput(req)
    ensures r.response.status == 422 <==>
      req.httpMethod == "POST" && AcceptsInput(req) && req.email.value in users
    ensures r.response.status == 201 <==>
      req.httpMethod == "POST" && AcceptsInput(req) && req.email.value !in users
    ensures r.response.status != 201 ==> r.users == users
    ensures r.response.status == 201 ==>
      var email, name := req.email.value, req.name.value;
      && r.users == users[email := NewUser(newId, email, name, hash(req.password.value))]
      && r.users.Keys == users.Keys + {email}
      && |r.users| == |users| + 1
      && r.response.body == CreatedBody(newId, email, name)
  {
    if req.httpMethod != "POST" then Outcome(Response(405, NoBody), users)
    else if !AcceptsInput(req) then Outcome(Response(400, ErrorBody("Invalid input")), users)
    else
      var email := req.email.value;
      if email in users then Outcome(Response(422, ErrorBody("Email already exists")), users)
      else
        var user := NewUser(newId, email, req.name.value, hash(req.password.value));
        Outcome(Response(201, CreatedBody(user.id, email, user.name)), users[email := user])
  }

  /** A second registration with an email that just succeeded is refused with 422. */
  lemma RegisterTwiceConflicts(
    users: map<string, User>, req: RegisterRequest, again: RegisterRequest,
    id1: string, id2: string, hash: string -> string)
    requires RegisterOutcome(users, req, id1, hash).response.status == 201
    requires again.httpMethod == "POST" && AcceptsInput(again) && again.email == req.email
    ensures RegisterOutcome(RegisterOutcome(users, req, id1, hash).users, again, id2, hash).response.status == 422
  {
  }

  /**
   * The server sets no minimum password length: a one-character password is
   * accepted when the rest of the input is.
   */
  lemma NoMinimumPasswordLength(
    users: map<string, User>, email: string, name: string, c: char, newId: string, hash: string -> string)
    requires '@' in email && name != "" && email !in users
    ensures RegisterOutcome(users, RegisterRequest("POST", Some(email), Some(name), Some([c])), newId, hash)
      .response.status == 201
  {
  }

  // ---------------------------------------------------------------------------
  // The store the handlers that write run against.

  class Store {
    var movies: seq<Movie>
    var users: map<string, User>

    /** Movie ids are unique and every row sits under its own email. */
    ghost predicate Valid()
      reads this
    {
      UniqueIds(movies) && KeyedByEmail(users)
    }

    constructor (movies: seq<Movie>, users: map<string, User>)
      requires UniqueIds(movies) && KeyedByEmail(users)
      ensures Valid() && this.movies == movies && this.users == users
    {
      this.movies := movies;
      this.users := users;
    }

    /** The `/api/favorite` handler. */
    method Favorite(req: FavoriteRequest, current: User) returns (res: Response)
      requires Valid()
      modifies this
      ensures Valid() && movies == old(movies)
      ensures var o := FavoriteOutcome(old(movies), old(users), req, current);
        res == o.response && users == o.users
    {
      if req.httpMethod == "POST" {
        var movieId := req.bodyMovieId;
        if !IsValidMovieId(movieId) {
          return Response(400, ErrorBody("Invalid movie ID"));
        }
        if !HasMovie(movies, movieId.s) {
          return Response(404, ErrorBody("Movie not found"));
        }
        var key := WriteKey(current);
        if key !in users {
          return InternalError;
        }
        var user := users[key];
        user := user.(favoriteIds := user.favoriteIds + [movieId.s]);
        users := users[key := user];
        return Response(200, UserBody(user));
      }
      if req.httpMethod == "DELETE" {
        var movieId := req.queryMovieId;
        if !IsValidMovieId(movieId) {
          return Response(400, ErrorBody("Invalid movie ID"));
        }
        if !HasMovie(movies, movieId.s) {
          return Response(404, ErrorBody("Movie not found"));
        }
        var updatedFavoriteIds := Without(current.favoriteIds, movieId.s);
        var key := WriteKey(current);
        if key !in users {
          return InternalError;
        }
        var user := users[key].(favoriteIds := updatedFavoriteIds);
        users := users[key := user];
        return Response(200, UserBody(user));
      }
      return MethodNotAllowed;
    }

    /** The `/api/register` handler. */
    method Register(req: RegisterRequest, newId: string, hash: string -> string) returns (res: Response)
      requires Valid()
      modifies this
      ensures Valid() && movies == old(movies)
      ensures var o := RegisterOutcome(old(users), req, newId, hash);
        res == o.response && users == o.users
    {
      if req.httpMethod != "POST" {
        return Response(405, NoBody);
      }
      if !AcceptsInput(req) {
        return Response(400, ErrorBody("Invalid input"));
      }
      var email := req.email.value;
      if email in users {
        return Response(422, ErrorBody("Email already exists"));
      }
      var hashedPassword := hash(req.password.value);
      var user := NewUser(newId, email, req.name.value, hashedPassword);
      users := users[email := user];
      return Response(201, CreatedBody(user.id, user.email.value, user.name));
    }
  }
}
