# Netflix-clone core: API handlers and page rules in Dafny

This project models the logic of a Next.js media-browsing app in Dafny and proves properties of it. It covers two groups.

- **API routes** (module `Server`). These run over an in-memory store: a movie catalog (`seq<Movie>`) and a user table (`map<string, User>`) keyed by email.
  - `/api/favorite` adds a movie id to the signed-in user's `favoriteIds` (POST) or removes it (DELETE).
  - `/api/favorites` lists the favorited catalog movies.
  - `/api/register` creates an account.
  - `/api/random` picks the featured movie.
  - The handlers that write (favorite, register) are methods of the `Store` class. Each method is proved equal to a pure outcome function (`FavoriteOutcome`, `RegisterOutcome`) that returns the response and the new table. The read-only handlers are plain functions.
- **Page rules.**
  - The auth form's validator, variant toggle and submit gate (`Auth`, with the `AuthForm` class).
  - The search page's case-insensitive title filter and display precedence (`Search`).
  - The home page's 'Trending Now' / 'Classics' rows (`Home`) and the 'Series' row (`Series`).
  - The navigation bar's four state fields, menu items and search submission (`Navbar`, with the `NavbarState` class).

Supporting modules:
- `Sequences`: `filter`, subsequences, duplicate-freedom.
- `JsText`: JavaScript whitespace, ASCII `toLowerCase`, `includes`, `trim`, UTF-16 `length`.
- `Uri`: `encodeURIComponent` over UTF-8, plus a strict percent-decoder used as its inverse.
- `Catalog`: the movie record; `genre` is `string | string[]`, so `includes` is a substring test or a membership test.
- `Wrappers`: `Option`.

External collaborators become parameters:
- the user `serverAuth` returns is `current`;
- bcrypt is a function `hash`;
- the random index is `idx`;
- the id the database assigns a new user is `newId`.

Observations about the code:
- Favorites are a list, not a set. POST appends even when the id is already present, so an id can occur more than once. DELETE removes every occurrence and keeps every other id as often as it occurred (`Server.DeleteRemovesAll`).
- Search matching is a case-insensitive substring test, so the term `"A"` selects "beta" as well as "Alpha" (`Search.AlphaBetaExample`).
- The 200 response of `/api/favorite` is the whole updated user row, `hashedPassword` included (`UserBody`). `/api/register`'s 201 response has only id, email and name.
- The email check on the form is an unanchored pattern, so text around an address still passes (`Auth.PatternIsUnanchored`).
- The server enforces no minimum password length (`Server.NoMinimumPasswordLength`); the form does (`Auth.ServerAcceptsWhatFormRefuses`).

## Model

| member | source | states |
|---|---|---|
| Server.FavoriteOutcome | netflix-clone-app/pages/api/favorite.ts:6-58 | Status is decided in the order 405 (not POST/DELETE), 400 (missing, empty or non-string `movieId`), 404 (no such movie), 500 (no row under the write key), 200, each with its exact condition. Every non-200 outcome leaves the table unchanged. A 200 rewrites only the row under the signed-in user's email (or '' when it has none): POST appends the id to the stored list, DELETE writes `without(currentUser.favoriteIds, id)`. |
| Server.Store.Favorite | netflix-clone-app/pages/api/favorite.ts:6-58 | The handler as a method on the store. Its response and new table equal `FavoriteOutcome` of the old state. The catalog is unchanged and the store invariant is kept. |
| Server.Without | netflix-clone-app/pages/api/favorite.ts:48 | lodash `without`: the result holds no occurrence of the id and only ids from the input; every other id keeps exactly the number of occurrences it had. |
| Server.WithoutIsSubseq | netflix-clone-app/pages/api/favorite.ts:48 | `without` keeps the remaining ids in their original relative order. |
| Server.WithoutIdempotent | netflix-clone-app/pages/api/favorite.ts:48 | Removing an id twice gives the same list as removing it once. |
| Server.WithoutAppendFresh | netflix-clone-app/pages/api/favorite.ts:26-48 | Removing an id just appended to a list that lacked it gives back that list. |
| Server.PostAppendsOne | netflix-clone-app/pages/api/favorite.ts:24-27 | A successful POST grows the stored list by exactly one, even when the id was already present. Earlier entries are unchanged, the last entry is the id, and the multiset gains exactly one copy. |
| Server.DeleteRemovesAll | netflix-clone-app/pages/api/favorite.ts:48-53 | After a successful DELETE the stored list holds no occurrence of the id, every other id of the user's list occurs as often as before, and their relative order is kept. |
| Server.DeleteIdempotent | netflix-clone-app/pages/api/favorite.ts:32-55 | Repeating a successful DELETE, as the user row the first call left, leaves the table as the first call did. |
| Server.PostThenDeleteRestores | netflix-clone-app/pages/api/favorite.ts:24-53 | POST of an id not among the favorites, then DELETE of it by the row the POST left, restores the original table. |
| Server.ListFavorites | netflix-clone-app/pages/api/favorites.ts:5-21 | Non-GET gives 405; GET gives 200 with a movie list. An empty `favoriteIds` gives `[]`. Every returned movie is a catalog movie whose id is a favorite, and every such catalog movie is returned, so ids with no movie drop out silently. As a function of the catalog and the user, it writes nothing. |
| Server.EmptyShortcutAgrees | netflix-clone-app/pages/api/favorites.ts:13-19 | The empty-list shortcut returns what the `in` query would return. |
| Server.FavoritesAreCatalogSubseq | netflix-clone-app/pages/api/favorites.ts:17-19 | With unique catalog ids, the result keeps catalog order, is no longer than the catalog, and has no movie twice even when ids repeat. |
| Server.PickRandom | netflix-clone-app/pages/api/random.ts:5-28 | Non-GET gives 405. An empty catalog gives 404 'No movies found'. An index past the end gives the second 404 'Movie not found'. Otherwise the result is 200 with `catalog[idx]`, a catalog member. 200 holds exactly when the request is GET and idx < count. As a function of the catalog, it writes nothing. |
| Server.RegisterOutcome | netflix-clone-app/pages/api/register.ts:5-41 | Non-POST gives 405. Input without a truthy email containing '@', a name or a password gives 400, before the table is consulted. A taken email gives 422. Every non-201 outcome leaves the table unchanged. A 201 adds exactly one row under that email: the given name, `hash(password)`, null `emailVerified` and `image`, no favorites. Its body carries only id, email and name. |
| Server.Store.Register | netflix-clone-app/pages/api/register.ts:5-41 | The handler as a method on the store. It equals `RegisterOutcome` of the old state and keeps the store invariant. |
| Server.RegisterTwiceConflicts | netflix-clone-app/pages/api/register.ts:17-35 | A second valid registration with an email that just succeeded gets 422. |
| Server.NoMinimumPasswordLength | netflix-clone-app/pages/api/register.ts:13 | A one-character password is accepted (201) when the rest of the input is valid and the email is free. |
| Auth.Toggled | netflix-clone-app/pages/auth.tsx:41 | The toggled variant always differs from the current one. |
| Auth.ToggleTwice | netflix-clone-app/pages/auth.tsx:41 | Toggling twice gives the original variant. |
| Auth.AuthForm.ToggleVariant | netflix-clone-app/pages/auth.tsx:40-43 | Flips login and register and clears all errors. |
| Auth.EmailShapeIff | netflix-clone-app/pages/auth.tsx:50 | The executable email test holds exactly when some substring matches `\S+@\S+\.\S+`, in both directions. |
| Auth.PatternNeedsAt | netflix-clone-app/pages/auth.tsx:50 | A string the pattern accepts is non-empty and contains '@'. |
| Auth.PatternIsUnanchored | netflix-clone-app/pages/auth.tsx:50 | The pattern also accepts an address surrounded by other text. |
| Auth.FieldErrors | netflix-clone-app/pages/auth.tsx:45-62 | Empty email gives 'Email is required'. A non-empty email the pattern rejects gives 'Invalid email format'. An email the pattern accepts gives no email error. Empty password gives 'Password is required'. A UTF-16 length of 1-5 gives 'Password must be at least 6 characters'. A length of 6 or more gives no password error. A name error ('Username is required') appears exactly in the register variant with an empty name. Only the keys email, password and name occur. |
| Auth.AuthForm.ValidateFields | netflix-clone-app/pages/auth.tsx:45-66 | Stores the error map `FieldErrors` computes from the current fields, and returns true exactly when that map is empty. |
| Auth.AuthForm.SignInClicked | netflix-clone-app/pages/auth.tsx:68-81 | `login`: when validation fails it only reports 'Please fix the errors in the form' and never calls `signIn`. Otherwise it signs in with the form's email and password. |
| Auth.AuthForm.RegisterClicked | netflix-clone-app/pages/auth.tsx:98-110 | `register`: when validation fails it never POSTs. Otherwise it POSTs email, name and password, and in the register variant that payload passes the server's 400 check. |
| Auth.AuthForm.Submit | netflix-clone-app/pages/auth.tsx:178 | The button runs `login` in the login variant and `register` in the register variant. |
| Auth.AuthForm.SetEmail | netflix-clone-app/pages/auth.tsx:163 | The email input's change handler stores the typed value. |
| Auth.AuthForm.SetName | netflix-clone-app/pages/auth.tsx:153 | The name input's change handler stores the typed value. |
| Auth.AuthForm.SetPassword | netflix-clone-app/pages/auth.tsx:172 | The password input's change handler stores the typed value. |
| Auth.AuthForm.constructor | netflix-clone-app/pages/auth.tsx:33-38 | The form starts with empty fields, no errors and the login variant. |
| Auth.LoginHasNoNameError | netflix-clone-app/pages/auth.tsx:60-62 | The login variant never reports a name error. |
| Auth.ClientCheckImpliesServerCheck | netflix-clone-app/pages/auth.tsx:45-66 | Register input the form accepts also passes register.ts:13: the email is non-empty and contains '@', and the name and password are non-empty. |
| Auth.ServerAcceptsWhatFormRefuses | netflix-clone-app/pages/auth.tsx:54-58 | The 1-character password that the form refuses as too short passes the server's input check. |
| Search.FilteredMovies | netflix-clone-app/pages/search.tsx:41-43 | The result is exactly the catalog movies whose lower-cased title includes the lower-cased term. |
| Search.FilteredIsSubseq | netflix-clone-app/pages/search.tsx:41 | The result is an order-preserving subsequence of the catalog. |
| Search.MissingTermShowsAll | netflix-clone-app/pages/search.tsx:37-43 | A missing `q` defaults to "", which returns the whole catalog in order. |
| Search.FilterAgainUnchanged | netflix-clone-app/pages/search.tsx:41-43 | Filtering the result again with the same term returns it unchanged. |
| Search.CaseInsensitive | netflix-clone-app/pages/search.tsx:42 | Terms that differ only in letter case give the same result. |
| Search.LowerCasedTermSame | netflix-clone-app/pages/search.tsx:42 | Searching for the lower-cased term is the same search. |
| Search.Display | netflix-clone-app/pages/search.tsx:63-106 | The view priority is loading, then error, then 'No Results Found' when the result is empty, then the result row holding exactly the filtered movies. A missing movie list counts as `[]`. |
| Search.AlphaBetaExample | netflix-clone-app/pages/search.tsx:41-43 | The term "A" selects both "Alpha" and "beta". |
| Home.Categories | netflix-clone-app/pages/index.tsx:23-26 | There are exactly two rows, 'Trending Now' then 'Classics'. 'Trending Now' holds the movie list unchanged. 'Classics' holds exactly the movies whose genre includes 'Comedy' or 'Drama'. Both rows carry the list's loading and error values. |
| Home.ClassicsWithinTrending | netflix-clone-app/pages/index.tsx:24-25 | 'Classics' is an order-preserving subsequence of 'Trending Now'. |
| Series.SeriesRow | netflix-clone-app/pages/series.tsx:14-26 | The row is titled 'Series' and holds exactly the movies whose genre includes 'Drama', no more of them than the list has. Loading and error pass through unchanged. |
| Series.SeriesIsSubseq | netflix-clone-app/pages/series.tsx:14 | The Series row keeps catalog order. |
| Series.SeriesWithinClassics | netflix-clone-app/pages/series.tsx:14 | Every Series movie is also in the home page's Classics row (index.tsx:25), in the same relative order. |
| Series.SeriesWithinTrending | netflix-clone-app/pages/series.tsx:14 | Every Series movie is also in the home page's 'Trending Now' row (index.tsx:24), in the same relative order. |
| Sequences.Filter | netflix-clone-app/pages/index.tsx:25 | `Array.prototype.filter`: no longer than its input; an element is in the result exactly when it is an input element that passes the test. |
| Sequences.FilterMultiset | netflix-clone-app/pages/index.tsx:25 | `filter` keeps every passing element as often as it occurs in the input and drops every failing one. |
| Navbar.MenuItems | netflix-clone-app/components/Navbar.tsx:39-45 | Home, My List, Series with their routes. Only Home can be active, and only on the path '/'. |
| Navbar.SearchTarget | netflix-clone-app/components/Navbar.tsx:31-37 | A query that is blank (all whitespace, or empty) navigates nowhere. Any other query navigates to '/search?q=' plus the encoding of the untrimmed query. |
| Navbar.SubmittedQueryReachesSearch | netflix-clone-app/components/Navbar.tsx:34 | Decoding the `q` of the navigated URL gives back exactly the typed query, which is the term the search page filters by. |
| Navbar.NavbarState.HandleSearch | netflix-clone-app/components/Navbar.tsx:31-37 | A blank query causes no navigation and stays in the box. Otherwise the method navigates to `SearchTarget` of the query and the box is reset to ''. |
| Navbar.NavbarState.ToggleAccountMenu | netflix-clone-app/components/Navbar.tsx:28 | Flips `showAccountMenu` and changes nothing else. |
| Navbar.NavbarState.ToggleMobileMenu | netflix-clone-app/components/Navbar.tsx:29 | Flips `showMobileMenu` and changes nothing else. |
| Navbar.ToggleTwiceRestores | netflix-clone-app/components/Navbar.tsx:28-29 | Toggling each menu twice restores every field. |
| Navbar.NavbarState.HandleScroll | netflix-clone-app/components/Navbar.tsx:19-22 | `showBackground` becomes true exactly when scrollY >= 66. |
| Navbar.NavbarState.SetSearchQuery | netflix-clone-app/components/Navbar.tsx:87 | The search box's change handler stores the typed value. |
| Navbar.NavbarState.constructor | netflix-clone-app/components/Navbar.tsx:14-17 | All three flags start false and the query starts ''. |
| JsText.TrimEmptyIff | netflix-clone-app/components/Navbar.tsx:33 | `trim()` gives '' exactly when every character is JavaScript whitespace. |
| JsText.IncludesIff | netflix-clone-app/pages/search.tsx:42 | The `includes` scan holds exactly when the needle occurs at some index. |
| JsText.LowerIdempotent | netflix-clone-app/pages/search.tsx:42 | Lower-casing twice is lower-casing once. |
| JsText.Utf16Length | netflix-clone-app/pages/auth.tsx:56 | `length` counts UTF-16 units: between the character count and twice it, and equal to it when no character is above U+FFFF. |
| Uri.EncodeUriComponent | netflix-clone-app/components/Navbar.tsx:34 | Every output character is unreserved or a `%` opening a two-digit upper-case hex escape. The output is never shorter than the input. It equals the input when every character is unreserved, and is strictly longer otherwise. |
| Uri.EncodeChar | netflix-clone-app/components/Navbar.tsx:34 | An unreserved character is kept as it is. Any other character becomes one or more `%HH` escapes, three to twelve characters in all. |
| Uri.EncodeDecodeRoundTrip | netflix-clone-app/components/Navbar.tsx:34 | Percent-decoding then UTF-8-decoding the encoder's output gives back the original string, for every string. |

## Left out

- The data hooks (`useMovieList`, `useFavorites`, `useMovie`, `useBillboard`, `useCurrentUser`) and `useInfoModalStore` are not part of this model. Their source is not in the repository files modelled, so there is no caching, de-duplication, optimistic-update or modal state machine here.
- `serverAuth`, `prismadb`, bcrypt, next-auth and axios are foreign code. The signed-in user is a parameter, and the path where `serverAuth` throws for a signed-out request is not modelled. The table is an in-memory map, and the hash is a function parameter.
- Server.RegisterOutcome: states that the stored hash is `hash(password)`, not that it differs from the password. That depends on bcrypt, which is a parameter here.
- The 500 catch-all paths are modelled only where the failure follows from the modelled state: updating a user row that does not exist. Other database exceptions, like a failing `user.create` or a failing lookup, are not modelled.
- `Math.random` / `Math.floor` (random.ts:18) involve floats. The index is an input, and `PickRandom` handles any index, including one past the end.
- Races between the queries of one request are not modelled: between `count()` and `findMany()`, or between the `serverAuth` read and the update. A model run is one request on a fixed state.
- `findMany({ where: { id: { in } } })` returns rows in database order. The model uses catalog order.
- JSON values of the register body that are not strings (`email.includes` on a number throws) are not modelled. The register fields are absent or strings.
- `toLowerCase` is modelled for ASCII letters only.
- The JavaScript regex engine is not modelled. The one pattern the form uses is modelled by its meaning, and `Auth.EmailShapeIff` ties that to the executable test.
- How Next.js parses `router.query` is not modelled. `Uri.DecodeQueryValue` is a strict decoder that stands for reading `q` back. A repeated `q` (an array) is not modelled.
- The form's `isLoading` flag, the toasts, the outcome of `signIn` / the POST, and the `login` that follows a successful registration are async UI on the far side of the network, so they are not modelled. So is the disabling of the toggle link while loading.
- The Navbar's 50 ms debounce and the event listener wiring are not modelled. `HandleScroll` is the debounced callback, and `scrollY` is a real number.
- The `getServerSideProps` redirects, every piece of JSX/CSS and animation, `InfoModal`'s timed close, image and video fallbacks, `profiles.tsx`, `my-list.tsx`, the other components and `next.config.js` are routing, presentation or build configuration, so they are not modelled.
