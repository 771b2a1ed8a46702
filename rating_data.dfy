/**
 * The rating matrix and the movie catalog the recommender reads.
 *
 * The matrix is the pandas pivot of the ratings table: one row per user id,
 * one column per movie id, and a cell only where a rating is stored (a
 * missing cell is pandas' NaN). A stored 0.0 is a cell like any other.
 */
module RatingData {
  import opened Wrappers

  type UserId = int
  type MovieId = int

  datatype RatingMatrix = RatingMatrix(
    users: seq<UserId>,                     // the row index
    movies: seq<MovieId>,                   // the column index
    cells: map<(UserId, MovieId), real>)    // the non-missing entries

  /** pandas raises KeyError for an id that is not on the axis it is looked up on. */
  datatype LookupError = MissingUser(user: UserId) | MissingMovie(movie: MovieId)

  /** One row of the movie catalog table. Several rows may share a movie id. */
  datatype CatalogRow = CatalogRow(movieId: MovieId, title: string)

  /** The movies user `u` has a stored rating for, 0.0 included. */
  function RatedMovies(m: RatingMatrix, u: UserId): set<MovieId>
  {
    set mid | mid in m.movies && (u, mid) in m.cells
  }

  /** The users who have a stored rating for movie `mid`. */
  function Raters(m: RatingMatrix, mid: MovieId): set<UserId>
  {
    set u | u in m.users && (u, mid) in m.cells
  }

  /** `user_item_matrix.loc[user_id].dropna()`: the user's row keyed by movie id. */
  function UserRatings(m: RatingMatrix, u: UserId): (r: Result<map<MovieId, real>, LookupError>)
    ensures r.Failure? <==> u !in m.users
    ensures r.Failure? ==> r.error == MissingUser(u)
    ensures r.Success? ==> r.value.Keys == RatedMovies(m, u)
    ensures r.Success? ==> forall mid :: mid in r.value ==> r.value[mid] == m.cells[(u, mid)]
  {
    if u !in m.users then Failure(MissingUser(u))
    else Success(map mid | mid in m.movies && (u, mid) in m.cells :: m.cells[(u, mid)])
  }

  /** `user_item_matrix[movie_id].dropna()`: the movie's column keyed by user id. */
  function MovieRatings(m: RatingMatrix, mid: MovieId): (r: Result<map<UserId, real>, LookupError>)
    ensures r.Failure? <==> mid !in m.movies
    ensures r.Failure? ==> r.error == MissingMovie(mid)
    ensures r.Success? ==> r.value.Keys == Raters(m, mid)
    ensures r.Success? ==> forall u :: u in r.value ==> r.value[u] == m.cells[(u, mid)]
  {
    if mid !in m.movies then Failure(MissingMovie(mid))
    else Success(map u | u in m.users && (u, mid) in m.cells :: m.cells[(u, mid)])
  }

  /** The title of the first catalog row whose movie id is `mid`, if there is one. */
  function FirstTitle(catalog: seq<CatalogRow>, mid: MovieId): (r: Option<string>)
    ensures r.None? <==> forall i :: 0 <= i < |catalog| ==> catalog[i].movieId != mid
    ensures r.Some? ==>
      exists i :: 0 <= i < |catalog| && catalog[i] == CatalogRow(mid, r.value) &&
                  forall j :: 0 <= j < i ==> catalog[j].movieId != mid
  {
    if catalog == [] then None
    else if catalog[0].movieId == mid then Some(catalog[0].title)
    else FirstTitle(catalog[1..], mid)
  }
}
