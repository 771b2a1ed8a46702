/**
 * The control skeleton of `hybrid_recommendation_score`: the two lookups,
 * the index intersection and the early 0.0. The Pearson-style arithmetic that
 * follows the early return is floating point and is kept abstract: it is the
 * parameter `corr`, applied to the user's row, the movie's column and the
 * common index.
 */
module Scoring {
  import opened Wrappers
  import opened RatingData

  /** The floating-point part of the score (means, deviations, square roots, division). */
  type Correlation = (map<MovieId, real>, map<UserId, real>, set<int>) -> real

  /**
   * The intersection of the two indexes. The user's row is keyed by movie ids
   * and the movie's column by user ids, so this compares ids of different axes.
   */
  function CommonIndex(userRatings: map<MovieId, real>, movieRatings: map<UserId, real>): (c: set<int>)
    ensures forall k :: k in c <==> k in userRatings && k in movieRatings
  {
    userRatings.Keys * movieRatings.Keys
  }

  /**
   * The score of movie `mid` for user `u`. An unknown user fails first, then
   * an unknown movie; when no id is both a movie the user rated and a user
   * who rated the movie, the score is exactly 0.0 whatever `corr` is.
   */
  function HybridScore(m: RatingMatrix, u: UserId, mid: MovieId, corr: Correlation): (r: Result<real, LookupError>)
    ensures r.Failure? <==> u !in m.users || mid !in m.movies
    ensures u !in m.users ==> r == Failure(MissingUser(u))
    ensures u in m.users && mid !in m.movies ==> r == Failure(MissingMovie(mid))
    ensures r.Success? && RatedMovies(m, u) * Raters(m, mid) == {} ==> r.value == 0.0
    ensures r.Success? && RatedMovies(m, u) * Raters(m, mid) != {} ==>
      r.value == corr(UserRatings(m, u).value, MovieRatings(m, mid).value, RatedMovies(m, u) * Raters(m, mid))
  {
    match UserRatings(m, u)
    case Failure(e) => Failure(e)
    case Success(userRatings) =>
      match MovieRatings(m, mid)
      case Failure(e) => Failure(e)
      case Success(movieRatings) =>
        var common := CommonIndex(userRatings, movieRatings);
        if common == {} then Success(0.0)
        else Success(corr(userRatings, movieRatings, common))
  }

  /**
   * On the matrix's own lookups, the common index holds exactly the ids that
   * are both a column the user rated and a row that rated the movie.
   */
  lemma CommonIndexOfLookups(m: RatingMatrix, u: UserId, mid: MovieId)
    requires u in m.users && mid in m.movies
    ensures CommonIndex(UserRatings(m, u).value, MovieRatings(m, mid).value) ==
      set k | k in m.movies && k in m.users && (u, k) in m.cells && (k, mid) in m.cells
  {
  }

  /**
   * Because the intersection mixes the two axes, a matrix whose user ids and
   * movie ids are disjoint scores every known pair exactly 0.0.
   */
  lemma DisjointAxesScoreZero(m: RatingMatrix, u: UserId, mid: MovieId, corr: Correlation)
    requires forall k :: k in m.users ==> k !in m.movies
    requires u in m.users && mid in m.movies
    ensures HybridScore(m, u, mid, corr) == Success(0.0)
  {
    var common := RatedMovies(m, u) * Raters(m, mid);
    assert forall k :: k in common ==> k in m.users && k in m.movies;
    assert forall k :: k !in common;
    assert common == {};
  }
}
