# Hybrid movie recommender — a Dafny model of its ranking core

The recommender scores every movie of a user-by-movie rating matrix for one
user with a Pearson-style "hybrid" score (`hybrid_recommendation_score`),
sorts the movie ids by score, removes the movies the user has rated, keeps
the first N of what is left, looks their titles up in the movie catalog and
draws ten titles at random without replacement (`hybrid_recommend_movies`).

The model has four modules:

- `Wrappers` (`wrappers.dfy`): `Option` and `Result`.
- `RatingData` (`rating_data.dfy`): the rating matrix (row ids, column ids and
  the stored cells; a missing cell is pandas' NaN, a stored `0.0` is a
  rating), the catalog rows, the two lookups `.loc[user_id].dropna()` and
  `[movie_id].dropna()`, and the "first catalog row" title lookup.
- `Scoring` (`scoring.dfy`): the control skeleton of
  `hybrid_recommendation_score`. The lookups fail with `MissingUser` or
  `MissingMovie`, in that order. The two indexes are intersected. The result
  is exactly `0.0` when the intersection is empty. Otherwise the score is
  whatever the floating-point part, passed in as the function `corr`, makes
  of the row, the column and the common index.
- `Ranking` (`ranking.dfy`): `hybrid_recommend_movies`, built from these
  steps:
  - the score comprehension;
  - `sorted(zip(scores, ids), reverse=True)`, as an insertion sort on
    `(score, id)` pairs;
  - the set difference of the column ids and the rated ids;
  - `list(set)[:N]`, with Python's slice rules, negative `N` included;
  - the title-building loop (a method over a growing sequence);
  - the ten-draw loop (a method over a shrinking pool and a growing result).

Two things in the source are arbitrary, and the model treats both as free
choices (`:|`). One is the iteration order of a Python set. The other is the
index that `random.choice` draws. Every postcondition therefore holds for
every enumeration order and every sequence of draws. Scores are `real`, so
they have no NaN.

Where the tests disagree with the code, the model follows the code:

- An unknown user raises `KeyError` at `recommendations.py:11`. The
  recommendation test at `recommender/tests/test_recommendations.py:123-126`
  expects `[]` instead. So does the score test on an empty matrix
  (`recommender/tests/test_recommendations.py:263-270`), which expects `0.0`,
  while `.loc` on an empty frame raises.
- A title pool smaller than ten makes `random.choice([])` raise `IndexError`.
  The tests at `recommender/tests/test_recommendations.py:52-100` expect an
  early stop or `[]`. `HybridRecommendMovies` models the code as written;
  `RecommendIntended` models what those tests expect (see Findings).
- A stored `0.0` counts as a rating (the code only drops NaN). Several tests
  treat `0.0` as "not rated". Under the code, the fixture at
  `recommender/tests/test_recommendations.py:74-100` has no unrated movie at
  all, so even the intended behaviour returns `[]` there, not `['Movie B']`.
- The score intersects the movie ids the user rated with the user ids who
  rated the movie, which are ids of different axes. The model keeps this as
  written. `Scoring.DisjointAxesScoreZero` shows what follows from it: when
  no user id equals a movie id, every score is exactly `0.0`.

Set conversion throws the score order away. As a result, nothing the ranking
promises about the candidates or the result depends on the scores: the
postconditions of `RankAndResolve` do not mention them.

## Model

| member | source | states |
|---|---|---|
| `RatingData.UserRatings` | recommendations.py:11 | fails with `MissingUser(u)` exactly when `u` is not a row; otherwise keyed by exactly the columns where `u` has a stored rating (0.0 included), with those ratings |
| `RatingData.MovieRatings` | recommendations.py:12 | fails with `MissingMovie(mid)` exactly when `mid` is not a column; otherwise keyed by exactly the users with a stored rating for `mid` |
| `RatingData.FirstTitle` | recommendations.py:48-50 | `None` exactly when no catalog row has the id; otherwise the title of a row with that id before which no row has the id |
| `Scoring.CommonIndexOfLookups` | recommendations.py:11-14 | for a known user and movie, the common index is exactly the set of ids that are both a column the user rated and a row (user) that rated the movie |
| `Scoring.HybridScore` | recommendations.py:10-28 | fails exactly when the user or the movie is unknown, the user's failure taking precedence; never a default score for an unknown id; exactly `0.0` when no id is both a movie the user rated and a user who rated the movie; otherwise the abstract arithmetic on row, column and common index |
| `Scoring.DisjointAxesScoreZero` | recommendations.py:14-17 | when no user id is also a movie id, every known pair scores exactly `0.0`, because the intersection compares ids of different axes |
| `Ranking.ScoreAll` | recommendations.py:34-35 | succeeds exactly when there is nothing to score or the user and every id are known; then one score per id, each the score of that id |
| `Ranking.Insert` | recommendations.py:37 | inserting into a descending list keeps it descending and adds exactly the one pair |
| `Ranking.SortDescending` | recommendations.py:37 | `sorted(..., reverse=True)` yields a permutation of the pairs in non-increasing `(score, id)` order |
| `Ranking.DescendingUnique` | recommendations.py:37 | any two descending permutations of the same pairs are equal, so ties on score are broken by larger id first and the sorted order is fully determined |
| `Ranking.SecondsPermutation` | recommendations.py:37 | permuting the pairs permutes their ids in the same way |
| `Ranking.SortedMovieIds` | recommendations.py:34-37 | `sorted_movie_ids` is a permutation of the column ids, and it is the id list of a non-increasing `(score, id)` arrangement of the zipped pairs |
| `Ranking.SameElements` | recommendations.py:41 | a permutation of the column ids, turned into a set, gives the set of column ids |
| `Ranking.ListOfSet` | recommendations.py:44 | `list(set)` lists every element of the set exactly once, in an arbitrary order |
| `Ranking.Prefix` | recommendations.py:44 | `s[:n]` is a prefix of `s`; at most `n` long for `n >= 0`, all of `s` when `n >= len(s)`, and `len(s) + n` long (at least 0) for negative `n` |
| `Ranking.SliceOfListing` | recommendations.py:41-44 | the first `n` of a set's enumeration have no repeats and are all in the set; there are exactly `min(n, len)` of them for `n >= 0` and `max(0, len + n)` for negative `n`, so the whole set when it has at most `n` elements, and none when the set is empty |
| `Ranking.Titles` | recommendations.py:46-50 | the title list is no longer than the id list, and empty for an empty catalog |
| `Ranking.TitlesFromIds` | recommendations.py:47-50 | every title in the list is the first catalog title of one of the sliced ids |
| `Ranking.TitlesAllResolved` | recommendations.py:47-50 | when every sliced id has a catalog row, there is exactly one title per id, in order, each the title of that id's first row |
| `Ranking.ResolveTitles` | recommendations.py:46-50 | the `append` loop builds exactly the title list of the sliced ids |
| `Ranking.IndexOf` | recommendations.py:56 | the position of the first occurrence of a title that is in the list |
| `Ranking.RemoveFirst` | recommendations.py:56 | `list.remove` drops exactly one occurrence, the first, so the pool loses one element and one copy of the title |
| `Ranking.DrawTen` | recommendations.py:52-58 | the draw loop succeeds exactly when the pool starts with at least ten titles; then it returns ten titles, a sub-multiset of the pool; each round shrinks the pool by one (loop invariant) |
| `Ranking.DrawUpToTen` | recommendations.py:52-58 | the early-stopping draw returns `min(10, len(pool))` titles, a sub-multiset of the pool, and the whole pool in some order when the pool has at most ten |
| `Ranking.DrawnDistinct` | recommendations.py:53-56 | titles drawn without replacement from a pool of distinct titles are distinct |
| `Ranking.TitlesNoDuplicates` | recommendations.py:46-50 | when different movies have different catalog titles, distinct sliced ids resolve to distinct titles |
| `Ranking.RankAndResolve` | recommendations.py:32-50 | fails with `MissingUser` exactly when the user is unknown; otherwise the sliced ids are unrated columns without repeats, exactly as many as `[:N]` keeps of the candidates (`min(N, len)`, or `max(0, len + N)` for negative `N`), none when the user rated every column; the titles are those of the sliced ids |
| `Ranking.HybridRecommendMovies` | recommendations.py:32-58 | unknown user gives `KeyError`; otherwise the pool is the titles of a `[:N]` slice of the unrated columns with its exact slice length; exactly ten titles when the pool has at least ten, else `IndexError`, which covers a user who rated every column and an empty catalog; every title is the first catalog title of a column the user did not rate; the titles are a sub-multiset of the pool, and distinct when the catalog's titles are |
| `Ranking.RecommendIntended` | recommendations.py:32-58 | unknown user, a user who rated every column, or an empty catalog gives `[]`; otherwise the pool is the titles of a `[:N]` slice of the unrated columns with its exact slice length, and the result is `min(10, pool)` titles drawn without replacement, the whole pool when it has at most ten, each the first catalog title of a column the user did not rate, distinct when the catalog's titles are |

## Left out

- The Pearson-style arithmetic of `hybrid_recommendation_score`
  (`recommendations.py:19-26`): means, deviations, square roots, the division
  and its NaN or infinite results. This is floating point. It is the
  abstract parameter `corr`.
- `Scoring.HybridScore`: does not state the value of a score with a
  non-empty intersection beyond "the abstract arithmetic's value", because
  that arithmetic is floating point.
- NaN scores and how `sorted` orders them (`recommendations.py:37`): scores
  are `real` and totally ordered.
- `make_hybrid_recommendations` (`recommendations.py:61-66`): it loads an
  opaque `joblib` artifact and uses the global matrix. This is a foreign call.
- CSV loading, the pivot into the rating matrix and the global catalog
  (`recommendations.py:69-72`): this is I/O. The matrix and the catalog are
  parameters.
- `recommender/views.py`: the Django endpoint (query parsing, any exception
  mapped to 404, 405 for other methods) is web glue.
- `TypeError` on non-numeric ratings: ratings are typed `real`.
- Real randomness and Python's set iteration order: both are arbitrary
  choices. The model proves properties for every choice, not distributions.
- Python's `list.remove` raising `ValueError` for a missing element:
  `RemoveFirst` requires the element. The draw loop always removes an element
  it has just drawn from the pool.

## Findings

| source | as written | input that shows it | evidently intended | confidence | as-written member | corrected member |
|---|---|---|---|---|---|---|
| recommendations.py:53-56 | always draws ten times; `random.choice` on the emptied pool raises `IndexError` | a pool of one title (the size the test at recommender/tests/test_recommendations.py:74-100 expects): `DrawTen` fails exactly when the pool has fewer than ten titles | stop drawing when the pool is empty and return `min(10, len(pool))` titles | not executed; high | `Ranking.DrawTen` | `Ranking.DrawUpToTen` |
| recommendations.py:11 | an unknown user's `KeyError` escapes `hybrid_recommend_movies` | user 999, as in recommender/tests/test_recommendations.py:123-126: `HybridRecommendMovies` returns `Lookup(MissingUser(999))` | an unknown user gets an empty recommendation list | not executed; medium | `Ranking.HybridRecommendMovies` | `Ranking.RecommendIntended` |
