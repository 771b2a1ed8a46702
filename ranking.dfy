/**
 * `hybrid_recommend_movies`: score every column, sort the ids by
 * `(score, id)` in descending order, drop the movies the user rated (through
 * a set, which forgets the order), keep the first N of the set's
 * enumeration, resolve them to catalog titles and draw ten titles at random
 * without replacement.
 *
 * The enumeration order of a Python set and the random source are both
 * arbitrary choices (`:|`), so every postcondition below holds for every
 * enumeration order and for every sequence of random draws.
 */
module Ranking {
  import opened Wrappers
  import opened RatingData
  import opened Scoring

  /** How many titles the selection loop draws (`range(10)`). */
  const Draws := 10

  predicate NoDuplicates<T(==)>(s: seq<T>)
  {
    forall i, j :: 0 <= i < j < |s| ==> s[i] != s[j]
  }

  // ---------------------------------------------------------------------------
  // Scoring every column

  /**
   * `[hybrid_recommendation_score(user_id, movie_id, m) for movie_id in ids]`:
   * the first failing lookup ends the comprehension.
   */
  function ScoreAll(m: RatingMatrix, u: UserId, ids: seq<MovieId>, corr: Correlation): (r: Result<seq<real>, LookupError>)
    ensures r.Success? <==> ids == [] || (u in m.users && forall mid :: mid in ids ==> mid in m.movies)
    ensures r.Failure? && u !in m.users ==> r.error == MissingUser(u)
    ensures r.Success? ==> |r.value| == |ids|
    ensures r.Success? ==> forall i :: 0 <= i < |ids| ==> HybridScore(m, u, ids[i], corr) == Success(r.value[i])
  {
    if ids == [] then Success([])
    else
      match HybridScore(m, u, ids[0], corr)
      case Failure(e) => Failure(e)
      case Success(s) =>
        match ScoreAll(m, u, ids[1..], corr)
        case Failure(e) => Failure(e)
        case Success(rest) => Success([s] + rest)
  }

  // ---------------------------------------------------------------------------
  // Sorting `zip(scores, ids)` in descending order

  /** Python's tuple order: by score, then by id. */
  predicate AtLeast(a: (real, MovieId), b: (real, MovieId))
  {
    a.0 > b.0 || (a.0 == b.0 && a.1 >= b.1)
  }

  predicate Descending(s: seq<(real, MovieId)>)
  {
    forall i, j :: 0 <= i < j < |s| ==> AtLeast(s[i], s[j])
  }

  function Zip(scores: seq<real>, ids: seq<MovieId>): (r: seq<(real, MovieId)>)
    requires |scores| == |ids|
    ensures |r| == |ids|
    ensures forall i :: 0 <= i < |ids| ==> r[i] == (scores[i], ids[i])
  {
    if ids == [] then [] else [(scores[0], ids[0])] + Zip(scores[1..], ids[1..])
  }

  /** `[x for _, x in pairs]` */
  function Seconds(s: seq<(real, MovieId)>): (r: seq<MovieId>)
    ensures |r| == |s|
  {
    if s == [] then [] else [s[0].1] + Seconds(s[1..])
  }

  /** Inserts `x` into a descending list before the first element it is at least. */
  function Insert(x: (real, MovieId), s: seq<(real, MovieId)>): (r: seq<(real, MovieId)>)
    requires Descending(s)
    ensures Descending(r)
    ensures multiset(r) == multiset(s) + multiset{x}
  {
    if s == [] then [x]
    else if AtLeast(x, s[0]) then [x] + s
    else
      var rest := Insert(x, s[1..]);
      assert s == [s[0]] + s[1..];
      assert forall y :: y in rest ==> AtLeast(s[0], y) by {
        forall y | y in rest ensures AtLeast(s[0], y) {
          assert y in multiset(rest);
          if y != x {
            assert y in s[1..];
          }
        }
      }
      [s[0]] + rest
  }

  /** `sorted(pairs, reverse=True)` */
  function SortDescending(ps: seq<(real, MovieId)>): (r: seq<(real, MovieId)>)
    ensures Descending(r)
    ensures multiset(r) == multiset(ps)
  {
    if ps == [] then []
    else
      assert ps == [ps[0]] + ps[1..];
      Insert(ps[0], SortDescending(ps[1..]))
  }

  /**
   * Two descending arrangements of the same pairs are equal: ties on the
   * score are broken by the id, so the sorted list is fully determined.
   */
  lemma {:induction false} DescendingUnique(a: seq<(real, MovieId)>, b: seq<(real, MovieId)>)
    requires Descending(a) && Descending(b)
    requires multiset(a) == multiset(b)
    ensures a == b
  {
    if a != [] {
      assert a[0] in multiset(b);
      assert b[0] in multiset(a);
      var i :| 0 <= i < |b| && b[i] == a[0];
      var j :| 0 <= j < |a| && a[j] == b[0];
      assert AtLeast(b[0], a[0]) && AtLeast(a[0], b[0]);
      assert a == [a[0]] + a[1..];
      assert b == [b[0]] + b[1..];
      assert multiset(a[1..]) == multiset(a) - multiset{a[0]};
      DescendingUnique(a[1..], b[1..]);
    } else {
      assert |multiset(b)| == 0;
    }
  }

  lemma {:induction false} SecondsAppend(a: seq<(real, MovieId)>, b: seq<(real, MovieId)>)
    ensures Seconds(a + b) == Seconds(a) + Seconds(b)
  {
    if a == [] {
      assert a + b == b;
    } else {
      assert (a + b)[1..] == a[1..] + b;
      assert (a + b)[0] == a[0];
      SecondsAppend(a[1..], b);
    }
  }

  lemma {:induction false} SecondsZip(scores: seq<real>, ids: seq<MovieId>)
    requires |scores| == |ids|
    ensures Seconds(Zip(scores, ids)) == ids
  {
    if ids != [] {
      SecondsZip(scores[1..], ids[1..]);
    }
  }

  lemma MultisetRemoveAt<T>(s: seq<T>, i: nat)
    requires i < |s|
    ensures multiset(s[..i] + s[i + 1..]) == multiset(s) - multiset{s[i]}
  {
    assert s == s[..i] + [s[i]] + s[i + 1..];
  }

  lemma SecondsSplit(s: seq<(real, MovieId)>, i: nat)
    requires i < |s|
    ensures Seconds(s) == Seconds(s[..i]) + [s[i].1] + Seconds(s[i + 1..])
  {
    assert s == s[..i] + s[i..];
    SecondsAppend(s[..i], s[i..]);
    assert s[i..] == [s[i]] + s[i + 1..];
    SecondsAppend([s[i]], s[i + 1..]);
  }

  lemma SecondsRemoveAt(s: seq<(real, MovieId)>, i: nat)
    requires i < |s|
    ensures multiset(Seconds(s)) == multiset(Seconds(s[..i] + s[i + 1..])) + multiset{s[i].1}
  {
    SecondsSplit(s, i);
    SecondsAppend(s[..i], s[i + 1..]);
    var left, right := Seconds(s[..i]), Seconds(s[i + 1..]);
    assert multiset(left + [s[i].1] + right) == multiset(left) + multiset{s[i].1} + multiset(right);
  }

  lemma PositionOf(s: seq<(real, MovieId)>, x: (real, MovieId)) returns (i: nat)
    requires x in multiset(s)
    ensures i < |s| && s[i] == x
  {
    assert x in s;
    i :| 0 <= i < |s| && s[i] == x;
  }

  /** Rearranging the pairs rearranges their ids the same way. */
  lemma {:induction false} SecondsPermutation(a: seq<(real, MovieId)>, b: seq<(real, MovieId)>)
    requires multiset(a) == multiset(b)
    ensures multiset(Seconds(a)) == multiset(Seconds(b))
  {
    if |a| > 0 {
      var i := PositionOf(b, a[0]);
      var rest := b[..i] + b[i + 1..];
      MultisetRemoveAt(b, i);
      MultisetRemoveAt(a, 0);
      assert a[..0] + a[1..] == a[1..];
      SecondsPermutation(a[1..], rest);
      SecondsRemoveAt(b, i);
      SecondsRemoveAt(a, 0);
    }
  }

  /**
   * `sorted_movie_ids`: the ids of the `(score, id)` pairs arranged in
   * descending order, a permutation of the column ids.
   */
  function SortedMovieIds(scores: seq<real>, ids: seq<MovieId>): (r: seq<MovieId>)
    requires |scores| == |ids|
    ensures multiset(r) == multiset(ids)
    ensures exists ranked :: Descending(ranked) && multiset(ranked) == multiset(Zip(scores, ids)) && r == Seconds(ranked)
  {
    var zipped := Zip(scores, ids);
    SecondsZip(scores, ids);
    SecondsPermutation(SortDescending(zipped), zipped);
    Seconds(SortDescending(zipped))
  }

  // ---------------------------------------------------------------------------
  // Unrated candidates and the top-N slice

  lemma NonEmptyHasElement(s: set<MovieId>)
    requires s != {}
    ensures exists x :: x in s
  {
    if forall x :: x !in s {
      assert false;
    }
  }

  /**
   * `list(s)`: the elements of a set in the set's own iteration order, which
   * is arbitrary here: each step takes any element not yet listed.
   */
  method ListOfSet(s: set<MovieId>) returns (xs: seq<MovieId>)
    ensures NoDuplicates(xs)
    ensures forall x :: x in xs <==> x in s
    ensures |xs| == |s|
  {
    xs := [];
    var rest := s;
    while rest != {}
      invariant rest <= s
      invariant forall x :: x in xs <==> x in s && x !in rest
      invariant NoDuplicates(xs)
      invariant |xs| + |rest| == |s|
      decreases |rest|
    {
      NonEmptyHasElement(rest);
      var x :| x in rest;
      xs := xs + [x];
      rest := rest - {x};
    }
  }

  /** Python's `s[:n]`, where a negative `n` counts from the end. */
  function Prefix<T>(s: seq<T>, n: int): (r: seq<T>)
    ensures r <= s
    ensures 0 <= n ==> |r| <= n
    ensures 0 <= n && |s| <= n ==> r == s
    ensures 0 <= n < |s| ==> |r| == n
    ensures n < 0 ==> |r| == if |s| + n < 0 then 0 else |s| + n
  {
    if 0 <= n then (if n < |s| then s[..n] else s)
    else if |s| + n < 0 then []
    else s[..|s| + n]
  }

  // ---------------------------------------------------------------------------
  // Resolving ids to titles

  /**
   * The titles for `ids`, in order: the first catalog row's title for every
   * id that has a row, nothing for an id without one.
   */
  function Titles(ids: seq<MovieId>, catalog: seq<CatalogRow>): (r: seq<string>)
    ensures |r| <= |ids|
    ensures catalog == [] ==> r == []
  {
    if ids == [] then []
    else
      var init := Titles(ids[..|ids| - 1], catalog);
      match FirstTitle(catalog, ids[|ids| - 1])
      case Some(t) => init + [t]
      case None => init
  }

  /** Every resolved title is the first catalog title of one of the ids. */
  lemma {:induction false} TitlesFromIds(ids: seq<MovieId>, catalog: seq<CatalogRow>, t: string)
    requires t in Titles(ids, catalog)
    ensures exists mid :: mid in ids && FirstTitle(catalog, mid) == Some(t)
  {
    var init := ids[..|ids| - 1];
    var last := ids[|ids| - 1];
    if t in Titles(init, catalog) {
      TitlesFromIds(init, catalog, t);
      var mid :| mid in init && FirstTitle(catalog, mid) == Some(t);
      assert mid in ids;
    } else {
      assert FirstTitle(catalog, last) == Some(t);
    }
  }

  /** When every id has a catalog row, there is exactly one title per id, in order. */
  lemma {:induction false} TitlesAllResolved(ids: seq<MovieId>, catalog: seq<CatalogRow>)
    requires forall mid :: mid in ids ==> FirstTitle(catalog, mid).Some?
    ensures |Titles(ids, catalog)| == |ids|
    ensures forall i :: 0 <= i < |ids| ==> FirstTitle(catalog, ids[i]) == Some(Titles(ids, catalog)[i])
  {
    if |ids| > 0 {
      var init, last := ids[..|ids| - 1], ids[|ids| - 1];
      assert forall mid :: mid in init ==> mid in ids;
      TitlesAllResolved(init, catalog);
      assert last in ids;
      var t := FirstTitle(catalog, last).value;
      assert Titles(ids, catalog) == Titles(init, catalog) + [t];
      forall i | 0 <= i < |ids|
        ensures FirstTitle(catalog, ids[i]) == Some(Titles(ids, catalog)[i])
      {
        if i < |init| {
          assert ids[i] == init[i];
        }
      }
    }
  }

  /** An id without a catalog row adds nothing; one with a row adds its first title. */
  lemma TitlesAppend(ids: seq<MovieId>, mid: MovieId, catalog: seq<CatalogRow>)
    ensures Titles(ids + [mid], catalog) ==
      match FirstTitle(catalog, mid)
      case Some(t) => Titles(ids, catalog) + [t]
      case None => Titles(ids, catalog)
  {
    assert (ids + [mid])[..|ids|] == ids;
  }

  /** Catalog rows of different movies carry different titles. */
  predicate DistinctTitles(catalog: seq<CatalogRow>)
  {
    forall i, j :: 0 <= i < |catalog| && 0 <= j < |catalog| && catalog[i].movieId != catalog[j].movieId ==>
      catalog[i].title != catalog[j].title
  }

  /** Under `DistinctTitles`, two different catalogued ids have different first titles. */
  lemma DistinctFirstTitles(catalog: seq<CatalogRow>, a: MovieId, b: MovieId)
    requires DistinctTitles(catalog)
    requires a != b
    ensures FirstTitle(catalog, a).Some? && FirstTitle(catalog, b).Some? ==> FirstTitle(catalog, a) != FirstTitle(catalog, b)
  {
    if FirstTitle(catalog, a).Some? && FirstTitle(catalog, b).Some? {
      var i :| 0 <= i < |catalog| && catalog[i] == CatalogRow(a, FirstTitle(catalog, a).value);
      var j :| 0 <= j < |catalog| && catalog[j] == CatalogRow(b, FirstTitle(catalog, b).value);
      assert catalog[i].title != catalog[j].title;
    }
  }

  /** Distinct ids of a catalog with distinct titles resolve to distinct titles. */
  lemma {:induction false} TitlesNoDuplicates(ids: seq<MovieId>, catalog: seq<CatalogRow>)
    requires NoDuplicates(ids)
    requires DistinctTitles(catalog)
    ensures NoDuplicates(Titles(ids, catalog))
  {
    if |ids| > 0 {
      var init := ids[..|ids| - 1];
      var last := ids[|ids| - 1];
      assert NoDuplicates(init);
      TitlesNoDuplicates(init, catalog);
      var prior := Titles(init, catalog);
      match FirstTitle(catalog, last)
      case None =>
      case Some(t) =>
        forall mid | mid in init
          ensures FirstTitle(catalog, mid) != Some(t)
        {
          var k :| 0 <= k < |init| && init[k] == mid;
          assert ids[k] == mid;
          DistinctFirstTitles(catalog, mid, last);
        }
        assert t !in prior by {
          if t in prior {
            TitlesFromIds(init, catalog, t);
          }
        }
        assert Titles(ids, catalog) == prior + [t];
        forall a, b | 0 <= a < b < |prior| + 1
          ensures (prior + [t])[a] != (prior + [t])[b]
        {
          if b == |prior| {
            assert (prior + [t])[a] == prior[a];
            assert prior[a] in prior;
          }
        }
    }
  }

  /** The loop that appends the title of each id that has a catalog row. */
  method ResolveTitles(top: seq<MovieId>, catalog: seq<CatalogRow>) returns (movies: seq<string>)
    ensures movies == Titles(top, catalog)
  {
    movies := [];
    for i := 0 to |top|
      invariant movies == Titles(top[..i], catalog)
    {
      assert top[..i + 1] == top[..i] + [top[i]];
      TitlesAppend(top[..i], top[i], catalog);
      match FirstTitle(catalog, top[i])
      case Some(title) => movies := movies + [title];
      case None =>
    }
    assert top[..|top|] == top;
  }

  // ---------------------------------------------------------------------------
  // Drawing without replacement

  /** The position of the first occurrence of `x` in `s`. */
  function IndexOf(s: seq<string>, x: string): (i: nat)
    requires x in s
    ensures i < |s| && s[i] == x && x !in s[..i]
  {
    if s[0] == x then 0
    else
      assert s[1..][..IndexOf(s[1..], x)] == s[1..IndexOf(s[1..], x) + 1];
      1 + IndexOf(s[1..], x)
  }

  /** `list.remove(x)`: drops the first occurrence of `x`. */
  function RemoveFirst(s: seq<string>, x: string): (r: seq<string>)
    requires x in s
    ensures |r| == |s| - 1
    ensures multiset(r) == multiset(s) - multiset{x}
    ensures exists i :: 0 <= i < |s| && s[i] == x && x !in s[..i] && r == s[..i] + s[i + 1..]
  {
    var i := IndexOf(s, x);
    MultisetRemoveAt(s, i);
    s[..i] + s[i + 1..]
  }

  /** `random.choice` on an empty list raises IndexError. */
  datatype SelectError = EmptyChoice

  /**
   * The `range(10)` loop as written: each round draws any element of the
   * pool and removes one occurrence of it. It fails as soon as the pool is
   * empty, so it succeeds exactly when the pool starts with ten titles.
   */
  method DrawTen(titles: seq<string>) returns (r: Result<seq<string>, SelectError>)
    ensures r.Success? <==> |titles| >= Draws
    ensures r.Success? ==> |r.value| == Draws
    ensures r.Success? ==> multiset(r.value) <= multiset(titles)
  {
    var movies := titles;
    var picked := [];
    for i := 0 to Draws
      invariant |picked| == i
      invariant |movies| == |titles| - i
      invariant multiset(picked) + multiset(movies) == multiset(titles)
    {
      if movies == [] {
        return Failure(EmptyChoice);
      }
      var k :| 0 <= k < |movies|;
      var movie := movies[k];
      picked := picked + [movie];
      movies := RemoveFirst(movies, movie);
    }
    return Success(picked);
  }

  /**
   * The draw loop as the tests expect it: it stops early when the pool runs
   * out, so it returns the whole pool when that holds ten titles or fewer.
   */
  method DrawUpToTen(titles: seq<string>) returns (picked: seq<string>)
    ensures |picked| == if |titles| < Draws then |titles| else Draws
    ensures multiset(picked) <= multiset(titles)
    ensures |titles| <= Draws ==> multiset(picked) == multiset(titles)
  {
    var movies := titles;
    picked := [];
    while |picked| < Draws && movies != []
      invariant |picked| <= Draws
      invariant |movies| == |titles| - |picked|
      invariant multiset(picked) + multiset(movies) == multiset(titles)
      decreases |movies|
    {
      var k :| 0 <= k < |movies|;
      var movie := movies[k];
      picked := picked + [movie];
      movies := RemoveFirst(movies, movie);
    }
  }

  lemma {:induction false} AtMostOnce(t: seq<string>, x: string)
    requires NoDuplicates(t)
    ensures multiset(t)[x] <= 1
  {
    if |t| > 0 {
      assert t == [t[0]] + t[1..];
      AtMostOnce(t[1..], x);
      if t[0] == x {
        assert x !in t[1..];
      }
    }
  }

  /**
   * Drawing without replacement from a pool of distinct titles gives
   * distinct titles.
   */
  lemma DrawnDistinct(drawn: seq<string>, pool: seq<string>)
    requires NoDuplicates(pool)
    requires multiset(drawn) <= multiset(pool)
    ensures NoDuplicates(drawn)
  {
    forall i, j | 0 <= i < j < |drawn|
      ensures drawn[i] != drawn[j]
    {
      if drawn[i] == drawn[j] {
        var x := drawn[i];
        assert drawn == drawn[..j] + [x] + drawn[j + 1..];
        assert x in drawn[..j];
        assert multiset(drawn)[x] >= 2;
        AtMostOnce(pool, x);
      }
    }
  }

  // ---------------------------------------------------------------------------
  // The pipeline

  /** The exceptions `hybrid_recommend_movies` lets escape. */
  datatype RecommendError = Lookup(missing: LookupError) | Selection(failure: SelectError)

  /** The columns the user has no stored rating for. */
  function Candidates(m: RatingMatrix, u: UserId): set<MovieId>
  {
    set mid | mid in m.movies && mid !in RatedMovies(m, u)
  }

  /**
   * `top` is a valid `[:n]` slice of some enumeration of `candidates`: no
   * repeats, only candidates, exactly as many as Python's slice keeps
   * (`min(n, len)` for `n >= 0`, `max(0, len + n)` for `n < 0`), and all of
   * them when there are no more than `n`.
   */
  predicate IsTopSlice(top: seq<MovieId>, candidates: set<MovieId>, n: int)
  {
    NoDuplicates(top) &&
    (forall mid :: mid in top ==> mid in candidates) &&
    (0 <= n ==> |top| == if |candidates| < n then |candidates| else n) &&
    (n < 0 ==> |top| == if |candidates| + n < 0 then 0 else |candidates| + n) &&
    (|candidates| <= n ==> forall mid :: mid in candidates ==> mid in top)
  }

  lemma {:induction false} SliceOfListing(listed: seq<MovieId>, s: set<MovieId>, n: int)
    requires NoDuplicates(listed) && |listed| == |s|
    requires forall x :: x in listed <==> x in s
    ensures IsTopSlice(Prefix(listed, n), s, n)
    ensures (forall x :: x !in s) ==> Prefix(listed, n) == []
  {
    var top := Prefix(listed, n);
    assert top == listed[..|top|];
    if |listed| > 0 {
      var first := listed[0];
      assert first in listed;
      assert first in s;
    }
  }

  /** A permutation of the column ids holds the same ids. */
  lemma {:induction false} SameElements(a: seq<MovieId>, b: seq<MovieId>)
    requires multiset(a) == multiset(b)
    ensures forall x :: x in a <==> x in b
  {
    forall x ensures x in a <==> x in b {
      assert x in a <==> x in multiset(a);
      assert x in b <==> x in multiset(b);
    }
  }

  /**
   * Lines 34-50: score and sort every column, keep the unrated ids as a set,
   * slice the first `n` of its enumeration and resolve them to titles. Along
   * with the titles it gives, as ghost values, the candidate set and the
   * sliced ids. The candidates do not depend on the scores at all.
   */
  method RankAndResolve(u: UserId, m: RatingMatrix, catalog: seq<CatalogRow>, n: int, corr: Correlation)
    returns (r: Result<seq<string>, LookupError>, ghost top: seq<MovieId>)
    ensures r.Failure? <==> u !in m.users
    ensures r.Failure? ==> r.error == MissingUser(u)
    ensures r.Success? ==> IsTopSlice(top, Candidates(m, u), n)
    ensures r.Success? && (forall mid :: mid in m.movies ==> mid in RatedMovies(m, u)) ==> top == []
    ensures r.Success? ==> r.value == Titles(top, catalog)
  {
    var scores := ScoreAll(m, u, m.movies, corr);
    if scores.Failure? {
      return Failure(scores.error), [];
    }
    var sortedIds := SortedMovieIds(scores.value, m.movies);
    var userRatings := UserRatings(m, u);
    if userRatings.Failure? {
      return Failure(userRatings.error), [];
    }
    var unrated := (set mid | mid in sortedIds) - userRatings.value.Keys;
    SameElements(sortedIds, m.movies);
    forall mid ensures mid in unrated <==> mid in Candidates(m, u) {
      assert mid in userRatings.value.Keys <==> mid in RatedMovies(m, u);
    }
    assert unrated == Candidates(m, u);
    var listed := ListOfSet(unrated);
    var topN := Prefix(listed, n);
    SliceOfListing(listed, unrated, n);
    var movies := ResolveTitles(topN, catalog);
    return Success(movies), topN;
  }

  /**
   * `hybrid_recommend_movies` as written: an unknown user raises KeyError,
   * and a pool of fewer than ten titles raises IndexError in `random.choice`.
   * Otherwise the result holds ten titles, each the first catalog title of a
   * column the user has not rated, drawn without replacement from the pool.
   */
  method HybridRecommendMovies(u: UserId, m: RatingMatrix, catalog: seq<CatalogRow>, n: int, corr: Correlation)
    returns (r: Result<seq<string>, RecommendError>, ghost top: seq<MovieId>)
    ensures r == Failure(Lookup(MissingUser(u))) <==> u !in m.users
    ensures u in m.users ==> (r.Success? <==> |Titles(top, catalog)| >= Draws)
    ensures u in m.users && r.Failure? ==> r == Failure(Selection(EmptyChoice))
    ensures u in m.users ==> IsTopSlice(top, Candidates(m, u), n)
    ensures r.Success? ==> |r.value| == Draws
    ensures r.Success? ==> multiset(r.value) <= multiset(Titles(top, catalog))
    ensures r.Success? && DistinctTitles(catalog) ==> NoDuplicates(r.value)
    ensures r.Success? ==> forall t :: t in r.value ==>
      exists mid :: mid in m.movies && mid !in RatedMovies(m, u) && FirstTitle(catalog, mid) == Some(t)
    ensures u in m.users && (forall mid :: mid in m.movies ==> mid in RatedMovies(m, u)) ==>
      r == Failure(Selection(EmptyChoice))
    ensures u in m.users && catalog == [] ==> r == Failure(Selection(EmptyChoice))
  {
    var resolved;
    resolved, top := RankAndResolve(u, m, catalog, n, corr);
    if resolved.Failure? {
      return Failure(Lookup(resolved.error)), top;
    }
    var titles := resolved.value;
    assert catalog == [] || top == [] ==> titles == [];
    var drawn := DrawTen(titles);
    match drawn
    case Failure(e) =>
      assert e == EmptyChoice;
      r := Failure(Selection(e));
    case Success(picked) =>
      r := Success(picked);
      if DistinctTitles(catalog) {
        TitlesNoDuplicates(top, catalog);
        DrawnDistinct(picked, titles);
      }
      forall t | t in picked
        ensures exists mid :: mid in m.movies && mid !in RatedMovies(m, u) && FirstTitle(catalog, mid) == Some(t)
      {
        assert t in multiset(titles);
        TitlesFromIds(top, catalog, t);
      }
  }

  /**
   * The behaviour the tests expect: an unknown user gets no titles, and a
   * pool of fewer than ten titles is returned whole, in a random order.
   */
  method RecommendIntended(u: UserId, m: RatingMatrix, catalog: seq<CatalogRow>, n: int, corr: Correlation)
    returns (r: seq<string>, ghost top: seq<MovieId>)
    ensures u !in m.users ==> r == []
    ensures u in m.users ==> IsTopSlice(top, Candidates(m, u), n)
    ensures |r| == if |Titles(top, catalog)| < Draws then |Titles(top, catalog)| else Draws
    ensures multiset(r) <= multiset(Titles(top, catalog))
    ensures DistinctTitles(catalog) ==> NoDuplicates(r)
    ensures |Titles(top, catalog)| <= Draws ==> multiset(r) == multiset(Titles(top, catalog))
    ensures forall t :: t in r ==>
      exists mid :: mid in m.movies && mid !in RatedMovies(m, u) && FirstTitle(catalog, mid) == Some(t)
    ensures (forall mid :: mid in m.movies ==> mid in RatedMovies(m, u)) ==> r == []
    ensures catalog == [] ==> r == []
  {
    var resolved;
    resolved, top := RankAndResolve(u, m, catalog, n, corr);
    if resolved.Failure? {
      return [], [];
    }
    var titles := resolved.value;
    r := DrawUpToTen(titles);
    if DistinctTitles(catalog) {
      TitlesNoDuplicates(top, catalog);
      DrawnDistinct(r, titles);
    }
    forall t | t in r
      ensures exists mid :: mid in m.movies && mid !in RatedMovies(m, u) && FirstTitle(catalog, mid) == Some(t)
    {
      assert t in multiset(titles);
      TitlesFromIds(top, catalog, t);
    }
  }
}
