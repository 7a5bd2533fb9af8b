/**
 * The selection rules of the page script, without the page: which users and which movies
 * the two dropdowns offer, the per-movie rating counts that rank the movies, and the check
 * a prediction request makes on the two selected values.
 */
module Selection {
  import opened JsValues
  import opened JsText
  import opened Sorting
  import opened MovieData

  /** `a.slice(0, n)`. */
  function Take<T>(s: seq<T>, n: nat): (r: seq<T>)
    ensures |r| == if |s| <= n then |s| else n
    ensures r <= s
  {
    if |s| <= n then s else s[..n]
  }

  // ---------------------------------------------------------------- the user list

  const MaxUsersListed: nat := 100

  /** Every rating has a numeric user id. */
  predicate NumericUserIds(ratings: seq<Rating>)
  {
    forall k :: 0 <= k < |ratings| ==> ratings[k].userId.Some?
  }

  /** `ratings.map(r => r.userId)`. */
  function UserIdList(ratings: seq<Rating>): (ids: seq<int>)
    requires NumericUserIds(ratings)
    ensures |ids| == |ratings|
    ensures forall k :: 0 <= k < |ratings| ==> ratings[k].userId == Some(ids[k])
  {
    seq(|ratings|, k requires 0 <= k < |ratings| => ratings[k].userId.value)
  }

  /** `[...new Set(s)]`: each value of `s` once, where it first occurs. */
  function Distinct(s: seq<int>): seq<int>
    decreases |s|
  {
    if s == [] then []
    else
      var init := Distinct(s[..|s| - 1]);
      if s[|s| - 1] in init then init else init + [s[|s| - 1]]
  }

  /** The distinct values hold every value of `s`, and no other, once. */
  lemma {:induction false} DistinctCorrect(s: seq<int>)
    ensures NoDuplicates(Distinct(s))
    ensures forall x :: x in Distinct(s) <==> x in s
    decreases |s|
  {
    if s != [] {
      var init, last := s[..|s| - 1], s[|s| - 1];
      assert s == init + [last];
      DistinctCorrect(init);
    }
  }

  /** The user dropdown's ids: the distinct user ids in ascending order, the first 100 of them. */
  function UniqueUsers(ratings: seq<Rating>): seq<int>
    requires NumericUserIds(ratings)
  {
    Take(SortAscending(Distinct(UserIdList(ratings))), MaxUsersListed)
  }

  /**
   * The user list holds user ids of the ratings, each once and in strictly ascending order,
   * at most 100 of them; a user id it leaves out is larger than every listed one, which
   * happens only when the list is full.
   */
  lemma UniqueUsersCorrect(ratings: seq<Rating>)
    requires NumericUserIds(ratings)
    ensures var users := UniqueUsers(ratings);
      && StrictlyAscending(users)
      && |users| <= MaxUsersListed
      && (forall i :: 0 <= i < |users| ==> exists k :: 0 <= k < |ratings| && ratings[k].userId == Some(users[i]))
      && (forall k :: 0 <= k < |ratings| && ratings[k].userId.value !in users ==>
            |users| == MaxUsersListed && forall i :: 0 <= i < |users| ==> users[i] < ratings[k].userId.value)
  {
    var ids := UserIdList(ratings);
    var distinct := Distinct(ids);
    var sorted := SortAscending(distinct);
    var users := UniqueUsers(ratings);
    DistinctCorrect(ids);
    SortAscendingCorrect(distinct);
    assert forall x :: x in sorted <==> x in distinct by {
      forall x
        ensures x in sorted <==> x in distinct
      {
        assert x in sorted <==> x in multiset(sorted);
        assert x in distinct <==> x in multiset(distinct);
      }
    }
    forall i | 0 <= i < |users|
      ensures exists k :: 0 <= k < |ratings| && ratings[k].userId == Some(users[i])
    {
      assert users[i] == sorted[i];
      assert users[i] in ids;
      var k :| 0 <= k < |ids| && ids[k] == users[i];
    }
    forall k | 0 <= k < |ratings| && ratings[k].userId.value !in users
      ensures |users| == MaxUsersListed && forall i :: 0 <= i < |users| ==> users[i] < ratings[k].userId.value
    {
      var x := ratings[k].userId.value;
      assert ids[k] == x;
      assert x in sorted;
      var j :| 0 <= j < |sorted| && sorted[j] == x;
      assert users == sorted[..|users|];
      assert j >= |users|;
      forall i | 0 <= i < |users|
        ensures users[i] < x
      {
        assert users[i] == sorted[i];
      }
    }
  }

  // ---------------------------------------------------------------- rating counts

  /** The number of ratings whose movie id is `id`; NaN ids all count under one key. */
  function CountWithMovieId(ratings: seq<Rating>, id: Option<int>): nat
    decreases |ratings|
  {
    if ratings == [] then 0
    else
      CountWithMovieId(ratings[..|ratings| - 1], id) + if ratings[|ratings| - 1].movieId == id then 1 else 0
  }

  /** `movieRatingCounts[id] || 0`: a movie that no rating names has no entry. */
  function RatingCountOf(counts: map<Option<int>, nat>, id: Option<int>): nat
  {
    if id in counts then counts[id] else 0
  }

  /** The movie ids of the ratings, in order. */
  function MovieIdList(ratings: seq<Rating>): (ids: seq<Option<int>>)
    ensures |ids| == |ratings|
    ensures forall k :: 0 <= k < |ratings| ==> ids[k] == ratings[k].movieId
  {
    seq(|ratings|, k requires 0 <= k < |ratings| => ratings[k].movieId)
  }

  /** The count is how often `id` occurs among the ratings' movie ids. */
  lemma {:induction false} CountIsOccurrences(ratings: seq<Rating>, id: Option<int>)
    ensures CountWithMovieId(ratings, id) == multiset(MovieIdList(ratings))[id]
    ensures CountWithMovieId(ratings, id) > 0 <==> exists k :: 0 <= k < |ratings| && ratings[k].movieId == id
    decreases |ratings|
  {
    if ratings != [] {
      var init := ratings[..|ratings| - 1];
      CountIsOccurrences(init, id);
      assert MovieIdList(ratings) == MovieIdList(init) + [ratings[|ratings| - 1].movieId];
    }
    assert id in MovieIdList(ratings) <==> exists k :: 0 <= k < |ratings| && ratings[k].movieId == id;
  }

  /**
   * The `forEach` of `populateMovieDropdown`: one entry per movie id the ratings name,
   * holding how many ratings name it.
   */
  method CountRatings(ratings: seq<Rating>) returns (counts: map<Option<int>, nat>)
    ensures forall id :: RatingCountOf(counts, id) == CountWithMovieId(ratings, id)
    ensures forall id :: id in counts <==> CountWithMovieId(ratings, id) > 0
  {
    counts := map[];
    for i := 0 to |ratings|
      invariant forall id :: RatingCountOf(counts, id) == CountWithMovieId(ratings[..i], id)
      invariant forall id :: id in counts ==> counts[id] > 0
    {
      assert ratings[..i + 1][..i] == ratings[..i];
      var id := ratings[i].movieId;
      counts := counts[id := RatingCountOf(counts, id) + 1];
    }
    assert ratings[..|ratings|] == ratings;
  }

  // ---------------------------------------------------------------- the movie list

  const MinRatings: nat := 10
  const MaxMoviesListed: nat := 200

  /** A movie's rank key: its rating count. */
  function Popularity(counts: map<Option<int>, nat>): Movie -> int
  {
    (m: Movie) => RatingCountOf(counts, m.id) as int
  }

  /** `movies.filter(movie => movieRatingCounts[movie.id] > 10)`. */
  function Frequent(movies: seq<Movie>, counts: map<Option<int>, nat>): seq<Movie>
  {
    if movies == [] then []
    else
      (if RatingCountOf(counts, movies[0].id) > MinRatings then [movies[0]] else [])
      + Frequent(movies[1..], counts)
  }

  /** The filter keeps only movies with more than 10 ratings. */
  lemma {:induction false} FrequentAboveThreshold(movies: seq<Movie>, counts: map<Option<int>, nat>)
    ensures forall i :: 0 <= i < |Frequent(movies, counts)| ==>
      RatingCountOf(counts, Frequent(movies, counts)[i].id) > MinRatings
  {
    if movies != [] {
      var head := if RatingCountOf(counts, movies[0].id) > MinRatings then [movies[0]] else [];
      var tail := Frequent(movies[1..], counts);
      FrequentAboveThreshold(movies[1..], counts);
      assert Frequent(movies, counts) == head + tail;
    }
  }

  /** The filter keeps each movie with more than 10 ratings as often as `movies` has it. */
  lemma {:induction false} FrequentOccurrences(movies: seq<Movie>, counts: map<Option<int>, nat>, m: Movie)
    ensures multiset(Frequent(movies, counts))[m]
      == if RatingCountOf(counts, m.id) > MinRatings then multiset(movies)[m] else 0
  {
    if movies != [] {
      var head := if RatingCountOf(counts, movies[0].id) > MinRatings then [movies[0]] else [];
      FrequentOccurrences(movies[1..], counts, m);
      assert movies == [movies[0]] + movies[1..];
      assert Frequent(movies, counts) == head + Frequent(movies[1..], counts);
    }
  }

  /**
   * The movies with a given rating count that the filter keeps are, in order, all the
   * movies with that count when it is above 10, and none otherwise.
   */
  lemma {:induction false} FrequentKeyClass(movies: seq<Movie>, counts: map<Option<int>, nat>, c: int)
    ensures WithKey(Frequent(movies, counts), Popularity(counts), c)
      == if c > MinRatings then WithKey(movies, Popularity(counts), c) else []
  {
    if movies != [] {
      var key := Popularity(counts);
      var head := if RatingCountOf(counts, movies[0].id) > MinRatings then [movies[0]] else [];
      var tail := Frequent(movies[1..], counts);
      FrequentKeyClass(movies[1..], counts, c);
      assert Frequent(movies, counts) == head + tail;
      WithKeyConcat(head, tail, key, c);
      assert WithKey([movies[0]], key, c) == if key(movies[0]) == c then [movies[0]] else [];
    }
  }

  /** The filter takes nothing that is not among the movies. */
  lemma FrequentSubMultiset(movies: seq<Movie>, counts: map<Option<int>, nat>)
    ensures multiset(Frequent(movies, counts)) <= multiset(movies)
  {
    forall m
      ensures multiset(Frequent(movies, counts))[m] <= multiset(movies)[m]
    {
      FrequentOccurrences(movies, counts, m);
    }
  }

  /**
   * The movie dropdown's movies: those with more than 10 ratings, by rating count, largest
   * first, ties in their order in `movies`, the first 200 of them.
   */
  function PopularMovies(movies: seq<Movie>, counts: map<Option<int>, nat>): seq<Movie>
  {
    Take(StableSortBy(Frequent(movies, counts), Popularity(counts)), MaxMoviesListed)
  }

  /** The elements of a prefix with a given key are a prefix of those of the whole list. */
  lemma WithKeyTake<T>(s: seq<T>, n: nat, key: T -> int, c: int)
    ensures WithKey(Take(s, n), key, c) <= WithKey(s, key, c)
  {
    if n < |s| {
      assert s == s[..n] + s[n..];
      WithKeyConcat(s[..n], s[n..], key, c);
    }
  }

  /**
   * The movie list holds at most 200 movies of `movies`, each with more than 10 ratings,
   * in non-increasing order of rating count.
   */
  lemma PopularMoviesCorrect(movies: seq<Movie>, counts: map<Option<int>, nat>)
    ensures var list := PopularMovies(movies, counts);
      && |list| <= MaxMoviesListed
      && multiset(list) <= multiset(movies)
      && (forall i :: 0 <= i < |list| ==> RatingCountOf(counts, list[i].id) > MinRatings)
      && (forall i, j :: 0 <= i < j < |list| ==> RatingCountOf(counts, list[i].id) >= RatingCountOf(counts, list[j].id))
  {
    var key := Popularity(counts);
    var f := Frequent(movies, counts);
    var sorted := StableSortBy(f, key);
    var list := PopularMovies(movies, counts);
    FrequentAboveThreshold(movies, counts);
    FrequentSubMultiset(movies, counts);
    StableSortByCorrect(f, key);
    TakeSubMultiset(sorted, MaxMoviesListed);
    TakeDescending(sorted, MaxMoviesListed, key);
    forall i | 0 <= i < |list|
      ensures RatingCountOf(counts, list[i].id) > MinRatings
    {
      assert list[i] in multiset(f);
    }
    forall i, j | 0 <= i < j < |list|
      ensures RatingCountOf(counts, list[i].id) >= RatingCountOf(counts, list[j].id)
    {
      assert key(list[i]) >= key(list[j]);
    }
  }

  /** A prefix of a list ordered by key is ordered by key. */
  lemma TakeDescending<T>(s: seq<T>, n: nat, key: T -> int)
    requires DescendingBy(s, key)
    ensures DescendingBy(Take(s, n), key)
  {
  }

  /** Movies with the same rating count appear in the movie list in their order in `movies`. */
  lemma PopularMoviesStable(movies: seq<Movie>, counts: map<Option<int>, nat>, c: int)
    ensures WithKey(PopularMovies(movies, counts), Popularity(counts), c) <= WithKey(movies, Popularity(counts), c)
  {
    var key := Popularity(counts);
    var f := Frequent(movies, counts);
    var sorted := StableSortBy(f, key);
    StableSortByCorrect(f, key);
    FrequentKeyClass(movies, counts, c);
    WithKeyTake(sorted, MaxMoviesListed, key, c);
  }

  /**
   * With the counts the rating loop builds, the movie list holds movies with more than 10
   * ratings, at most 200, from the most rated down, ties in their order in `movies`.
   */
  lemma PopularMoviesOfRatings(movies: seq<Movie>, ratings: seq<Rating>, counts: map<Option<int>, nat>)
    requires forall id :: RatingCountOf(counts, id) == CountWithMovieId(ratings, id)
    ensures var list := PopularMovies(movies, counts);
      && |list| <= MaxMoviesListed
      && multiset(list) <= multiset(movies)
      && (forall i :: 0 <= i < |list| ==> CountWithMovieId(ratings, list[i].id) > MinRatings)
      && (forall i, j :: 0 <= i < j < |list| ==>
            CountWithMovieId(ratings, list[i].id) >= CountWithMovieId(ratings, list[j].id))
      && (forall k ::
            (0 <= k < |movies| && CountWithMovieId(ratings, movies[k].id) > MinRatings
             && multiset(list)[movies[k]] < multiset(movies)[movies[k]]) ==>
            |list| == MaxMoviesListed
            && forall i :: 0 <= i < |list| ==> CountWithMovieId(ratings, movies[k].id) <= CountWithMovieId(ratings, list[i].id))
  {
    var list := PopularMovies(movies, counts);
    PopularMoviesCorrect(movies, counts);
    forall k | 0 <= k < |movies| && CountWithMovieId(ratings, movies[k].id) > MinRatings
      && multiset(list)[movies[k]] < multiset(movies)[movies[k]]
      ensures |list| == MaxMoviesListed
      ensures forall i :: 0 <= i < |list| ==> CountWithMovieId(ratings, movies[k].id) <= CountWithMovieId(ratings, list[i].id)
    {
      PopularMoviesLeftOut(movies, counts, movies[k]);
    }
  }

  /** A prefix of a list has no more of any element than the list. */
  lemma TakeSubMultiset<T>(s: seq<T>, n: nat)
    ensures multiset(Take(s, n)) <= multiset(s)
  {
    if n < |s| {
      assert s == s[..n] + s[n..];
    }
  }

  /**
   * A movie with more than 10 ratings that the list leaves out (or leaves out once more
   * often than `movies` holds it) has no more ratings than any listed movie, and the list
   * is full.
   */
  lemma PopularMoviesLeftOut(movies: seq<Movie>, counts: map<Option<int>, nat>, m: Movie)
    requires RatingCountOf(counts, m.id) > MinRatings
    requires multiset(PopularMovies(movies, counts))[m] < multiset(movies)[m]
    ensures |PopularMovies(movies, counts)| == MaxMoviesListed
    ensures forall i :: 0 <= i < |PopularMovies(movies, counts)| ==>
      RatingCountOf(counts, m.id) <= RatingCountOf(counts, PopularMovies(movies, counts)[i].id)
  {
    var key := Popularity(counts);
    var f := Frequent(movies, counts);
    var sorted := StableSortBy(f, key);
    FrequentOccurrences(movies, counts, m);
    StableSortByCorrect(f, key);
    assert multiset(sorted)[m] == multiset(movies)[m];
    TakeLeftOut(sorted, MaxMoviesListed, key, m);
  }

  /**
   * An element that a prefix of a list ordered by key, largest first, leaves out (or holds
   * fewer times than the list) has a key no larger than any kept element's.
   */
  lemma TakeLeftOut<T>(sorted: seq<T>, n: nat, key: T -> int, x: T)
    requires DescendingBy(sorted, key)
    requires multiset(Take(sorted, n))[x] < multiset(sorted)[x]
    ensures |Take(sorted, n)| == n
    ensures forall i :: 0 <= i < n ==> key(x) <= key(Take(sorted, n)[i])
  {
    var list := Take(sorted, n);
    assert sorted == list + sorted[n..];
    assert multiset(sorted[n..])[x] > 0;
    var j :| 0 <= j < |sorted[n..]| && sorted[n..][j] == x;
    assert sorted[n + j] == x;
    forall i | 0 <= i < n
      ensures key(x) <= key(list[i])
    {
      assert list[i] == sorted[i];
    }
  }

  // ---------------------------------------------------------------- the prediction request

  /** The two ids of a request that passes the check. */
  datatype Request = Request(userId: int, movieId: int)

  const SelectBothMessage: string := "Please select both a user and a movie."

  /**
   * The check at the start of `predictRating`: both dropdown values are read with
   * `parseInt`, and the request is refused when either id is NaN or zero.
   */
  function CheckRequest(userValue: string, movieValue: string): (r: Result<Request, string>)
    ensures r.Err? <==> Falsy(ParseInt(userValue)) || Falsy(ParseInt(movieValue))
    ensures r.Err? ==> r.error == SelectBothMessage
    ensures r.Ok? ==> ParseInt(userValue) == Some(r.value.userId) && ParseInt(movieValue) == Some(r.value.movieId)
  {
    var userId, movieId := ParseInt(userValue), ParseInt(movieValue);
    if Falsy(userId) || Falsy(movieId) then Err(SelectBothMessage)
    else Ok(Request(userId.value, movieId.value))
  }

  /** `String(id)`, the value an option of a dropdown carries for an id; NaN reads "NaN". */
  function OptionValue(id: Option<int>): string
  {
    match id
    case None => "NaN"
    case Some(v) => IntToString(v)
  }

  /**
   * A request made from two dropdown options passes the check exactly when both ids are
   * numbers other than zero, and then it carries those ids.
   */
  lemma CheckOptionValues(userId: Option<int>, movieId: Option<int>)
    ensures CheckRequest(OptionValue(userId), OptionValue(movieId)).Ok?
      <==> userId.Some? && movieId.Some? && userId.value != 0 && movieId.value != 0
    ensures CheckRequest(OptionValue(userId), OptionValue(movieId)).Ok? ==>
      CheckRequest(OptionValue(userId), OptionValue(movieId)).value == Request(userId.value, movieId.value)
  {
    var userValue, movieValue := OptionValue(userId), OptionValue(movieId);
    ParseOptionValue(userId);
    ParseOptionValue(movieId);
    var r := CheckRequest(userValue, movieValue);
    assert r.Ok? <==> !Falsy(userId) && !Falsy(movieId);
  }

  /** The placeholder options, whose value is empty, never pass the check. */
  lemma PlaceholderRefused(value: string)
    ensures CheckRequest("", value) == Err(SelectBothMessage)
    ensures CheckRequest(value, "") == Err(SelectBothMessage)
  {
    ParseIntBlank("");
  }

  /** `parseInt` reads an option's value back as its id. */
  lemma ParseOptionValue(id: Option<int>)
    ensures ParseInt(OptionValue(id)) == id
  {
    match id
    case None => ParseIntOfNaN();
    case Some(v) => ParseIntOfNumeral(v);
  }

  /** `parseInt("NaN")` is NaN: the text starts with no digit. */
  lemma ParseIntOfNaN()
    ensures ParseInt("NaN") == None
  {
    var t := "NaN";
    assert !IsWhiteSpace(t[0]);
    assert TrimStart(t) == t;
    assert DigitValue(t[0]) >= 10;
    assert LeadingDigits(t, 10) == [];
    assert ParseNumeral(t) == None;
  }
}
