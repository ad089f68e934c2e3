/** `Movies.Data.Repositories.MovieRepository`: the movie list kept in the
    memory cache under `MovieMemoryKey`. */
module MovieRepositories {
  import opened Wrappers
  import opened Text
  import opened Linq
  import opened Modals
  import opened Configurations

  /** `x.Id?.ToLower().Trim() == id.ToLower().Trim()`: a movie whose id is
      `null` never matches. */
  predicate MovieHasId(m: Movie, id: string) {
    NormOpt(m.id) == Some(Norm(id))
  }

  /** `x.Title?.ToLower().Trim() == title.ToLower().Trim()`. */
  predicate MovieHasTitle(m: Movie, title: string) {
    NormOpt(m.title) == Some(Norm(title))
  }

  /** `ids.Contains(x.Id!)`: exact, case-sensitive membership of the id. */
  predicate MovieIdIn(m: Movie, ids: seq<string>) {
    m.id.Some? && m.id.value in ids
  }

  /** Every movie has an id: the controllers keep this true. */
  predicate MovieIdsPresent(movies: seq<Movie>) {
    forall i :: 0 <= i < |movies| ==> movies[i].id.Some?
  }

  /** Exactly one movie of `movies` has the id `id`. */
  ghost predicate HasIdOnce(movies: seq<Movie>, id: string) {
    exists k :: 0 <= k < |movies| && MovieHasId(movies[k], id)
                && forall i :: 0 <= i < |movies| && i != k ==> !MovieHasId(movies[i], id)
  }

  /** `item.StarringActor?.AddRange(actorIds)`: the ids go to the end of the
      cast, in order, duplicates kept; a `null` cast stays `null`. */
  function ActorsAppended(m: Movie, actorIds: seq<string>): (r: Movie)
    ensures r.id == m.id && r.title == m.title && r.year == m.year && r.genre == m.genre
    ensures r.starringActor.Some? <==> m.starringActor.Some?
    ensures m.starringActor.Some? ==> r.starringActor.value == m.starringActor.value + actorIds
  {
    match m.starringActor
    case None => m
    case Some(cast) => m.(starringActor := Some(cast + actorIds))
  }

  /** `item` after the loop body of `Put(movie)`: year, title, cast and
      genre come from `movie`, the id stays. */
  function MovieOverwritten(item: Movie, movie: Movie): (r: Movie)
    ensures r.id == item.id
    ensures r.year == movie.year && r.title == movie.title
    ensures r.starringActor == movie.starringActor && r.genre == movie.genre
    ensures item.id == movie.id ==> r == movie
  {
    item.(year := movie.year, title := movie.title,
          starringActor := movie.starringActor, genre := movie.genre)
  }

  /** The list `init` leaves in the cache: the seed when the cached list is
      absent or empty, the cached list otherwise. */
  function Seeded(cached: seq<Movie>): (r: seq<Movie>)
    ensures r != []
    ensures cached == [] ==> r == SeedMovies()
    ensures cached != [] ==> r == cached
  {
    if cached == [] then SeedMovies() else cached
  }

  /** Running `init` again changes nothing. */
  lemma SeedingIdempotent(cached: seq<Movie>)
    ensures Seeded(Seeded(cached)) == Seeded(cached)
  {
  }

  /** On a fresh cache the store lists exactly one movie, with an id, a
      title and a year. */
  lemma FreshStoreListing()
    ensures |Seeded([])| == 1
    ensures Seeded([])[0].id.Some? && Seeded([])[0].title.Some? && Seeded([])[0].year.Some?
  {
  }

  /** Seeding keeps every movie with an id: the seed movie has one. */
  lemma SeededIdsPresent(cached: seq<Movie>)
    requires MovieIdsPresent(cached)
    ensures MovieIdsPresent(Seeded(cached))
  {
  }

  /** Filtering out the movies with an id leaves none with it, keeps every
      movie without an id, changes nothing when none had it, and drops
      exactly one when one had it. */
  lemma FilterById(before: seq<Movie>, id: string)
    ensures var after := Where(before, (m: Movie) => !MovieHasId(m, id));
      && (forall i :: 0 <= i < |after| ==> !MovieHasId(after[i], id))
      && (forall i :: 0 <= i < |before| && before[i].id.None? ==> before[i] in after)
      && ((forall i :: 0 <= i < |before| ==> !MovieHasId(before[i], id)) ==> after == before)
      && (HasIdOnce(before, id) ==> |after| == |before| - 1)
  {
    var keep := (m: Movie) => !MovieHasId(m, id);
    if forall i :: 0 <= i < |before| ==> !MovieHasId(before[i], id) {
      WhereKeepsAll(before, keep);
    }
    if HasIdOnce(before, id) {
      var k :| 0 <= k < |before| && MovieHasId(before[k], id)
               && forall i :: 0 <= i < |before| && i != k ==> !MovieHasId(before[i], id);
      WhereDropsOne(before, keep, k);
    }
  }

  class MovieRepository {
    /** The list cached under `MovieMemoryKey`; an absent entry reads as the
        empty list. */
    var movies: seq<Movie>

    /** `new MovieRepository(memoryCache)`, where `cached` is what the cache
        holds under `MovieMemoryKey`. */
    constructor(cached: seq<Movie>)
      ensures movies == Seeded(cached)
    {
      movies := cached;
      new;
      Init();
    }

    /** `init()`: seed an empty store. */
    method Init()
      modifies this
      ensures movies == Seeded(old(movies))
    {
      if |movies| == 0 {
        movies := SeedMovies();
      }
    }

    /** `Get()`: the whole list. */
    function GetAll(): (r: seq<Movie>)
      reads this
      ensures r == movies
    {
      movies
    }

    /** `Get(id)`: the first movie whose normalised id is `Norm(id)`, or `null`. */
    function GetById(id: string): (r: Option<Movie>)
      reads this
      ensures r.None? <==> forall i :: 0 <= i < |movies| ==> !MovieHasId(movies[i], id)
      ensures r.Some? ==> exists i :: 0 <= i < |movies| && movies[i] == r.value && MovieHasId(movies[i], id)
                                      && forall j :: 0 <= j < i ==> !MovieHasId(movies[j], id)
    {
      FirstWhere(movies, (m: Movie) => MovieHasId(m, id))
    }

    /** `Get(ids)`: in store order, the movies whose id is literally one of
        `ids`. */
    function GetByIds(ids: seq<string>): (r: seq<Movie>)
      reads this
      ensures |r| <= |movies|
      ensures forall i :: 0 <= i < |r| ==> r[i] in movies && MovieIdIn(r[i], ids)
      ensures forall i :: 0 <= i < |movies| && MovieIdIn(movies[i], ids) ==> movies[i] in r
    {
      Where(movies, (m: Movie) => MovieIdIn(m, ids))
    }

    /** `GetByName(title)`: the first movie whose title equals `title` after
        lower-casing and trimming, or `null`. */
    function GetByName(title: string): (r: Option<Movie>)
      reads this
      ensures r.None? <==> forall i :: 0 <= i < |movies| ==> !MovieHasTitle(movies[i], title)
      ensures r.Some? ==> exists i :: 0 <= i < |movies| && movies[i] == r.value && MovieHasTitle(movies[i], title)
                                      && forall j :: 0 <= j < i ==> !MovieHasTitle(movies[j], title)
    {
      FirstWhere(movies, (m: Movie) => MovieHasTitle(m, title))
    }

    /** `Post(movie)`: append, with no check for an existing id or title. */
    method Post(movie: Movie)
      modifies this
      ensures movies == old(movies) + [movie]
      ensures movie.id.Some? && (forall i :: 0 <= i < |old(movies)| ==> !MovieHasId(old(movies)[i], movie.id.value))
              ==> GetById(movie.id.value) == Some(movie)
    {
      movies := movies + [movie];
      if movie.id.Some? && forall i :: 0 <= i < |old(movies)| ==> !MovieHasId(old(movies)[i], movie.id.value) {
        var last := |movies| - 1;
        assert MovieHasId(movies[last], movie.id.value);
        assert forall i :: 0 <= i < last ==> movies[i] == old(movies)[i];
      }
    }

    /** `Put(movie)`: overwrites year, title, cast and genre of every movie
        whose normalised id equals the incoming one (both `null` also match),
        keeping its id; an empty store is left as it is. */
    method Put(movie: Movie)
      modifies this
      ensures |movies| == |old(movies)|
      ensures forall i :: 0 <= i < |movies| ==>
        movies[i] == if NormOpt(old(movies)[i].id) == NormOpt(movie.id)
                     then MovieOverwritten(old(movies)[i], movie)
                     else old(movies)[i]
      ensures forall i :: 0 <= i < |movies| ==> movies[i].id == old(movies)[i].id
    {
      var i := 0;
      while i < |movies|
        invariant 0 <= i <= |movies| == |old(movies)|
        invariant forall k :: 0 <= k < i ==>
          movies[k] == if NormOpt(old(movies)[k].id) == NormOpt(movie.id)
                       then MovieOverwritten(old(movies)[k], movie)
                       else old(movies)[k]
        invariant forall k :: i <= k < |movies| ==> movies[k] == old(movies)[k]
      {
        if NormOpt(movies[i].id) == NormOpt(movie.id) {
          var item := movies[i];
          item := item.(year := movie.year);
          item := item.(title := movie.title);
          item := item.(starringActor := movie.starringActor);
          item := item.(genre := movie.genre);
          movies := movies[i := item];
        }
        i := i + 1;
      }
    }

    /** `LinkActors(movieId, actorIds)`: append `actorIds`, in order and
        without removing duplicates, to the cast of every movie with the id. */
    method LinkActors(movieId: string, actorIds: seq<string>)
      modifies this
      ensures |movies| == |old(movies)|
      ensures forall i :: 0 <= i < |movies| ==>
        movies[i] == if MovieHasId(old(movies)[i], movieId) then ActorsAppended(old(movies)[i], actorIds)
                     else old(movies)[i]
      ensures (forall i :: 0 <= i < |old(movies)| ==> !MovieHasId(old(movies)[i], movieId)) ==> movies == old(movies)
    {
      var i := 0;
      while i < |movies|
        invariant 0 <= i <= |movies| == |old(movies)|
        invariant forall k :: 0 <= k < i ==>
          movies[k] == if MovieHasId(old(movies)[k], movieId) then ActorsAppended(old(movies)[k], actorIds)
                       else old(movies)[k]
        invariant forall k :: i <= k < |movies| ==> movies[k] == old(movies)[k]
      {
        if MovieHasId(movies[i], movieId) {
          movies := movies[i := ActorsAppended(movies[i], actorIds)];
        }
        i := i + 1;
      }
      if forall k :: 0 <= k < |old(movies)| ==> !MovieHasId(old(movies)[k], movieId) {
        assert forall k :: 0 <= k < |movies| ==> movies[k] == old(movies)[k];
      }
    }

    /** `Delete(id)`: keep, in order, the movies whose normalised id differs
        from `id`. The comparison is null-safe, so a movie with a `null` id is
        always kept and nothing is thrown. */
    method Delete(id: string)
      modifies this
      ensures movies == Where(old(movies), (m: Movie) => !MovieHasId(m, id))
      ensures GetById(id).None?
      ensures forall i :: 0 <= i < |old(movies)| && old(movies)[i].id.None? ==> old(movies)[i] in movies
      ensures (forall i :: 0 <= i < |old(movies)| ==> !MovieHasId(old(movies)[i], id)) ==> movies == old(movies)
      ensures HasIdOnce(old(movies), id) ==> |movies| == |old(movies)| - 1
    {
      FilterById(movies, id);
      movies := Where(movies, (m: Movie) => !MovieHasId(m, id));
    }
  }

  /** `Get(id)` folds case and trims, `Get(ids)` compares exactly: a query
      that differs from a stored id only in case or surrounding white space
      finds that movie by id but not among ids. */
  lemma ExactVersusNormalisedLookup(repo: MovieRepository, k: nat, query: string)
    requires k < |repo.movies| && repo.movies[k].id.Some?
    requires Norm(query) == Norm(repo.movies[k].id.value) && query != repo.movies[k].id.value
    ensures repo.GetById(query).Some?
    ensures repo.movies[k] !in repo.GetByIds([query])
  {
    assert MovieHasId(repo.movies[k], query);
  }
}
