/** `Movies.API.Controllers.MovieController`: the `api/movie` endpoints,
    built like the actor endpoints: check the input, clean the body of
    Swagger's placeholders, call the movie repository (and, to link actors,
    the actor repository). An exception escaping an action becomes a 500. */
module MovieControllers {
  import opened Wrappers
  import opened Text
  import opened Linq
  import opened Modals
  import opened Http
  import opened Requests
  import opened DataAttributes
  import opened ActorRepositories
  import opened MovieRepositories

  /** `TryValidateModel(movie)` after the title is cleaned: title and year
      are `[Required(AllowEmptyStrings = false)]`, so neither may be `null`
      or blank, and the year must pass `ValidYearAttribute` in the year
      `currentYear`. */
  predicate MovieIsValid(m: Movie, currentYear: int)
    ensures MovieIsValid(m, currentYear) ==>
              m.title != Some("") && NumberParsing.TryParseInt16(m.year).Some?
              && NumberParsing.TryParseInt16(m.year).value < currentYear
  {
    && m.title.Some? && !IsBlank(m.title.value)
    && m.year.Some? && !IsBlank(m.year.value)
    && ValidYearIsValid(m.year, currentYear)
  }

  /** A cleaned title that was the placeholder or missing is empty, so such
      a movie never passes validation. */
  lemma PlaceholderTitleInvalid(m: Movie, currentYear: int)
    requires IsMissing(m.title)
    ensures !MovieIsValid(m.(title := Some(CleanName(m.title))), currentYear)
  {
  }

  /** A movie dated in the current year or later never passes validation. */
  lemma FutureYearInvalid(m: Movie, year: int, currentYear: int)
    requires m.year == Some(NumberParsing.Format(year)) && currentYear <= year
    ensures !MovieIsValid(m, currentYear)
  {
    NumberParsing.TryParseInt16Format(year);
  }

  /** `validActorIds.Select(x => x.Id)`: the ids of actors that have one. */
  function ActorIds(actors: seq<Actor>): (r: seq<string>)
    requires forall i :: 0 <= i < |actors| ==> actors[i].id.Some?
    ensures |r| == |actors|
    ensures forall i :: 0 <= i < |actors| ==> actors[i].id == Some(r[i])
  {
    if actors == [] then [] else [actors[0].id.value] + ActorIds(actors[1..])
  }

  /** The body `Put` stores: an id or genre left out (`null` or the
      placeholder) is taken from the stored movie, placeholders are dropped
      from the cast, and a cast left empty is the stored one. */
  function Merged(movie: Movie, stored: Movie): (r: Movie)
    requires movie.starringActor.Some?
    ensures r.title == movie.title && r.year == movie.year
    ensures r.id == (if IsMissing(movie.id) then stored.id else movie.id)
    ensures r.genre == (if IsMissing(movie.genre) then stored.genre else movie.genre)
    ensures (forall a :: a in movie.starringActor.value ==> a == Placeholder) ==>
              r.starringActor == stored.starringActor
    ensures (exists a :: a in movie.starringActor.value && a != Placeholder) ==>
              && r.starringActor == Some(WithoutPlaceholders(movie.starringActor.value))
              && r.starringActor.value != [] && Placeholder !in r.starringActor.value
              && forall a :: a in movie.starringActor.value && a != Placeholder ==> a in r.starringActor.value
  {
    var cast := WithoutPlaceholders(movie.starringActor.value);
    movie.(id := if IsMissing(movie.id) then stored.id else movie.id,
           genre := if IsMissing(movie.genre) then stored.genre else movie.genre,
           starringActor := if cast == [] then stored.starringActor else Some(cast))
  }

  /** What `LinkActors(id.Trim(), ids)` leaves, restated for the untrimmed
      id: the same movies match, and every movie keeps its id. */
  lemma LinkedByTrimmedId(before: seq<Movie>, after: seq<Movie>, id: string, ids: seq<string>)
    requires |after| == |before|
    requires forall i :: 0 <= i < |after| ==>
               after[i] == if MovieHasId(before[i], Trim(id)) then ActorsAppended(before[i], ids) else before[i]
    ensures forall i :: 0 <= i < |after| ==>
              after[i] == if MovieHasId(before[i], id) then ActorsAppended(before[i], ids) else before[i]
    ensures MovieIdsPresent(before) ==> MovieIdsPresent(after)
  {
    NormOfTrim(id);
  }

  /** What `Delete(id.Trim())` leaves: no movie with the id, every movie
      without an id, and, if every movie had an id before, every movie
      still has one. */
  lemma RemovalByTrimmedId(before: seq<Movie>, id: string)
    ensures var after := Where(before, (m: Movie) => !MovieHasId(m, Trim(id)));
      && (forall i :: 0 <= i < |after| ==> !MovieHasId(after[i], id))
      && (MovieIdsPresent(before) ==> MovieIdsPresent(after))
  {
    NormOfTrim(id);
    var after := Where(before, (m: Movie) => !MovieHasId(m, Trim(id)));
    forall i | 0 <= i < |after|
      ensures !MovieHasId(after[i], id)
    {
      assert !MovieHasId(after[i], Trim(id));
    }
  }

  class MovieController {
    const movieRepository: MovieRepository
    const actorRepository: ActorRepository

    /** `new MovieController(handler, movieRepository, actorRepository)`;
        the resilience handler only wraps the unmodelled `Get()`. */
    constructor(movieRepository: MovieRepository, actorRepository: ActorRepository)
      ensures this.movieRepository == movieRepository && this.actorRepository == actorRepository
    {
      this.movieRepository := movieRepository;
      this.actorRepository := actorRepository;
    }

    /** `GET api/movie/GetById/{id}`: 400 for a blank id; otherwise the first
        movie whose id matches `id` after lower-casing and trimming, or 404. */
    function GetById(id: string): (r: ActionResult<Movie>)
      reads movieRepository
      ensures r.BadRequest? <==> IsBlank(id)
      ensures r.NotFound? <==> !IsBlank(id) && forall i :: 0 <= i < |movieRepository.movies| ==>
                                                !MovieHasId(movieRepository.movies[i], id)
      ensures r.BadRequest? || r.NotFound? || r.Ok?
      ensures r.Ok? ==> exists i :: 0 <= i < |movieRepository.movies| && movieRepository.movies[i] == r.value
                                    && MovieHasId(r.value, id)
                                    && forall j :: 0 <= j < i ==> !MovieHasId(movieRepository.movies[j], id)
    {
      if IsBlank(id) then BadRequest
      else
        NormOfTrim(id);
        match movieRepository.GetById(Trim(id))
        case None => NotFound
        case Some(movie) => Ok(movie)
    }

    /** `GET api/movie/GetByIds`: the placeholder ids are dropped; 400 when
        none is left, otherwise the movies whose id is exactly one of the
        remaining ids, in store order. It never answers 404. */
    function GetByIds(ids: seq<string>): (r: ActionResult<seq<Movie>>)
      reads movieRepository
      ensures r.BadRequest? <==> forall i :: 0 <= i < |ids| ==> ids[i] == Placeholder
      ensures r.BadRequest? || r.Ok?
      ensures r.Ok? ==> forall i :: 0 <= i < |r.value| ==>
                          r.value[i] in movieRepository.movies
                          && r.value[i].id.Some? && r.value[i].id.value in ids
                          && r.value[i].id.value != Placeholder
      ensures r.Ok? ==> forall i :: 0 <= i < |movieRepository.movies| ==>
                          var m := movieRepository.movies[i];
                          m.id.Some? && m.id.value in ids && m.id.value != Placeholder ==> m in r.value
    {
      var wanted := WithoutPlaceholders(ids);
      if |wanted| < 1 then BadRequest
      else Ok(movieRepository.GetByIds(wanted))
    }

    /** `POST api/movie/Create`. Rejects an invalid body and a body whose
        cleaned title is already taken (compared after lower-casing and
        trimming), leaving the store alone. Otherwise the movie gets a fresh
        id unless it brought one, its placeholder actor ids are dropped, and
        it is appended; a body without a cast throws (500) after the title
        check. */
    method Post(movie: Movie, modelStateValid: bool, currentYear: int, newGuid: string)
      returns (r: ActionResult<Movie>)
      modifies movieRepository
      ensures var cleaned := movie.(title := Some(CleanName(movie.title)));
              var taken := exists i :: 0 <= i < |old(movieRepository.movies)|
                                       && MovieHasTitle(old(movieRepository.movies)[i], CleanName(movie.title));
              if !modelStateValid || !MovieIsValid(cleaned, currentYear) || taken then
                r == BadRequest && movieRepository.movies == old(movieRepository.movies)
              else if movie.starringActor.None? then
                r == InternalServerError && movieRepository.movies == old(movieRepository.movies)
              else
                var posted := cleaned.(id := Some(AssignedId(movie.id, newGuid)),
                                       starringActor := Some(WithoutPlaceholders(movie.starringActor.value)));
                && r == Created("api/movie/" + posted.id.value, posted)
                && movieRepository.movies == old(movieRepository.movies) + [posted]
      ensures MovieIdsPresent(old(movieRepository.movies)) ==> MovieIdsPresent(movieRepository.movies)
    {
      if !modelStateValid {
        return BadRequest;
      }
      var m := movie;
      m := m.(title := Some(CleanName(m.title)));
      if !MovieIsValid(m, currentYear) {
        return BadRequest;
      }
      var existing := movieRepository.GetByName(m.title.value);
      if existing.Some? {
        return BadRequest;
      }
      m := m.(id := Some(AssignedId(m.id, newGuid)));
      if m.starringActor.None? {
        // `movie.StarringActor.Where(...)` on a null list
        return InternalServerError;
      }
      m := m.(starringActor := Some(WithoutPlaceholders(m.starringActor.value)));
      movieRepository.Post(m);
      r := Created("api/movie/" + m.id.value, m);
    }

    /** `PUT api/movie/Update/{id}`. 400 for a blank route id or an invalid
        body; a body without an id throws (500); 400 when the ids differ
        after lower-casing and trimming, when the cleaned body fails
        validation, or when no movie has the id; a body without a cast
        throws (500). Otherwise the stored movie supplies the id, genre and
        cast the body leaves out, and every movie with the id takes the
        merged year, title, cast and genre. */
    method Put(id: string, movie: Movie, modelStateValid: bool, currentYear: int)
      returns (r: ActionResult<Movie>)
      modifies movieRepository
      ensures IsBlank(id) || !modelStateValid ==>
                r == BadRequest && movieRepository.movies == old(movieRepository.movies)
      ensures !IsBlank(id) && modelStateValid && movie.id.None? ==>
                r == InternalServerError && movieRepository.movies == old(movieRepository.movies)
      ensures !IsBlank(id) && modelStateValid && movie.id.Some? ==>
        var cleaned := movie.(title := Some(CleanName(movie.title)));
        var stored := old(movieRepository.GetById(Trim(id)));
        if Norm(id) != Norm(movie.id.value) || !MovieIsValid(cleaned, currentYear) || stored.None? then
          r == BadRequest && movieRepository.movies == old(movieRepository.movies)
        else if movie.starringActor.None? then
          r == InternalServerError && movieRepository.movies == old(movieRepository.movies)
        else
          var merged := Merged(cleaned, stored.value);
          && r == Ok(merged)
          && |movieRepository.movies| == |old(movieRepository.movies)|
          && forall i :: 0 <= i < |movieRepository.movies| ==>
               movieRepository.movies[i] ==
                 (if MovieHasId(old(movieRepository.movies)[i], id)
                 then MovieOverwritten(old(movieRepository.movies)[i], merged)
                 else old(movieRepository.movies)[i])
      ensures MovieIdsPresent(old(movieRepository.movies)) ==> MovieIdsPresent(movieRepository.movies)
    {
      if IsBlank(id) || !modelStateValid {
        return BadRequest;
      }
      if movie.id.None? {
        // `movie.Id.ToLower()` on a null id
        return InternalServerError;
      }
      if Norm(id) != Norm(movie.id.value) {
        return BadRequest;
      }
      var m := movie;
      m := m.(title := Some(CleanName(m.title)));
      if !MovieIsValid(m, currentYear) {
        return BadRequest;
      }
      var existing := movieRepository.GetById(Trim(id));
      if existing.None? {
        return BadRequest;
      }
      if m.starringActor.None? {
        // `movie.StarringActor.Where(...)` on a null list
        return InternalServerError;
      }
      NormOfTrim(id);
      m := Merged(m, existing.value);
      assert NormOpt(m.id) == Some(Norm(id));
      movieRepository.Put(m);
      r := Ok(m);
    }

    /** `PATCH api/movie/LinkActors/{id}`: 400 for a blank id, an empty list
        or an unknown movie; otherwise the actors whose id is exactly one of
        `actorIds` are looked up, their ids are appended to the cast of every
        movie with the id, and the actors found are returned, even when
        there are none. */
    method LinkActors(id: string, actorIds: seq<string>) returns (r: ActionResult<seq<Actor>>)
      modifies movieRepository
      ensures var found := actorRepository.GetByIds(actorIds);
        if IsBlank(id) || actorIds == []
           || forall i :: 0 <= i < |old(movieRepository.movies)| ==> !MovieHasId(old(movieRepository.movies)[i], id)
        then r == BadRequest && movieRepository.movies == old(movieRepository.movies)
        else
          && r == Ok(found)
          && |movieRepository.movies| == |old(movieRepository.movies)|
          && forall i :: 0 <= i < |movieRepository.movies| ==>
               movieRepository.movies[i] ==
                 if MovieHasId(old(movieRepository.movies)[i], id)
                 then ActorsAppended(old(movieRepository.movies)[i], ActorIds(found))
                 else old(movieRepository.movies)[i]
      ensures MovieIdsPresent(old(movieRepository.movies)) ==> MovieIdsPresent(movieRepository.movies)
    {
      if IsBlank(id) || |actorIds| < 1 {
        return BadRequest;
      }
      var existing := movieRepository.GetById(Trim(id));
      NormOfTrim(id);
      if existing.None? {
        return BadRequest;
      }
      var found := actorRepository.GetByIds(actorIds);
      movieRepository.LinkActors(Trim(id), ActorIds(found));
      LinkedByTrimmedId(old(movieRepository.movies), movieRepository.movies, id, ActorIds(found));
      r := Ok(found);
    }

    /** `DELETE api/movie/Delete/{id}`: 400 for a blank id, 404 for an
        unknown one; otherwise every movie with the id is removed, and no
        movie with the id remains. The repository's comparison is
        null-safe, so this delete never throws. */
    method Delete(id: string) returns (r: ActionResult<()>)
      modifies movieRepository
      ensures if IsBlank(id) then r == BadRequest && movieRepository.movies == old(movieRepository.movies)
              else if forall i :: 0 <= i < |old(movieRepository.movies)| ==> !MovieHasId(old(movieRepository.movies)[i], id)
              then r == NotFound && movieRepository.movies == old(movieRepository.movies)
              else
                && r == Ok(())
                && movieRepository.movies == Where(old(movieRepository.movies), (m: Movie) => !MovieHasId(m, Trim(id)))
                && forall i :: 0 <= i < |movieRepository.movies| ==> !MovieHasId(movieRepository.movies[i], id)
      ensures MovieIdsPresent(old(movieRepository.movies)) ==> MovieIdsPresent(movieRepository.movies)
    {
      if IsBlank(id) {
        return BadRequest;
      }
      var existing := movieRepository.GetById(Trim(id));
      NormOfTrim(id);
      if existing.None? {
        return NotFound;
      }
      movieRepository.Delete(Trim(id));
      RemovalByTrimmedId(old(movieRepository.movies), id);
      r := Ok(());
    }
  }
}
