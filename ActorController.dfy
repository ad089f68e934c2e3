/** `Movies.API.Controllers.ActorController`: the `api/actor` endpoints. Each
    action checks its input, cleans the body the way Swagger's placeholders
    require, and calls the actor repository (and, to link movies, the movie
    repository). An exception escaping an action becomes a 500. */
module ActorControllers {
  import opened Wrappers
  import opened Text
  import opened Linq
  import opened Modals
  import opened Http
  import opened Requests
  import opened ActorRepositories
  import opened MovieRepositories

  /** `TryValidateModel(actor)` after the names are cleaned: both names are
      `[Required(AllowEmptyStrings = false)]`, so neither may be `null` or
      blank. The birthday carries `[ValidDate]`, which fails on `null` and
      on "string", since `DateTime.TryParse` reads neither as a date; on any
      other text its verdict is `birthDayValid`. */
  predicate ActorIsValid(a: Actor, birthDayValid: bool)
    ensures ActorIsValid(a, birthDayValid) ==>
              a.firstName != Some("") && a.lastName != Some("") && !IsMissing(a.birthDay)
  {
    && a.firstName.Some? && !IsBlank(a.firstName.value)
    && a.lastName.Some? && !IsBlank(a.lastName.value)
    && !IsMissing(a.birthDay) && birthDayValid
  }

  /** `validMovieIds.Select(x => x.Id)`: the ids of movies that have one. */
  function MovieIds(movies: seq<Movie>): (r: seq<string>)
    requires forall i :: 0 <= i < |movies| ==> movies[i].id.Some?
    ensures |r| == |movies|
    ensures forall i :: 0 <= i < |movies| ==> movies[i].id == Some(r[i])
  {
    if movies == [] then [] else [movies[0].id.value] + MovieIds(movies[1..])
  }

  /** The body `Put` stores: an id or birthday left out (`null` or the
      placeholder) is taken from the stored actor, placeholders are dropped
      from the filmography, and a filmography left empty is the stored one. */
  function Merged(actor: Actor, stored: Actor): (r: Actor)
    requires actor.filmography.Some?
    ensures r.firstName == actor.firstName && r.lastName == actor.lastName
    ensures r.id == (if IsMissing(actor.id) then stored.id else actor.id)
    ensures r.birthDay == (if IsMissing(actor.birthDay) then stored.birthDay else actor.birthDay)
    ensures (forall f :: f in actor.filmography.value ==> f == Placeholder) ==>
              r.filmography == stored.filmography
    ensures (exists f :: f in actor.filmography.value && f != Placeholder) ==>
              && r.filmography == Some(WithoutPlaceholders(actor.filmography.value))
              && r.filmography.value != [] && Placeholder !in r.filmography.value
              && forall f :: f in actor.filmography.value && f != Placeholder ==> f in r.filmography.value
  {
    var films := WithoutPlaceholders(actor.filmography.value);
    actor.(id := if IsMissing(actor.id) then stored.id else actor.id,
           birthDay := if IsMissing(actor.birthDay) then stored.birthDay else actor.birthDay,
           filmography := if films == [] then stored.filmography else Some(films))
  }

  /** A body that passes validation has a birthday other than `null` and
      "string", so `Put`'s birthday fallback never applies: the merged
      actor keeps the birthday it was sent. */
  lemma BirthDayFallbackUnreachable(actor: Actor, stored: Actor, birthDayValid: bool)
    requires ActorIsValid(actor, birthDayValid) && actor.filmography.Some?
    ensures Merged(actor, stored).birthDay == actor.birthDay
  {
  }

  /** What `LinkMovies(id.Trim(), ids)` leaves, restated for the untrimmed
      id: the same actors match, and every actor keeps its id. */
  lemma LinkedByTrimmedId(before: seq<Actor>, after: seq<Actor>, id: string, ids: seq<string>)
    requires |after| == |before|
    requires forall i :: 0 <= i < |after| ==>
               after[i] == if ActorHasId(before[i], Trim(id)) then MoviesAppended(before[i], ids) else before[i]
    ensures forall i :: 0 <= i < |after| ==>
              after[i] == if ActorHasId(before[i], id) then MoviesAppended(before[i], ids) else before[i]
    ensures ActorIdsPresent(before) ==> ActorIdsPresent(after)
  {
    NormOfTrim(id);
  }

  /** What `Delete(id.Trim())` leaves: no actor with the id, and, if every
      actor had an id before, every actor still has one. */
  lemma RemovalByTrimmedId(before: seq<Actor>, id: string)
    ensures var after := Where(before, (a: Actor) => !ActorHasId(a, Trim(id)));
      && (forall i :: 0 <= i < |after| ==> !ActorHasId(after[i], id))
      && (ActorIdsPresent(before) ==> ActorIdsPresent(after))
  {
    NormOfTrim(id);
    var after := Where(before, (a: Actor) => !ActorHasId(a, Trim(id)));
    forall i | 0 <= i < |after|
      ensures !ActorHasId(after[i], id)
    {
      assert !ActorHasId(after[i], Trim(id));
    }
  }

  class ActorController {
    const actorRepository: ActorRepository
    const movieRepository: MovieRepository

    /** `new ActorController(handler, actorRepository, movieRepository)`;
        the resilience handler is never used by this controller. */
    constructor(actorRepository: ActorRepository, movieRepository: MovieRepository)
      ensures this.actorRepository == actorRepository && this.movieRepository == movieRepository
    {
      this.actorRepository := actorRepository;
      this.movieRepository := movieRepository;
    }

    /** `GET api/actor/GetById/{id}`: 400 for a blank id; otherwise the first
        actor whose id matches `id` after lower-casing and trimming, or 404. */
    function GetById(id: string): (r: ActionResult<Actor>)
      reads actorRepository
      ensures r.BadRequest? <==> IsBlank(id)
      ensures r.NotFound? <==> !IsBlank(id) && forall i :: 0 <= i < |actorRepository.actors| ==>
                                                !ActorHasId(actorRepository.actors[i], id)
      ensures r.BadRequest? || r.NotFound? || r.Ok?
      ensures r.Ok? ==> exists i :: 0 <= i < |actorRepository.actors| && actorRepository.actors[i] == r.value
                                    && ActorHasId(r.value, id)
                                    && forall j :: 0 <= j < i ==> !ActorHasId(actorRepository.actors[j], id)
    {
      if IsBlank(id) then BadRequest
      else
        NormOfTrim(id);
        match actorRepository.GetById(Trim(id))
        case None => NotFound
        case Some(actor) => Ok(actor)
    }

    /** `GET api/actor/GetByIds`: the placeholder ids are dropped; 400 when
        none is left, otherwise the actors whose id is exactly one of the
        remaining ids, in store order. It never answers 404. */
    function GetByIds(ids: seq<string>): (r: ActionResult<seq<Actor>>)
      reads actorRepository
      ensures r.BadRequest? <==> forall i :: 0 <= i < |ids| ==> ids[i] == Placeholder
      ensures r.BadRequest? || r.Ok?
      ensures r.Ok? ==> forall i :: 0 <= i < |r.value| ==>
                          r.value[i] in actorRepository.actors
                          && r.value[i].id.Some? && r.value[i].id.value in ids
                          && r.value[i].id.value != Placeholder
      ensures r.Ok? ==> forall i :: 0 <= i < |actorRepository.actors| ==>
                          var a := actorRepository.actors[i];
                          a.id.Some? && a.id.value in ids && a.id.value != Placeholder ==> a in r.value
    {
      var wanted := WithoutPlaceholders(ids);
      if |wanted| < 1 then BadRequest
      else Ok(actorRepository.GetByIds(wanted))
    }

    /** `POST api/actor/Create`. Rejects an invalid body and a body whose
        cleaned names are already taken (compared after lower-casing and
        trimming), leaving the store alone. Otherwise the actor gets a fresh
        id unless it brought one, its placeholder movie ids are dropped, and
        it is appended; a body without a filmography throws (500) after the
        name check. */
    method Post(actor: Actor, modelStateValid: bool, birthDayValid: bool, newGuid: string)
      returns (r: ActionResult<Actor>)
      modifies actorRepository
      ensures var first := CleanName(actor.firstName);
              var last := CleanName(actor.lastName);
              var cleaned := actor.(firstName := Some(first), lastName := Some(last));
              var taken := exists i :: 0 <= i < |old(actorRepository.actors)|
                                       && ActorHasName(old(actorRepository.actors)[i], first, last);
              if !modelStateValid || !ActorIsValid(cleaned, birthDayValid) || taken then
                r == BadRequest && actorRepository.actors == old(actorRepository.actors)
              else if actor.filmography.None? then
                r == InternalServerError && actorRepository.actors == old(actorRepository.actors)
              else
                var posted := cleaned.(id := Some(AssignedId(actor.id, newGuid)),
                                       filmography := Some(WithoutPlaceholders(actor.filmography.value)));
                && r == Created("api/actor/" + posted.id.value, posted)
                && actorRepository.actors == old(actorRepository.actors) + [posted]
      ensures ActorIdsPresent(old(actorRepository.actors)) ==> ActorIdsPresent(actorRepository.actors)
    {
      if !modelStateValid {
        return BadRequest;
      }
      var a := actor;
      a := a.(firstName := Some(CleanName(a.firstName)));
      a := a.(lastName := Some(CleanName(a.lastName)));
      if !ActorIsValid(a, birthDayValid) {
        return BadRequest;
      }
      var existing := actorRepository.GetByName(Trim(a.firstName.value), Trim(a.lastName.value));
      if existing.Some? {
        return BadRequest;
      }
      a := a.(id := Some(AssignedId(a.id, newGuid)));
      if a.filmography.None? {
        // `actor.Filmography.Where(...)` on a null list
        return InternalServerError;
      }
      a := a.(filmography := Some(WithoutPlaceholders(a.filmography.value)));
      actorRepository.Post(a);
      r := Created("api/actor/" + a.id.value, a);
    }

    /** `PUT api/actor/Update/{id}`. 400 for a blank route id or an invalid
        body; a body without an id throws (500); 400 when the ids differ
        after lower-casing and trimming, when the cleaned body fails
        validation, or when no actor has the id; a body without a
        filmography throws (500). Otherwise the stored actor supplies the id,
        birthday and filmography the body leaves out, and every actor with
        the id takes the merged names, birthday and filmography. */
    method Put(id: string, actor: Actor, modelStateValid: bool, birthDayValid: bool)
      returns (r: ActionResult<Actor>)
      modifies actorRepository
      ensures IsBlank(id) || !modelStateValid ==>
                r == BadRequest && actorRepository.actors == old(actorRepository.actors)
      ensures !IsBlank(id) && modelStateValid && actor.id.None? ==>
                r == InternalServerError && actorRepository.actors == old(actorRepository.actors)
      ensures !IsBlank(id) && modelStateValid && actor.id.Some? ==>
        var cleaned := actor.(firstName := Some(CleanName(actor.firstName)),
                              lastName := Some(CleanName(actor.lastName)));
        var stored := old(actorRepository.GetById(Trim(id)));
        if Norm(id) != Norm(actor.id.value) || !ActorIsValid(cleaned, birthDayValid) || stored.None? then
          r == BadRequest && actorRepository.actors == old(actorRepository.actors)
        else if actor.filmography.None? then
          r == InternalServerError && actorRepository.actors == old(actorRepository.actors)
        else
          var merged := Merged(cleaned, stored.value);
          && r == Ok(merged)
          && |actorRepository.actors| == |old(actorRepository.actors)|
          && forall i :: 0 <= i < |actorRepository.actors| ==>
               actorRepository.actors[i] ==
                 (if ActorHasId(old(actorRepository.actors)[i], id)
                 then ActorOverwritten(old(actorRepository.actors)[i], merged)
                 else old(actorRepository.actors)[i])
      ensures ActorIdsPresent(old(actorRepository.actors)) ==> ActorIdsPresent(actorRepository.actors)
    {
      if IsBlank(id) || !modelStateValid {
        return BadRequest;
      }
      if actor.id.None? {
        // `actor.Id.ToLower()` on a null id
        return InternalServerError;
      }
      if Norm(id) != Norm(actor.id.value) {
        return BadRequest;
      }
      var a := actor;
      a := a.(firstName := Some(CleanName(a.firstName)));
      a := a.(lastName := Some(CleanName(a.lastName)));
      if !ActorIsValid(a, birthDayValid) {
        return BadRequest;
      }
      var existing := actorRepository.GetById(Trim(id));
      if existing.None? {
        return BadRequest;
      }
      if a.filmography.None? {
        // `actor.Filmography.Where(...)` on a null list
        return InternalServerError;
      }
      NormOfTrim(id);
      a := Merged(a, existing.value);
      assert NormOpt(a.id) == Some(Norm(id));
      var outcome := actorRepository.Put(a);
      r := if outcome.Completed? then Ok(a) else InternalServerError;
    }

    /** `PATCH api/actor/LinkMovies/{id}`: 400 for a blank id, an empty list
        or an unknown actor; otherwise the movies whose id is exactly one of
        `movieIds` are looked up, their ids are appended to the filmography
        of every actor with the id, and the movies found are returned, even
        when there are none. */
    method LinkMovies(id: string, movieIds: seq<string>) returns (r: ActionResult<seq<Movie>>)
      modifies actorRepository
      ensures var found := movieRepository.GetByIds(movieIds);
        if IsBlank(id) || movieIds == []
           || forall i :: 0 <= i < |old(actorRepository.actors)| ==> !ActorHasId(old(actorRepository.actors)[i], id)
        then r == BadRequest && actorRepository.actors == old(actorRepository.actors)
        else
          && r == Ok(found)
          && |actorRepository.actors| == |old(actorRepository.actors)|
          && forall i :: 0 <= i < |actorRepository.actors| ==>
               actorRepository.actors[i] ==
                 if ActorHasId(old(actorRepository.actors)[i], id)
                 then MoviesAppended(old(actorRepository.actors)[i], MovieIds(found))
                 else old(actorRepository.actors)[i]
      ensures ActorIdsPresent(old(actorRepository.actors)) ==> ActorIdsPresent(actorRepository.actors)
    {
      if IsBlank(id) || |movieIds| < 1 {
        return BadRequest;
      }
      var existing := actorRepository.GetById(Trim(id));
      NormOfTrim(id);
      if existing.None? {
        return BadRequest;
      }
      var found := movieRepository.GetByIds(movieIds);
      actorRepository.LinkMovies(Trim(id), MovieIds(found));
      LinkedByTrimmedId(old(actorRepository.actors), actorRepository.actors, id, MovieIds(found));
      r := Ok(found);
    }

    /** `DELETE api/actor/Delete/{id}`: 400 for a blank id, 404 for an
        unknown one; otherwise every actor with the id is removed, unless
        some stored actor has no id, in which case the repository throws
        (500) and nothing changes. After a successful delete no actor has
        the id. In a store where every actor has an id, which every other
        action preserves, the delete never throws. */
    method Delete(id: string) returns (r: ActionResult<()>)
      modifies actorRepository
      ensures if IsBlank(id) then r == BadRequest && actorRepository.actors == old(actorRepository.actors)
              else if forall i :: 0 <= i < |old(actorRepository.actors)| ==> !ActorHasId(old(actorRepository.actors)[i], id)
              then r == NotFound && actorRepository.actors == old(actorRepository.actors)
              else if !ActorIdsPresent(old(actorRepository.actors))
              then r == InternalServerError && actorRepository.actors == old(actorRepository.actors)
              else
                && r == Ok(())
                && actorRepository.actors == Where(old(actorRepository.actors), (a: Actor) => !ActorHasId(a, Trim(id)))
                && forall i :: 0 <= i < |actorRepository.actors| ==> !ActorHasId(actorRepository.actors[i], id)
      ensures ActorIdsPresent(old(actorRepository.actors)) ==> ActorIdsPresent(actorRepository.actors) && !r.InternalServerError?
    {
      if IsBlank(id) {
        return BadRequest;
      }
      var existing := actorRepository.GetById(Trim(id));
      NormOfTrim(id);
      if existing.None? {
        return NotFound;
      }
      var outcome := actorRepository.Delete(Trim(id));
      if outcome.Threw? {
        return InternalServerError;
      }
      r := Ok(());
      RemovalByTrimmedId(old(actorRepository.actors), id);
    }
  }
}
