/** `Movies.Data.Repositories.ActorRepository`: the actor list kept in the
    memory cache under `ActorMemoryKey`. Reads are LINQ queries over the
    list; writes change it and store it back. */
module ActorRepositories {
  import opened Wrappers
  import opened Text
  import opened Linq
  import opened Modals
  import opened Configurations

  /** `x.Id?.ToLower().Trim() == id.ToLower().Trim()`: an actor whose id is
      `null` never matches. */
  predicate ActorHasId(a: Actor, id: string) {
    NormOpt(a.id) == Some(Norm(id))
  }

  /** The name comparison of `Get(firstName, lastName)`: both names, each
      lower-cased and trimmed on both sides. */
  predicate ActorHasName(a: Actor, firstName: string, lastName: string) {
    NormOpt(a.firstName) == Some(Norm(firstName)) && NormOpt(a.lastName) == Some(Norm(lastName))
  }

  /** `ids.Contains(x.Id!)`: exact, case-sensitive membership of the id. */
  predicate ActorIdIn(a: Actor, ids: seq<string>) {
    a.id.Some? && a.id.value in ids
  }

  /** Every actor has an id: the controllers keep this true, and it is what
      keeps `Delete` from throwing. */
  predicate ActorIdsPresent(actors: seq<Actor>) {
    forall i :: 0 <= i < |actors| ==> actors[i].id.Some?
  }

  /** Exactly one actor of `actors` has the id `id`. */
  ghost predicate HasIdOnce(actors: seq<Actor>, id: string) {
    exists k :: 0 <= k < |actors| && ActorHasId(actors[k], id)
                && forall i :: 0 <= i < |actors| && i != k ==> !ActorHasId(actors[i], id)
  }

  /** `item.Filmography?.AddRange(movieIds)`: the ids go to the end of the
      filmography, in order, duplicates kept; a `null` filmography stays `null`. */
  function MoviesAppended(a: Actor, movieIds: seq<string>): (r: Actor)
    ensures r.id == a.id && r.firstName == a.firstName && r.lastName == a.lastName && r.birthDay == a.birthDay
    ensures r.filmography.Some? <==> a.filmography.Some?
    ensures a.filmography.Some? ==> r.filmography.value == a.filmography.value + movieIds
  {
    match a.filmography
    case None => a
    case Some(films) => a.(filmography := Some(films + movieIds))
  }

  /** The list `init` leaves in the cache: the seed when the cached list is
      absent or empty, the cached list otherwise. */
  function Seeded(cached: seq<Actor>): (r: seq<Actor>)
    ensures r != []
    ensures cached == [] ==> r == SeedActors()
    ensures cached != [] ==> r == cached
  {
    if cached == [] then SeedActors() else cached
  }

  /** Running `init` again changes nothing. */
  lemma SeedingIdempotent(cached: seq<Actor>)
    ensures Seeded(Seeded(cached)) == Seeded(cached)
  {
  }

  /** On a fresh cache the store lists exactly one actor, with an id and
      both names. */
  lemma FreshStoreListing()
    ensures |Seeded([])| == 1
    ensures Seeded([])[0].id.Some? && Seeded([])[0].firstName.Some? && Seeded([])[0].lastName.Some?
  {
  }

  /** `item` after the loop body of `Put(actor)`: names, birthday and
      filmography come from `actor`, the id stays. */
  function ActorOverwritten(item: Actor, actor: Actor): (r: Actor)
    ensures r.id == item.id
    ensures r.firstName == actor.firstName && r.lastName == actor.lastName
    ensures r.birthDay == actor.birthDay && r.filmography == actor.filmography
    ensures item.id == actor.id ==> r == actor
  {
    item.(firstName := actor.firstName, lastName := actor.lastName,
          birthDay := actor.birthDay, filmography := actor.filmography)
  }

  /** Seeding keeps every actor with an id: the seed actor has one. */
  lemma SeededIdsPresent(cached: seq<Actor>)
    requires ActorIdsPresent(cached)
    ensures ActorIdsPresent(Seeded(cached))
  {
  }

  /** Filtering out the actors with an id leaves none with it, changes
      nothing when none had it, and drops exactly one when one had it. */
  lemma FilterById(before: seq<Actor>, id: string)
    ensures var after := Where(before, (a: Actor) => !ActorHasId(a, id));
      && (forall i :: 0 <= i < |after| ==> !ActorHasId(after[i], id))
      && ((forall i :: 0 <= i < |before| ==> !ActorHasId(before[i], id)) ==> after == before)
      && (HasIdOnce(before, id) ==> |after| == |before| - 1)
  {
    var keep := (a: Actor) => !ActorHasId(a, id);
    if forall i :: 0 <= i < |before| ==> !ActorHasId(before[i], id) {
      WhereKeepsAll(before, keep);
    }
    if HasIdOnce(before, id) {
      var k :| 0 <= k < |before| && ActorHasId(before[k], id)
               && forall i :: 0 <= i < |before| && i != k ==> !ActorHasId(before[i], id);
      WhereDropsOne(before, keep, k);
    }
  }

  class ActorRepository {
    /** The list cached under `ActorMemoryKey`; an absent entry reads as the
        empty list, as every method's `?? new List<Actor>()` does. */
    var actors: seq<Actor>

    /** `new ActorRepository(memoryCache)`, where `cached` is what the cache
        holds under `ActorMemoryKey`. */
    constructor(cached: seq<Actor>)
      ensures actors == Seeded(cached)
    {
      actors := cached;
      new;
      Init();
    }

    /** `init()`: seed an empty store. */
    method Init()
      modifies this
      ensures actors == Seeded(old(actors))
    {
      if |actors| == 0 {
        actors := SeedActors();
      }
    }

    /** `Get()`: the whole list. */
    function GetAll(): (r: seq<Actor>)
      reads this
      ensures r == actors
    {
      actors
    }

    /** `Get(id)`: the first actor whose normalised id is `Norm(id)`, or `null`. */
    function GetById(id: string): (r: Option<Actor>)
      reads this
      ensures r.None? <==> forall i :: 0 <= i < |actors| ==> !ActorHasId(actors[i], id)
      ensures r.Some? ==> exists i :: 0 <= i < |actors| && actors[i] == r.value && ActorHasId(actors[i], id)
                                      && forall j :: 0 <= j < i ==> !ActorHasId(actors[j], id)
    {
      FirstWhere(actors, (a: Actor) => ActorHasId(a, id))
    }

    /** `Get(ids)`: in store order, the actors whose id is literally one of
        `ids`; no case folding and no trimming here. */
    function GetByIds(ids: seq<string>): (r: seq<Actor>)
      reads this
      ensures |r| <= |actors|
      ensures forall i :: 0 <= i < |r| ==> r[i] in actors && ActorIdIn(r[i], ids)
      ensures forall i :: 0 <= i < |actors| && ActorIdIn(actors[i], ids) ==> actors[i] in r
    {
      Where(actors, (a: Actor) => ActorIdIn(a, ids))
    }

    /** `Get(firstName, lastName)`: the first actor with both names equal
        after lower-casing and trimming, or `null`. */
    function GetByName(firstName: string, lastName: string): (r: Option<Actor>)
      reads this
      ensures r.None? <==> forall i :: 0 <= i < |actors| ==> !ActorHasName(actors[i], firstName, lastName)
      ensures r.Some? ==> exists i :: 0 <= i < |actors| && actors[i] == r.value
                                      && ActorHasName(actors[i], firstName, lastName)
                                      && forall j :: 0 <= j < i ==> !ActorHasName(actors[j], firstName, lastName)
    {
      FirstWhere(actors, (a: Actor) => ActorHasName(a, firstName, lastName))
    }

    /** `Post(actor)`: append, with no check for an existing id or name. */
    method Post(actor: Actor)
      modifies this
      ensures actors == old(actors) + [actor]
      ensures actor.id.Some? && (forall i :: 0 <= i < |old(actors)| ==> !ActorHasId(old(actors)[i], actor.id.value))
              ==> GetById(actor.id.value) == Some(actor)
    {
      actors := actors + [actor];
      if actor.id.Some? && forall i :: 0 <= i < |old(actors)| ==> !ActorHasId(old(actors)[i], actor.id.value) {
        var last := |actors| - 1;
        assert ActorHasId(actors[last], actor.id.value);
        assert forall i :: 0 <= i < last ==> actors[i] == old(actors)[i];
      }
    }

    /** `Put(actor)`: throws on an empty store; otherwise overwrites the
        names, birthday and filmography of every actor whose normalised id
        equals the incoming one (both `null` also match), keeping its id. */
    method Put(actor: Actor) returns (outcome: Outcome)
      modifies this
      ensures outcome.Threw? <==> old(actors) == []
      ensures outcome.Threw? ==> outcome.exception == ArgumentNullException && actors == old(actors)
      ensures |actors| == |old(actors)|
      ensures forall i :: 0 <= i < |actors| ==>
        actors[i] == if NormOpt(old(actors)[i].id) == NormOpt(actor.id)
                     then ActorOverwritten(old(actors)[i], actor)
                     else old(actors)[i]
      ensures forall i :: 0 <= i < |actors| ==> actors[i].id == old(actors)[i].id
    {
      if |actors| == 0 {
        return Threw(ArgumentNullException);
      }
      var i := 0;
      while i < |actors|
        invariant 0 <= i <= |actors| == |old(actors)|
        invariant forall k :: 0 <= k < i ==>
          actors[k] == if NormOpt(old(actors)[k].id) == NormOpt(actor.id)
                       then ActorOverwritten(old(actors)[k], actor)
                       else old(actors)[k]
        invariant forall k :: i <= k < |actors| ==> actors[k] == old(actors)[k]
      {
        if NormOpt(actors[i].id) == NormOpt(actor.id) {
          var item := actors[i];
          item := item.(firstName := actor.firstName);
          item := item.(lastName := actor.lastName);
          item := item.(birthDay := actor.birthDay);
          item := item.(filmography := actor.filmography);
          actors := actors[i := item];
        }
        i := i + 1;
      }
      outcome := Completed;
    }

    /** `LinkMovies(actorId, movieIds)`: append `movieIds`, in order and
        without removing duplicates, to the filmography of every actor with
        the id. */
    method LinkMovies(actorId: string, movieIds: seq<string>)
      modifies this
      ensures |actors| == |old(actors)|
      ensures forall i :: 0 <= i < |actors| ==>
        actors[i] == if ActorHasId(old(actors)[i], actorId) then MoviesAppended(old(actors)[i], movieIds)
                     else old(actors)[i]
      ensures (forall i :: 0 <= i < |old(actors)| ==> !ActorHasId(old(actors)[i], actorId)) ==> actors == old(actors)
    {
      var i := 0;
      while i < |actors|
        invariant 0 <= i <= |actors| == |old(actors)|
        invariant forall k :: 0 <= k < i ==>
          actors[k] == if ActorHasId(old(actors)[k], actorId) then MoviesAppended(old(actors)[k], movieIds)
                       else old(actors)[k]
        invariant forall k :: i <= k < |actors| ==> actors[k] == old(actors)[k]
      {
        if ActorHasId(actors[i], actorId) {
          actors := actors[i := MoviesAppended(actors[i], movieIds)];
        }
        i := i + 1;
      }
      if forall k :: 0 <= k < |old(actors)| ==> !ActorHasId(old(actors)[k], actorId) {
        assert forall k :: 0 <= k < |actors| ==> actors[k] == old(actors)[k];
      }
    }

    /** `Delete(id)`: keep, in order, the actors whose normalised id differs
        from `id`. `a.Id!.ToLower()` throws on an actor whose id is `null`,
        and `ToList` visits every actor, so one such actor aborts the delete. */
    method Delete(id: string) returns (outcome: Outcome)
      modifies this
      ensures outcome.Threw? <==> exists i :: 0 <= i < |old(actors)| && old(actors)[i].id.None?
      ensures outcome.Threw? ==> outcome.exception == NullReferenceException && actors == old(actors)
      ensures outcome.Completed? ==> actors == Where(old(actors), (a: Actor) => !ActorHasId(a, id))
      ensures outcome.Completed? ==> GetById(id).None?
      ensures outcome.Completed? && (forall i :: 0 <= i < |old(actors)| ==> !ActorHasId(old(actors)[i], id))
              ==> actors == old(actors)
      ensures outcome.Completed? && HasIdOnce(old(actors), id) ==> |actors| == |old(actors)| - 1
    {
      if exists i :: 0 <= i < |actors| && actors[i].id.None? {
        return Threw(NullReferenceException);
      }
      FilterById(actors, id);
      actors := Where(actors, (a: Actor) => !ActorHasId(a, id));
      outcome := Completed;
    }
  }

  /** `Get(id)` folds case and trims, `Get(ids)` compares exactly: a query
      that differs from a stored id only in case or surrounding white space
      finds that actor by id but not among ids. */
  lemma ExactVersusNormalisedLookup(repo: ActorRepository, k: nat, query: string)
    requires k < |repo.actors| && repo.actors[k].id.Some?
    requires Norm(query) == Norm(repo.actors[k].id.value) && query != repo.actors[k].id.value
    ensures repo.GetById(query).Some?
    ensures repo.actors[k] !in repo.GetByIds([query])
  {
    assert ActorHasId(repo.actors[k], query);
  }
}
