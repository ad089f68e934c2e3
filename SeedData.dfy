/** `Movies.Data.Configurations`: the cache keys of the two collections and
    the record each collection is seeded with. */
module Configurations {
  import opened Wrappers
  import opened Modals
  import NumberParsing
  import DataAttributes

  /** `MemoryKeys.ActorMemoryKey` and `MemoryKeys.MovieMemoryKey`. */
  const ActorMemoryKey: string := "actors"
  const MovieMemoryKey: string := "movies"

  const SeedMovieId: string := "f8fb31ce-467a-4174-a799-ad2ec3b82384"
  const SeedActorId: string := "4c3bb8c9-5c4a-4c96-979a-6c47d9a620cd"

  /** `SeedData.SeedMovies()`: a new list holding "The Shawshank Redemption". */
  function SeedMovies(): (r: seq<Movie>)
    ensures |r| == 1 && r[0].id == Some(SeedMovieId) && r[0].starringActor == Some([SeedActorId])
  {
    [Movie(Some(SeedMovieId), Some("The Shawshank Redemption"), Some("1994"), Some("Drama"),
           Some([SeedActorId]))]
  }

  /** `SeedData.SeedActors()`: a new list holding Tim Robbins. */
  function SeedActors(): (r: seq<Actor>)
    ensures |r| == 1 && r[0].id == Some(SeedActorId) && r[0].filmography == Some([SeedMovieId])
  {
    [Actor(Some(SeedActorId), Some("Tim"), Some("Robbins"), Some("10-16-1958"),
           Some([SeedMovieId]))]
  }

  /** The two collections live under different keys of the one cache, so
      writing one never overwrites the other. */
  lemma MemoryKeysDistinct()
    ensures ActorMemoryKey != MovieMemoryKey
  {
  }

  /** Each seed list holds one record, with an id and the names or title
      and year set; the two records name each other, both ways and only each
      other. */
  lemma SeedRecordsLinked()
    ensures |SeedMovies()| == 1 && |SeedActors()| == 1
    ensures var m, a := SeedMovies()[0], SeedActors()[0];
      && m.id.Some? && m.title.Some? && m.year.Some?
      && a.id.Some? && a.firstName.Some? && a.lastName.Some?
      && m.starringActor == Some([a.id.value])
      && a.filmography == Some([m.id.value])
  {
  }

  /** The seed movie's year passes `ValidYearAttribute` in every year after 1994. */
  lemma SeedYearValid(currentYear: int)
    requires currentYear > 1994
    ensures DataAttributes.ValidYearIsValid(SeedMovies()[0].year, currentYear)
  {
    assert NumberParsing.Format(1994) == "1994";
    DataAttributes.AcceptsExactlyEarlierYears(1994, currentYear);
  }
}
