/** The two entities of `Movies.Data.Modals`. Every C# property is nullable,
    so each field is an Option; the `[Required]`, `[ValidDate]` and
    `[ValidYear]` annotations are checked by the framework, not here. */
module Modals {
  import opened Wrappers

  /** `Actor`: `Filmography` holds the ids of the actor's movies. */
  datatype Actor = Actor(
    id: Option<string>,
    firstName: Option<string>,
    lastName: Option<string>,
    birthDay: Option<string>,
    filmography: Option<seq<string>>)

  /** `Movie`: `StarringActor` holds the ids of the movie's actors. */
  datatype Movie = Movie(
    id: Option<string>,
    title: Option<string>,
    year: Option<string>,
    genre: Option<string>,
    starringActor: Option<seq<string>>)
}
