# movies-api, in Dafny

This project models the in-memory data layer and the request handling of
the movies-api ASP.NET Core service.

- **Two repositories.** `ActorRepository` and `MovieRepository` each keep one ordered list in the memory cache. Lookups compare ids, names and titles after `ToLower().Trim()`. Inserts append. Updates and links overwrite or extend every matching record. Delete is a filter.
- **Seed data.** A one-record seed list is stored when a repository is constructed and finds its list empty. The repositories are singletons, so a list that `Delete` empties later is not seeded again.
- **Two controllers.** `ActorController` and `MovieController` check the request and then do three things:
  - replace Swagger's placeholder literal `"string"` and `null` by defaults;
  - refuse duplicate names or titles;
  - merge an update with the stored record.
  They resolve links through the other repository. An exception that escapes an action becomes a 500, as `ExceptionHandlerMiddleware` answers.
- **Year validator.** `ValidYearAttribute` exists in two copies. It parses a `short` and accepts it only when it is below the current year.

## How the model is built

- **Repositories** are classes with one `seq` field standing in for the cache entry; an absent entry reads as the empty list, as every repository method's `?? new List<...>()` makes it. `Post`, `Put`, `LinkMovies`/`LinkActors`, `Delete` and `init` are methods with `modifies` clauses. `Put` and the link methods keep the source's `foreach` as a loop with invariants. The four `Get` overloads are functions with `reads` clauses. `Get()` is `GetAll`, which returns the list as it is.
- **Controllers** are classes holding their two repositories. The `Get` actions are functions. `Post`, `Put`, the link actions and `Delete` are methods. Each returns an `ActionResult`: `Ok`, `Created`, `BadRequest`, `NotFound` or `InternalServerError`.
- **Exceptions.** Two exception types, thrown in four places, are part of the model:
  - `ActorRepository.Delete` throws a `NullReferenceException` when a stored id is `null`;
  - `ActorRepository.Put` throws an `ArgumentNullException` on an empty store;
  - the controllers' `Put` throws a `NullReferenceException` on a body whose id is `null`;
  - `Enumerable.Where` in the controllers' `Post` and `Put` throws an `ArgumentNullException` on a `null` filmography or cast.

  The actor repository returns the first two as an `Outcome`. The controllers answer `InternalServerError` both for those and for the ones they raise themselves.
- **Inputs instead of calls.** `Guid.NewGuid()` is the parameter `newGuid`, `DateTime.Now.Year` is `currentYear`, and `ModelState.IsValid` is `modelStateValid`.
- **Validation.** `TryValidateModel` is computed from the attributes on the entity:
  - `[Required(AllowEmptyStrings = false)]` means not `null` and not blank;
  - a movie's year must also pass `ValidYearAttribute`;
  - an actor's birthday must be neither `null` nor "string", since `[ValidDate]` fails on both; its verdict on other text is the parameter `birthDayValid`.
- **Strings.** Strings are `seq<char>`. `char.IsWhiteSpace` uses .NET's exact character set. `ToLower` lowers ASCII letters. `short.TryParse` follows `NumberStyles.Integer`: surrounding white space U+0009..U+000D and U+0020, an optional sign, decimal digits, then the range [-32768, 32767].
- **Behaviour of the code worth knowing.**
  - Nothing keeps ids unique. `Post` appends whatever id the body brings, so `Put`, the link actions and `Delete` act on every record whose normalised id matches, not on one.
  - `Get(id)` compares normalised ids, but `Get(ids)` compares ids exactly; `ExactVersusNormalisedLookup` proves the difference.
  - `ActorRepository.Delete` dereferences every stored id, so a single actor without an id makes it throw. `MovieRepository.Delete` is null-safe. Every controller action keeps "every record has an id" true, so the throwing case cannot be reached through the API.
  - `Put` falls back to the stored birthday when the body's is `null` or "string", but validation has already refused such a body, so that fallback never applies; `BirthDayFallbackUnreachable` proves it.
  - `Put` returns the body's id as sent, which may differ in case or surrounding white space from the stored id it matched. The stored record equals the returned one field for field only when the two ids are equal.

## Model

| member | source | states |
|---|---|---|
| Text.Trim | Movies.Data/Repositories/ActorRepository/ActorRepository.cs:50 | trimming never lengthens a string; `TrimSpec` characterises the result |
| Text.TrimSpec | Movies.Data/Repositories/ActorRepository/ActorRepository.cs:50 | `Trim(s)` is a middle slice of `s` and everything cut off on either side is white space |
| Text.TrimEnds | Movies.Data/Repositories/ActorRepository/ActorRepository.cs:50 | a trimmed string neither starts nor ends with white space |
| Text.TrimEmpty | Movies.API/Controllers/ActorController.cs:52 | `Trim(s)` is empty exactly when `s` is blank (`IsNullOrWhiteSpace`) |
| Text.ToLower | Movies.Data/Repositories/ActorRepository/ActorRepository.cs:50 | `ToLower` keeps the length of the string |
| Text.LowerSlice | Movies.Data/Repositories/ActorRepository/ActorRepository.cs:50 | lowering a slice is slicing the lowered string, since each character is lowered in place |
| Text.Norm | Movies.Data/Repositories/ActorRepository/ActorRepository.cs:50 | the key `ToLower().Trim()` is never longer than the text it comes from |
| Text.NormOpt | Movies.Data/Repositories/ActorRepository/ActorRepository.cs:50 | the null-conditional `?.ToLower().Trim()` is `null` exactly when its input is |
| Text.TrimIdempotent | Movies.API/Controllers/ActorController.cs:96 | trimming an already trimmed name changes nothing |
| Text.LowerTrimCommute | Movies.Data/Repositories/ActorRepository/ActorRepository.cs:50 | lowering and trimming commute |
| Text.NormOfTrim | Movies.API/Controllers/ActorController.cs:55 | normalising `id.Trim()` gives the same key as normalising `id`, so the controllers' extra trim changes no lookup |
| Linq.Where | Movies.Data/Repositories/ActorRepository/ActorRepository.cs:34 | the filter keeps exactly the elements that pass, drawn from the input, never growing it |
| Linq.WhereAppend | Movies.Data/Repositories/ActorRepository/ActorRepository.cs:34 | filtering distributes over concatenation, so it keeps the input's order |
| Linq.WhereKeepsAll | Movies.Data/Repositories/ActorRepository/ActorRepository.cs:34 | a filter every element passes returns the input unchanged |
| Linq.WhereDropsOne | Movies.Data/Repositories/ActorRepository/ActorRepository.cs:34 | a filter that rejects exactly one position shortens the list by exactly one |
| Linq.WhereHead | Movies.Data/Repositories/ActorRepository/ActorRepository.cs:50 | the head of a non-empty filter is the first element that passes |
| Linq.FirstWhere | Movies.Data/Repositories/ActorRepository/ActorRepository.cs:50 | `Where(p).FirstOrDefault()` is `null` iff nothing passes, else the first element that passes |
| NumberParsing.ParseInteger | Movies.Data/Attributes/ValidYearAttribute.cs:14 | a plain run of decimal digits reads as its value; empty text is rejected |
| NumberParsing.ForeignRejected | Movies.Data/Attributes/ValidYearAttribute.cs:14 | text holding any character that is not a digit, number white space or a sign is no integer |
| NumberParsing.ReadsSignedDigits | Movies.Data/Attributes/ValidYearAttribute.cs:14 | white space, an optional sign, a digit run and white space read as the signed value of the digits |
| NumberParsing.ParsedIsWellFormed | Movies.Data/Attributes/ValidYearAttribute.cs:14 | every text that parses is white space, an optional sign, a digit run and white space, in that order; "1 2", "1-", "+" and "--1" do not parse |
| NumberParsing.ParsesExactlyIntegerText | Movies.Data/Attributes/ValidYearAttribute.cs:14 | parsing succeeds if and only if the text has the `NumberStyles.Integer` form |
| NumberParsing.TryParseInt16 | Movies.Data/Attributes/ValidYearAttribute.cs:14 | a successful parse lies in the 16-bit range and is the integer the text spells; a failure on well-formed text means it is out of range |
| NumberParsing.DecimalDigits | Movies.Data/Attributes/ValidYearAttribute.cs:14 | the decimal digits of `n` are a digit run whose value is `n` |
| NumberParsing.ParseFormat | Movies.Data/Attributes/ValidYearAttribute.cs:14 | parsing reads back every integer's decimal text |
| NumberParsing.TryParseInt16Format | Movies.Data/Attributes/ValidYearAttribute.cs:14 | `short.TryParse(n.ToString())` yields `n` iff `n` is in [-32768, 32767], otherwise fails |
| DataAttributes.ValidYearIsValid | Movies.Data/Attributes/ValidYearAttribute.cs:10-21 | only present text can be valid, and only when the current year is above the 16-bit minimum |
| DataAttributes.RejectsUnparsable | Movies.Data/Attributes/ValidYearAttribute.cs:14-18 | `null`, and every text not of the `NumberStyles.Integer` form (a foreign character, a misplaced sign, white space between digits, no digit), are invalid in every year |
| DataAttributes.RejectsOutOfRange | Movies.Data/Attributes/ValidYearAttribute.cs:12-18 | the text of any number outside the 16-bit range is invalid in every year |
| DataAttributes.Rejects40000 | Movies.Data/Attributes/ValidYearAttribute.cs:12-18 | "40000" is invalid |
| DataAttributes.AcceptsExactlyEarlierYears | Movies.Data/Attributes/ValidYearAttribute.cs:20 | a 16-bit year is valid iff it is strictly below the current year |
| DataAttributes.RejectsCurrentYear | Movies.Data/Attributes/ValidYearAttribute.cs:20 | the current year itself is invalid |
| DataAttributes.AcceptsZeroAndNegative | Movies.Data/Attributes/ValidYearAttribute.cs:20 | "0" and "-1" are valid: there is no lower bound |
| DataAttributes.DownwardClosed | Movies.Data/Attributes/ValidYearAttribute.cs:20 | any parsable text with a value no larger than a valid year's is valid |
| SqlServerAttributes.ValidYearIsValid | Movies.Driver.SqlServer/Attributes/ValidYearAttribute.cs:7-18 | only present text can be valid, and only when the current year is above the 16-bit minimum |
| SqlServerAttributes.AgreesWithDataAttribute | Movies.Driver.SqlServer/Attributes/ValidYearAttribute.cs:7-18 | the SQL Server copy gives the same verdict as the data-layer attribute on every input |
| SqlServerAttributes.AcceptsExactlyEarlierYears | Movies.Driver.SqlServer/Attributes/ValidYearAttribute.cs:9-17 | the text of `n` is valid iff `n` is 16-bit and below the current year; `null` is invalid |
| Configurations.SeedMovies | Movies.Data/Configurations/SeedData.cs:14-32 | the movie seed is one movie with the fixed movie id whose cast is exactly the seed actor's id |
| Configurations.SeedActors | Movies.Data/Configurations/SeedData.cs:34-49 | the actor seed is one actor with the fixed actor id whose filmography is exactly the seed movie's id |
| Configurations.MemoryKeysDistinct | Movies.Data/Configurations/SeedData.cs:8-9 | the actor and movie cache keys differ |
| Configurations.SeedRecordsLinked | Movies.Data/Configurations/SeedData.cs:14-49 | each seed list holds one record with its id and names or title and year set, and the movie's cast is exactly the actor's id and the actor's filmography exactly the movie's id |
| Configurations.SeedYearValid | Movies.Data/Configurations/SeedData.cs:24 | the seed movie's year "1994" passes the year validator in every later year |
| Requests.CleanName | Movies.API/Controllers/ActorController.cs:87-89 | a cleaned name is "" when the body's name was `null` or "string", and otherwise exactly its trim; either way trimming it again changes nothing |
| Requests.AssignedId | Movies.API/Controllers/ActorController.cs:101 | a `null` or "string" id becomes the fresh GUID; any other becomes exactly its trim, case kept, and so keeps its normalised key |
| Requests.WithoutPlaceholders | Movies.API/Controllers/ActorController.cs:67 | no "string" survives, every other entry does, nothing new appears, and the result is empty iff every entry was "string" |
| ActorRepositories.MoviesAppended | Movies.Data/Repositories/ActorRepository/ActorRepository.cs:107 | `Filmography?.AddRange`: the ids go to the end of a present filmography; a `null` one stays `null`; other fields untouched |
| ActorRepositories.Seeded | Movies.Data/Repositories/ActorRepository/ActorRepository.cs:18-28 | the list after `init` is never empty: the seed for an empty cache, the cached list otherwise |
| ActorRepositories.SeedingIdempotent | Movies.Data/Repositories/ActorRepository/ActorRepository.cs:18-28 | running `init` twice equals running it once |
| ActorRepositories.FreshStoreListing | Movies.API.Test/APITest.cs:79-85 | on a fresh cache the store lists exactly one actor, with an id and both names |
| ActorRepositories.SeededIdsPresent | Movies.Data/Repositories/ActorRepository/ActorRepository.cs:18-28 | seeding keeps every stored actor with an id |
| ActorRepositories.ActorRepository.constructor | Movies.Data/Repositories/ActorRepository/ActorRepository.cs:11-16 | construction runs `init` on the cached list |
| ActorRepositories.ActorRepository.Init | Movies.Data/Repositories/ActorRepository/ActorRepository.cs:18-28 | an empty store becomes the seed; a non-empty one is untouched |
| ActorRepositories.ActorRepository.GetAll | Movies.Data/Repositories/ActorRepository/ActorRepository.cs:39-44 | `Get()` hands out the stored list itself, unfiltered and in store order |
| ActorRepositories.ActorRepository.GetById | Movies.Data/Repositories/ActorRepository/ActorRepository.cs:46-53 | `null` iff no actor's normalised id equals the key, else the first actor that matches |
| ActorRepositories.ActorRepository.GetByIds | Movies.Data/Repositories/ActorRepository/ActorRepository.cs:55-62 | exactly the stored actors whose id is literally in `ids` |
| ActorRepositories.ActorRepository.GetByName | Movies.Data/Repositories/ActorRepository/ActorRepository.cs:64-72 | `null` iff no actor matches both names case-insensitively after trimming, else the first that does |
| ActorRepositories.ActorRepository.Post | Movies.Data/Repositories/ActorRepository/ActorRepository.cs:74-81 | the actor is appended and nothing else changes; when its id was new, looking it up finds it |
| ActorRepositories.ActorOverwritten | Movies.Data/Repositories/ActorRepository/ActorRepository.cs:92-95 | the loop body of `Put` copies first name, last name, birthday and filmography from the incoming actor whatever the ids, never changes the stored id, and so leaves exactly the incoming actor when the two ids are equal |
| ActorRepositories.ActorRepository.Put | Movies.Data/Repositories/ActorRepository/ActorRepository.cs:83-99 | throws iff the store is empty, changing nothing; else every actor whose normalised id matches takes the four fields, keeping its id, and the others and the length stay |
| ActorRepositories.ActorRepository.LinkMovies | Movies.Data/Repositories/ActorRepository/ActorRepository.cs:101-111 | every matching actor gets the ids appended to its filmography, the others stay, length kept; an unknown id changes nothing |
| ActorRepositories.FilterById | Movies.Data/Repositories/ActorRepository/ActorRepository.cs:34 | after filtering out the id no actor has it; when none had it the list is unchanged; a single match shortens the list by one |
| ActorRepositories.ActorRepository.Delete | Movies.Data/Repositories/ActorRepository/ActorRepository.cs:30-37 | throws iff some actor has no id; else keeps, in order, exactly the non-matching actors, after which the id is not found; an absent id changes nothing; a unique match shortens the list by one |
| ActorRepositories.ExactVersusNormalisedLookup | Movies.Data/Repositories/ActorRepository/ActorRepository.cs:46-62 | a key differing from a stored id only in case or white space finds it by `Get(id)` but not by `Get(ids)` |
| MovieRepositories.ActorsAppended | Movies.Data/Repositories/MovieRepository/MovieRepository.cs:101 | `StarringActor?.AddRange`: the ids go to the end of a present cast; a `null` cast stays `null`; other fields untouched |
| MovieRepositories.Seeded | Movies.Data/Repositories/MovieRepository/MovieRepository.cs:18-28 | the list after `init` is never empty: the seed for an empty cache, the cached list otherwise |
| MovieRepositories.SeedingIdempotent | Movies.Data/Repositories/MovieRepository/MovieRepository.cs:18-28 | running `init` twice equals running it once |
| MovieRepositories.FreshStoreListing | Movies.Data/Repositories/MovieRepository/MovieRepository.cs:18-28 | on a fresh cache the store lists exactly one movie, with an id, a title and a year |
| MovieRepositories.SeededIdsPresent | Movies.Data/Repositories/MovieRepository/MovieRepository.cs:18-28 | seeding keeps every stored movie with an id |
| MovieRepositories.MovieRepository.constructor | Movies.Data/Repositories/MovieRepository/MovieRepository.cs:11-16 | construction runs `init` on the cached list |
| MovieRepositories.MovieRepository.Init | Movies.Data/Repositories/MovieRepository/MovieRepository.cs:18-28 | an empty store becomes the seed; a non-empty one is untouched |
| MovieRepositories.MovieRepository.GetAll | Movies.Data/Repositories/MovieRepository/MovieRepository.cs:39-44 | `Get()` hands out the stored list itself, unfiltered and in store order |
| MovieRepositories.MovieRepository.GetById | Movies.Data/Repositories/MovieRepository/MovieRepository.cs:46-53 | `null` iff no movie's normalised id equals the key, else the first movie that matches |
| MovieRepositories.MovieRepository.GetByIds | Movies.Data/Repositories/MovieRepository/MovieRepository.cs:55-60 | exactly the stored movies whose id is literally in `ids` |
| MovieRepositories.MovieRepository.GetByName | Movies.Data/Repositories/MovieRepository/MovieRepository.cs:62-69 | `null` iff no title matches case-insensitively after trimming, else the first movie that does |
| MovieRepositories.MovieRepository.Post | Movies.Data/Repositories/MovieRepository/MovieRepository.cs:71-78 | the movie is appended and nothing else changes; when its id was new, looking it up finds it |
| MovieRepositories.MovieOverwritten | Movies.Data/Repositories/MovieRepository/MovieRepository.cs:86-89 | the loop body of `Put` copies year, title, cast and genre from the incoming movie whatever the ids, never changes the stored id, and so leaves exactly the incoming movie when the two ids are equal |
| MovieRepositories.MovieRepository.Put | Movies.Data/Repositories/MovieRepository/MovieRepository.cs:80-93 | never throws; every movie whose normalised id matches takes year, title, cast and genre, keeping its id; the others and the length stay |
| MovieRepositories.MovieRepository.LinkActors | Movies.Data/Repositories/MovieRepository/MovieRepository.cs:95-105 | every matching movie gets the ids appended to its cast, the others stay, length kept; an unknown id changes nothing |
| MovieRepositories.FilterById | Movies.Data/Repositories/MovieRepository/MovieRepository.cs:34 | after filtering out the id no movie has it; movies without an id stay; when none had it the list is unchanged; a single match shortens the list by one |
| MovieRepositories.MovieRepository.Delete | Movies.Data/Repositories/MovieRepository/MovieRepository.cs:30-37 | keeps, in order, exactly the non-matching movies, after which the id is not found; movies without an id are always kept; an absent id changes nothing; a unique match shortens the list by one |
| MovieRepositories.ExactVersusNormalisedLookup | Movies.Data/Repositories/MovieRepository/MovieRepository.cs:46-60 | a key differing from a stored id only in case or white space finds it by `Get(id)` but not by `Get(ids)` |
| ActorControllers.ActorIsValid | Movies.Data/Modals/Actor.cs:13-23 | a valid actor has neither name empty, so a name sent as `null` or "string" is refused, and has a birthday other than `null` and "string" |
| ActorControllers.BirthDayFallbackUnreachable | Movies.API/Controllers/ActorController.cs:136-137 | a body that passes validation keeps its own birthday through the merge: the fallback to the stored birthday never applies |
| ActorControllers.MovieIds | Movies.API/Controllers/ActorController.cs:173 | `Select(x => x.Id)`: one id per movie found, in order |
| ActorControllers.Merged | Movies.API/Controllers/ActorController.cs:133-142 | names are kept; a `null` or "string" id or birthday falls back to the stored one; a filmography of only "string" entries (or none) falls back to the stored one, any other becomes the body's list without "string", keeping every other entry |
| ActorControllers.LinkedByTrimmedId | Movies.API/Controllers/ActorController.cs:173 | linking by `id.Trim()` updates exactly the actors that match `id`, and keeps every actor with an id |
| ActorControllers.RemovalByTrimmedId | Movies.API/Controllers/ActorController.cs:192 | deleting by `id.Trim()` leaves no actor with the id and keeps every actor with an id |
| ActorControllers.ActorController.constructor | Movies.API/Controllers/ActorController.cs:20-27 | the controller holds the two repositories it is given |
| ActorControllers.ActorController.GetById | Movies.API/Controllers/ActorController.cs:50-61 | 400 iff the id is blank; 404 iff it is not blank and no actor matches; else 200 with the first matching actor |
| ActorControllers.ActorController.GetByIds | Movies.API/Controllers/ActorController.cs:65-78 | 400 iff every id is "string"; else always 200, never 404, with exactly the actors whose id is literally one of the other ids |
| ActorControllers.ActorController.Post | Movies.API/Controllers/ActorController.cs:82-108 | 400 with the store unchanged for an invalid body or taken names; 500 for a missing filmography; else 201 at `api/actor/{id}` with cleaned names, assigned id and filtered filmography, appended to the store; every action keeps all ids present |
| ActorControllers.ActorController.Put | Movies.API/Controllers/ActorController.cs:112-147 | 400 with the store unchanged for a blank or mismatched id, an invalid body or an unknown actor; 500 for a missing id or filmography; else 200 with the merged body, and every actor matching `id` overwritten by it, keeping its own id; the others and the length stay; every action keeps all ids present |
| ActorControllers.ActorController.LinkMovies | Movies.API/Controllers/ActorController.cs:151-176 | 400 with the store unchanged for a blank id, an empty list or an unknown actor; else 200 with the movies found by exact id, whose ids are appended to every matching actor, even when none was found |
| ActorControllers.ActorController.Delete | Movies.API/Controllers/ActorController.cs:180-195 | 400 for a blank id, 404 for an unknown one, 500 if some actor has no id, else 200 with exactly the matches removed and no actor left with the id; never 500 in a store where every actor has an id |
| MovieControllers.MovieIsValid | Movies.Data/Modals/Movie.cs:12-17 | a valid movie has a non-empty title and a year that parses as a 16-bit integer below the current year |
| MovieControllers.PlaceholderTitleInvalid | Movies.API/Controllers/MovieController.cs:81-86 | a `null` or "string" title is cleaned to "" and then fails validation |
| MovieControllers.FutureYearInvalid | Movies.API/Controllers/MovieController.cs:83-86 | a body whose year is the current year or later fails validation |
| MovieControllers.ActorIds | Movies.API/Controllers/MovieController.cs:163 | `Select(x => x.Id)`: one id per actor found, in order |
| MovieControllers.Merged | Movies.API/Controllers/MovieController.cs:123-132 | title and year are kept; a `null` or "string" id or genre falls back to the stored one; a cast of only "string" entries (or none) falls back to the stored one, any other becomes the body's list without "string", keeping every other entry |
| MovieControllers.LinkedByTrimmedId | Movies.API/Controllers/MovieController.cs:163 | linking by `id.Trim()` updates exactly the movies that match `id`, and keeps every movie with an id |
| MovieControllers.RemovalByTrimmedId | Movies.API/Controllers/MovieController.cs:183 | deleting by `id.Trim()` leaves no movie with the id and keeps every movie with an id |
| MovieControllers.MovieController.constructor | Movies.API/Controllers/MovieController.cs:21-27 | the controller holds the two repositories it is given |
| MovieControllers.MovieController.GetById | Movies.API/Controllers/MovieController.cs:45-56 | 400 iff the id is blank; 404 iff it is not blank and no movie matches; else 200 with the first matching movie |
| MovieControllers.MovieController.GetByIds | Movies.API/Controllers/MovieController.cs:59-72 | 400 iff every id is "string"; else always 200, never 404, with exactly the movies whose id is literally one of the other ids |
| MovieControllers.MovieController.Post | Movies.API/Controllers/MovieController.cs:76-100 | 400 with the store unchanged for an invalid body (including the year rule) or a taken title; 500 for a missing cast; else 201 at `api/movie/{id}` with cleaned title, assigned id and filtered cast, appended to the store |
| MovieControllers.MovieController.Put | Movies.API/Controllers/MovieController.cs:104-137 | 400 with the store unchanged for a blank or mismatched id, an invalid body or an unknown movie; 500 for a missing id or cast; else 200 with the merged body, and every movie matching `id` overwritten by it, keeping its own id; the others and the length stay |
| MovieControllers.MovieController.LinkActors | Movies.API/Controllers/MovieController.cs:141-166 | 400 with the store unchanged for a blank id, an empty list or an unknown movie; else 200 with the actors found by exact id, whose ids are appended to every matching movie |
| MovieControllers.MovieController.Delete | Movies.API/Controllers/MovieController.cs:171-186 | 400 for a blank id, 404 for an unknown one, else 200 with exactly the matches removed and no movie left with the id |

## Left out

- `Movies.API/Handler/ResilientOperationHandler.cs` is not part of this model. It configures Polly retries and a circuit breaker, and it is asynchronous and timed. The parameterless `MovieController.Get()` only runs that wrapper, and the parameterless `ActorController.Get()` only returns the list, so both are left out.
- `GenerateError` in both controllers is left out: it always throws.
- `ExceptionHandlerMiddleware`, `Startup`, dependency injection and the PostgreSQL and SQL Server contexts are not part of this model. The middleware's only trace here is that an escaping exception becomes `InternalServerError`.
- The memory cache itself is left out. Each repository holds one sequence, so concurrent read-modify-write on the shared cache is not modelled.
- Entities are values, so aliasing of the live `List` objects is not modelled:
  - `Get()` hands out the cached list itself;
  - `Put` stores one list object in every matching record;
  - `AddRange` then extends every record that shares that list;
  - `Where` results are enumerated lazily.
- A `null` request body and a `null` id list are not modelled; route ids are non-null strings.
- Entries of a request's lists (filmography, cast, id lists) are never `null` in the model, since they are `seq<string>`. The source keeps a `null` entry through its `x != "string"` filters (ActorController.cs:67, 103 and 139; MovieController.cs:61, 95 and 129).
- Text.ToLower: only ASCII letters are lowered. .NET's culture-sensitive `ToLower` also lowers other letters, so two ids that differ only in non-ASCII case compare unequal in this model.
- NumberParsing.TryParseInt16: trailing NUL characters and culture-specific sign symbols, which `short.TryParse` also accepts, are rejected here.
- ActorControllers.ActorIsValid: `ValidDateAttribute` is modelled only on `null` and "string", which it always refuses. On other text, `DateTime.TryParse` depends on the culture and the comparison with `DateTime.Now` depends on the clock, so that verdict is the input `birthDayValid`.
- ActorControllers.ActorController.Post: `ModelState.IsValid`, the framework's verdict on the raw body before any cleaning, is the input `modelStateValid`. The same holds for `Put` in both controllers and for `MovieControllers.MovieController.Post`.
