# Star Wars catalog service — a verified model of its core

This project models the core of a catalog service for Star Wars characters,
films and starships. The service keeps the data in a relational store and
fills it from an external provider. Users can vote on films.

The modules follow the program's own layout:

- `Values` (values.dfy): decoded JSON values, records, the exceptions the core raises (as data), and the text routines the core relies on: ASCII case folding, case-insensitive substring search and decimal digits.
- `Repository` (repository.py): the generic repository.
  - A `Table` class holds the rows a session sees, the committed rows and the id sequence. Its methods are `create`, `update` (a merge), `delete`, `commit` and `rollback`.
  - The read queries `get`, `by_url`, `list`, `count` and `search` are functions of the rows.
  - Every entity's url column is unique, and NULLs are exempt.
- `Service` (service.py): the generic service.
  - Pagination with clamping, offset and page count, and the batched `list_all` walk.
  - `get` and `by_url`, which raise not-found; and `create`.
  - The insert-if-absent walk that the service tests assert for `add_characters` and `add_films`.
- `Characters`, `Films`, `Starships`: the three entities.
  - The character service's own `get`, `list` and `search`.
  - The film normaliser `Film.from_dict`.
  - The name and title searches.
- `CharacterSchema`: `CharacterOut.ensure_id`, which derives a character's id from the last path segment of its url.
- `Tasks`: the sync jobs (fetch, normalise, create each record, commit once) and the fan-out job that enqueues them.
- `Votes`: `VoteService.vote`, which checks ownership and then overwrites the score and feedback.
- `Users`: `UserService.create` (hash the password in place, insert, report a taken email) and `UserService.authenticate`.

Each method that changes state is proved against a specification function:
- `SyncJob` against `SyncRun`;
- `AddIfAbsent` against `AddRun`;
- `CastVote` against `VoteOutcome`.

Lemmas then state what the source promises about those functions.

Two points where the source says one thing in one place and another elsewhere:

- **Re-running a sync.** The sync jobs create every fetched record with no existence check (src/integrations/tasks.py:31-35, 49-53). So re-running one over records it has stored fails on the unique url (`Tasks.SyncRerunFails`) and commits nothing. The service tests separately assert an insert-if-absent walk (src/characters/test_service.py:10-41, src/films/tests/integration/test_film_service.py:68-83). It is modelled as `Service.AddIfAbsent`, and `Service.AddRunIdempotent` proves a second walk adds nothing.
- **Search limit.** The docstring of `search` says the default limit is 100 (src/repository.py:72). The query limits it to 50 (src/repository.py:80), and the model follows the query (`Repository.SearchLimit`).

## Model

| member | source | states |
|---|---|---|
| Repository.Get | src/repository.py:37-39 | the row with that primary key, or none exactly when no row has it |
| Repository.GetUnique | src/repository.py:37-39 | with ids in ascending order, `get` returns the one row holding the id |
| Repository.ByUrl | src/repository.py:41-46 | some row with that url, or none exactly when no row has it |
| Repository.ByUrlAtMostOne | src/repository.py:41-46 | with the url column unique, `by_url` returns the one row holding a non-NULL url |
| Repository.NotFoundByUrlIsFree | src/repository.py:41-46 | a url `by_url` does not find is free, so a create with it passes the unique constraint |
| Repository.List | src/repository.py:60-65 | the rows in id order from `offset` on, at most `limit` of them, none past the end |
| Repository.Count | src/repository.py:67-69 | in a table keyed by ascending ids, the count is the number of distinct primary keys |
| Repository.CountIsDistinctIds | src/repository.py:67-69 | `count` equals the number of distinct primary keys |
| Repository.DistinctKeysCountRows | src/repository.py:67-69 | with every url non-NULL and unique, the number of distinct urls equals `count` |
| Repository.MatchingOnlyMatches | src/repository.py:71-83 | every row the filter keeps is a table row whose search attribute contains the query ignoring case |
| Repository.MatchingKeepsAll | src/repository.py:71-83 | every table row whose search attribute contains the query is kept |
| Repository.MatchingOrdered | src/repository.py:71-83 | the kept rows stay in id order |
| Repository.MatchingSplit | src/repository.py:71-83 | matching a prefix and the rest, then joining, gives the matches of the whole table |
| Repository.Search | src/repository.py:71-83 | the first min(50, matches) matching rows in id order; empty exactly when nothing matches |
| Repository.SearchFinds | src/repository.py:71-83 | a matching row is returned when fewer than 50 matches come before it |
| Repository.InsertByIdRows | src/repository.py:48-53 | merging a new id adds exactly one row; every row afterwards is the new row or an old one |
| Repository.InsertByIdOrdered | src/repository.py:48-53 | merging a new id keeps the rows in id order |
| Repository.GetInsertById | src/repository.py:48-53 | after merging a new id, `get` finds the new row under it and what it found before under every other id |
| Repository.GetReplace | src/repository.py:48-53 | after overwriting an id, `get` finds the new row under it and what it found before under every other id |
| Repository.MergeGet | src/repository.py:48-53 | after `update`, `get` of that id yields the merged row, every other id what it yielded before, and id order holds |
| Repository.RemoveIdRows | src/repository.py:55-58 | after `delete`, every row left is an old row with another id, and every old row with another id is left |
| Repository.RemoveIdOrdered | src/repository.py:55-58 | after `delete`, the rows are still in id order and the unique column still unique |
| Repository.Table.Create | src/repository.py:29-35 | the object gets the next id and is visible at once; nothing is committed; a taken url is refused, and the failed flush leaves the session with the committed rows |
| Repository.Table.Update | src/repository.py:48-53 | the row with that id is overwritten (or inserted); a unique-value clash is refused, and the failed flush leaves the session with the committed rows |
| Repository.MergedRow | src/repository.py:48-53 | each row after a merge is the merged row or an untouched row with another id |
| Repository.MergeKeysUnique | src/repository.py:48-53 | a merge that gives no other row its unique value keeps the unique column unique |
| Repository.Table.Delete | src/repository.py:55-58 | the row with that id is removed; an object the session does not hold is refused |
| Repository.Table.Commit | src/integrations/tasks.py:36 | the session's rows become the committed rows |
| Repository.Table.Rollback | src/votes/service.py:48 | leaving a transaction by an exception drops the session's writes; the id sequence is not rewound |
| Service.PageCount | src/service.py:64 | the number of pages is ceil(total / page_size) for a non-empty table, 1 for an empty one |
| Service.ListPage | src/service.py:51-65 | page clamped to at least 1 and page_size to 1..1000; items are the slice at (page-1)*page_size; total is the row count; the envelope's field constraints hold |
| Service.FirstPageOfFive | src/characters/tests/integration/test_character_service.py:24-30 | with at least ten rows, page 1 of size 5 holds five rows |
| Service.Get | src/service.py:31-36 | the row with the id, or "ORM model with ID {id} not found." exactly when there is none |
| Service.ByUrl | src/service.py:38-43 | the row with the url, or the not-found error carrying the url exactly when there is none |
| Service.ListAll | src/service.py:67-75 | batches of at most 50 at offsets 0, 50, 100, ..., each non-empty, joined they are the whole table |
| Service.NextBatch | src/service.py:67-75 | one more non-empty batch at the current offset extends the rows fetched so far by the next slice of the table |
| Service.Create | src/service.py:23-25 | the repository's create, its result passed back unchanged |
| Service.AddRunAt | src/characters/test_service.py:10-41 | one record: a normalisation error ends the walk, a url already found skips it, a new url is created with the next id |
| Service.AddRunGrows | src/characters/test_service.py:10-41 | a successful walk keeps every row it started with, in place, and only appends |
| Service.ByUrlInPrefix | src/repository.py:41-46 | a url `by_url` finds among the first rows it still finds once more rows follow |
| Service.AddRunCovers | src/films/tests/integration/test_film_service.py:68-83 | a successful insert-if-absent walk only adds rows, and afterwards `by_url` finds every record's url |
| Service.AddRunNoop | src/characters/test_service.py:10-41 | records whose urls are all present change nothing |
| Service.AddRunIdempotent | src/films/tests/integration/test_film_service.py:68-83 | a second walk over the same records succeeds and adds nothing |
| Service.AddOne | src/characters/test_service.py:38-41 | look up by url; create through the service only when not found; the create cannot be refused |
| Service.AddIfAbsent | src/characters/test_service.py:10-41 | one transaction: the committed rows are the walk's result, or unchanged when a record fails to normalise |
| Characters.Get | src/characters/service.py:17-22 | the character with the id, or "Character with ID {id} not found." exactly when there is none |
| Characters.GetAgreesWithGeneric | src/characters/service.py:17-22 | same row as the generic `get` on success; a different not-found message otherwise |
| Characters.List | src/characters/service.py:24-38 | the character listing is the generic listing: same clamping, slice, total and page count |
| Characters.FirstPageOfFive | src/characters/tests/integration/test_character_service.py:24-30 | with at least ten characters, page 1 of size 5 holds the first five, and total >= 10 |
| Characters.Search | src/characters/repository.py:12-21 | characters whose name contains the query ignoring case, in id order, at most 50, a prefix of all matches; empty exactly when no name matches |
| Characters.ExactNameFound | src/characters/tests/integration/test_router.py:56-67 | searching a character's exact name returns that character, unless 50 earlier matches fill the page |
| Characters.PrefixFindsSomething | src/characters/tests/integration/test_character_service.py:63-67 | the first three letters of a stored name find at least one character |
| Characters.AddCharacters | src/characters/test_service.py:10-41 | `add_characters`: the committed rows are the insert-if-absent walk's result |
| Films.ReleaseDateOf | src/films/models.py:38-40 | a falsy release date is kept as given; a truthy one is parsed, and the parser's error passes through |
| Films.FromDict | src/films/models.py:35-49 | succeeds exactly when `title` is present and the release date parses; a date error wins over a missing title; the other columns are copied or NULL; no linked characters or starships |
| Films.FromDictIgnoresOtherKeys | src/films/models.py:42-49 | a key `from_dict` does not read makes no difference to the film |
| Films.FalsyReleaseDateNotParsed | src/films/models.py:38-40 | an absent or empty release date passes through unparsed, whatever the parser |
| Films.CreateFromDict | src/films/tests/integration/test_film_service.py:46-60 | `from_dict` then `create`: a `from_dict` error leaves the session as it was; otherwise the new row has the next id and the record's title, unless the url is taken, which is refused |
| Films.Search | src/repository.py:71-83 | the first min(50, matches) films whose title contains the query ignoring case, in id order; empty exactly when no title matches |
| Films.TitlePrefixFindsSomething | src/films/tests/integration/test_film_service.py:62-66 | the first three letters of a stored title find at least one film |
| Starships.Search | src/repository.py:71-83 | the first min(50, matches) starships whose name contains the query ignoring case, in id order; empty exactly when no name matches |
| Starships.ByUrlFindsTheStarship | src/repository.py:41-46 | with unique urls, `by_url` returns the one starship holding a url |
| CharacterSchema.RStripSlashes | src/characters/schemas.py:33 | `rstrip("/")`: a prefix of the path that does not end in a slash, followed in the path only by slashes |
| CharacterSchema.LastSegment | src/characters/schemas.py:33 | `split("/")[-1]`: a suffix of the text with no slash in it, preceded by a slash or the start |
| CharacterSchema.ParseId | src/characters/schemas.py:34-36 | `int(seg)` on digits: the segment's decimal value exactly when it is a non-empty run of at most 4300 digits, otherwise the id error |
| CharacterSchema.IdFromUrl | src/characters/schemas.py:33-36 | no url gives the id error; a derived id is the decimal value of the last path segment, a run of 1 to 4300 digits |
| CharacterSchema.EnsureId | src/characters/schemas.py:22-37 | a set id is kept; otherwise the derived id, or "Could not derive 'id' from 'url'"; no other field changes |
| CharacterSchema.StripIgnoresTrailingSlashes | src/characters/schemas.py:33 | stripping ignores any number of trailing slashes |
| CharacterSchema.LastSegmentAfterSlash | src/characters/schemas.py:33 | the last segment of `x/d` is `d` when `d` has no slash |
| CharacterSchema.PathTakes | src/characters/schemas.py:33 | text appended to an absolute url as a new path segment ends up at the end of its path |
| CharacterSchema.TrailingSlashesIgnored | src/characters/schemas.py:33 | trailing slashes on the url leave the derived id unchanged |
| CharacterSchema.CutDropsQueryAndFragment | src/characters/schemas.py:33 | splitting drops a query string or fragment appended to the url |
| CharacterSchema.CutDropsFragment | src/characters/schemas.py:33 | splitting drops a fragment appended to the url |
| CharacterSchema.CutDropsQuery | src/characters/schemas.py:33 | splitting drops a query string appended to the url, with whatever follows it |
| CharacterSchema.QueryAndFragmentIgnored | src/characters/schemas.py:33 | a query string or fragment leaves the derived id unchanged |
| CharacterSchema.AppendedSegment | src/characters/schemas.py:33 | the segment appended last to an absolute url is the one the id is read from |
| CharacterSchema.RoundTrip | src/characters/schemas.py:29-34 | a number of at most 4300 digits written as the last segment of an absolute url, with any number of trailing slashes, is derived back |
| CharacterSchema.OverlongSegmentRefused | src/characters/schemas.py:34-36 | a last segment of more than 4300 digits is refused with the id error |
| CharacterSchema.NonNumericSegmentRefused | src/characters/schemas.py:33-36 | a last segment that is not all digits is refused with the id error |
| CharacterSchema.SwapiExample | src/characters/schemas.py:29 | `https://swapi.info/api/people/1/` gives 1 |
| Tasks.SyncRunAppends | src/integrations/tasks.py:31-35 | a successful job creates one row per fetched record, in fetch order, with consecutive ids; an empty collection changes nothing |
| Tasks.SyncRunSucceeds | src/integrations/tasks.py:45-56 | a job succeeds exactly when every record normalises and the new urls are distinct and free |
| Tasks.SyncRerunFails | src/integrations/tasks.py:49-53 | with no existence check, re-running over stored records fails on the unique url |
| Tasks.SyncJob | src/integrations/tasks.py:45-56 | create each record in turn and commit once after the loop; any exception leaves the committed rows as they were |
| Tasks.SyncFilmsAsWritten | src/integrations/tasks.py:23-38 | any non-empty film collection ends in an exception and commits nothing |
| Tasks.FilmStepAsWrittenNeverSucceeds | src/integrations/tasks.py:33-35 | reading `title` off the fetched dict fails for every record that `from_dict` accepts |
| Tasks.SyncFilms | src/integrations/tasks.py:23-38 | the film job with the intended log line: the committed rows are the sync run over `from_dict` |
| Tasks.SyncFilmsInserts | src/integrations/tasks.py:27-36 | films that `from_dict` accepts and whose urls are fresh and distinct are all stored after the existing rows, which stay as they were, in fetch order, with consecutive ids and their titles |
| Tasks.SyncCharactersAsWritten | src/integrations/tasks.py:41-56 | any non-empty character collection ends in an exception and commits nothing |
| Tasks.CharacterStepAsWrittenNeverSucceeds | src/integrations/tasks.py:51-53 | calling `create` on the character service fails for every record that `from_dict` accepts |
| Tasks.SyncCharacters | src/integrations/tasks.py:41-56 | the character job with the generic service's create: the committed rows are the sync run over `Character.from_dict` |
| Tasks.SyncCharactersInserts | src/integrations/tasks.py:50-54 | with that create, characters that normalise with fresh distinct urls are all stored after the existing rows, in fetch order, with consecutive ids |
| Tasks.SyncStarships | src/integrations/tasks.py:59-74 | the starship job is the sync run over `Starship.from_dict` |
| Tasks.JobQueue.Enqueue | src/integrations/tasks.py:80 | `delay()` appends the job to the queue |
| Tasks.SyncPluginsWithDb | src/integrations/tasks.py:77-84 | enqueues the film, character and starship jobs, in that order, and touches no table |
| Votes.VoteOutcome | src/votes/service.py:44-62 | the lookup's not-found error, "Action not allowed." for another user's vote, or the vote with only its score and feedback replaced |
| Votes.NoClashOnVote | src/votes/service.py:59-61 | the vote keeps its (user, film) pair, so the update cannot break the pair's uniqueness |
| Votes.VoteTouchesOneRow | src/votes/service.py:53-61 | voting replaces the one row with that id, never creates a vote, and leaves the others alone |
| Votes.VoteKeepsScoresInRange | src/votes/router.py:29 | with a score in 1..5, every stored score stays in 1..5 |
| Votes.CastVote | src/votes/service.py:44-62 | the outcome on the transaction's rows; a success is committed, an error commits nothing |
| Users.CreateUser | src/users/service.py:24-39 | an empty password is refused before the transaction; the stored and the object's password is the hash; a taken email gives "User with email {email} already exists." and commits nothing |
| Users.ByEmail | src/users/repository.py:16-19 | the first user with that email, or none exactly when there is none |
| Users.Authenticate | src/users/service.py:41-60 | the user stored under the email when the password verifies; an unknown email and a wrong password give the same refusal |
| Users.AuthenticateStoredUser | src/utils/tests/test_password.py:19-29 | with a sound password service and unique emails, a stored user authenticates with its password and with no other |
| Users.CreatedUserAuthenticates | src/users/service.py:24-60 | the user `create` stores authenticates with the password it was created with, and with no other |

## Left out

- HTTP routers, the application, the Celery app and crontabs, event loops, session factories and logging: these are plumbing. The vote endpoint's score bounds appear only as a precondition of `Votes.VoteKeepsScoresInRange`.
- The provider client (`SwapiPlugin`): network I/O. The fetched collection is a parameter of each job.
- `datetime.fromisoformat`: a parameter `parse` of `Films.FromDict`.
- bcrypt: a parameter `Hasher`, with the soundness the password tests promise (`Users.Sound`).
- JWT and `UserService.token`: foreign cryptography.
- `Character.from_dict` and `Starship.from_dict` do not appear in the source files. Their normalisers are parameters.
- `Tasks.SyncCharacters`: `CharacterService` (src/characters/service.py:12-44) defines no `create`, so the job as written fails at its first record (`Tasks.SyncCharactersAsWritten`). This member assumes the generic service's `create` was meant.
- `Characters.AddCharacters`: `CharacterService` defines no `add_characters` and no `by_url`. The member models what the service test asserts, with the generic service's `by_url` and `create`.
- The characters table (src/characters/models.py) has no url column. The model gives characters the unique url column that the schema, the sync job and the service test rely on.
- `add_characters` and `add_films` have no implementation in the source files. The service tests assert them, and the model is the insert-if-absent walk.
- The generic update helper `update(id, attrs)` used by `VoteService.vote` is not in the source files. It is taken to set the named attributes on the row with that id and flush.
- The translation of a unique-constraint failure into `ORMDuplicateException` is not in the source files. `Users.CreateUser` takes the refused flush as that exception.
- The film-character and film-starship linking job, and the scrubbing of sentinel values, have no code in the source files.
- `Repository.Search`: models `ILIKE` as an ASCII case-insensitive substring test. `%` and `_` in a query are taken literally rather than as wildcards, and collation-dependent case folding is not modelled.
- `CharacterSchema.ParseId`: admits only runs of ASCII digits. Python's `int()` also accepts surrounding whitespace, a sign and underscores. The 4300-digit limit is CPython's default from 3.11 on.
- `CharacterSchema.EnsureId`: models `urlsplit` as `scheme://host/path[?query][#fragment]`. A url with no `://` is taken to be all path, and other forms of a url are not modelled.
- `Service.PageCount`: integer ceiling in place of `ceil(total / page_size)` on floats. The two agree for any total a float represents exactly.
- The Starship url column is NOT NULL. The model exempts NULL urls from uniqueness for every entity, so it allows a NULL starship url that the store would refuse.
- `Repository.Table.Create`: a refused insert does not consume an id in the model, where a PostgreSQL sequence skips one; ids stay increasing either way. After a failed flush the store refuses further work in the session until `rollback()`. The model leaves the session usable with the committed rows; every caller rolls back at once.
- `Repository.Table.Update`: a merge that inserts a row with an explicit id moves the id counter past that id, as SQLite's rowid does. A PostgreSQL sequence is not advanced, and the later clash with the sequence is not modelled. The one caller, `Votes.CastVote`, only overwrites existing rows.
- `Films.CreateFromDict`: the only column constraint modelled is the unique url. The store also refuses a NULL title (`Mapped[str]` is NOT NULL) and a release date that is neither NULL nor a datetime, such as the empty string `from_dict` passes through. The model stores both.
- `Tasks.SyncFilmsInserts`: for the same reason, a film with a NULL title or an empty-string release date is stored by the model and refused by the store. Likewise `characters.name` and the starship columns are NOT NULL in the store and unconstrained in the model, so the same applies to `Tasks.SyncCharactersInserts` and `Tasks.SyncStarships`.
- `Values.Value` has no fractional number and no JSON object. The fetched records hold strings, integers and lists, so nothing in the core depends on either.
- The `relationship` collections of a film are kept as lists of ids. A new film starts with both lists empty.

## Findings

| source | as written | input that shows it | evidently intended | confidence | as-written member | corrected member |
|---|---|---|---|---|---|---|
| src/integrations/tasks.py:34 | the log line reads `film.title` on the fetched record, which is a dict, so every record that `from_dict` accepts raises `AttributeError` before its create | any non-empty film collection, e.g. `[{"title": "A New Hope", "url": "https://swapi.info/api/films/1/"}]` | log the title of the built film (`isntance_obj.title`), as the character and starship jobs do | not executed | Tasks.SyncFilmsAsWritten | Tasks.SyncFilmsInserts |
| src/integrations/tasks.py:53 | the character job calls `service.create`, but `CharacterService` defines no `create`, so every record that `from_dict` accepts raises `AttributeError` | any non-empty character collection, e.g. `[{"name": "Luke Skywalker", "url": "https://swapi.info/api/people/1/"}]` | create through a service that has `create`, as the film and starship jobs do | not executed | Tasks.SyncCharactersAsWritten | Tasks.SyncCharactersInserts |
