# FileStorage metadata table, in Dafny

This project models the reference-counted metadata core of the FileStorage service. It covers
the `files` table and the operations that read and change it. The table is a finite map
from file id to row. A row holds `hash`, `absolute_path`, `name` and `links_count`.

Three layers of the service work on that table:

- **FileSqlRepository**: the data-access class. Each of its methods sends one SQL statement.
  The three methods that write (`TryDecreaseLinksCount`, `SaveFileSummaryToDatabase`,
  `IncreaseLinksCount`) and `DeleteFile` become atomic transitions returning a
  `Transition<T>`. A transition pairs what the call returned or threw with the table
  afterwards. `GetFileSummary` only reads: it returns an `Outcome<FileSummary>` and no table.
  `GetIdByHash` is a method returning an optional id, because the server may pick any of
  several matching rows.
- **FileService**: an older class with the same increment and decrement. It signals a
  missing file with its own `FileDoesNotExistExistException` and does not translate the
  database's error when a count would go negative.
- **The HTTP handlers** in `Program.cs`, reduced to pure functions. They map what the
  service returned or threw to `Ok`, `NotFound`, `Conflict` or `Problem`.

The database behaviour the code relies on is modelled in module `Sql`. There is one
function per statement. The check constraint `non_negative_links_count` (SQLSTATE 23514)
applies to every write: a statement that would leave a negative count fails as a whole and
leaves the table unchanged. C# exceptions are values of `Exceptions.Exception`. Their
classes form a single-inheritance hierarchy (`Exceptions.IsA`). A sequence of `catch`
clauses picks the first clause whose class the thrown exception is an instance of
(`Exceptions.FirstHandler`).

Files: `exceptions.dfy` (classes, catch selection, `Outcome`), `model.dfy` (ids, rows,
table, invariants, .NET white space), `sql.dfy` (statements), `repository.dfy`,
`service.dfy`, `endpoints.dfy`, `lifecycle.dfy` (operation sequences, and agreement between
the repository and the service).

Two facts about the code shape the model:

- `TryDecreaseLinksCount` only decrements. No code in the files modelled calls `DeleteFile`,
  so no row is removed when its count reaches 0.
- `SaveFileSummaryToDatabase` inserts unconditionally. It never reports that a file with
  the same id or hash already exists.

## Model

| member | source | states |
|---|---|---|
| `Exceptions.Parent` | src/FileStorage/FileStorage/Services/Exceptions/FileDoesNotExistException.cs:7-8 | every class but `Exception` has one direct base class, one level closer to the root; the three service-layer exceptions derive directly from InvalidOperationException; the database classes' parents stay on the `ExternalException`-`DbException`-`NpgsqlException` chain |
| `Exceptions.FirstHandler` | src/FileStorage/FileStorage/Program.cs:99-118 | the chosen catch clause is the first whose class the exception is an instance of; no earlier clause matches; past-the-end means none matches |
| `Exceptions.EveryTypeIsABaseException` | src/FileStorage/FileStorage/Program.cs:114-118 | every exception class derives from `Exception`, so the last clause catches anything |
| `Exceptions.MissingFileExceptionsAreUnrelated` | src/FileStorage/FileStorage/Services/Exceptions/FileDoesNotExistExistException.cs:3-4 | FileService's missing-file exception and the repository's are siblings: neither derives from the other, and both derive from InvalidOperationException |
| `Exceptions.SiblingsAreUnrelated` | src/FileStorage/FileStorage/Services/Exceptions/LinksCountCannotBeNegativeException.cs:7-8 | two distinct classes at the same depth (such as the three exceptions of the service layer) never derive from one another |
| `Sql.SelectIdByHash` | src/FileStorage/FileStorage/DataAccess/FileSqlRepository.cs:44-46 | the scalar is the id of some row with that hash; it is null exactly when no row has the hash |
| `Sql.SelectById` | src/FileStorage/FileStorage/DataAccess/FileSqlRepository.cs:59-61 | the single-row read yields a row exactly when the id is in the table, and then that id's row |
| `Sql.UpdateLinksCount` | src/FileStorage/FileStorage/DataAccess/FileSqlRepository.cs:79-81 | no row: 0 rows touched, a null return, table unchanged; a count that would go negative: the check violation; otherwise 1 row touched, the new count returned, only that count moved |
| `Sql.Insert` | src/FileStorage/FileStorage/DataAccess/FileSqlRepository.cs:108-114 | a fresh id with a non-negative count adds exactly that row; a negative count raises the check violation |
| `Sql.DeleteReturningPath` | src/FileStorage/FileStorage/DataAccess/FileSqlRepository.cs:140-142 | exactly row `id` is removed; the deleted row's path is returned, or null if no row matched |
| `FileSqlRepository.GetIdByHash` | src/FileStorage/FileStorage/DataAccess/FileSqlRepository.cs:42-49 | returns an id whose row has the hash, or null iff no row has it; with unique hashes, it returns the one such id |
| `FileSqlRepository.GetFileSummary` | src/FileStorage/FileStorage/DataAccess/FileSqlRepository.cs:57-66 | returns iff the row exists, with the id and the row's four columns unchanged; otherwise throws FileDoesNotExist |
| `FileSqlRepository.IsNegativeCountViolation` | src/FileStorage/FileStorage/DataAccess/FileSqlRepository.cs:88-92 | the catch filter accepts exactly the PostgreSQL error with SQLSTATE 23514 and constraint `non_negative_links_count`, and only exceptions of class PostgresException |
| `FileSqlRepository.TryDecreaseLinksCount` | src/FileStorage/FileStorage/DataAccess/FileSqlRepository.cs:75-96 | missing id: FileDoesNotExist, table unchanged; count below 1: LinksCountCannotBeNegative, table unchanged; otherwise returns old-1 and only that count moves; keeps counts non-negative |
| `FileSqlRepository.SaveFileSummaryToDatabase` | src/FileStorage/FileStorage/DataAccess/FileSqlRepository.cs:106-115 | for a fresh id, adds exactly one row holding the given columns; a negative count is refused and the database error propagates; keeps counts non-negative |
| `FileSqlRepository.IncreaseLinksCount` | src/FileStorage/FileStorage/DataAccess/FileSqlRepository.cs:122-130 | on a present row, adds exactly 1 to its count and changes nothing else; missing id: FileDoesNotExist, table unchanged |
| `FileSqlRepository.DeleteFile` | src/FileStorage/FileStorage/DataAccess/FileSqlRepository.cs:138-148 | always removes exactly row `id`; returns its path iff the row existed with a non-blank path; otherwise throws FileDoesNotExist, even though a blank-path row is still removed |
| `FileSqlRepository.IncreaseThenDecrease` | src/FileStorage/FileStorage/DataAccess/FileSqlRepository.cs:75-130 | increment then decrement restores the table and returns the original count |
| `FileSqlRepository.DecreaseThenIncrease` | src/FileStorage/FileStorage/DataAccess/FileSqlRepository.cs:75-130 | decrement of a referenced file then increment restores the table |
| `FileSqlRepository.SaveThenGetFileSummary` | src/FileStorage/FileStorage/DataAccess/FileSqlRepository.cs:57-115 | a saved row reads back as exactly the saved id and fields |
| `FileSqlRepository.SaveThenDelete` | src/FileStorage/FileStorage/DataAccess/FileSqlRepository.cs:106-148 | deleting a just-saved row with a non-blank path returns that path and restores the table |
| `FileSqlRepository.SaveWithFreshHash` | src/FileStorage/FileStorage/DataAccess/FileSqlRepository.cs:106-115 | saving a row with a hash no row has keeps hashes unique, and the new id is the only one with that hash |
| `FileSqlRepository.DeletedFileIsGone` | src/FileStorage/FileStorage/DataAccess/FileSqlRepository.cs:138-148 | after a delete, lookup, decrement and increment of that id all throw FileDoesNotExist and leave the table alone |
| `FileService.GetId` | src/FileStorage/FileStorage/Services/FileService.cs:9-18 | returns an id whose row has the hash, or null iff no row has it; with unique hashes, it returns the one such id |
| `FileService.IncreaseLinksCount` | src/FileStorage/FileStorage/Services/FileService.cs:20-30 | on a present row, adds exactly 1 to its count and changes nothing else; missing id: FileDoesNotExistExist, table unchanged |
| `FileService.DecreaseLinksCount` | src/FileStorage/FileStorage/Services/FileService.cs:32-44 | on a row with count at least 1, subtracts 1 and changes nothing else; missing id: FileDoesNotExistExist; count below 1: the untranslated check violation, never LinksCountCannotBeNegative; table unchanged on failure |
| `Endpoints.GetIdByHashResult` | src/FileStorage/FileStorage/Program.cs:52-55 | `Some(id)` gives Ok with that id; null gives NotFound, and only null does |
| `Endpoints.GetIdByHash` | src/FileStorage/FileStorage/Program.cs:50-56 | answers Ok with the id of a row holding the hash, or NotFound iff no row holds it |
| `Endpoints.UploadSingle` | src/FileStorage/FileStorage/Program.cs:64-76 | Ok with the returned id iff the upload returned; Problem whatever it threw; the upload's effect on the stores is kept either way |
| `Endpoints.UploadAll` | src/FileStorage/FileStorage/Program.cs:84-86 | at most one id per file; one id per file when no upload threw |
| `Endpoints.UploadAllRunsInOrder` | src/FileStorage/FileStorage/Program.cs:84-94 | the i-th id is what the i-th upload returned from the state the earlier uploads left; a run stops at the first upload that threw; the final state includes every upload performed, with nothing rolled back |
| `Endpoints.SetOfSize` | src/FileStorage/FileStorage/Program.cs:82-88 | collapsing duplicate ids into a set never gives more ids than files |
| `Endpoints.UploadMultiple` | src/FileStorage/FileStorage/Program.cs:78-95 | Ok with exactly the set of ids the uploads returned when none threw; Problem as soon as one throws; the final state is that of the run, earlier uploads kept |
| `Endpoints.UploadedIdsBounded` | src/FileStorage/FileStorage/Program.cs:78-95 | the set of ids an upload-multiple answer carries never holds more ids than files were sent, duplicates collapsing |
| `Endpoints.UploadSingleAgreesWithUploadAll` | src/FileStorage/FileStorage/Program.cs:64-95 | for one file, the single handler's answer and state match the run the multiple handler performs |
| `Endpoints.DecreaseLinksCountResult` | src/FileStorage/FileStorage/Program.cs:97-119 | return gives Ok; a FileDoesNotExistException instance gives NotFound; otherwise a LinksCountCannotBeNegativeException instance gives Conflict; anything else gives Problem; no exception escapes |
| `Endpoints.DecreaseLinksCountResultByException` | src/FileStorage/FileStorage/Program.cs:104-118 | FileDoesNotExist maps to NotFound and LinksCountCannotBeNegative to Conflict; FileDoesNotExistExist, any database error and any other failure map to Problem |
| `Endpoints.DecreaseLinksCountAsWritten` | src/FileStorage/FileStorage/Program.cs:97-119 | the handler as written, over FileService: a referenced file gets Ok and one reference fewer; every failure leaves the table unchanged |
| `Endpoints.AsWrittenMissingFileIsProblem` | src/FileStorage/FileStorage/Services/FileService.cs:42-43 | as written, a missing id answers Problem (500), not NotFound |
| `Endpoints.AsWrittenExhaustedFileIsProblem` | src/FileStorage/FileStorage/Services/FileService.cs:34-40 | as written, a file with no references left answers Problem (500), not Conflict |
| `Endpoints.DecreaseLinksCount` | src/FileStorage/FileStorage/DataAccess/FileSqlRepository.cs:75-96 | the handler over the repository's decrement: a missing id gives NotFound, a count below 1 gives Conflict, both with the table unchanged; otherwise Ok and one reference fewer |
| `Endpoints.AsWrittenDiffersOnlyInFailureStatus` | src/FileStorage/FileStorage/Program.cs:97-119 | the as-written and corrected handlers leave the same table and agree on success; every failure is Problem as written |
| `Lifecycle.ApplyPreservesNonNegativeCounts` | src/FileStorage/FileStorage/DataAccess/FileSqlRepository.cs:88-94 | no single repository or service call makes a count negative |
| `Lifecycle.ApplyAllPreservesNonNegativeCounts` | src/FileStorage/FileStorage/DataAccess/FileSqlRepository.cs:88-94 | no sequence of calls makes a count negative |
| `Lifecycle.ReleasesCountDown` | src/FileStorage/FileStorage/DataAccess/FileSqlRepository.cs:79-86 | k releases of a file with at least k references leave it with k fewer, every other row unchanged |
| `Lifecycle.ReleaseBeyondZeroIsRefused` | src/FileStorage/FileStorage/DataAccess/FileSqlRepository.cs:88-95 | after every reference is released, one more release throws LinksCountCannotBeNegative and leaves the table alone |
| `Lifecycle.IncreasesAgree` | src/FileStorage/FileStorage/Services/FileService.cs:20-30 | the service's increment leaves the same table as the repository's and succeeds in the same cases; the repository's FileDoesNotExist matches the service's FileDoesNotExistExist |
| `Lifecycle.DecreasesAgree` | src/FileStorage/FileStorage/Services/FileService.cs:32-44 | the service's decrement leaves the same table as the repository's and succeeds in the same cases; FileDoesNotExist matches FileDoesNotExistExist, and LinksCountCannotBeNegative matches the raw check violation |

## Left out

- Connection handling (`Open`, `Close`, `Dispose`), Dapper and Npgsql: each statement is one atomic step on the map. Concurrent requests are not modelled.
- Connectivity and other database failures of a statement: a statement here either succeeds or violates `non_negative_links_count`.
- The database schema itself is not part of this model. The primary key appears as the `id !in t` precondition of `SaveFileSummaryToDatabase`. Uniqueness of `hash` is not enforced by any statement of the model; it appears only as the hypothesis `HashesUnique` of lemmas. The check constraint's name and SQLSTATE come from the repository's catch filter.
- FileSqlRepository.SaveFileSummaryToDatabase: a hash that another row already holds is modelled as a successful insert, leaving two rows with that hash. A unique index on `hash`, if the schema has one, is not modelled. `SaveWithFreshHash` covers the fresh-hash case.
- Sql.Insert: a row whose hash another row already holds is inserted like any other; no unique-index violation is modelled.
- `links_count` is an unbounded integer. The column's width, and an increment at the 32-bit maximum, belong to the unseen schema.
- Null `hash`, `name` or `absolute_path` columns: these are non-null strings. A null comes only from a statement that matched no row.
- The inner exception that `LinksCountCannotBeNegativeException` wraps: it is carried only for logging.
- Only the exception classes the handlers and the repository name, and their bases, are kept: `SystemException`, `ExternalException`, `DbException`, `NpgsqlException`, `PostgresException`, `InvalidOperationException` and the three service-layer exceptions. An exception of any other class is `Other`, seen as a plain `Exception`.
- FileSqlRepository.GetIdByHash: when several rows share a hash, the model leaves open which id is returned, as the server does.
- The download handler, `GetFileDetails`, `FileDetails` and its stream, the blob store, content hashing and the body of `Upload`. None of these is defined in the files modelled. `Upload` is an opaque parameter `(S, F) -> Uploaded<S>` over an arbitrary state `S` of the stores.
- `Program.cs` calls `GetIdByHash`, `Upload` and `GetFileDetails` on `FileService`, which does not define them. `Endpoints.GetIdByHash` is modelled over `FileService.GetId`, which sends the same query.
- Logging, Swagger, antiforgery, health checks, routing, configuration and connection-string loading (`Program.cs` lines 1-48 and 121-170, `ApplicationConfig.cs`, `LoggingExtensions.cs`): framework and environment glue.

## Findings

| source | as written | input that shows it | evidently intended | confidence | as-written member | corrected member |
|---|---|---|---|---|---|---|
| src/FileStorage/FileStorage/Program.cs:101-107 | the decrease-links-count handler calls `FileService.DecreaseLinksCount`. For an unknown id, that method throws `FileDoesNotExistExistException`. The 404 clause catches only `FileDoesNotExistException`, so the request falls through to 500. | any id with no row, e.g. on an empty table | 404 NotFound, as the handler's clause for a missing file intends | high; not executed | `Endpoints.AsWrittenMissingFileIsProblem` | `Endpoints.DecreaseLinksCount` |
| src/FileStorage/FileStorage/Services/FileService.cs:34-40 | releasing a file whose `links_count` is 0 makes the database raise its check violation. `FileService` does not translate it (see the note at line 40), so the 409 clause never fires and the answer is 500. | an id whose row has `links_count` 0 | 409 Conflict through `LinksCountCannotBeNegativeException`, as `FileSqlRepository.TryDecreaseLinksCount` does | high; not executed | `Endpoints.AsWrittenExhaustedFileIsProblem` | `Endpoints.DecreaseLinksCount` |
