# Bamboo: indexing checkpoint store and import work loop

A Dafny model of two small parts of Bamboo, a web-archive manager.

**Checkpoint and poison-record store** (`FullPersistenceDAO`, module `TroveDb`).
Trove indexing workers each own one partition of the WARC id space (`id mod N`).
The store keeps two tables:
- a checkpoint table, `modulo_remainder -> last_warc_id`;
- an error ledger, `warc_id -> (retries, last_error)`, which holds records that failed to index.

Every statement of the DAO is a function over these tables:
- the queries `GetLastId`, `CheckError` and `OldErrors`;
- the updates `LastIdUpdated` (the upsert of `updateLastId`), `ErrorTracked` (the increment-on-conflict upsert of `trackError`) and `ErrorRemoved` (the delete of `removeError`).

The class `FullPersistenceDao` holds the two tables as map fields. Its methods `UpdateLastId`, `TrackError` and `RemoveError` change them exactly as those functions say, and leave the other table alone. Timestamps are an opaque token type `T`.

**Import work loop** (`Importer.run`, module `Importer`). The loop:
1. queries the crawls in the `IMPORTING` state;
2. stops when the answer is empty;
3. otherwise runs `ImportJob` and then `completionHook` for each crawl, in the order answered;
4. queries again.

The store is an oracle: the q-th query answers `snapshots[q]`. `ImportJob` and the hook are abstract steps. The n-th `ImportJob` throws when `n` is in `jobFails`, and the hook after it throws when `n` is in `hookFails`. Nothing catches these exceptions, so either one ends the run. A run is recorded as a trace of `Query(crawls)`, `Job(id)` and `Hook` events plus an outcome (`Idle`, `JobThrew`, `HookThrew`).

`Importer.Run` is the loop itself, with two nested `while` loops. It is proved equal to the recursive definition `Drain`/`ImportAll`. The lemmas prove the ordering and counting properties from that definition.

## Model

| member | source | states |
|---|---|---|
| `TroveDb.GetLastId` | trove/src/bamboo/trove/db/FullPersistenceDAO.java:59-60 | `getLastId(r)` is the remainder's `last_warc_id`, and `None` when the table has no row for `r`; it is a function of the checkpoint table alone |
| `TroveDb.CheckError` | trove/src/bamboo/trove/db/FullPersistenceDAO.java:69-71 | `checkError(id)` is the row's `(last_error, retries)` pair, in the mapper's order, and `None` when the ledger has no row for `id`; it is a function of the ledger alone |
| `TroveDb.LastIdUpdated` | trove/src/bamboo/trove/db/FullPersistenceDAO.java:55-60 | after `updateLastId(v, r)`, `getLastId(r)` reads `v` whatever was there before; every other remainder reads what it read before; the table gains a row for `r` only if it had none |
| `TroveDb.FullPersistenceDao.UpdateLastId` | trove/src/bamboo/trove/db/FullPersistenceDAO.java:55-57 | the checkpoint table becomes the upsert of `(r, v)` over the old table; the error ledger is unchanged |
| `TroveDb.LastIdNotMonotonic` | trove/src/bamboo/trove/db/FullPersistenceDAO.java:55-57 | the upsert has no ordering check: writing a smaller last id after a larger one leaves the smaller one |
| `TroveDb.ErrorTracked` | trove/src/bamboo/trove/db/FullPersistenceDAO.java:62-71 | `trackError` on a present id raises its `retries` by exactly 1 and keeps `last_error`; on an absent id it creates exactly one row with the default retries and the insert-time clock; no other id's `checkError` result changes |
| `TroveDb.FullPersistenceDao.TrackError` | trove/src/bamboo/trove/db/FullPersistenceDAO.java:62-64 | the ledger becomes `ErrorTracked` of the old ledger, with the table's default retries; the checkpoints are unchanged |
| `TroveDb.TrackErrorRepeatedly` | trove/src/bamboo/trove/db/FullPersistenceDAO.java:62-64 | k calls of `trackError` raise a present row's retries by k; on an absent id they leave default + k - 1 retries and the first call's clock; other ids are untouched |
| `TroveDb.ErrorRemoved` | trove/src/bamboo/trove/db/FullPersistenceDAO.java:66-71 | after `removeError(id)`, `checkError(id)` finds nothing; other ids read as before; on an absent id the ledger is unchanged |
| `TroveDb.FullPersistenceDao.RemoveError` | trove/src/bamboo/trove/db/FullPersistenceDAO.java:66-67 | the ledger becomes `ErrorRemoved` of the old ledger; the checkpoints are unchanged |
| `TroveDb.RemoveUndoesTrack` | trove/src/bamboo/trove/db/FullPersistenceDAO.java:62-67 | removing an id right after tracking it leaves the ledger exactly as removing it alone would |
| `TroveDb.SortedDescending` | trove/src/bamboo/trove/db/FullPersistenceDAO.java:73-75 | the `ORDER BY warc_id desc` of a key set: every key once, nothing else, strictly descending |
| `TroveDb.OldErrors` | trove/src/bamboo/trove/db/FullPersistenceDAO.java:73-84 | `oldErrors` lists as many rows as the ledger holds; each row is a ledger row with its `(last_error, retries)`; every ledger id is listed; ids are strictly descending, so each appears once |
| `TroveDb.OldErrorsAfterTrack` | trove/src/bamboo/trove/db/FullPersistenceDAO.java:62-75 | `trackError` adds one row to the `oldErrors` listing exactly when the id was absent |
| `TroveDb.OldErrorsIdsDetermined` | trove/src/bamboo/trove/db/FullPersistenceDAO.java:73-75 | the listing's ids are the only strictly descending enumeration of the ledger's ids |
| `TroveDb.OldErrorsExample` | trove/src/bamboo/trove/db/FullPersistenceDAO.java:73-75 | a ledger holding ids 5, 2 and 9 is listed as 9, 5, 2 |
| `Importer.Run` | src/bamboo/task/Importer.java:20-35 | the loop's trace and outcome are exactly those of the run definition `Drain` from the first query |
| `Importer.EmptyFirstAnswerDoesNothing` | src/bamboo/task/Importer.java:24-29 | if the first query answers no crawls, the run is that one query and goes idle: no `ImportJob`, no hook call |
| `Importer.DrainWithoutExceptions` | src/bamboo/task/Importer.java:22-34 | without exceptions, the run is one round per answer before the first empty one (the query, then `ImportJob` and hook for each crawl in the order answered), then the empty query, then idle; a non-empty answer is always followed by another query |
| `Importer.JobsInAnswerOrder` | src/bamboo/task/Importer.java:30-33 | without exceptions, the `ImportJob`s run on the crawls of those answers, answer by answer and each in its order, once per answer, with as many hook calls as jobs |
| `Importer.ExceptionsCutRunShort` | src/bamboo/task/Importer.java:30-33 | with exceptions, the trace is a prefix of the exception-free trace that ends at the `ImportJob`, or the `ImportJob` and hook, that threw, so later crawls are not attempted; a run that goes idle equals the exception-free run |
| `Importer.IdleIffNothingThrows` | src/bamboo/task/Importer.java:30-33 | nothing in `run` catches an exception: the run goes idle if and only if no `ImportJob` among the crawls it would import without exceptions, and no hook call after one, throws |
| `Importer.RunEndsAtFirstFailure` | src/bamboo/task/Importer.java:30-33 | when the n-th `ImportJob` (counting from 0), or the hook call after it, is the first to throw, the run has started exactly n + 1 `ImportJob`s and ends with the n-th crawl's `ImportJob` or hook exception, whichever threw |
| `Importer.HooksMatchCompletedJobs` | src/bamboo/task/Importer.java:30-33 | in every run, the hook calls equal the `ImportJob`s that returned normally |
| `Importer.DrainIdleOnlyAfterEmptyAnswer` | src/bamboo/task/Importer.java:22-29 | a run returns normally only right after a query that answered no crawls; no earlier query, and no query of a run that threw, answered none |
| `Importer.DrainHookRightAfterEachJob` | src/bamboo/task/Importer.java:30-33 | every `ImportJob` is followed at once by a hook call, before the next crawl starts, except the one that threw; every hook call directly follows an `ImportJob` |

## Left out

- JDBI plumbing (`ErrorMapper`, `OldErrorMapper`, `ResultSet` access, `@RegisterMapper`) is not modelled. Their results appear as the `ErrorInfo` and `OldError` datatypes.
- `getLastId` on a remainder without a row yields `None`. What JDBI returns for a primitive `long` there is not visible, so the model makes no claim about a sentinel value.
- `checkError` on an id without a row also yields `None`, standing for JDBI's empty single-row result.
- Java `long` and `int` widths are not modelled: ids and retries are unbounded integers, so an overflow of `retries + 1` in the database is not captured.
- TroveDb.ErrorTracked: keeps `last_error` when the id is already in the ledger, because the shown SQL assigns only `retries` there. A column-level `ON UPDATE` default in the schema, which is not visible, would refresh it instead. `TrackErrorRepeatedly`'s "first call's clock" clause rests on the same reading.
- `last_error` is an opaque token. On insert it takes the `now` parameter, standing for the schema's default from the database clock.
- The default of the `retries` column is not visible. It is the class constant `defaultRetries`.
- The `Config`, `DbPool`, `Db.findCrawlsByState` and `ImportJob` collaborators are not part of this model. They become the snapshot oracle and abstract steps. The model does not assume that `ImportJob` moves a crawl out of `IMPORTING`.
- Importer.Run: requires that some query eventually answers no crawls. A run that never sees an empty answer either loops forever, which is not modelled, or ends when an `ImportJob` or hook throws. A throwing run is modelled by adding an empty answer after the last one it reads; the run never reaches that answer, so its trace and outcome are unchanged.
- An exception from the query itself, or from taking a pooled connection, is not modelled. Like a job exception, it would escape `run`.
- Releasing the connection handle (try-with-resources) is not modelled.
- `Taskmaster`, threading and `Runnable` scheduling are not modelled, because their point is concurrency.
- The `Bamboo` composition root (configuration, wiring, health check, `close`) is not modelled.
- Two behaviours that one might expect are not in the code, and the model does not add them:
  - isolation of a failing crawl, so that the rest of the answer is still imported;
  - a wake signal that re-runs the loop when new work appears.

  The model follows the code: an exception ends the run.
- Three facts about the code that the model follows rather than improves on:
  - the code imports crawls in the order the query returns them and does not sort them by id;
  - a repeat `trackError` does not write `last_error` in the shown SQL;
  - `getLastId` has no sentinel for a remainder without a row.
