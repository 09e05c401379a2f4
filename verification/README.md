# Repository store of the Node.js concepts service

A model of the in-memory store behind a small Express service that keeps
"repository" records `{id, title, url, techs, likes}` in one module-level
array and exposes list, create, replace, delete and like routes. Every route
addressed by an id is guarded by `validateId`, a first-match scan that
answers "data not found" for an unknown id before the handler runs.

- `repository.dfy`, module `Repositories`: the record, the two first-match
  lookups the handlers use (`findIndex` as `FindIndex`, returning -1 when
  absent; `find` as `Find`, returning `None` for `undefined`) and the
  uniqueness of identifiers.
- `table.dfy`, module `RepositoryTable`: the effect of replace, delete and
  like on the collection as values (`Replaced`, `Removed`, `Liked`,
  `LikedTimes`), the JavaScript `splice(start, 1)` the delete handler calls,
  and the invariants the operations keep: identifiers stay unique under
  every operation, replace and like also leave them at their positions, and
  like counts never go down.
- `store.dfy`, module `RepositoryStore`: class `Store`, whose field
  `repositories` is the array, with one method per handler. Each id-addressed
  method runs the guard (`ValidateId`) and then acts, or answers
  `Err("data not found")` and leaves the collection as it was. The
  identifier of a new record is a parameter with the precondition that no
  stored record has it; the service draws it from a UUID generator.

`Store.Valid()` (identifiers pairwise unique) holds after the constructor
and every method keeps it. The id-addressed methods do not require it:
they ensure `old(Valid()) ==> Valid()`.

## Model

| member | source | states |
|---|---|---|
| `Repositories.FindIndex` | src/app.js:20 | result is -1 exactly when no record has the id; otherwise the record there has the id and no earlier record does |
| `Repositories.Find` | src/app.js:105 | result is absent exactly when no record has the id; otherwise it is a stored record with that id |
| `Repositories.FindAgreesWithFindIndex` | src/app.js:103-106 | the record `find` returns is the element at the index `findIndex` returns, so like updates the record the guard found |
| `Repositories.FirstMatchIsOnlyMatch` | src/app.js:16-27 | with unique ids, both lookups select the one record carrying the id |
| `Repositories.FindIndexDependsOnlyOnIds` | src/app.js:70 | two collections with the same ids at the same positions give every lookup the same index |
| `RepositoryTable.Replaced` | src/app.js:68-84 | unknown id: unchanged; else same length, the found record keeps id and likes and takes the new title/url/techs, every other record unchanged |
| `RepositoryTable.Removed` | src/app.js:90-95 | unknown id: unchanged; else length drops by one, records before the found index stay, later ones shift down by one |
| `RepositoryTable.Liked` | src/app.js:103-108 | unknown id: unchanged; else the found record's likes rise by exactly one, no other field or record changes |
| `RepositoryTable.CreateKeepsInvariants` | src/app.js:53-61 | appending a record with a fresh id keeps ids unique and lowers no like count |
| `RepositoryTable.ReplaceKeepsIds` | src/app.js:74-81 | replace keeps the id sequence, so uniqueness and every id lookup's index are preserved |
| `RepositoryTable.ReplaceKeepsLikes` | src/app.js:74-81 | with unique ids, replace never lowers any record's like count |
| `RepositoryTable.LikeKeepsIds` | src/app.js:105-106 | like keeps the id sequence, so uniqueness and every id lookup's index are preserved |
| `RepositoryTable.LikeKeepsIndex` | src/app.js:105-106 | after a like, the lookup for that id still lands on the same index |
| `RepositoryTable.LikeKeepsLikes` | src/app.js:105-106 | with unique ids, like never lowers any record's like count |
| `RepositoryTable.DeleteRemovesOneRecord` | src/app.js:92-93 | delete removes exactly one occurrence of the found record (multiset difference) |
| `RepositoryTable.DeleteForgetsOnlyItsId` | src/app.js:90-95 | with unique ids, after delete the id is gone, every other id is present exactly when it was, ids stay unique, no like count drops |
| `RepositoryTable.LikedTimesCounts` | src/app.js:103-108 | k likes of a stored id raise that record's likes by exactly k at the same index and touch nothing else |
| `RepositoryTable.FreshRecordLikedTimes` | src/app.js:53-108 | a newly created record (likes 0, appended) liked k times has exactly k likes |
| `RepositoryTable.Splice` | src/app.js:93 | `splice(start, 1)` deletes at most one element: the length drops by at most one |
| `RepositoryTable.SpliceAtFoundIndexRemoves` | src/app.js:92-93 | for a present id, the splice at the found index is exactly the removal of the first match |
| `RepositoryTable.UnguardedDeleteDropsLast` | src/app.js:16-28 | without the guard, deleting an unknown id splices at -1 and drops the last record; with it the collection is unchanged |
| `RepositoryStore.Store.constructor` | src/app.js:11 | the store starts empty and valid |
| `RepositoryStore.Store.List` | src/app.js:33-35 | returns the current collection and changes nothing |
| `RepositoryStore.Store.ValidateId` | src/app.js:16-27 | answers true exactly when some stored record has the id |
| `RepositoryStore.Store.Create` | src/app.js:53-61 | returns the record with the given fields, the fresh id and likes 0, appended after all earlier records, which are unchanged; keeps ids unique and likes non-decreasing |
| `RepositoryStore.Store.Replace` | src/app.js:68-84 | unknown id: "data not found", no change; else the collection becomes `Replaced` and the updated record is returned; keeps ids unique and likes non-decreasing |
| `RepositoryStore.Store.Delete` | src/app.js:90-95 | unknown id: "data not found", no change; else the collection becomes `Removed` and the answer is empty; keeps ids unique and likes non-decreasing |
| `RepositoryStore.Store.Like` | src/app.js:103-108 | unknown id: "data not found", no change; else the collection becomes `Liked` and the updated record is returned; keeps ids unique and likes non-decreasing |

`RepositoryStore.Scenario` runs an end-to-end client sequence (create,
like, delete, list, then replace of an unknown id) against these contracts.

## Left out

- Express setup, routing, JSON body parsing and CORS (src/app.js:1-9, 110): framework plumbing. The guard's mounting on `/repositories/:id` (line 28), which also covers the like route, is modelled by each id-addressed method calling `ValidateId` first.
- HTTP status codes and serialisation (400, 204, JSON bodies): reduced to `Ok(record)`, `NoContent` and `Err("data not found")`.
- UUID generation (`uuidv4`): a foreign library call; the identifier is a parameter required to be absent from the store.
- Concurrent interleaving of requests: the model is sequential, one operation at a time.
- Shapes of `title`, `url` and `techs`: the service validates none; they are opaque strings and a sequence of strings.
- JavaScript object identity: a record is a value here. The service returns the stored object itself from create, replace and like, but the response is serialised at once, so nothing observable depends on the aliasing.
- The unguarded failure paths of replace (`repositories[-1] = repo` adds a non-index property and no element) and like (`find` yields `undefined`, so `likes++` throws): the guard makes both unreachable, and the model only runs the handlers after it. The unguarded delete is modelled (`UnguardedDeleteDropsLast`).
- `likes` is a JavaScript number; the model uses an unbounded natural and ignores loss of precision beyond 2^53.
