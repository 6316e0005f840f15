# Truth-or-dare GraphQL store, modelled in Dafny

The server exposes authors, truths and dares through a GraphQL schema
(`schema/schema.js`). Behind the resolvers sits a tiny relational store: three
ordered in-memory collections, searched and changed with lodash's `_.find`,
`_.filter` and `_.remove` plus `Array.prototype.push` and in-place property
writes. This project models that store and every resolver that touches it:

- `wrappers.dfy` — `Option` (a record or `undefined`) and `Result` (a value or a fault).
- `lodash.dfy` — module `Lodash`: the three lodash helpers with the one-property
  matcher shorthand `{ field: v }`, generic over the record type and the field
  (given as a key function), with their lemmas: first match, exact filtering
  with multiplicity, order preservation, remove as a partition, and lookups
  after append, overwrite and removal.
- `entities.dfy` — module `Entities`: the `Author`, `Truth`, `Dare` records, the
  `Store` value that replaces the module-level arrays, the id-uniqueness
  invariant `WellFormed`, and the seed data.
- `resolvers.dfy` — module `Resolvers`: the root query fields and the
  relationship fields `Author.truths`, `Author.dares`, `Truth.author`, `Dare.author`.
- `mutations.dfy` — module `Mutations`: `add*`, `remove*` and `update*`, each
  taking a store and returning the store it leaves behind with the value the
  resolver returns, plus lemmas about lookups, joins, order and well-formedness
  afterwards.
- `scenarios.dfy` — module `Scenarios`: concrete runs against the seed data.

Modelling decisions:

- The fresh id that `uuidv1()` produces is a parameter `newId` of each `add*`.
  The add functions accept any id, as the source does; freshness (no record of
  that collection already has the id) is a hypothesis only of the lemmas that
  need it, and the lemmas say what happens when it fails (the older record keeps
  winning lookups, and ids stop being unique).
- The root query fields declare a nullable `id`. An absent or null argument
  makes the lodash matcher compare ids against `undefined`/`null`, which no
  stored string id equals, so the lookup yields nothing; `Query*` take an
  `Option<Id>` for this.
- `update*` with an id no record has: the source reads `undefined` from `_.find`
  and then fails with a `TypeError` when it assigns the text field, before
  anything is changed. The model returns `Err(NotFound(id))` and no new store.
- Foreign keys are never checked. `addTruth`/`addDare` store any `authorId`, and
  `removeAuthor` does not cascade, so `Truth.author`/`Dare.author` may resolve to
  nothing.
- The expected answer for `author(id: "1") { truths { truth } }` over the seed
  data lists TWO truths. The seed data gives author "1" two truths, and the
  model follows the code (`Scenarios.SeedFirstAuthorTruths`). A one-element
  answer would disagree with it.

## Model

| member | source | states |
|---|---|---|
| `Lodash.FindIndex` | schema/schema.js:219 | the position `_.find` stops at is the first record whose key equals the argument; there is none exactly when no record matches |
| `Lodash.Find` | schema/schema.js:96 | `_.find` returns the record at the first matching position, and nothing exactly when no record matches |
| `Lodash.Filter` | schema/schema.js:75 | `_.filter` returns only matching records of the collection, every matching record is included, and the result is empty exactly when nothing matches |
| `Lodash.Reject` | schema/schema.js:191 | what `_.remove` leaves behind contains only non-matching records of the collection and every one of them |
| `Lodash.FilterConcat` | schema/schema.js:74-82 | filtering distributes over concatenation, which pins the result down to collection order |
| `Lodash.RejectConcat` | schema/schema.js:190-192 | the records `_.remove` leaves behind distribute over concatenation too |
| `Lodash.FilterCount` | schema/schema.js:74-82 | each matching record occurs in the filter result as often as in the collection; non-matching records do not occur |
| `Lodash.RemovePartition` | schema/schema.js:190-192 | removed and remaining records together are exactly the original records, as a multiset |
| `Lodash.FindIsFirstFiltered` | schema/schema.js:94-97 | `_.find` returns the head of the `_.filter` result for the same matcher, and nothing when that is empty |
| `Lodash.FilterKeepsOrder` | schema/schema.js:74-82 | two matching records appear in the filter result in their collection order |
| `Lodash.RejectKeepsOrder` | schema/schema.js:190-192 | two surviving records keep their relative order after `_.remove` |
| `Lodash.RejectNoMatch` | schema/schema.js:191 | with no matching record, `_.remove` leaves the collection exactly as it was |
| `Lodash.FindAppend` | schema/schema.js:149 | after a push, `_.find` returns the pushed record only if nothing matched before; otherwise it returns the earlier answer |
| `Lodash.FindAfterSet` | schema/schema.js:219-221 | overwriting the first match with a same-key record makes `_.find` return the new record |
| `Lodash.FindAfterSetOther` | schema/schema.js:219-221 | overwriting a record that does not match a key leaves `_.find` by that key unchanged |
| `Lodash.FindAfterReject` | schema/schema.js:191 | `_.find` by any other key answers the same before and after `_.remove` |
| `Lodash.FindUnique` | schema/schema.js:111 | with unique keys, `_.find` by a record's own key returns that record |
| `Resolvers.LookupAuthor` | schema/schema.js:111 | the author found by id is the first with that id; none exactly when no author has it |
| `Resolvers.LookupTruth` | schema/schema.js:104 | the truth found by id is the first with that id; none exactly when no truth has it |
| `Resolvers.LookupDare` | schema/schema.js:96 | the dare found by id is the first with that id; none exactly when no dare has it |
| `Resolvers.TruthAuthor` | schema/schema.js:60-62 | `Truth.author` is a stored author whose id is the truth's `authorId`; it is none, not a failure, exactly when no such author exists |
| `Resolvers.DareAuthor` | schema/schema.js:46-48 | `Dare.author` is a stored author whose id is the dare's `authorId`; it is none, not a failure, exactly when no such author exists |
| `Resolvers.AuthorTruths` | schema/schema.js:80-82 | a truth is in `Author.truths` exactly when it is stored and its `authorId` is the author's id |
| `Resolvers.AuthorDares` | schema/schema.js:74-76 | a dare is in `Author.dares` exactly when it is stored and its `authorId` is the author's id |
| `Resolvers.QueryAuthor` | schema/schema.js:107-113 | root `author(id)` finds nothing exactly when the id is absent or no stored author has it, and otherwise a stored author with that id |
| `Resolvers.QueryTruth` | schema/schema.js:99-106 | root `truth(id)` finds nothing exactly when the id is absent or no stored truth has it, and otherwise a stored truth with that id |
| `Resolvers.QueryDare` | schema/schema.js:91-98 | root `dare(id)` finds nothing exactly when the id is absent or no stored dare has it, and otherwise a stored dare with that id |
| `Resolvers.ListedIffFound` | schema/schema.js:94-130 | a lookup by id succeeds exactly when the corresponding list field holds a record with that id |
| `Resolvers.LookupOwnId` | schema/schema.js:94-112 | in a store with unique ids, every record is what a lookup by its own id returns |
| `Resolvers.DareAuthorRoundTrip` | schema/schema.js:46-76 | with unique ids, a dare naming author A occurs exactly once in A's `dares` and resolves back to A |
| `Resolvers.TruthAuthorRoundTrip` | schema/schema.js:60-82 | with unique ids, a truth naming author A occurs exactly once in A's `truths` and resolves back to A |
| `Resolvers.AuthorDaresExact` | schema/schema.js:74-76 | `Author.dares` holds each matching dare with its multiplicity in the collection and no other dare |
| `Resolvers.AuthorDaresKeepOrder` | schema/schema.js:74-76 | `Author.dares` lists the author's dares in collection order |
| `Resolvers.AuthorTruthsExact` | schema/schema.js:80-82 | `Author.truths` holds each matching truth with its multiplicity in the collection and no other truth |
| `Resolvers.AuthorTruthsKeepOrder` | schema/schema.js:80-82 | `Author.truths` lists the author's truths in collection order |
| `Mutations.AddAuthor` | schema/schema.js:144-151 | the returned author has the new id and name, the authors grow by one at the end with every earlier author in place, and truths and dares are untouched |
| `Mutations.AddTruth` | schema/schema.js:175-183 | the returned truth carries the new id, text and the given `authorId`, it is appended at the end with earlier truths in place, and authors and dares are untouched |
| `Mutations.AddDare` | schema/schema.js:159-167 | the returned dare carries the new id, text and the given `authorId`, it is appended at the end with earlier dares in place, and authors and truths are untouched |
| `Mutations.RemoveAuthor` | schema/schema.js:208-210 | the returned authors are exactly those with the id, the remaining ones exactly those without, the counts add up, and truths and dares are untouched (no cascade) |
| `Mutations.RemoveTruth` | schema/schema.js:190-192 | the returned truths are exactly those with the id, the remaining ones exactly those without, the counts add up, and authors and dares are untouched |
| `Mutations.RemoveDare` | schema/schema.js:199-201 | the returned dares are exactly those with the id, the remaining ones exactly those without, the counts add up, and authors and truths are untouched |
| `Mutations.UpdateAuthor` | schema/schema.js:218-222 | a missing id is a not-found fault; otherwise only the first author with the id changes, only in its name, the others and the other collections stay as they were, and that author is returned |
| `Mutations.UpdateTruth` | schema/schema.js:230-234 | a missing id is a not-found fault; otherwise only the first truth with the id changes, only in its text (id and `authorId` kept), and the other collections stay as they were |
| `Mutations.UpdateDare` | schema/schema.js:242-246 | a missing id is a not-found fault; otherwise only the first dare with the id changes, only in its text (id and `authorId` kept), and the other collections stay as they were |
| `Mutations.AddAuthorThenLookup` | schema/schema.js:144-151 | after `addAuthor`, a fresh id finds the new author, a reused id still finds the older one, and other ids are unaffected |
| `Mutations.AddTruthThenLookup` | schema/schema.js:175-183 | after `addTruth`, a fresh id finds the new truth, a reused id still finds the older one, and other ids are unaffected |
| `Mutations.AddDareThenLookup` | schema/schema.js:159-167 | after `addDare`, a fresh id finds the new dare, a reused id still finds the older one, and other ids are unaffected |
| `Mutations.AddAuthorWellFormed` | schema/schema.js:145-149 | `addAuthor` keeps author ids unique exactly when the new id is fresh |
| `Mutations.AddTruthWellFormed` | schema/schema.js:176-181 | `addTruth` keeps truth ids unique exactly when the new id is fresh |
| `Mutations.AddDareWellFormed` | schema/schema.js:160-165 | `addDare` keeps dare ids unique exactly when the new id is fresh |
| `Mutations.AddTruthJoins` | schema/schema.js:175-183 | `addTruth` appends the new truth to the `truths` field of the named author only, and its `author` is whatever that id finds, possibly nothing |
| `Mutations.AddDareJoins` | schema/schema.js:159-167 | `addDare` appends the new dare to the `dares` field of the named author only, and its `author` is whatever that id finds, possibly nothing |
| `Mutations.RemoveAuthorThenLookup` | schema/schema.js:208-210 | after `removeAuthor(id)` nothing is found by that id and other ids find what they found before |
| `Mutations.RemoveTruthThenLookup` | schema/schema.js:190-192 | after `removeTruth(id)` nothing is found by that id and other ids find what they found before |
| `Mutations.RemoveDareThenLookup` | schema/schema.js:199-201 | after `removeDare(id)` nothing is found by that id and other ids find what they found before |
| `Mutations.RemoveAuthorNoMatch` | schema/schema.js:209 | removing an id no author has returns nothing and leaves the store unchanged |
| `Mutations.RemoveTruthNoMatch` | schema/schema.js:191 | removing an id no truth has returns nothing and leaves the store unchanged |
| `Mutations.RemoveDareNoMatch` | schema/schema.js:200 | removing an id no dare has returns nothing and leaves the store unchanged |
| `Mutations.RemoveAuthorWellFormed` | schema/schema.js:209 | with unique ids, `removeAuthor` returns at most one author and keeps ids unique |
| `Mutations.RemoveTruthWellFormed` | schema/schema.js:191 | with unique ids, `removeTruth` returns at most one truth and keeps ids unique |
| `Mutations.RemoveDareWellFormed` | schema/schema.js:200 | with unique ids, `removeDare` returns at most one dare and keeps ids unique |
| `Mutations.RemoveAuthorKeepsOrder` | schema/schema.js:209 | the authors left behind keep their relative order |
| `Mutations.RemoveTruthKeepsOrder` | schema/schema.js:191 | the truths left behind keep their relative order |
| `Mutations.RemoveDareKeepsOrder` | schema/schema.js:200 | the dares left behind keep their relative order |
| `Mutations.RemoveAuthorOrphans` | schema/schema.js:203-211 | removing an author keeps every truth and dare, and those naming it now resolve to no author |
| `Mutations.UpdateAuthorThenLookup` | schema/schema.js:218-222 | after a successful `updateAuthor`, its id finds the updated author and other ids are unaffected |
| `Mutations.UpdateTruthThenLookup` | schema/schema.js:230-234 | after a successful `updateTruth`, its id finds the updated truth and other ids are unaffected |
| `Mutations.UpdateDareThenLookup` | schema/schema.js:242-246 | after a successful `updateDare`, its id finds the updated dare and other ids are unaffected |
| `Mutations.UpdateAuthorWellFormed` | schema/schema.js:219-220 | a successful `updateAuthor` keeps author ids unique |
| `Mutations.UpdateTruthWellFormed` | schema/schema.js:231-232 | a successful `updateTruth` keeps truth ids unique |
| `Mutations.UpdateDareWellFormed` | schema/schema.js:243-244 | a successful `updateDare` keeps dare ids unique |
| `Scenarios.SeedWellFormed` | schema/schema.js:16-37 | the seed collections have unique ids |
| `Scenarios.SeedFirstAuthorTruths` | schema/schema.js:16-19 | over the seed data, author "1" is found and its `truths` are both seed truths in order, its `dares` empty |
| `Scenarios.SeedDareAuthors` | schema/schema.js:21-37 | over the seed data, both dares resolve to author "2" |
| `Scenarios.SeedAddAuthor` | schema/schema.js:144-151 | adding author "X" with an id other than "1" and "2" appends exactly that author, who is then found by id |
| `Scenarios.SeedRemoveDare` | schema/schema.js:199-201 | removing dare "2" from the seed returns it, leaves dare "1" only, and dare "2" is no longer found |
| `Scenarios.SeedUpdateMissingTruth` | schema/schema.js:230-232 | updating truth "999" over the seed data is the not-found fault |
| `Scenarios.SeedUpdateTruth` | schema/schema.js:230-234 | updating truth "2" over the seed data rewrites only its text and returns it |

## Left out

- GraphQL object types, field wiring and the exported schema (schema/schema.js:39-85, 252-255): library composition with no logic of its own.
- The root `truth` field is declared with the `Dare` object type (schema/schema.js:100): a schema-layer mismatch that does not change which record the resolver finds.
- The `remove*` fields declare a single object type while their resolvers return an array (schema/schema.js:186, 195, 204): how GraphQL renders that array is schema-layer behaviour; the model returns the removed records as a sequence.
- `uuidv1()` (schema/schema.js:147, 161, 177): time- and entropy-based, so the new id is a parameter.
- The module-level arrays and their process lifetime (schema/schema.js:16-37): the store is an explicit value passed in and returned.
- Object identity: the source returns the very objects it stores, so later in-place updates are visible through earlier results; the model works with values.
- The `TypeError` and GraphQL partial-response handling of `update*` on a missing id: modelled as the `NotFound` fault, without the error message or response shape.
- GraphQL's non-null argument validation for mutations: arguments always arrive in the model, as the resolvers assume.
- How lodash's `_.remove` collects indexes and splices them out: only its result (removed records, remaining records, both in order) is modelled.
- The list fields `authors`, `truths`, `dares` (schema/schema.js:114-131) return the collection itself; `Resolvers.QueryAuthors`, `QueryTruths` and `QueryDares` carry no contract of their own, and `Resolvers.ListedIffFound` relates them to the lookups.
