# Document store model

A Dafny model of the in-memory document store behind the document catalogue
server (`server/lib/document-storage.js`). The store keeps two pieces of
module-level state: `documents`, an ordered array of records
`{attachmentId, fileName, dateAdded, fileSize}`, and `documentIndexMap`, an
object whose stated purpose is to map each attachment id to its record's
position in the array, so that lookups need not scan the array. The store
offers `get`, `getAll`, `length`, `insert`, `delete` and `update`.

The model follows the code as written, not as it was meant to work:

- `insert` writes the key `documents.length` with the attachment id as its
  value, which is the inverse direction of the index. A freshly inserted record
  is therefore not found by `get`, except when its id happens to equal the old
  length (`InsertOutcome`, `InsertThenGetWitness`).
- `delete` splices the array but leaves the keys of later records at their old
  positions, so each of them now leads to the next record on, or past the end
  (`DeleteOutcome`, `DeleteThenGetWitness`).
- `update` does not compare the new record's id with the key. It keeps the
  index invariant exactly when the two agree (`UpdateKeepsConsistent`).

Layout:

- `document_model.dfy`, module `DocumentModel`: the records, the store as a
  value `Store(documents, index)`, JavaScript's array primitives (`Read`,
  `Spliced`, `Written`), the index invariant `Consistent`, every operation as a
  function of the state, and the lemmas.
- `document_storage.dfy`, module `DocumentStorage`: class `DocumentStore`,
  whose fields `documents` and `index` are the module state. `Insert`, `Delete`
  and `Update` change them in place, and each is proved to agree with the
  model function of the same name. The reads `get`, `getAll` and `length`
  change nothing. They are the model functions `Get`, `GetAll` and `Length`
  applied to `State()`.

`Consistent(s)` is the invariant the comment on line 10 of the source states.
Every index key points at a position that holds the record carrying that key.
Every position holds a record whose id is a key pointing back at that position.

JavaScript semantics kept in the model:

- `documents[i]` past the end, or at a hole, is `undefined`. This is `None`,
  distinct from the `false` that `get` returns for a key that is absent
  (`NotIndexed`).
- Assigning `documents[i]` at or past the end lengthens the array, with holes
  before the new element.
- `splice(i, 1)` with `i` past the end removes nothing.

## Model

| member | source | states |
|---|---|---|
| `DocumentModel.Spliced` | server/lib/document-storage.js:101 | `splice(i, 1)` shortens the array by one exactly when `i` is in range; elements before `i` stay, later ones move down one place |
| `DocumentModel.Written` | server/lib/document-storage.js:122 | assigning slot `i` puts the record at `i`, keeps every other element, and fills the gap with holes when `i` is past the end |
| `DocumentModel.Initial` | server/lib/document-storage.js:11-32 | the store as loaded: the eight records and the eight index entries |
| `DocumentModel.InitialConsistent` | server/lib/document-storage.js:10-32 | the initial index is consistent: its keys are exactly the eight ids and each leads to the position 0..7 of the record carrying it |
| `DocumentModel.Get` | server/lib/document-storage.js:45-53 | `false` exactly when the id is not a key; a key whose position lies past the end gives `undefined`, not `false`; with a consistent index it returns the record carrying that id, and finds the id exactly when some stored record carries it |
| `DocumentModel.GetAll` | server/lib/document-storage.js:59-61 | the array in storage order; with a consistent index, `get(k)` is the element of `getAll()` at `k`'s position |
| `DocumentModel.Length` | server/lib/document-storage.js:67-69 | the size of `getAll()`; with a consistent index, the number of indexed ids |
| `DocumentModel.IndexSizeMatchesLength` | server/lib/document-storage.js:10-20 | a consistent index has exactly as many keys as the array has elements |
| `DocumentModel.Insert` | server/lib/document-storage.js:76-86 | refused with no change when the id is already a key; otherwise appends the record, keeps earlier elements, adds the one key `old length` with the id as value and leaves the other entries |
| `DocumentModel.InsertOutcome` | server/lib/document-storage.js:76-86 | from a consistent state, a fresh insert keeps the invariant and is found by `get` exactly when its id equals the old length; otherwise `get(id)` is `false`, and the new key leads to the element at position `id` |
| `DocumentModel.InsertThenGetWitness` | server/lib/document-storage.js:76-86 | from the initial state, inserting id 300 succeeds, `get(300)` is `false` and `get(8)` is `undefined` |
| `DocumentModel.Delete` | server/lib/document-storage.js:93-105 | refused with no change when the id is not a key; otherwise splices out the element at the indexed position, removes that one key and leaves every other entry |
| `DocumentModel.DeleteOutcome` | server/lib/document-storage.js:93-105 | from a consistent state, after deleting `id` `get(id)` is `false`, records before the removed position are still found, every later key leads one record further on, and the invariant survives exactly when the last record was deleted |
| `DocumentModel.DeleteThenGetWitness` | server/lib/document-storage.js:93-105 | from the initial state, `delete(264)` then `get(265)` returns the record of attachment 266, `get(264)` is `false` and `get(274)` is `undefined` |
| `DocumentModel.Update` | server/lib/document-storage.js:115-125 | refused with no change when the id is not a key; otherwise assigns the record to the indexed slot and leaves the index unchanged |
| `DocumentModel.UpdateKeepsConsistent` | server/lib/document-storage.js:115-125 | from a consistent state, an update keeps the length and every other element, `get(id)` returns the new record, and the invariant survives exactly when the new record carries `id` |
| `DocumentStorage.DocumentStore.constructor` | server/lib/document-storage.js:11-32 | the store starts in the initial state, which is consistent |
| `DocumentStorage.DocumentStore.Insert` | server/lib/document-storage.js:76-86 | changes the fields as `DocumentModel.Insert` says and returns its boolean; from a consistent state the invariant survives exactly when the id equals the old length |
| `DocumentStorage.DocumentStore.Delete` | server/lib/document-storage.js:93-105 | changes the fields as `DocumentModel.Delete` says; from a consistent state the deleted id is no longer found and the invariant survives exactly when the last record was deleted |
| `DocumentStorage.DocumentStore.Update` | server/lib/document-storage.js:115-125 | changes the fields as `DocumentModel.Update` says; from a consistent state the invariant survives exactly when the update fails or the new record carries `id`, and a successful update is found by `get` |

## Left out

- Attachment ids are non-negative integers in canonical form. Because `insert` stores the attachment id as an index value and `delete` passes that value to `splice` as its start, a negative id would make `delete` remove the record counted from the end of the array, and a fractional id would make it remove the record at the truncated position; neither is modelled. Nor are reads and writes at a negative or non-numeric position, which JavaScript treats as plain object properties, or an id such as "0263", which is a key distinct from "263".
- The `docIndex === false` test in `get`, `delete` and `update` is never true in the model, because index values are always numbers.
- Keys inherited from `Object.prototype` (such as "constructor") are not modelled; the index holds only the keys the store writes.
- JavaScript's array length limit of 2^32 - 1 is not modelled; arrays are unbounded.
- `getAll` returns the live array by reference; the model returns a value snapshot, so aliasing through the returned array is not captured.
- The store is a module singleton (`module.exports = new DocumentStorage()`); the model's class holds the module state in one instance's fields.
- The HTTP server (`server/document-server.js`), including its field-presence check on POST and its duplicate check before insert, is not part of this model.
- The client application under `app/js` (Backbone views, models, collections and RequireJS configuration) is not part of this model.
