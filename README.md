# Medicine Chart API: the persisted medicine list

This project models the core of the Medicine Chart API server (`server.js`). The server keeps a list
of medicine records in one JSON file. Each mutating endpoint reads the whole file, changes the list
in memory and writes the whole list back.

- `Records` (`records.dfy`): a medicine record is an open-ended object. It is modelled as a
  `map<string, string>` in which `code` and `generic_name` may be absent. The module defines
  JavaScript truthiness of a string field, the `m.code === key` test, and the object spread
  `{ ...body, code }`.
- `Collection` (`collection.dfy`): `FirstIndex`, which models `findIndex` by code. It also holds
  the pure list transformations of the three keyed endpoints: `Upsert` for add, `Rewrite` for
  update and `Remove` for delete. The lemmas relate these operations to each other: lookup after
  add, idempotence, add-then-delete round trip, and preservation of unique codes.
- `Server` (`server.dfy`): the data file is the `file` field of class `Store`. Its value is a
  `Snapshot`, either `Stored(records)` or `Unreadable`. The fail-open read `Load` turns
  `Unreadable` into the empty list. The handlers for GET, POST (replace-all), POST `/add`, PUT and
  DELETE are methods. Each method states the new value of `file` and the response. A response
  is 200 with its payload, `BadRequest` (400) or `NotFound` (404). Four client methods
  (`Scenario…`) state example requests as verified client code.

## Unique codes

Only replace-all can put two records with the same `code` into the list, because it stores its
array verbatim. Update-by-key cannot (server.js:170-179): it overwrites the first record whose
`code` is the path key, and it forces the new record's `code` to that same key
(`Collection.RewriteKeepsCodesUnique`). Add and delete cannot either. Duplicates that are already
in the list are kept: add, update and delete act on the first match only.

## Model

| member | source | states |
|---|---|---|
| `Records.Truthy` | server.js:119 | A string field is falsy when it is absent (`undefined`) or `""`, and truthy otherwise. |
| `Records.HasRequiredFields` | server.js:119 | A record passes the add endpoint's check exactly when `code` and `generic_name` are both present and non-empty. It passes when both are truthy, and fails when either is absent or `""`. |
| `Records.HasCode` | server.js:129 | `m.code === key`: a record matches exactly when it has a `code` equal to the key. So a record without `code` never matches. |
| `Records.WithCode` | server.js:179 | `{ ...body, code }` has `code` equal to the path key whatever the body said. It has exactly the body's fields plus `code`, and every other field keeps the body's value. |
| `Collection.FirstIndex` | server.js:129 | `findIndex` by code returns -1 exactly when no record has that code. Otherwise it returns an index whose record has the code, and no earlier record has it. Records without `code` never match. |
| `Collection.FirstIndexIs` | server.js:170 | The first position holding the key is the one `findIndex` returns. |
| `Collection.Upsert` | server.js:129-152 | If the code is present, the length is unchanged, the first matching slot holds the new record and every other slot is unchanged. If it is absent, the length grows by one, the record is last and every earlier slot is unchanged. |
| `Collection.Rewrite` | server.js:170-179 | If the key is absent, the list is unchanged. Otherwise the length is unchanged, the first matching slot becomes the body with `code` forced to the key, and every other slot is unchanged. |
| `Collection.Remove` | server.js:202-211 | If the key is absent, the list is unchanged. Otherwise the length drops by one and the slots before the first match are unchanged. The slots after it shift down by one. The result's multiset plus the removed record is the old multiset. |
| `Collection.UpsertThenLookup` | server.js:129-144 | After an add, looking up the record's code finds the record just added. |
| `Collection.UpsertIdempotent` | server.js:129-144 | Adding the same record twice leaves the same list as adding it once. |
| `Collection.UpsertKeepsCodesUnique` | server.js:128-144 | If the list had no duplicate codes, an add does not create one. |
| `Collection.AddThenDeleteRestores` | server.js:142-211 | Adding a record with a new code and then deleting that code gives back the original list. |
| `Collection.UpsertOfPresentIsRewrite` | server.js:131-179 | Adding a record whose code is already present changes the list as an update with that code and record does. |
| `Collection.RewriteKeepsPosition` | server.js:170-179 | An update never moves its record: the key is found at the same index before and after. |
| `Collection.RewriteIdempotent` | server.js:170-179 | Repeating an update with the same key and body changes nothing more. |
| `Collection.RewriteKeepsCodesUnique` | server.js:179 | Because `code` is forced to the path key, an update cannot create a duplicate code in a list that had none. |
| `Collection.RemoveDropsKey` | server.js:202-211 | In a list without duplicate codes, after a delete no record has the deleted code. |
| `Collection.RemoveKeepsCodesUnique` | server.js:202-211 | A delete cannot create a duplicate code. |
| `Server.Load` | server.js:25-34 | The read never fails: an unreadable or unparsable file yields the empty list, and a readable one yields the stored list. |
| `Server.Store.ListAll` | server.js:69-76 | GET answers with the list as read and its length. It changes nothing. |
| `Server.Store.ReplaceAll` | server.js:87-104 | A non-array body gets 400 and the file is unchanged. An array becomes the stored list verbatim, and the answer reports its length. |
| `Server.Store.Add` | server.js:115-153 | A body without a truthy `code` and `generic_name` gets 400 and the file is unchanged. Otherwise the stored list becomes the upsert of the list as read. The answer carries the record, with action "updated" exactly when the code was present and "added" otherwise. |
| `Server.Store.Update` | server.js:164-186 | An unknown key gets 404 and the file is unchanged. Otherwise the stored list becomes the rewrite of the list as read. The answer carries the new record, whose `code` is the key. |
| `Server.Store.Delete` | server.js:197-218 | An unknown key gets 404 and the file is unchanged. Otherwise the stored list becomes the removal of the first match. The answer carries the removed record, which has the key. |

## Left out

- Express routing, CORS, the JSON body-size limit, request logging, the health-check payload, the fallback 404 for unknown routes, the error middleware, and the port and `app.listen` (server.js:9-21, 53-66, 229-252). They are framework wiring with no list logic.
- File I/O and JSON encoding: `fs.readFile`, `fs.mkdir`, `fs.writeFile` and `JSON.parse`/`JSON.stringify`. The file is the `file` field. Every kind of read failure is the single value `Unreadable`.
- Failed writes, which the handlers answer with 500 (server.js:44-47, 105-111, 154-160, 187-193, 219-225). After a failed write the file holds whatever the file system left, so no contract could state it.
- A data file that holds valid JSON that is not an array. The server itself only ever writes arrays, so only a file changed from outside could hold one.
- Concurrency: overlapping requests can interleave their read, change and write steps and lose updates. The model runs one request at a time.
- JSON value types: field values are strings. Truthiness of numbers, booleans or `null` in `code` is not modelled, and neither are list elements that are not objects.
- Server.Store.Update: takes an object body only. Spreading an array body into an object (index keys `"0"`, `"1"`, …) is not modelled.
- Response messages (`Medicine X updated` and the like) and the `success` flag are not modelled. Each response variant stands for its status code and the `count` or `data` it carries.
