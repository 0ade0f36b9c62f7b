# Book catalog handlers, modelled in Dafny

This project models the request handlers of a small REST service that keeps
a personal book catalog in process memory (`src/handler.js`). A single
ordered list of book records is shared by five handlers:

- **create** checks the name, then checks `readPage <= pageCount`. It builds
  a record with the derived `finished` flag and equal `insertedAt`/`updatedAt`
  stamps, appends the record, and re-checks that the new id is present.
- **list** applies one of three exclusive filters, in this order: name
  (case-insensitive substring), then `reading`, then `finished`. It returns
  `{id, name, publisher}` projections in catalog order.
- **get-by-id** returns the first record with the id.
- **edit-by-id** validates first and looks the id up second. It then
  replaces the record's user fields in place, recomputes `finished`,
  refreshes `updatedAt`, and keeps `id` and `insertedAt`.
- **delete-by-id** splices out the first record with the id.

Files:

- `wrappers.dfy`: `Option`.
- `text.dfy` (module `Text`): ASCII case folding and substring search, the
  stand-in for the name filter's `RegExp(name, 'gi').test(...)`.
- `books.dfy` (module `Books`): `Book`, the request `Payload`, `Validate`,
  the record builders `NewBook` and `Revise`, and the `Summary` projection.
- `search.dfy` (module `Search`): `findIndex` by id, id uniqueness,
  order-preserving subsequences, and the one-element splice.
- `listing.dfy` (module `Listing`): the pure handlers, list and get-by-id, as
  functions over `seq<Book>`.
- `catalog.dfy` (module `Handler`): a `Response` outcome kind per HTTP answer,
  plus class `Catalog`. The class holds the list as a `seq<Book>` field and
  has one method per handler. The mutating handlers (`Add`, `Edit`,
  `Delete`) state the new list in terms of the old one. They also keep the
  invariant `Valid()`: ids are unique, and every record has a non-empty
  name, `readPage <= pageCount` and `finished == (pageCount == readPage)`.

The fresh id (`nanoid(16)`) and the current time (`new Date().toISOString()`)
are parameters: `Add` requires the id to be absent from the catalog, and
time stamps are opaque strings. A payload name counts as missing when it is
absent or the empty string, as in `!name`. A query parameter is absent when
it is missing or empty, because an empty query string is falsy. `reading`
and `finished` are present as the number that `Number(...)` gives for the
query string. A book's boolean flag is compared through 0/1.

Two points of the code that the model keeps as written:
- src/handler.js:25 and src/handler.js:205 only compare `readPage` with
  `pageCount`; neither is checked to be non-negative, so the model allows
  any integer.
- The id comes from `nanoid(16)` (src/handler.js:35); the model takes it as
  a parameter and does not constrain its length.

## Model

| member | source | states |
|---|---|---|
| Text.Lower | src/handler.js:100 | case folding keeps the length and lower-cases each character independently (the `i` flag, ASCII letters) |
| Text.ContainsIff | src/handler.js:99-102 | the substring search succeeds exactly when the needle occurs at some position of the text (both directions) |
| Text.ContainsIgnoringCaseIff | src/handler.js:99-102 | the name test succeeds exactly when some window of the book name equals the needle letter for letter, ignoring ASCII case |
| Books.Validate | src/handler.js:16-32 | a missing or empty name gives MissingName whatever the page counts; otherwise `readPage > pageCount` gives ReadPageExceedsPageCount; the request is accepted exactly when the name is present and `readPage <= pageCount` |
| Books.NewBook | src/handler.js:35-53 | the created record carries the given id and every payload field, has `finished` iff `pageCount == readPage` and `insertedAt == updatedAt == now`, and is well formed when validation passed |
| Books.Revise | src/handler.js:214-231 | the updated record keeps `id` and `insertedAt`, carries every payload field, recomputes `finished`, sets `updatedAt` to the new time, and is well formed when validation passed |
| Books.Summaries | src/handler.js:86-90 | one `{id, name, publisher}` projection per book, position by position |
| Search.FindIndex | src/handler.js:216 | `findIndex` gives -1 exactly when no book has the id, and otherwise the first position holding it |
| Search.RemoveAt | src/handler.js:253 | `splice(index, 1)` shortens the list by one, keeps the books before the index and shifts the later ones down by one |
| Search.RemoveAtKeepsOrder | src/handler.js:253 | the list after the splice is an order-preserving subsequence of the list before it |
| Search.RemoveAtMultiset | src/handler.js:253 | the splice removes exactly one copy of the removed book and nothing else |
| Search.RemoveAtKeepsUnique | src/handler.js:250-253 | deleting keeps ids unique |
| Search.RemoveFoundLeavesNone | src/handler.js:250-253 | with unique ids, after deleting the book found for an id no book has that id, so a repeated delete finds nothing |
| Search.ReplaceKeepsUnique | src/handler.js:216-231 | replacing a record with one of the same id keeps ids unique |
| Search.AppendKeepsUnique | src/handler.js:35-55 | appending a record whose id is not yet present keeps ids unique |
| Listing.Select | src/handler.js:99-102 | a filter returns an order-preserving subsequence of the catalog holding only matching books, each matching book as many times as the catalog holds it |
| Listing.ListBooks | src/handler.js:79-156 | every list result is the projection of an order-preserving subsequence of the catalog and is never longer than it |
| Listing.ListUnfiltered | src/handler.js:82-96 | with no filter the list has one projection per book, in catalog order |
| Listing.ListByName | src/handler.js:98-117 | a non-empty name selects exactly the books whose name contains it ignoring case, with their multiplicities, in order, whatever the reading and finished parameters say |
| Listing.ListByReading | src/handler.js:119-137 | without a name, a reading parameter selects exactly the books whose `Number(reading)` equals it, with their multiplicities, in order, whatever the finished parameter says |
| Listing.ListByFinished | src/handler.js:139-155 | without a name or a reading parameter, a finished parameter selects exactly the books whose `Number(finished)` equals it, with their multiplicities, in order |
| Listing.SelectFirstIsFound | src/handler.js:161 | when the id is present, the first element of the id filter is the book at the position `findIndex` gives |
| Listing.FindById | src/handler.js:158-180 | get-by-id gives nothing exactly when no book has the id, and otherwise the first book with that id |
| Listing.FindAfterAppend | src/handler.js:55-64 | after a create with a fresh id, get-by-id of that id returns exactly the created record |
| Listing.FindAfterReplace | src/handler.js:216-231 | with unique ids, after an update get-by-id returns the updated record |
| Handler.Status | src/handler.js:58-75 | the body's status is "success" exactly for the 2xx codes and "fail" exactly for the 4xx and 5xx codes |
| Handler.Catalog.constructor | src/handler.js:2 | the catalog starts empty and valid |
| Handler.Catalog.Add | src/handler.js:4-77 | a rejected create returns the first failing check's error with the list unchanged; an accepted one returns Created(id) and the old list plus the new record; the 500 answer is never given; ids stay unique and records well formed |
| Handler.Catalog.GetAll | src/handler.js:79-156 | the list handler answers with the filtered projections and changes nothing |
| Handler.Catalog.GetById | src/handler.js:158-180 | answers Found exactly when the id is present, with the first record holding it, and NotFound otherwise |
| Handler.Catalog.Edit | src/handler.js:182-245 | validation comes before the lookup; an unknown id answers NotFound with the list unchanged; a success changes only the matching position, keeps the length, `id` and `insertedAt`, and sets the revised record with the new `updatedAt` |
| Handler.Catalog.Delete | src/handler.js:247-273 | an unknown id answers NotFound with the list unchanged; otherwise exactly the first matching record is removed, the rest keep their order, the length drops by one, and no record with the id remains |

## Left out

- HTTP plumbing (`request`, `h.response(...).code(...)`) and the message strings: each handler returns an outcome kind, and `Code`/`Status` give the status code and status field.
- Id generation with `nanoid(16)`: the id is a parameter, assumed absent from the catalog. A collision is not modelled.
- The wall clock: time stamps are opaque parameters.
- Full JavaScript RegExp semantics in the name filter: the model uses a literal substring test with ASCII-only case folding. Pattern metacharacters, Unicode case folding, and the exception an invalid pattern (such as `(`) would throw are not modelled. A new RegExp object is built for every book, so the `g` flag's `lastIndex` state never carries from one book to the next; the literal model loses nothing there.
- JavaScript truthiness and `Number(...)` coercion: a book's `reading` flag is a boolean, so NaN from an undefined flag, and NaN from a non-numeric query string, are not modelled. Neither are non-string or non-numeric payload values (an `undefined` `pageCount` or `readPage`, a string `year`).
- The `./books` module is not part of this model. It is taken to export an empty array, which is the `Catalog` field `books`.
- Routing, server start-up and concurrency: the handlers run one at a time, and each is modelled as a single atomic step.
