# Bookmark routes: a Dafny model

This project models the request pipeline of the bookmark server's router
(`src/bookmarks/bookmarks.router.js`). It covers four parts:

- **The create-request checks.** The router checks `title`, `url` and `rating` for
  presence, in that order and with JavaScript truthiness. It then tests the url
  for a substring and the rating for being an integer in [0,5].
- **The serializer.** `serializeBookmark` copies `id` and `url`, sends `title` and
  `description` through `xss`, and converts `rating` with `Number`.
- **The routes.** The model covers `GET /bookmarks`, `POST /bookmarks`, the
  `/bookmarks/:bookmark_id` pre-handler, and the GET and DELETE handlers behind it.
- **The store.** The routes run against an abstract bookmark table that stands in
  for `BookmarksService`.

Files:

- `json.dfy`: JSON request values and the JavaScript operations the router
  applies to them: truthiness, `Number.isInteger`, `String.prototype.includes`
  and `Array.prototype.includes`.
- `validation.dfy`: the checks of the POST handler as one pure function,
  `Validate`, and what they accept and reject.
- `store.dfy`: the table, with one row per bookmark in insertion order, unique
  ids and a serial id counter. It holds the pure operations getById, insert and
  delete, and the class `BookmarksService` that holds the table as mutable state.
- `decimal.dfy`: the decimal text of an id, as the Location header prints it and
  as a path segment reads back.
- `router.dfy`: the serializer and the routes. Each route is two things:
  - a pure function from the table and the request to the new table and the
    response (`ListAll`, `Create`, `Preload`, `Fetch`, `Remove`);
  - a method over the service object, proved equal to that function
    (`GetBookmarks`, `PostBookmark`, `PreloadBookmark`, `GetBookmark`,
    `DeleteBookmark`).

  The lemmas state the properties of these routes.

Some consequences of the code, proved here:

- The presence test uses truthiness, so a rating of `0` is reported as
  `'rating' is required`. The ratings accepted are therefore exactly the
  integers 1 to 5, although the range test on line 45 admits 0.
- The url test looks for `http://` or `https://` anywhere in the string, not only
  as a prefix. For example, `javascript:alert(1)//http://` is accepted.
- A url that is a JSON array is tested with `Array.prototype.includes`. It passes
  when one of its elements is exactly `"http://"` or `"https://"`.
- A url that is a truthy number, `true` or an object has no `includes` method.
  The handler therefore throws, and Express passes the error to the
  application's error handler.
- Two POST rejections send plain text: a bad url and a bad rating. A missing
  field and a 404 send JSON `{error:{message}}`.

## Model

| member | source | states |
|---|---|---|
| Json.Truthy | src/bookmarks/bookmarks.router.js:30 | the falsy values are exactly `undefined`, `null`, `false`, `0` and `""`; every other value, an empty array or object included, is truthy |
| Json.IsInteger | src/bookmarks/bookmarks.router.js:45 | `Number.isInteger`: its properties are stated by `RatingInRange` and `AcceptedRatingsExactlyOneToFive` (only a JSON number with no fractional part passes; the string `"4"` does not) |
| Json.Includes | src/bookmarks/bookmarks.router.js:41 | `includes` is true exactly when the pattern occurs at some index of the string (a substring test, not a prefix test) |
| Validation.CheckUrl | src/bookmarks/bookmarks.router.js:41 | a falsy url skips the test and passes; the url test throws exactly when the url is truthy and neither a string nor an array; a string passes iff it is empty or `http://` or `https://` occurs somewhere in it; an array passes iff one of its elements is exactly one of those strings |
| Validation.RatingInRange | src/bookmarks/bookmarks.router.js:45 | the range test passes exactly for the JSON numbers 0, 1, 2, 3, 4 and 5 |
| Validation.Validate | src/bookmarks/bookmarks.router.js:29-48 | the body is reported missing a field iff some required field is falsy, and the field reported is a required one that is falsy; with every field present, the url throws iff `CheckUrl` finds no `includes`, the url is rejected iff the url test fails, and the rating is rejected iff the url passes and the rating test fails; an accepted body has a rating that passes the range test and equals the candidate's rating |
| Validation.FirstMissing | src/bookmarks/bookmarks.router.js:29-36 | the loop reports nothing exactly when every field is truthy; otherwise it reports a field that is falsy, all fields before it being truthy |
| Validation.FirstMissingAt | src/bookmarks/bookmarks.router.js:29-36 | the first falsy field in order is the one reported |
| Validation.MissingFieldsInOrder | src/bookmarks/bookmarks.router.js:29-36 | the result is `'title'` missing iff title is falsy; `'url'` iff title is truthy and url falsy; `'rating'` iff title and url are truthy and rating falsy; later fields are not examined |
| Validation.ZeroRatingReportedMissing | src/bookmarks/bookmarks.router.js:30 | a rating of 0 with title and url present is reported as `'rating'` missing and never reaches the range test |
| Validation.AcceptedRatingIsOneToFive | src/bookmarks/bookmarks.router.js:45-48 | every accepted body has a rating from 1 to 5, equal to the number sent |
| Validation.AcceptedRatingsExactlyOneToFive | src/bookmarks/bookmarks.router.js:45-48 | once title and url pass, a body is accepted iff its rating is an integer from 1 to 5 (non-numbers such as the string "4" are rejected) |
| Validation.UrlAcceptedIffSchemeOccurs | src/bookmarks/bookmarks.router.js:41-44 | with every field present and a string url, the url test passes iff `http://` or `https://` occurs at some index of it |
| Validation.SchemeNeedNotBePrefix | src/bookmarks/bookmarks.router.js:41-44 | a url such as `javascript:alert(1)//http://` is accepted |
| Validation.AcceptedCarriesBody | src/bookmarks/bookmarks.router.js:38-50 | an accepted body has every required field truthy and a passing url, and the candidate carries the body's own title, url and description |
| Store.Find | src/bookmarks/bookmarks.router.js:67-70 | lookup finds nothing iff no row has the id; whatever it finds is a row of the table with that id |
| Store.Without | src/bookmarks/bookmarks.router.js:86-89 | the rows left by a delete are exactly the rows whose id differs; their order is stated by `WithoutConcat` and `WithoutKeepsOrder` |
| Store.WithoutConcat | src/bookmarks/bookmarks.router.js:86-89 | deleting from two stretches of rows is deleting from each and joining the results in order |
| Store.OthersDifferFrom | src/bookmarks/bookmarks.router.js:86-89 | in a table with unique ids, no row before or after `x` has `x`'s id |
| Store.WithoutOnly | src/bookmarks/bookmarks.router.js:86-89 | deleting an id that only `x` carries leaves the rows before `x` followed by the rows after it |
| Store.WithoutKeepsOrder | test/bookmarks-endpoint.spec.js:123-136 | with unique ids, deleting the row `x` from `a + [x] + b` leaves exactly `a + b`, in order |
| Store.StoredRow | src/bookmarks/bookmarks.router.js:50-55 | the stored row's properties are stated by `Router.CreateInsertsOne`: title, url and description come from the body through `toText`, a missing description is `""`, and the rating is the number sent |
| Store.Insert | src/bookmarks/bookmarks.router.js:52-55 | `insertBookmark`: its properties are stated by `InsertFresh` and, through the service, by `BookmarksService.InsertBookmark` |
| Store.Delete | src/bookmarks/bookmarks.router.js:86-89 | `deleteBookmark`: its properties are stated by `DeleteRemovesExactlyOne`, `DeleteAbsentChangesNothing` and `WithoutKeepsOrder` |
| Store.FindAppend | src/bookmarks/bookmarks.router.js:52-55 | appending a row changes only the lookup of an id not found before |
| Store.FindWithout | src/bookmarks/bookmarks.router.js:86-89 | after deleting an id, that id is not found and every other lookup is unchanged |
| Store.WithoutAbsent | src/bookmarks/bookmarks.router.js:86-89 | deleting an id no row has leaves the rows unchanged |
| Store.WithoutPresent | src/bookmarks/bookmarks.router.js:86-90 | with unique ids, deleting a present id removes exactly one row and keeps ids unique |
| Store.InsertFresh | src/bookmarks/bookmarks.router.js:50-56 | insertion keeps the table valid, appends one row under an id no row had, and changes no other lookup |
| Store.DeleteRemovesExactlyOne | src/bookmarks/bookmarks.router.js:86-90 | deleting a present id affects one row, makes the id absent, keeps every other lookup and the table invariant |
| Store.DeleteAbsentChangesNothing | src/bookmarks/bookmarks.router.js:86-90 | deleting an absent id affects no row and changes nothing |
| Store.BookmarksService.constructor | test/bookmarks-endpoint.spec.js:20-22 | the service starts with an empty, valid table |
| Store.BookmarksService.GetAllBookmarks | src/bookmarks/bookmarks.router.js:22 | returns every row in table order |
| Store.BookmarksService.GetById | src/bookmarks/bookmarks.router.js:67 | returns the row with that id, or nothing |
| Store.BookmarksService.InsertBookmark | src/bookmarks/bookmarks.router.js:52-55 | appends the stored row under the next serial id, returns it, keeps the invariant |
| Store.BookmarksService.DeleteBookmark | src/bookmarks/bookmarks.router.js:86-90 | removes the rows with that id, returns how many, keeps the invariant |
| Decimal.DecimalString | src/bookmarks/bookmarks.router.js:57 | the printed id is a non-empty string of decimal digits |
| Decimal.DecimalRoundTrip | src/bookmarks/bookmarks.router.js:57 | reading a printed id back gives the same id |
| Router.SerializeBookmark | src/bookmarks/bookmarks.router.js:11-17 | the object expression of lines 11-17 itself; `ListMirrorsTable` states that ids and urls go out verbatim, `EveryReadPathSanitises` that title and description go through `xss`, and `SerializePlainText` that text `xss` leaves unchanged comes out as stored |
| Router.RequiredMessage | src/bookmarks/bookmarks.router.js:33 | the message names the field, and different fields give different messages (stated by `RequiredMessageNamesField`) |
| Router.IdOfPath | src/bookmarks/bookmarks.router.js:64-66 | a path names an id exactly when it is `/bookmarks/` followed by at least one decimal digit and nothing else; `LocationNamesId` states that the id it names for a Location is the created one (other segments are under "Path ids" in Left out) |
| Router.LocationOf | src/bookmarks/bookmarks.router.js:57 | its property is stated by `LocationNamesId`: the Location path names the created id |
| Router.ListAll | src/bookmarks/bookmarks.router.js:21-27 | GET /bookmarks: its properties are stated by `ListMirrorsTable`, `ListAfterCreate` and `ListAfterDelete`, and `GetBookmarks` is proved equal to it |
| Router.Create | src/bookmarks/bookmarks.router.js:28-61 | POST /bookmarks: its properties are stated by `MissingFieldReply`, `RejectedCreatePersistsNothing`, `CreateInsertsOne`, `CreateThenGet` and `ListAfterCreate`, and `PostBookmark` is proved equal to it |
| Router.Preload | src/bookmarks/bookmarks.router.js:65-80 | the pre-handler: its properties are stated by `AbsentIdIsNotFound`, and `PreloadBookmark` is proved equal to it |
| Router.Fetch | src/bookmarks/bookmarks.router.js:81-83 | GET /bookmarks/:bookmark_id: its properties are stated by `AbsentIdIsNotFound`, `CreateThenGet` and `DeleteThenGetNotFound`, and `GetBookmark` is proved equal to it |
| Router.Remove | src/bookmarks/bookmarks.router.js:84-95 | DELETE /bookmarks/:bookmark_id: its properties are stated by `AbsentIdIsNotFound`, `DeleteRemovesOnlyThatRow`, `DeleteThenGetNotFound` and `ListAfterDelete`, and `DeleteBookmark` is proved equal to it |
| Router.SerializeAll | src/bookmarks/bookmarks.router.js:24 | `map(serializeBookmark)` has one entry per row, each the serialization of the row at the same position |
| Router.GetBookmarks | src/bookmarks/bookmarks.router.js:21-27 | the GET collection handler answers what `ListAll` gives for the current table |
| Router.PostBookmark | src/bookmarks/bookmarks.router.js:28-61 | the POST handler (loop with early return, guards, insertion) leaves the table and gives the response `Create` specifies, and keeps the table invariant |
| Router.PreloadBookmark | src/bookmarks/bookmarks.router.js:65-80 | the pre-handler answers 404 "Bookmark Not Found" for an absent id and otherwise passes on the row found |
| Router.GetBookmark | src/bookmarks/bookmarks.router.js:81-83 | the single GET answers what `Fetch` gives |
| Router.DeleteBookmark | src/bookmarks/bookmarks.router.js:84-95 | the DELETE handler leaves the table and gives the response `Remove` specifies, keeping the invariant |
| Router.LocationNamesId | src/bookmarks/bookmarks.router.js:57 | the Location `/bookmarks/<id>` read back as a path names the created id |
| Router.MissingFieldReply | src/bookmarks/bookmarks.router.js:29-36 | POST answers 400 `{error:{message:"'<field>' is required"}}` and stores nothing exactly when that field is the first falsy one of title, url, rating |
| Router.RejectedCreatePersistsNothing | src/bookmarks/bookmarks.router.js:32-58 | POST leaves the table unchanged iff the body fails a check; failures answer 400 (or 500 for a url without `includes`), with the plain-text url and rating messages |
| Router.GuardReplies | src/bookmarks/bookmarks.router.js:38-48 | with every field present, POST answers the error handler's 500 iff the url has no `includes`, 400 "Please provide a valid url ex: http:// or https://" iff the url test fails, and 400 "Please provide a valid rating between 1-5" iff the url passes and the rating is not an integer in 0..5; none of these stores anything |
| Router.CreateInsertsOne | src/bookmarks/bookmarks.router.js:50-57 | an accepted POST appends exactly one row with a fresh id, whose title and url are the body's values through `toText`, whose description is the body's through `toText` or `""` when absent, and whose rating is the number sent, in 1..5; it answers 201 with that row serialized and Location `/bookmarks/<id>` |
| Router.CreateThenGet | src/bookmarks/bookmarks.router.js:50-83 | after an accepted POST, a GET of the id named by the Location's router-relative path answers 200 with the same body |
| Router.ListAfterCreate | src/bookmarks/bookmarks.router.js:21-57 | after an accepted POST the list is the previous list followed by the new bookmark |
| Router.ListMirrorsTable | src/bookmarks/bookmarks.router.js:21-24 | GET collection answers 200 with one entry per row in table order, ids and urls verbatim; an empty table gives `[]` |
| Router.SerializePlainText | src/bookmarks/bookmarks.router.js:11-17 | when `xss` leaves the text unchanged, the wire form carries the stored row exactly (id, url, rating verbatim) |
| Router.EveryReadPathSanitises | src/bookmarks/bookmarks.router.js:11-17 | every bookmark returned by the list, the single GET and the POST has title and description produced by `xss` |
| Router.AbsentIdIsNotFound | src/bookmarks/bookmarks.router.js:65-83 | GET answers 404 "Bookmark Not Found" iff the id is absent; DELETE of an absent id answers the same 404 and changes nothing; a present id answers 200 and 204 |
| Router.DeleteRemovesOnlyThatRow | src/bookmarks/bookmarks.router.js:84-93 | DELETE of a present id answers 204 with no body, removes that row and leaves every other row |
| Router.DeleteThenGetNotFound | src/bookmarks/bookmarks.router.js:65-93 | after DELETE of an existing id, GET of that id answers 404 |
| Router.ListAfterDelete | test/bookmarks-endpoint.spec.js:123-136 | DELETE of the row `x` of a valid table `a + [x] + b` answers 204, and the list afterwards is the serialization of `a + b`, in order |

## Where the code and its tests disagree

- The code sets `Location` to `/bookmarks/<id>` (line 57), but
  `test/bookmarks-endpoint.spec.js:161` expects `/<id>`. The model follows the
  code.
- The tests request `/api/bookmarks` and `/api/bookmarks/:id`. The router,
  mounted at `/api/bookmarks` (`src/app.js:18`), declares its routes as
  `/bookmarks` and `/bookmarks/:bookmark_id`. The model's paths are the router's
  own paths, relative to its mount point.
- Mounted at `/api/bookmarks` (`src/app.js:18`), the router serves a created
  bookmark at `/api/bookmarks/bookmarks/<id>`, so the Location `/bookmarks/<id>`
  does not resolve to it. For the same reason the tests' `/api/bookmarks` and
  `/api/bookmarks/:id` requests do not reach the router's `/bookmarks` and
  `/bookmarks/:bookmark_id` routes. `CreateThenGet` is stated for the
  router-relative path only.

## Left out

- Authentication: `validateBearerToken` is not part of this model. Every request
  here is taken to have passed it.
- The error handler is not part of this model. A url whose `includes` throws is
  answered with `Response(500, ServerError, None)`. That status is an assumption
  about the unseen handler.
- Storage failures: the promise chains with `.catch(next)` are not modelled. The
  store never fails here.
- Asynchrony, interleaving of concurrent requests, logging, and the `req`/`res`
  object mechanics are not modelled. Only status, body and Location are.
- `BookmarksService` and the database are not part of this model. The store is an
  ordered table of rows with unique ids and a serial id counter starting at 1.
  It is ordered rather than a bare map because the list route returns rows in
  table order.
- How the database turns a JSON value into a text column is a parameter
  (`toText`). A missing description becomes `""`. This is an assumption about
  the store, not router behaviour.
- Numbers are the doubles `JSON.parse` delivers. Rounding at parse time and
  overflow to Infinity are not modelled. Infinity would fail the rating test like
  any number above 5.
- The stored rating is an integer, so `Number(rating)` is the identity. The
  column type is not visible.
- `xss` is a parameter, and nothing is assumed about its output.
  `EveryReadPathSanitises` shows only that every read path goes through it.
- Path ids: a `:bookmark_id` is a decimal number here. Other segments, which the
  database would cast or reject, are not modelled.
- Bodies that are not JSON objects are not modelled. The model takes the body to
  be a map from field names to JSON values, so a field that is not present reads
  as `undefined`.
- PreloadBookmark: returns the row it finds instead of storing it in
  `res.bookmark`. The response object itself is not modelled.
- Express routing of other methods through the `.all` pre-handler is not modelled.
- The mounting, CORS, helmet and morgan setup of `src/app.js` is not modelled.
