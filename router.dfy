/** The bookmark routes of src/bookmarks/bookmarks.router.js: the serializer,
    GET and POST on /bookmarks, and the /bookmarks/:bookmark_id pre-handler with
    its GET and DELETE handlers. Each route is a pure function from the table
    (and the request) to the new table and the response, and a method over the
    service object that is proved to agree with it. */
module Router {
  import opened Wrappers
  import opened Json
  import opened Validation
  import opened Store
  import opened Decimal

  /** A bookmark as it goes out on the wire. */
  datatype WireBookmark = WireBookmark(id: nat, title: string, url: string, description: string, rating: int)

  /** Response bodies the routes produce. */
  datatype Body =
    | NoContent                        // `res.status(204).end()`
    | ErrorMessage(message: string)    // `{ error: { message } }`
    | PlainText(text: string)          // `res.send('<text>')`
    | One(bookmark: WireBookmark)
    | Many(bookmarks: seq<WireBookmark>)
    | ServerError                      // whatever the application's error handler sends

  datatype Response = Response(status: nat, body: Body, location: Option<string>)

  const UrlMessage: string := "Please provide a valid url ex: http:// or https://"
  const RatingMessage: string := "Please provide a valid rating between 1-5"
  const NotFoundMessage: string := "Bookmark Not Found"
  const CollectionPath: string := "/bookmarks/"

  function RequiredMessage(field: string): string
  {
    "'" + field + "' is required"
  }

  const NotFound: Response := Response(404, ErrorMessage(NotFoundMessage), None)

  /** `serializeBookmark`: id and url verbatim, title and description through `xss`,
      rating through `Number` (the identity on the integer the table holds). */
  function SerializeBookmark(xss: string -> string, b: Bookmark): WireBookmark
  {
    WireBookmark(b.id, xss(b.title), b.url, xss(b.description), b.rating)
  }

  /** `bookmarks.map(serializeBookmark)`. */
  function SerializeAll(xss: string -> string, rows: seq<Bookmark>): (r: seq<WireBookmark>)
    ensures |r| == |rows|
    ensures forall i :: 0 <= i < |rows| ==> r[i] == SerializeBookmark(xss, rows[i])
    decreases |rows|
  {
    if rows == [] then [] else [SerializeBookmark(xss, rows[0])] + SerializeAll(xss, rows[1..])
  }

  /** The Location of a created bookmark: `/bookmarks/${bookmark.id}`. */
  function LocationOf(id: nat): string
  {
    CollectionPath + DecimalString(id)
  }

  /** The id a path `/bookmarks/:bookmark_id` names, when its segment is a decimal number. */
  function IdOfPath(path: string): (r: Option<nat>)
    ensures r.Some? <==>
              |CollectionPath| < |path| && path[..|CollectionPath|] == CollectionPath &&
              forall i :: |CollectionPath| <= i < |path| ==> IsDigit(path[i])
  {
    if |CollectionPath| <= |path| && path[..|CollectionPath|] == CollectionPath
    then ParseDecimal(path[|CollectionPath|..])
    else None
  }

  /** GET /bookmarks: 200 with every row serialized, in table order. */
  function ListAll(xss: string -> string, t: Table): Response
  {
    Response(200, Many(SerializeAll(xss, t.rows)), None)
  }

  /** POST /bookmarks: the checks, then on success one insertion and 201. */
  function Create(xss: string -> string, toText: Json -> string, t: Table, body: Payload): (Table, Response)
  {
    match Validate(body)
    case Missing(field) => (t, Response(400, ErrorMessage(RequiredMessage(field)), None))
    case InvalidUrl => (t, Response(400, PlainText(UrlMessage), None))
    case UrlThrows => (t, Response(500, ServerError, None))
    case InvalidRating => (t, Response(400, PlainText(RatingMessage), None))
    case Accepted(c) =>
      var (t', b) := Insert(t, c, toText);
      (t', Response(201, One(SerializeBookmark(xss, b)), Some(LocationOf(b.id))))
  }

  /** What the `.all` pre-handler does: answer 404 itself, or pass the row on. */
  datatype Preloaded = Replied(response: Response) | Next(bookmark: Bookmark)

  function Preload(t: Table, id: nat): Preloaded
  {
    match Find(t.rows, id)
    case None => Replied(NotFound)
    case Some(b) => Next(b)
  }

  /** GET /bookmarks/:bookmark_id. */
  function Fetch(xss: string -> string, t: Table, id: nat): Response
  {
    match Preload(t, id)
    case Replied(r) => r
    case Next(b) => Response(200, One(SerializeBookmark(xss, b)), None)
  }

  /** DELETE /bookmarks/:bookmark_id: 204 whatever the affected-row count. */
  function Remove(t: Table, id: nat): (Table, Response)
  {
    match Preload(t, id)
    case Replied(r) => (t, r)
    case Next(_) => (Delete(t, id).0, Response(204, NoContent, None))
  }

  // ---------------------------------------------------------------------------
  // The handlers over the service object

  /** The GET /bookmarks handler. */
  method GetBookmarks(store: BookmarksService, xss: string -> string) returns (resp: Response)
    ensures resp == ListAll(xss, store.State())
  {
    var all := store.GetAllBookmarks();
    resp := Response(200, Many(SerializeAll(xss, all)), None);
  }

  /** The POST /bookmarks handler: the presence loop with its early return, the
      url and rating guards, then the insertion. */
  method PostBookmark(store: BookmarksService, xss: string -> string, body: Payload)
    returns (resp: Response)
    requires store.Invariant()
    modifies store
    ensures store.Invariant()
    ensures (store.State(), resp) == Create(xss, store.toText, old(store.State()), body)
  {
    var fields := RequiredFields;
    for k := 0 to |fields|
      invariant forall j :: 0 <= j < k ==> Truthy(Get(body, fields[j]))
    {
      if !Truthy(Get(body, fields[k])) {
        FirstMissingAt(body, fields, k);
        return Response(400, ErrorMessage(RequiredMessage(fields[k])), None);
      }
    }
    assert AllPresent(body, fields);
    var title, url, rating, description :=
      Get(body, "title"), Get(body, "url"), Get(body, "rating"), Get(body, "description");
    var verdict := CheckUrl(url);
    if verdict == UrlTypeError {
      return Response(500, ServerError, None);
    }
    if verdict == UrlFails {
      return Response(400, PlainText(UrlMessage), None);
    }
    if !RatingInRange(rating) {
      return Response(400, PlainText(RatingMessage), None);
    }
    assert Truthy(Get(body, fields[0])) && Truthy(Get(body, fields[1]));
    var candidate := NewBookmark(title.value, url.value, description, rating.value.n.Floor);
    var b := store.InsertBookmark(candidate);
    resp := Response(201, One(SerializeBookmark(xss, b)), Some(LocationOf(b.id)));
  }

  /** The `.all` pre-handler: looks the id up and either answers 404 or hands
      the row to the next handler (`res.bookmark = bookmark; next()`). */
  method PreloadBookmark(store: BookmarksService, id: nat) returns (p: Preloaded)
    ensures p == Preload(store.State(), id)
  {
    var found := store.GetById(id);
    if found.None? {
      return Replied(NotFound);
    }
    p := Next(found.value);
  }

  /** GET /bookmarks/:bookmark_id: the pre-handler, then the `.get` handler. */
  method GetBookmark(store: BookmarksService, xss: string -> string, id: nat) returns (resp: Response)
    ensures resp == Fetch(xss, store.State(), id)
  {
    var p := PreloadBookmark(store, id);
    match p
    case Replied(r) => resp := r;
    case Next(b) => resp := Response(200, One(SerializeBookmark(xss, b)), None);
  }

  /** DELETE /bookmarks/:bookmark_id: the pre-handler, then the `.delete` handler,
      which deletes by the path id and ignores the affected-row count. */
  method DeleteBookmark(store: BookmarksService, id: nat) returns (resp: Response)
    requires store.Invariant()
    modifies store
    ensures store.Invariant()
    ensures (store.State(), resp) == Remove(old(store.State()), id)
  {
    var p := PreloadBookmark(store, id);
    match p
    case Replied(r) => resp := r;
    case Next(_) =>
      var numRowsAffected := store.DeleteBookmark(id);
      resp := Response(204, NoContent, None);
  }

  // ---------------------------------------------------------------------------
  // Properties of the routes

  /** The Location header names the created id: reading its path back gives it. */
  lemma LocationNamesId(id: nat)
    ensures IdOfPath(LocationOf(id)) == Some(id)
  {
    var loc := LocationOf(id);
    assert loc[..|CollectionPath|] == CollectionPath;
    assert loc[|CollectionPath|..] == DecimalString(id);
    DecimalRoundTrip(id);
  }

  /** A missing field is answered with 400 and a message naming that field, the
      first falsy one in the order title, url, rating; nothing is stored. */
  lemma MissingFieldReply(xss: string -> string, toText: Json -> string, t: Table, body: Payload, field: string)
    ensures Create(xss, toText, t, body) == (t, Response(400, ErrorMessage(RequiredMessage(field)), None))
            <==> Validate(body) == Missing(field)
    ensures field == "title" ==>
              (Create(xss, toText, t, body).1.body == ErrorMessage(RequiredMessage(field))
               <==> !Truthy(Get(body, "title")))
    ensures field == "url" ==>
              (Create(xss, toText, t, body).1.body == ErrorMessage(RequiredMessage(field))
               <==> Truthy(Get(body, "title")) && !Truthy(Get(body, "url")))
    ensures field == "rating" ==>
              (Create(xss, toText, t, body).1.body == ErrorMessage(RequiredMessage(field))
               <==> Truthy(Get(body, "title")) && Truthy(Get(body, "url")) && !Truthy(Get(body, "rating")))
  {
    MissingFieldsInOrder(body);
    RequiredMessageNamesField(field);
  }

  /** Different fields give different messages. */
  lemma RequiredMessageNamesField(field: string)
    ensures forall other :: RequiredMessage(other) == RequiredMessage(field) ==> other == field
  {
    forall other | RequiredMessage(other) == RequiredMessage(field) ensures other == field {
      var m := RequiredMessage(field);
      assert |other| == |field|;
      assert other == m[1..|m| - 13];
      assert field == m[1..|m| - 13];
    }
  }

  /** Every rejection leaves the table as it was; an acceptance never does, so a
      POST persists something exactly when the body passes every check. */
  lemma RejectedCreatePersistsNothing(xss: string -> string, toText: Json -> string, t: Table, body: Payload)
    ensures Create(xss, toText, t, body).0 == t <==> !Validate(body).Accepted?
    ensures !Validate(body).Accepted? ==> Create(xss, toText, t, body).1.status in {400, 500}
    ensures Validate(body) == InvalidUrl ==>
              Create(xss, toText, t, body).1 == Response(400, PlainText(UrlMessage), None)
    ensures Validate(body) == InvalidRating ==>
              Create(xss, toText, t, body).1 == Response(400, PlainText(RatingMessage), None)
  {
  }

  /** Past the presence checks, a url without an `includes` method ends in the
      error handler, a url that fails the test gets the url message, and a url
      that passes with a rating outside 0..5 gets the rating message; each of
      these replies is given exactly in its case, and nothing is stored. */
  lemma GuardReplies(xss: string -> string, toText: Json -> string, t: Table, body: Payload)
    requires AllPresent(body, RequiredFields)
    ensures Create(xss, toText, t, body) == (t, Response(500, ServerError, None)) <==>
              CheckUrl(Get(body, "url")) == UrlTypeError
    ensures Create(xss, toText, t, body) == (t, Response(400, PlainText(UrlMessage), None)) <==>
              CheckUrl(Get(body, "url")) == UrlFails
    ensures Create(xss, toText, t, body) == (t, Response(400, PlainText(RatingMessage), None)) <==>
              CheckUrl(Get(body, "url")) == UrlPasses && !RatingInRange(Get(body, "rating"))
  {
  }

  /** An accepted POST inserts exactly one row, with an id no row had, built
      from the body's own values; it answers 201 with that row serialized and a
      Location naming its id. */
  lemma CreateInsertsOne(xss: string -> string, toText: Json -> string, t: Table, body: Payload)
    requires Valid(t) && Validate(body).Accepted?
    ensures var (t', r) := Create(xss, toText, t, body);
            var b := t'.rows[|t'.rows| - 1];
            Valid(t') && |t'.rows| == |t.rows| + 1 && t'.rows == t.rows + [b] &&
            Find(t.rows, b.id) == None &&
            b.title == toText(body["title"]) && b.url == toText(body["url"]) &&
            b.description == (if "description" in body then toText(body["description"]) else "") &&
            Get(body, "rating") == Some(JNum(b.rating as real)) && 1 <= b.rating <= 5 &&
            r == Response(201, One(SerializeBookmark(xss, b)), Some(LocationOf(b.id)))
  {
  }

  /** POST then GET on the returned Location: 200 with the body the POST returned. */
  lemma CreateThenGet(xss: string -> string, toText: Json -> string, t: Table, body: Payload)
    requires Valid(t) && Validate(body).Accepted?
    ensures var (t', r) := Create(xss, toText, t, body);
            r.status == 201 && r.location.Some? && IdOfPath(r.location.value).Some? &&
            Fetch(xss, t', IdOfPath(r.location.value).value) == Response(200, r.body, None)
  {
    var c := Validate(body).candidate;
    var (t', b) := Insert(t, c, toText);
    InsertFresh(t, c, toText);
    LocationNamesId(b.id);
  }

  /** After an accepted POST the list is the old list with the new bookmark at the end. */
  lemma ListAfterCreate(xss: string -> string, toText: Json -> string, t: Table, body: Payload)
    requires Validate(body).Accepted?
    ensures var (t', r) := Create(xss, toText, t, body);
            ListAll(xss, t').body.bookmarks == ListAll(xss, t).body.bookmarks + [r.body.bookmark]
  {
  }

  /** GET /bookmarks answers 200 with one serialized entry per row, same order,
      same ids and urls; an empty table gives an empty list. */
  lemma ListMirrorsTable(xss: string -> string, t: Table)
    ensures ListAll(xss, t).status == 200
    ensures |ListAll(xss, t).body.bookmarks| == |t.rows|
    ensures t.rows == [] ==> ListAll(xss, t).body.bookmarks == []
    ensures forall i :: 0 <= i < |t.rows| ==>
              ListAll(xss, t).body.bookmarks[i].id == t.rows[i].id &&
              ListAll(xss, t).body.bookmarks[i].url == t.rows[i].url
  {
  }

  /** When `xss` leaves a row's text unchanged (as for the plain-text fixtures),
      the wire form carries the stored row exactly. */
  lemma SerializePlainText(xss: string -> string, b: Bookmark)
    requires xss(b.title) == b.title && xss(b.description) == b.description
    ensures var w := SerializeBookmark(xss, b);
            Bookmark(w.id, w.title, w.url, w.description, w.rating) == b
  {
  }

  /** Every read path sends title and description through `xss`: whatever
      property every output of `xss` has, every bookmark any route returns has it. */
  lemma EveryReadPathSanitises(xss: string -> string, safe: string -> bool, toText: Json -> string,
                               t: Table, body: Payload, id: nat)
    requires forall s :: safe(xss(s))
    ensures forall w :: w in ListAll(xss, t).body.bookmarks ==> safe(w.title) && safe(w.description)
    ensures Fetch(xss, t, id).body.One? ==>
              safe(Fetch(xss, t, id).body.bookmark.title) &&
              safe(Fetch(xss, t, id).body.bookmark.description)
    ensures Create(xss, toText, t, body).1.body.One? ==>
              safe(Create(xss, toText, t, body).1.body.bookmark.title) &&
              safe(Create(xss, toText, t, body).1.body.bookmark.description)
  {
  }

  /** An absent id is answered 404 "Bookmark Not Found" by the pre-handler and
      neither the GET nor the DELETE handler runs; a present id is never 404. */
  lemma AbsentIdIsNotFound(xss: string -> string, t: Table, id: nat)
    ensures Fetch(xss, t, id) == NotFound <==> Find(t.rows, id).None?
    ensures Find(t.rows, id).None? ==> Remove(t, id) == (t, NotFound)
    ensures Find(t.rows, id).Some? ==> Fetch(xss, t, id).status == 200 && Remove(t, id).1.status == 204
  {
  }

  /** DELETE of a present id answers 204, removes that row and no other. */
  lemma DeleteRemovesOnlyThatRow(t: Table, id: nat)
    requires Valid(t) && Find(t.rows, id).Some?
    ensures var (t', r) := Remove(t, id);
            r == Response(204, NoContent, None) && Valid(t') &&
            |t'.rows| == |t.rows| - 1 && Find(t'.rows, id) == None &&
            forall j :: j != id ==> Find(t'.rows, j) == Find(t.rows, j)
  {
    DeleteRemovesExactlyOne(t, id);
  }

  /** DELETE of an existing id, then GET of it: 404. */
  lemma DeleteThenGetNotFound(xss: string -> string, t: Table, id: nat)
    requires Find(t.rows, id).Some?
    ensures Remove(t, id).1.status == 204
    ensures Fetch(xss, Remove(t, id).0, id) == NotFound
  {
    FindWithout(t.rows, id, id);
  }

  /** DELETE of an existing row, then GET /bookmarks: the list of the rows before
      it followed by the rows after it, in their order. */
  lemma ListAfterDelete(xss: string -> string, t: Table, a: seq<Bookmark>, x: Bookmark, b: seq<Bookmark>)
    requires Valid(t) && t.rows == a + [x] + b
    ensures Remove(t, x.id).1 == Response(204, NoContent, None)
    ensures ListAll(xss, Remove(t, x.id).0).body.bookmarks == SerializeAll(xss, a + b)
  {
    assert t.rows[|a|] == x;
    WithoutKeepsOrder(a, x, b);
  }
}
