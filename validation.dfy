/** The checks the POST /bookmarks handler applies to a request body before
    anything is stored (src/bookmarks/bookmarks.router.js, lines 29-48). */
module Validation {
  import opened Wrappers
  import opened Json

  /** The fields whose presence is checked, in the order they are checked. */
  const RequiredFields: seq<string> := ["title", "url", "rating"]

  const HttpScheme: string := "http://"
  const HttpsScheme: string := "https://"

  /** The record the handler hands to the store: `{ title, url, description, rating }`.
      `rating` is an integer here because only an integer passes the checks. */
  datatype NewBookmark = NewBookmark(title: Json, url: Json, description: Option<Json>, rating: int)

  /** The outcome of the checks, one case per early return of the handler. */
  datatype Check =
    | Accepted(candidate: NewBookmark)
    | Missing(field: string)
    | InvalidUrl
    | UrlThrows      // `url.includes` is not a function: a TypeError leaves the handler
    | InvalidRating

  /** The three outcomes of the url test on line 41. */
  datatype UrlVerdict = UrlPasses | UrlFails | UrlTypeError

  /** Every one of `fields` is truthy in `body`. */
  predicate AllPresent(body: Payload, fields: seq<string>)
  {
    forall j :: 0 <= j < |fields| ==> Truthy(Get(body, fields[j]))
  }

  /** `fields[i]` is the first field of `fields` that is falsy in `body`. */
  predicate FirstAbsentAt(body: Payload, fields: seq<string>, i: int)
  {
    0 <= i < |fields| && !Truthy(Get(body, fields[i])) &&
    forall j :: 0 <= j < i ==> Truthy(Get(body, fields[j]))
  }

  /** The field the presence loop reports: the first falsy one, if any. */
  function FirstMissing(body: Payload, fields: seq<string>): (r: Option<string>)
    ensures r.None? <==> AllPresent(body, fields)
    ensures r.Some? ==> exists i :: FirstAbsentAt(body, fields, i) && fields[i] == r.value
    decreases |fields|
  {
    if fields == [] then None
    else if !Truthy(Get(body, fields[0])) then
      assert FirstAbsentAt(body, fields, 0);
      Some(fields[0])
    else
      var r := FirstMissing(body, fields[1..]);
      assert AllPresent(body, fields[1..]) ==> AllPresent(body, fields) by {
        if AllPresent(body, fields[1..]) {
          forall j | 0 <= j < |fields| ensures Truthy(Get(body, fields[j])) {
            if j > 0 { assert fields[j] == fields[1..][j - 1]; }
          }
        }
      }
      assert r.Some? ==> exists i :: FirstAbsentAt(body, fields, i) && fields[i] == r.value by {
        if r.Some? {
          var i :| FirstAbsentAt(body, fields[1..], i) && fields[1..][i] == r.value;
          assert FirstAbsentAt(body, fields, i + 1);
        }
      }
      r
  }

  /** The first falsy field is the one the loop reports. */
  lemma FirstMissingAt(body: Payload, fields: seq<string>, i: int)
    requires FirstAbsentAt(body, fields, i)
    ensures FirstMissing(body, fields) == Some(fields[i])
  {
  }

  /** `url && !(url.includes('http://') || url.includes('https://'))` on line 41:
      a falsy url skips the test; a string is searched for a substring; an array
      is searched for an element; any other value has no `includes` method. */
  function CheckUrl(url: Option<Json>): (r: UrlVerdict)
    ensures !Truthy(url) ==> r == UrlPasses
    ensures r == UrlTypeError <==> Truthy(url) && !url.value.JStr? && !url.value.JArr?
    ensures url.Some? && url.value.JStr? ==>
              (r == UrlPasses <==>
                 (url.value.s == "" ||
                  (exists i :: OccursAt(url.value.s, HttpScheme, i)) ||
                  (exists i :: OccursAt(url.value.s, HttpsScheme, i))))
    ensures url.Some? && url.value.JArr? ==>
              (r == UrlPasses <==>
                 (exists i :: 0 <= i < |url.value.items| &&
                                url.value.items[i] in {JStr(HttpScheme), JStr(HttpsScheme)}))
  {
    if !Truthy(url) then UrlPasses
    else match url.value
      case JStr(s) =>
        if Includes(s, HttpScheme) || Includes(s, HttpsScheme) then UrlPasses else UrlFails
      case JArr(items) =>
        if JStr(HttpScheme) in items || JStr(HttpsScheme) in items then UrlPasses else UrlFails
      case _ => UrlTypeError
  }

  /** The negation of `!Number.isInteger(rating) || rating < 0 || rating > 5` on line 45. */
  predicate RatingInRange(rating: Option<Json>): (r: bool)
    ensures r <==> rating.Some? && rating.value.JNum? && rating.value.n in {0.0, 1.0, 2.0, 3.0, 4.0, 5.0}
  {
    IsInteger(rating) && 0.0 <= rating.value.n <= 5.0
  }

  /** The whole check sequence of the POST handler, stopping at the first failure. */
  function Validate(body: Payload): (r: Check)
    ensures r.Missing? <==> !AllPresent(body, RequiredFields)
    ensures r.Missing? ==> r.field in RequiredFields && !Truthy(Get(body, r.field))
    ensures r == UrlThrows <==>
              AllPresent(body, RequiredFields) && CheckUrl(Get(body, "url")) == UrlTypeError
    ensures r == InvalidUrl <==>
              AllPresent(body, RequiredFields) && CheckUrl(Get(body, "url")) == UrlFails
    ensures r == InvalidRating <==>
              AllPresent(body, RequiredFields) && CheckUrl(Get(body, "url")) == UrlPasses &&
              !RatingInRange(Get(body, "rating"))
    ensures r.Accepted? ==> RatingInRange(Get(body, "rating")) &&
                            body["rating"] == JNum(r.candidate.rating as real)
  {
    match FirstMissing(body, RequiredFields)
    case Some(field) => Missing(field)
    case None =>
      var url := Get(body, "url");
      var rating := Get(body, "rating");
      match CheckUrl(url)
      case UrlFails => InvalidUrl
      case UrlTypeError => UrlThrows
      case UrlPasses =>
        if !RatingInRange(rating) then InvalidRating
        else
          assert Truthy(Get(body, RequiredFields[0])) && Truthy(Get(body, RequiredFields[1]));
          Accepted(NewBookmark(body["title"], body["url"], Get(body, "description"), rating.value.n.Floor))
  }

  /** The presence checks run in the order title, url, rating; the first falsy
      field is reported and the later ones are not looked at. */
  lemma MissingFieldsInOrder(body: Payload)
    ensures Validate(body) == Missing("title") <==> !Truthy(Get(body, "title"))
    ensures Validate(body) == Missing("url") <==>
              Truthy(Get(body, "title")) && !Truthy(Get(body, "url"))
    ensures Validate(body) == Missing("rating") <==>
              Truthy(Get(body, "title")) && Truthy(Get(body, "url")) && !Truthy(Get(body, "rating"))
    ensures Validate(body).Missing? ==> Validate(body).field in RequiredFields
  {
  }

  /** A rating of 0 is falsy, so it is reported as missing and never reaches
      the range check that would have let it through. */
  lemma ZeroRatingReportedMissing(body: Payload)
    requires Get(body, "rating") == Some(JNum(0.0))
    requires Truthy(Get(body, "title")) && Truthy(Get(body, "url"))
    ensures Validate(body) == Missing("rating")
  {
  }

  /** Whatever else the body holds, an accepted rating lies in 1..5 and is the
      number the client sent. */
  lemma AcceptedRatingIsOneToFive(body: Payload)
    requires Validate(body).Accepted?
    ensures 1 <= Validate(body).candidate.rating <= 5
    ensures Get(body, "rating") == Some(JNum(Validate(body).candidate.rating as real))
  {
  }

  /** Once title and url pass, the body is accepted exactly when its rating is an
      integer from 1 to 5: the range check admits 0, the presence check does not. */
  lemma AcceptedRatingsExactlyOneToFive(body: Payload)
    requires Truthy(Get(body, "title")) && Truthy(Get(body, "url"))
    requires CheckUrl(Get(body, "url")) == UrlPasses
    ensures Validate(body).Accepted? <==>
              IsInteger(Get(body, "rating")) && 1.0 <= Get(body, "rating").value.n <= 5.0
  {
  }

  /** With every field present and a string url, the url is rejected exactly
      when neither scheme occurs in it anywhere (not only as a prefix). */
  lemma UrlAcceptedIffSchemeOccurs(body: Payload, s: string)
    requires Get(body, "url") == Some(JStr(s))
    requires Truthy(Get(body, "title")) && s != "" && Truthy(Get(body, "rating"))
    ensures Validate(body) != InvalidUrl <==>
              (exists i :: OccursAt(s, HttpScheme, i)) || (exists i :: OccursAt(s, HttpsScheme, i))
  {
  }

  /** A url that merely mentions a scheme after some other text passes. */
  lemma SchemeNeedNotBePrefix(body: Payload)
    requires Get(body, "title") == Some(JStr("t")) && Get(body, "rating") == Some(JNum(3.0))
    requires Get(body, "url") == Some(JStr("javascript:alert(1)//http://"))
    ensures Validate(body).Accepted?
  {
    var s := "javascript:alert(1)//http://";
    assert OccursAt(s, HttpScheme, 21);
    assert AllPresent(body, RequiredFields);
  }

  /** The checks never stop a body for a field they do not name: an accepted body
      has truthy title and url, a url that passes, and its own values are carried over. */
  lemma AcceptedCarriesBody(body: Payload)
    requires Validate(body).Accepted?
    ensures AllPresent(body, RequiredFields) && CheckUrl(Get(body, "url")) == UrlPasses
    ensures var c := Validate(body).candidate;
            Get(body, "title") == Some(c.title) && Get(body, "url") == Some(c.url) &&
            Get(body, "description") == c.description
  {
  }
}
