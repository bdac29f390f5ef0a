/**
 * The values that cross the HTTP boundary between the screens and the
 * backend: the JSON bodies the backend endpoints return, and the outcome of
 * a client call (`await fetch(...)` followed by `response.json()`), which
 * either rejects or resolves with a parsed body.
 */
module Api {

  datatype Option<T> = None | Some(value: T)

  /** `x || []` and `x ?? []` on a list that may be missing. */
  function OrEmpty<T>(o: Option<seq<T>>): (r: seq<T>)
    ensures o.Some? ==> r == o.value
    ensures o.None? ==> r == []
  {
    match o
    case None => []
    case Some(xs) => xs
  }

  /** The six-field book dictionary every endpoint builds from a `books` row. */
  datatype BookRecord = BookRecord(
    title: string,
    author: string,
    description: string,
    genres: string,
    coverImg: string,
    bookId: string)

  /** One `(title, score)` pair of a similarity list (the `similar_books` column, the pickled map). */
  datatype Similar = Similar(title: string, score: real)

  /** The `preferences` object: both columns may be missing or null (`None`). */
  datatype Prefs = Prefs(preferredTitles: Option<seq<string>>, preferredGenres: Option<seq<string>>)

  /** The JSON bodies the backend sends. */
  datatype Body =
    | MessageBody(message: string)                      // {"message": ...}
    | DetailBody(detail: string)                        // an HTTPException: {"detail": ...}
    | LoginBody(message: string, userId: string)        // {"message": ..., "user_id": ...}
    | PreferencesBody(preferences: Prefs)               // {"preferences": {...}}
    | RecommendationsBody(recommendations: seq<BookRecord>)
    | TbrListBody(tbrList: seq<BookRecord>)
    | JsonNull                                          // `null`, the falsy JSON document

  /** A parsed body is truthy in JavaScript unless it is `null`. */
  predicate Truthy(b: Body) {
    !b.JsonNull?
  }

  /** What the backend answers: a JSON body, or FastAPI's plain-text 500 page after an unhandled exception. */
  datatype Reply = Json(body: Body) | InternalServerError

  /** The client side of one call: the promise rejected (network error, unparsable body), or it resolved. */
  datatype Call<T> = Threw | Returned(value: T)

  /** What `response.json()` makes of a backend reply: a 500 page is not JSON, so parsing rejects. */
  function Receive(r: Reply): (c: Call<Body>)
    ensures c.Threw? <==> r.InternalServerError?
    ensures r.Json? ==> c == Returned(r.body)
  {
    match r
    case Json(b) => Returned(b)
    case InternalServerError => Threw
  }
}
