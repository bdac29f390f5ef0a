/**
 * The recommendation feed of the home screen (`src/screens/HomeScreen.js`):
 * `fetchBooks` reads the user's preferences, joins them into the two query
 * strings of the recommendations endpoint and stores the answer; a right
 * swipe sends the card's book to the to-be-read list and classifies the
 * answer by its message.
 *
 * The two awaited API calls of `fetchBooks` and the one of `onSwipeRight`
 * are parameters (`Call<Body>`). The request a handler sends is returned so
 * that its arguments can be stated.
 */
module HomeFeed {
  import opened Api
  import opened Strings
  import opened BackendModel

  /** The query of `getRecommendations(genres, titles)`: genres first, then titles. */
  datatype Query = Query(genres: string, titles: string)

  /** How `onSwipeRight` ended. */
  datatype SwipeOutcome =
    | NoCall          // no `bookId` on the card, or no user
    | LoggedAdded     // "Book added to TBR list"
    | LoggedAlready   // "Book already added to TBR list"
    | LoggedError     // any other answer: `console.error`
    | Rejected        // the call rejected, or reading `result.message` threw

  /**
   * The query `fetchBooks` sends for a `preferences` object: each list that
   * is `undefined` or `null` becomes `[]`, then each is joined with `,`.
   */
  function RecommendationQuery(p: Prefs): (q: Query)
    ensures p.preferredGenres.None? ==> q.genres == ""
    ensures p.preferredTitles.None? ==> q.titles == ""
  {
    Query(Join(OrEmpty(p.preferredGenres), ','), Join(OrEmpty(p.preferredTitles), ','))
  }

  /** Entries that survive the round trip through a comma-joined query string. */
  predicate QuerySafe(xs: seq<string>) {
    forall k :: 0 <= k < |xs| ==> xs[k] != "" && ',' !in xs[k]
  }

  /**
   * The backend's split of the query string (`getRecommendations` of
   * recommendation.py) recovers exactly the lists the screen joined, when
   * every entry is non-empty and free of commas. The screen puts the joined
   * lists into the URL without percent-encoding them (src/api/API.js:92), so
   * an entry holding `&`, `#` or `+` is cut or altered by the query parser
   * before the split; the model treats the query string as delivered
   * verbatim and does not capture that loss.
   */
  lemma QueryRoundTrip(p: Prefs)
    requires QuerySafe(OrEmpty(p.preferredGenres)) && QuerySafe(OrEmpty(p.preferredTitles))
    ensures SplitQuery(RecommendationQuery(p).genres) == OrEmpty(p.preferredGenres)
    ensures SplitQuery(RecommendationQuery(p).titles) == OrEmpty(p.preferredTitles)
  {
    JoinRoundTrip(OrEmpty(p.preferredGenres));
    JoinRoundTrip(OrEmpty(p.preferredTitles));
  }

  /** One list through `join(',')` and the server's split. */
  lemma JoinRoundTrip(xs: seq<string>)
    requires QuerySafe(xs)
    ensures SplitQuery(Join(xs, ',')) == xs
  {
    if xs != [] {
      SplitJoin(xs, ',');
      assert xs[0] != "";
      JoinNonEmpty(xs);
    }
  }

  /** Joining a non-empty list whose first entry is non-empty gives a non-empty string. */
  lemma JoinNonEmpty(xs: seq<string>)
    requires xs != [] && xs[0] != ""
    ensures Join(xs, ',') != ""
  {
    if |xs| > 1 {
      assert |Join(xs, ',')| >= |xs[0]|;
    }
  }

  /** The message `result.message` reads from a body, when the body has one. */
  function MessageOf(b: Body): (m: Option<string>)
    ensures (b.MessageBody? || b.LoginBody?) <==> m.Some?
    ensures m.Some? ==> m.value == b.message
  {
    match b
    case MessageBody(message) => Some(message)
    case LoginBody(message, _) => Some(message)
    case _ => None
  }

  /**
   * The classification of the answer to `addToTBR`: an exact match on one of
   * the two success messages, otherwise an error; a `null` body makes the
   * property read throw.
   */
  function Classify(b: Body): (r: SwipeOutcome)
    ensures r == LoggedAdded <==> MessageOf(b) == Some("Book added to TBR list")
    ensures r == LoggedAlready <==> MessageOf(b) == Some("Book already added to TBR list")
    ensures r == Rejected <==> b.JsonNull?
    ensures r != NoCall
  {
    if b.JsonNull? then Rejected
    else if MessageOf(b) == Some("Book added to TBR list") then LoggedAdded
    else if MessageOf(b) == Some("Book already added to TBR list") then LoggedAlready
    else LoggedError
  }

  /** JavaScript truthiness of an optional string: present and non-empty. */
  predicate Present(s: Option<string>) {
    s.Some? && s.value != ""
  }

  /** The screen's state. `books` is `None` once it has been set to `undefined`. */
  class HomeScreen {
    var books: Option<seq<BookRecord>>
    var loading: bool
    var currentIndex: nat
    /** Every value `setLoading` has been given, in order. */
    ghost var loadingHistory: seq<bool>

    /** `useState([])`, `useState(true)`, `useState(0)`. */
    constructor ()
      ensures books == Some([]) && loading && currentIndex == 0 && loadingHistory == []
    {
      books := Some([]);
      loading := true;
      currentIndex := 0;
      loadingHistory := [];
    }

    /**
     * `fetchBooks`: set `loading`; read the preferences; send the joined
     * lists; store `data.recommendations`; clear `loading` in `finally`.
     * Any throw on the way is caught and leaves `books` as it was.
     */
    method FetchBooks(prefsReply: Call<Body>, recsReply: Call<Body>) returns (sent: Option<Query>)
      modifies this
      ensures loadingHistory == old(loadingHistory) + [true, false] && !loading
      ensures sent.Some? <==> prefsReply.Returned? && prefsReply.value.PreferencesBody?
      ensures sent.Some? ==> sent.value == RecommendationQuery(prefsReply.value.preferences)
      ensures sent.Some? && recsReply.Returned? && recsReply.value.RecommendationsBody? ==>
                books == Some(recsReply.value.recommendations)
      ensures (sent.Some? && recsReply.Returned? && !recsReply.value.RecommendationsBody? &&
               !recsReply.value.JsonNull?) ==> books == None
      ensures sent.None? || recsReply.Threw? || recsReply.value.JsonNull? ==> books == old(books)
      ensures currentIndex == old(currentIndex)
    {
      loading := true;
      loadingHistory := loadingHistory + [true];
      sent := None;
      if prefsReply.Returned? && prefsReply.value.PreferencesBody? {
        var p := prefsReply.value.preferences;
        var titles := OrEmpty(p.preferredTitles);
        var genres := OrEmpty(p.preferredGenres);
        sent := Some(Query(Join(genres, ','), Join(titles, ',')));
        if recsReply.Returned? && !recsReply.value.JsonNull? {
          if recsReply.value.RecommendationsBody? {
            books := Some(recsReply.value.recommendations);
          } else {
            books := None;
          }
        }
      }
      loading := false;
      loadingHistory := loadingHistory + [false];
    }

    /**
     * `onSwipeRight(index)`: when the card has a `bookId` and a user is
     * signed in, call `addToTBR` and classify the answer. Nothing of the
     * screen's state changes.
     */
    method OnSwipeRight(index: nat, userId: Option<string>, reply: Call<Body>) returns (outcome: SwipeOutcome)
      ensures books.None? ==> outcome == Rejected
      ensures books.Some? && !(index < |books.value| && books.value[index].bookId != "" && Present(userId)) ==>
                outcome == NoCall
      ensures books.Some? && index < |books.value| && books.value[index].bookId != "" && Present(userId) ==>
                outcome == if reply.Threw? then Rejected else Classify(reply.value)
    {
      if books.None? {
        return Rejected;
      }
      var list := books.value;
      var bookId := if index < |list| then list[index].bookId else "";
      if bookId != "" && Present(userId) {
        if reply.Threw? {
          outcome := Rejected;
        } else {
          outcome := Classify(reply.value);
        }
      } else {
        outcome := NoCall;
      }
    }
  }
}
