/**
 * The FastAPI endpoints of `recommendation.py` as methods of one object that
 * holds the four Supabase tables. Each endpoint is an atomic step; reads are
 * specified by the functions of `BackendModel`, writes by the new table
 * contents. Generated ids (`uuid4`) and the outcome of an insert are
 * parameters; password hashing happens before `Register` is called.
 */
module BackendApi {
  import opened Api
  import opened Strings
  import opened Lists
  import opened BackendModel

  /** The `numRecommendationsPerSource` default that `getRecommendations` relies on. */
  const RecommendationsPerSource: nat := 5

  class Database {
    var books: seq<Book>
    var similarityScores: seq<SimilarityRow>
    var tbrList: seq<TbrRow>
    /** `users`, keyed by its primary key `user_id`. */
    var users: map<string, User>

    constructor (books: seq<Book>, similarityScores: seq<SimilarityRow>, tbrList: seq<TbrRow>, users: map<string, User>)
      ensures this.books == books && this.similarityScores == similarityScores
      ensures this.tbrList == tbrList && this.users == users
    {
      this.books := books;
      this.similarityScores := similarityScores;
      this.tbrList := tbrList;
      this.users := users;
    }

    /** `recommendByTitle(title, n)`: look up the similarity row, filter, truncate, resolve each entry. */
    method RecommendByTitle(title: string, n: nat) returns (r: seq<BookRecord>)
      ensures r == TitleRecommendations(similarityScores, books, title, n)
    {
      var response := SimilarityRowFor(similarityScores, Trim(title));
      if response.None? {
        return [];
      }
      r := ResolveEntries(Take(OmitQueriedTitle(response.value.similarBooks, title), n));
    }

    /** The loop of `recommendByTitle`: the `books` record of each kept entry that has one, in order. */
    method ResolveEntries(picked: seq<Similar>) returns (r: seq<BookRecord>)
      ensures r == Resolve(books, picked)
    {
      r := [];
      var i := 0;
      while i < |picked|
        invariant 0 <= i <= |picked|
        invariant r == Resolve(books, picked[..i])
      {
        var matching := BookByTitle(books, Trim(picked[i].title));
        ResolvePrefix(books, picked, i);
        if matching.Some? {
          assert ResolveOne(books, picked[i]) == [Project(matching.value)];
          r := r + [Project(matching.value)];
        } else {
          assert ResolveOne(books, picked[i]) == [];
        }
        i := i + 1;
      }
      assert picked[..i] == picked;
    }

    /** The genre loop of `getAllRecommendations`: `extend` with each genre's results in turn. */
    method CollectGenreResults(genres: seq<string>, n: nat) returns (recommendations: seq<BookRecord>)
      ensures recommendations == GenreSources(books, genres, n)
    {
      recommendations := [];
      var i := 0;
      while i < |genres|
        invariant 0 <= i <= |genres|
        invariant recommendations == GenreSources(books, genres[..i], n)
      {
        GenreSourcesStep(books, genres, i, n);
        recommendations := recommendations + GenreRecommendations(books, genres[i], n);
        i := i + 1;
      }
      assert genres[..i] == genres;
    }

    /** The title loop of `getAllRecommendations`: `extend` with each title's results in turn. */
    method CollectTitleResults(titles: seq<string>, n: nat) returns (recommendations: seq<BookRecord>)
      ensures recommendations == TitleSources(similarityScores, books, titles, n)
    {
      recommendations := [];
      var j := 0;
      while j < |titles|
        invariant 0 <= j <= |titles|
        invariant recommendations == TitleSources(similarityScores, books, titles[..j], n)
      {
        TitleSourcesStep(similarityScores, books, titles, j, n);
        var more := RecommendByTitle(titles[j], n);
        recommendations := recommendations + more;
        j := j + 1;
      }
      assert titles[..j] == titles;
    }

    /**
     * `getAllRecommendations(genres, titles, n)`: every genre's results, then
     * every title's, then the top-rated books, with duplicates removed.
     */
    method GetAllRecommendations(genres: seq<string>, titles: seq<string>, n: nat) returns (r: seq<BookRecord>)
      ensures r == AllRecommendations(similarityScores, books, genres, titles, n)
    {
      var byGenre := CollectGenreResults(genres, n);
      var byTitle := CollectTitleResults(titles, n);
      var recommendations := byGenre + byTitle + TopRated(books, n);
      r := Dedup(recommendations);
    }

    /** `getRecommendations(genres, titles)`: the comma-separated query strings, five results per source. */
    method GetRecommendations(genres: string, titles: string) returns (b: Body)
      ensures b == RecommendationsBody(AllRecommendations(similarityScores, books,
                     SplitQuery(genres), SplitQuery(titles), RecommendationsPerSource))
    {
      var genresList := if genres == [] then [] else Split(genres, ',');
      var titlesList := if titles == [] then [] else Split(titles, ',');
      var recommendations := GetAllRecommendations(genresList, titlesList, RecommendationsPerSource);
      b := RecommendationsBody(recommendations);
    }

    /** `viewTBR(user_id)`: the user's rows in table order, each resolved through its stripped book id. */
    method ViewTbr(user: string) returns (b: Body)
      ensures b == TbrListBody(TbrView(tbrList, books, user))
    {
      var output: seq<BookRecord> := [];
      var i := 0;
      while i < |tbrList|
        invariant 0 <= i <= |tbrList|
        invariant output == TbrView(tbrList[..i], books, user)
      {
        assert tbrList[..i + 1][..i] == tbrList[..i];
        if tbrList[i].userId == user {
          var book := BookById(books, Trim(tbrList[i].bookId));
          if book.Some? {
            output := output + [Project(book.value)];
          }
        }
        i := i + 1;
      }
      assert tbrList[..i] == tbrList;
      b := TbrListBody(output);
    }

    /** `getPreferences(user_id)`: both preference columns of the user's row, or a 400 when there is no row. */
    method GetPreferences(user: string) returns (b: Body)
      ensures user !in users ==> b == DetailBody("Error fetching preferences")
      ensures user in users ==>
                b == PreferencesBody(Prefs(users[user].preferredTitles, users[user].preferredGenres))
    {
      if user !in users {
        return DetailBody("Error fetching preferences");
      }
      var row := users[user];
      b := PreferencesBody(Prefs(row.preferredTitles, row.preferredGenres));
    }

    /**
     * `register(user)`: one new row under a fresh id. A refused insert, or a
     * key that is already taken (the insert raises), answers "User already
     * exists" and leaves the table as it was.
     */
    method Register(username: string, passwordHash: string, freshId: string, insertOk: bool) returns (reply: Reply)
      modifies this
      ensures books == old(books) && similarityScores == old(similarityScores) && tbrList == old(tbrList)
      ensures insertOk && freshId !in old(users) ==>
                users == old(users)[freshId := User(username, passwordHash, None, None)] &&
                reply == Json(MessageBody("User registered successfully"))
      ensures !insertOk || freshId in old(users) ==>
                users == old(users) && reply == Json(DetailBody("User already exists"))
    {
      if !insertOk || freshId in users {
        return Json(DetailBody("User already exists"));
      }
      users := users[freshId := User(username, passwordHash, None, None)];
      reply := Json(MessageBody("User registered successfully"));
    }

    /**
     * `addToTBR(item)`: answers "already added" without touching the table when
     * the pair exists; otherwise inserts one row under `freshId`. A key that is
     * already taken makes the insert raise, and nothing catches it.
     */
    method AddToTbr(user: string, book: string, freshId: string, insertOk: bool) returns (reply: Reply)
      modifies this
      ensures books == old(books) && similarityScores == old(similarityScores) && users == old(users)
      ensures HasPair(old(tbrList), user, book) ==>
                tbrList == old(tbrList) && reply == Json(MessageBody("Book already added to TBR list"))
      ensures !HasPair(old(tbrList), user, book) && TbrIdTaken(old(tbrList), freshId) ==>
                tbrList == old(tbrList) && reply == InternalServerError
      ensures !HasPair(old(tbrList), user, book) && !TbrIdTaken(old(tbrList), freshId) && insertOk ==>
                tbrList == AddPair(old(tbrList), freshId, user, book) &&
                reply == Json(MessageBody("Book added to TBR list"))
      ensures !HasPair(old(tbrList), user, book) && !TbrIdTaken(old(tbrList), freshId) && !insertOk ==>
                tbrList == old(tbrList) && reply == Json(DetailBody("Error adding book to TBR list"))
    {
      if HasPair(tbrList, user, book) {
        return Json(MessageBody("Book already added to TBR list"));
      }
      if TbrIdTaken(tbrList, freshId) {
        return InternalServerError;
      }
      if !insertOk {
        return Json(DetailBody("Error adding book to TBR list"));
      }
      tbrList := tbrList + [TbrRow(freshId, user, book)];
      reply := Json(MessageBody("Book added to TBR list"));
    }

    /** `removeFromTBR(item)`: deletes every row of the pair; a 400 when there was none. */
    method RemoveFromTbr(user: string, book: string) returns (reply: Reply)
      modifies this
      ensures books == old(books) && similarityScores == old(similarityScores) && users == old(users)
      ensures tbrList == RemovePair(old(tbrList), user, book)
      ensures reply == if HasPair(old(tbrList), user, book) then Json(MessageBody("Book removed from TBR list"))
                       else Json(DetailBody("Error removing book from TBR list"))
    {
      var deleted := HasPair(tbrList, user, book);
      tbrList := RemovePair(tbrList, user, book);
      if !deleted {
        return Json(DetailBody("Error removing book from TBR list"));
      }
      reply := Json(MessageBody("Book removed from TBR list"));
    }

    /** `addTitle(payload)`: appends to the user's titles; a 400 when the user has no row. */
    method AddTitle(user: string, title: string) returns (reply: Reply)
      modifies this
      ensures books == old(books) && similarityScores == old(similarityScores) && tbrList == old(tbrList)
      ensures user !in old(users) ==> users == old(users) && reply == Json(DetailBody("User not found"))
      ensures user in old(users) ==>
                users == old(users)[user := old(users)[user].(preferredTitles :=
                           Some(AppendPreference(old(users)[user].preferredTitles, title)))] &&
                reply == Json(MessageBody("Title added"))
    {
      if user !in users {
        return Json(DetailBody("User not found"));
      }
      var titles := AppendPreference(users[user].preferredTitles, title);
      users := users[user := users[user].(preferredTitles := Some(titles))];
      reply := Json(MessageBody("Title added"));
    }

    /** `addGenre(payload)`: appends to the user's genres; a 400 when the user has no row. */
    method AddGenre(user: string, genre: string) returns (reply: Reply)
      modifies this
      ensures books == old(books) && similarityScores == old(similarityScores) && tbrList == old(tbrList)
      ensures user !in old(users) ==> users == old(users) && reply == Json(DetailBody("User not found"))
      ensures user in old(users) ==>
                users == old(users)[user := old(users)[user].(preferredGenres :=
                           Some(AppendPreference(old(users)[user].preferredGenres, genre)))] &&
                reply == Json(MessageBody("Genre added"))
    {
      if user !in users {
        return Json(DetailBody("User not found"));
      }
      var genres := AppendPreference(users[user].preferredGenres, genre);
      users := users[user := users[user].(preferredGenres := Some(genres))];
      reply := Json(MessageBody("Genre added"));
    }

    /**
     * `deleteTitle(payload)`: removes the first occurrence from the user's
     * titles; a 400 when the user has no row, and an unhandled `ValueError`
     * (a 500, nothing written) when the title is not in the list.
     */
    method DeleteTitle(user: string, title: string) returns (reply: Reply)
      modifies this
      ensures books == old(books) && similarityScores == old(similarityScores) && tbrList == old(tbrList)
      ensures user !in old(users) ==> users == old(users) && reply == Json(DetailBody("User not found"))
      ensures user in old(users) && DeletePreference(old(users)[user].preferredTitles, title).None? ==>
                users == old(users) && reply == InternalServerError
      ensures user in old(users) && DeletePreference(old(users)[user].preferredTitles, title).Some? ==>
                users == old(users)[user := old(users)[user].(preferredTitles :=
                           DeletePreference(old(users)[user].preferredTitles, title))] &&
                reply == Json(MessageBody("Title deleted"))
    {
      if user !in users {
        return Json(DetailBody("User not found"));
      }
      var titles := DeletePreference(users[user].preferredTitles, title);
      if titles.None? {
        return InternalServerError;
      }
      users := users[user := users[user].(preferredTitles := titles)];
      reply := Json(MessageBody("Title deleted"));
    }

    /**
     * `deleteGenre(payload)`: removes the first occurrence from the user's
     * genres; a 400 when the user has no row, a 500 when the genre is absent.
     */
    method DeleteGenre(user: string, genre: string) returns (reply: Reply)
      modifies this
      ensures books == old(books) && similarityScores == old(similarityScores) && tbrList == old(tbrList)
      ensures user !in old(users) ==> users == old(users) && reply == Json(DetailBody("User not found"))
      ensures user in old(users) && DeletePreference(old(users)[user].preferredGenres, genre).None? ==>
                users == old(users) && reply == InternalServerError
      ensures user in old(users) && DeletePreference(old(users)[user].preferredGenres, genre).Some? ==>
                users == old(users)[user := old(users)[user].(preferredGenres :=
                           DeletePreference(old(users)[user].preferredGenres, genre))] &&
                reply == Json(MessageBody("Genre deleted"))
    {
      if user !in users {
        return Json(DetailBody("User not found"));
      }
      var genres := DeletePreference(users[user].preferredGenres, genre);
      if genres.None? {
        return InternalServerError;
      }
      users := users[user := users[user].(preferredGenres := genres)];
      reply := Json(MessageBody("Genre deleted"));
    }
  }
}
