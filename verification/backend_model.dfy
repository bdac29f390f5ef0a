/**
 * The recommendation logic of the FastAPI backend (`recommendation.py`), as
 * pure functions over the contents of its Supabase tables:
 *
 *   books              the book catalogue, in table order
 *   similarity_scores  one row per title with its ranked similar titles
 *   tbr_list           (user, book) pairs of the to-be-read lists
 *   users              user rows keyed by their generated `user_id`
 *
 * The endpoints that read or change the tables are methods of
 * `BackendApi.Database`; they are specified by the functions here.
 * Query semantics: `.eq(col, v)` keeps the rows whose column equals `v`, in
 * table order; `.ilike('%g%')` and the title filter are case-insensitive
 * substring tests (wildcards inside `g` are not modelled); `.order(desc)` is
 * a stable descending sort of the table order.
 */
module BackendModel {
  import opened Api
  import opened Strings
  import opened Lists
  import opened Sorting

  /** A row of the `books` table. */
  datatype Book = Book(
    title: string,
    author: string,
    description: string,
    genres: string,
    coverImg: string,
    bookId: string,
    likedPercent: real)

  /** A row of `similarity_scores`. */
  datatype SimilarityRow = SimilarityRow(title: string, similarBooks: seq<Similar>)

  /** A row of `tbr_list`. */
  datatype TbrRow = TbrRow(tbrId: string, userId: string, bookId: string)

  /** A row of `users`, without its key. */
  datatype User = User(
    username: string,
    passwordHash: string,
    preferredTitles: Option<seq<string>>,
    preferredGenres: Option<seq<string>>)

  /** The minimum `likedPercent` of a genre recommendation. */
  const GenreLikedMin: real := 90.0
  /** The minimum `likedPercent` of a top-rated book. */
  const TopRatedLikedMin: real := 98.0

  /** The six fields every endpoint copies out of a `books` row. */
  function Project(b: Book): BookRecord {
    BookRecord(b.title, b.author, b.description, b.genres, b.coverImg, b.bookId)
  }

  /** The list comprehension that projects each matching row. */
  function ProjectAll(bs: seq<Book>): (r: seq<BookRecord>)
    ensures |r| == |bs|
    ensures forall i :: 0 <= i < |bs| ==> r[i] == Project(bs[i])
  {
    seq(|bs|, i requires 0 <= i < |bs| => Project(bs[i]))
  }

  /** The sort key of the genre and top-rated queries. */
  function Liked(b: Book): real {
    b.likedPercent
  }

  // ---------------------------------------------------------------------------
  // Single-row lookups: `.eq(col, v).execute().data`, then `data[0]` if any.

  /** The first `similarity_scores` row for `title`. */
  function SimilarityRowFor(rows: seq<SimilarityRow>, title: string): (r: Option<SimilarityRow>)
    ensures r.None? <==> forall i :: 0 <= i < |rows| ==> rows[i].title != title
    ensures r.Some? ==> exists i :: 0 <= i < |rows| && rows[i] == r.value && r.value.title == title &&
                          forall j :: 0 <= j < i ==> rows[j].title != title
  {
    if rows == [] then None
    else if rows[0].title == title then Some(rows[0])
    else
      var r := SimilarityRowFor(rows[1..], title);
      if r.Some? then
        var i :| 0 <= i < |rows[1..]| && rows[1..][i] == r.value && r.value.title == title &&
                 forall j :: 0 <= j < i ==> rows[1..][j].title != title;
        assert rows[i + 1] == r.value;
        r
      else r
  }

  /** The first `books` row whose `title` equals `title`. */
  function BookByTitle(books: seq<Book>, title: string): (r: Option<Book>)
    ensures r.None? <==> forall i :: 0 <= i < |books| ==> books[i].title != title
    ensures r.Some? ==> r.value in books && r.value.title == title
    ensures r.Some? ==> exists i :: 0 <= i < |books| && books[i] == r.value &&
                          forall j :: 0 <= j < i ==> books[j].title != title
  {
    if books == [] then None
    else if books[0].title == title then Some(books[0])
    else
      var r := BookByTitle(books[1..], title);
      if r.Some? then
        var i :| 0 <= i < |books[1..]| && books[1..][i] == r.value &&
                 forall j :: 0 <= j < i ==> books[1..][j].title != title;
        assert books[i + 1] == r.value;
        r
      else r
  }

  /** The first `books` row whose `bookId` equals `id`. */
  function BookById(books: seq<Book>, id: string): (r: Option<Book>)
    ensures r.None? <==> forall i :: 0 <= i < |books| ==> books[i].bookId != id
    ensures r.Some? ==> r.value in books && r.value.bookId == id
    ensures r.Some? ==> exists i :: 0 <= i < |books| && books[i] == r.value &&
                          forall j :: 0 <= j < i ==> books[j].bookId != id
  {
    if books == [] then None
    else if books[0].bookId == id then Some(books[0])
    else
      var r := BookById(books[1..], id);
      if r.Some? then
        var i :| 0 <= i < |books[1..]| && books[1..][i] == r.value &&
                 forall j :: 0 <= j < i ==> books[1..][j].bookId != id;
        assert books[i + 1] == r.value;
        r
      else r
  }

  // ---------------------------------------------------------------------------
  // recommendByTitle

  /** The comprehension that omits similar books whose title contains the queried title, ignoring case. */
  function OmitQueriedTitle(similar: seq<Similar>, title: string): (r: seq<Similar>)
    ensures |r| <= |similar|
    ensures forall e :: e in r <==> e in similar && !ContainsIgnoreCase(e.title, title)
  {
    if similar == [] then []
    else
      assert similar == [similar[0]] + similar[1..];
      var rest := OmitQueriedTitle(similar[1..], title);
      if ContainsIgnoreCase(similar[0].title, title) then rest else [similar[0]] + rest
  }

  /** The comprehension keeps the stored order: it distributes over concatenation. */
  lemma {:induction false} OmitQueriedTitleAppend(a: seq<Similar>, b: seq<Similar>, title: string)
    ensures OmitQueriedTitle(a + b, title) == OmitQueriedTitle(a, title) + OmitQueriedTitle(b, title)
  {
    if a != [] {
      var kept := if ContainsIgnoreCase(a[0].title, title) then [] else [a[0]];
      calc {
        OmitQueriedTitle(a + b, title);
        { assert a + b == [a[0]] + (a[1..] + b); OmitQueriedTitleCons(a[0], a[1..] + b, title); }
        kept + OmitQueriedTitle(a[1..] + b, title);
        { OmitQueriedTitleAppend(a[1..], b, title); }
        kept + (OmitQueriedTitle(a[1..], title) + OmitQueriedTitle(b, title));
        (kept + OmitQueriedTitle(a[1..], title)) + OmitQueriedTitle(b, title);
        { assert a == [a[0]] + a[1..]; OmitQueriedTitleCons(a[0], a[1..], title); }
        OmitQueriedTitle(a, title) + OmitQueriedTitle(b, title);
      }
    } else {
      assert a + b == b;
    }
  }

  /** The comprehension on one more leading entry. */
  lemma OmitQueriedTitleCons(x: Similar, s: seq<Similar>, title: string)
    ensures OmitQueriedTitle([x] + s, title) ==
              (if ContainsIgnoreCase(x.title, title) then [] else [x]) + OmitQueriedTitle(s, title)
  {
    assert ([x] + s)[1..] == s;
  }

  /** Every kept entry is kept as often as it is stored. */
  lemma {:induction false} OmitQueriedTitleCount(similar: seq<Similar>, title: string, e: Similar)
    ensures multiset(OmitQueriedTitle(similar, title))[e] ==
              if ContainsIgnoreCase(e.title, title) then 0 else multiset(similar)[e]
  {
    if similar != [] {
      OmitQueriedTitleCount(similar[1..], title, e);
      assert similar == [similar[0]] + similar[1..];
    }
  }

  /** The record of the first book named like the stripped entry title, if the catalogue has one. */
  function ResolveOne(books: seq<Book>, e: Similar): (r: seq<BookRecord>)
    ensures |r| <= 1
    ensures r == [] <==> BookByTitle(books, Trim(e.title)).None?
  {
    match BookByTitle(books, Trim(e.title))
    case Some(b) => [Project(b)]
    case None => []
  }

  /** The loop of `recommendByTitle`: look each entry up in `books`, skipping the ones with no row. */
  function Resolve(books: seq<Book>, entries: seq<Similar>): (r: seq<BookRecord>)
    ensures |r| <= |entries|
  {
    if entries == [] then []
    else Resolve(books, entries[..|entries| - 1]) + ResolveOne(books, entries[|entries| - 1])
  }

  /** Resolving one more entry appends that entry's record, if any. */
  lemma ResolveSnoc(books: seq<Book>, entries: seq<Similar>, e: Similar)
    ensures Resolve(books, entries + [e]) == Resolve(books, entries) + ResolveOne(books, e)
  {
    assert (entries + [e])[..|entries|] == entries;
  }

  /** One more loop iteration over a prefix of the entries appends that entry's record, if any. */
  lemma ResolvePrefix(books: seq<Book>, entries: seq<Similar>, i: nat)
    requires i < |entries|
    ensures Resolve(books, entries[..i + 1]) == Resolve(books, entries[..i]) + ResolveOne(books, entries[i])
  {
    assert entries[..i + 1] == entries[..i] + [entries[i]];
    ResolveSnoc(books, entries[..i], entries[i]);
  }

  /** Every resolved record is the projection of a catalogue book named like one of the entries. */
  lemma {:induction false} ResolveFromCatalogue(books: seq<Book>, entries: seq<Similar>)
    ensures forall x :: x in Resolve(books, entries) ==>
              exists e, b :: e in entries && b in books && b.title == Trim(e.title) && x == Project(b)
  {
    if entries != [] {
      var p := entries[..|entries| - 1];
      var e := entries[|entries| - 1];
      ResolveFromCatalogue(books, p);
      forall x | x in Resolve(books, entries)
        ensures exists e, b :: e in entries && b in books && b.title == Trim(e.title) && x == Project(b)
      {
        if x in Resolve(books, p) {
          var e', b :| e' in p && b in books && b.title == Trim(e'.title) && x == Project(b);
          assert e' in entries;
        } else {
          var b := BookByTitle(books, Trim(e.title)).value;
          assert x == Project(b);
        }
      }
    }
  }

  /** An entry whose title has a catalogue row contributes that row's record. */
  lemma {:induction false} ResolveKeepsFound(books: seq<Book>, entries: seq<Similar>, k: nat)
    requires k < |entries|
    requires BookByTitle(books, Trim(entries[k].title)).Some?
    ensures Project(BookByTitle(books, Trim(entries[k].title)).value) in Resolve(books, entries)
  {
    if k < |entries| - 1 {
      ResolveKeepsFound(books, entries[..|entries| - 1], k);
    }
  }

  /** `recommendByTitle(title, n)`. */
  function TitleRecommendations(sims: seq<SimilarityRow>, books: seq<Book>, title: string, n: nat): seq<BookRecord>
  {
    match SimilarityRowFor(sims, Trim(title))
    case None => []
    case Some(row) => Resolve(books, Take(OmitQueriedTitle(row.similarBooks, title), n))
  }

  /**
   * `recommendByTitle` returns `[]` when the stripped title has no similarity
   * row, at most `n` records, each the record of a catalogue book named like an
   * entry of that row that does not contain the queried title; an entry with
   * no catalogue row is skipped, one that has a row among the first `n`
   * kept entries is returned.
   */
  lemma TitleRecommendationsSpec(sims: seq<SimilarityRow>, books: seq<Book>, title: string, n: nat)
    ensures SimilarityRowFor(sims, Trim(title)).None? ==> TitleRecommendations(sims, books, title, n) == []
    ensures |TitleRecommendations(sims, books, title, n)| <= n
    ensures SimilarityRowFor(sims, Trim(title)).Some? ==>
              var row := SimilarityRowFor(sims, Trim(title)).value;
              (forall x :: x in TitleRecommendations(sims, books, title, n) ==>
                 exists e, b :: e in row.similarBooks && !ContainsIgnoreCase(e.title, title) &&
                                b in books && b.title == Trim(e.title) && x == Project(b)) &&
              (forall k :: (0 <= k < |Take(OmitQueriedTitle(row.similarBooks, title), n)| &&
                 BookByTitle(books, Trim(Take(OmitQueriedTitle(row.similarBooks, title), n)[k].title)).Some?) ==>
                 Project(BookByTitle(books, Trim(Take(OmitQueriedTitle(row.similarBooks, title), n)[k].title)).value)
                   in TitleRecommendations(sims, books, title, n))
  {
    match SimilarityRowFor(sims, Trim(title))
    case None =>
    case Some(row) =>
      var kept := Take(OmitQueriedTitle(row.similarBooks, title), n);
      ResolveFromCatalogue(books, kept);
      forall e | e in kept ensures e in row.similarBooks && !ContainsIgnoreCase(e.title, title) {
        var i :| 0 <= i < |kept| && kept[i] == e;
        assert e in OmitQueriedTitle(row.similarBooks, title);
      }
      forall k | 0 <= k < |kept| && BookByTitle(books, Trim(kept[k].title)).Some?
        ensures Project(BookByTitle(books, Trim(kept[k].title)).value) in Resolve(books, kept)
      {
        ResolveKeepsFound(books, kept, k);
      }
  }

  // ---------------------------------------------------------------------------
  // recommendByGenre and the top-rated query

  /** The `ilike('genres', '%genre%')` and `gte('likedPercent', 90)` filters. */
  predicate IsGenreMatch(b: Book, genre: string) {
    ContainsIgnoreCase(b.genres, Trim(genre)) && b.likedPercent >= GenreLikedMin
  }

  /** The rows of `books` that pass the genre filters, in table order. */
  function GenreRows(books: seq<Book>, genre: string): (r: seq<Book>)
    ensures forall b :: multiset(r)[b] == if IsGenreMatch(b, genre) then multiset(books)[b] else 0
    ensures forall i :: 0 <= i < |r| ==> IsGenreMatch(r[i], genre)
  {
    if books == [] then []
    else
      assert books == [books[0]] + books[1..];
      var rest := GenreRows(books[1..], genre);
      if IsGenreMatch(books[0], genre) then [books[0]] + rest else rest
  }

  /** The rows `recommendByGenre` selects: filtered, ordered by `likedPercent` descending, first `n`. */
  function GenreMatches(books: seq<Book>, genre: string, n: nat): seq<Book> {
    Take(SortDesc(GenreRows(books, genre), Liked), n)
  }

  /** `recommendByGenre(genre, n)`: `[]` when nothing matches, otherwise the projected rows. */
  function GenreRecommendations(books: seq<Book>, genre: string, n: nat): seq<BookRecord> {
    var matching := GenreMatches(books, genre, n);
    if matching == [] then [] else ProjectAll(matching)
  }

  /**
   * The selected rows: at most `n`, each a catalogue row containing the genre
   * with `likedPercent >= 90`, by non-increasing `likedPercent`.
   */
  lemma GenreMatchesSpec(books: seq<Book>, genre: string, n: nat)
    ensures |GenreMatches(books, genre, n)| <= n
    ensures forall i :: 0 <= i < |GenreMatches(books, genre, n)| ==>
              IsGenreMatch(GenreMatches(books, genre, n)[i], genre) && GenreMatches(books, genre, n)[i] in books
    ensures SortedDesc(GenreMatches(books, genre, n), Liked)
  {
    var sorted := SortDesc(GenreRows(books, genre), Liked);
    var r := Take(sorted, n);
    forall i, j | 0 <= i < j < |r| ensures Liked(r[i]) >= Liked(r[j]) {
      assert r[i] == sorted[i] && r[j] == sorted[j];
    }
    forall i | 0 <= i < |r| ensures IsGenreMatch(r[i], genre) && r[i] in books {
      GenreMatchFromCatalogue(books, genre, n, i);
    }
  }

  /** One selected row passes the genre filters and comes from the catalogue. */
  lemma GenreMatchFromCatalogue(books: seq<Book>, genre: string, n: nat, i: nat)
    requires i < |GenreMatches(books, genre, n)|
    ensures IsGenreMatch(GenreMatches(books, genre, n)[i], genre) && GenreMatches(books, genre, n)[i] in books
  {
    var rows := GenreRows(books, genre);
    var sorted := SortDesc(rows, Liked);
    assert GenreMatches(books, genre, n)[i] == sorted[i];
    SortedFromInput(rows, Liked, i);
    var k :| 0 <= k < |rows| && rows[k] == sorted[i];
    assert multiset(rows)[rows[k]] > 0;
  }

  /**
   * `recommendByGenre` (with the default `n >= 1`) finds nothing exactly when
   * no catalogue row matches, and when at most `n` rows match it returns all
   * of them.
   */
  lemma GenreMatchesComplete(books: seq<Book>, genre: string, n: nat)
    requires n >= 1
    ensures GenreMatches(books, genre, n) == [] <==> forall b :: b in books ==> !IsGenreMatch(b, genre)
    ensures |GenreRows(books, genre)| <= n ==>
              multiset(GenreMatches(books, genre, n)) == multiset(GenreRows(books, genre))
    ensures |GenreRows(books, genre)| > n ==> |GenreMatches(books, genre, n)| == n
  {
    var rows := GenreRows(books, genre);
    var sorted := SortDesc(rows, Liked);
    forall i | 0 <= i < |rows| ensures rows[i] in books {
      assert multiset(rows)[rows[i]] > 0;
    }
    if !forall b :: b in books ==> !IsGenreMatch(b, genre) {
      var b :| b in books && IsGenreMatch(b, genre);
      assert multiset(rows)[b] > 0;
      assert |sorted| > 0;
    }
  }

  /** A matching row `recommendByGenre` leaves out is rated no higher than the last row it returns. */
  lemma GenreLeftOut(books: seq<Book>, genre: string, n: nat, b: Book)
    requires b in books && IsGenreMatch(b, genre) && b !in GenreMatches(books, genre, n)
    ensures |GenreMatches(books, genre, n)| == n
    ensures n > 0 ==> Liked(b) <= Liked(GenreMatches(books, genre, n)[n - 1])
  {
    var rows := GenreRows(books, genre);
    var matches := GenreMatches(books, genre, n);
    assert b in rows;
    assert matches == SortDesc(rows, Liked)[..|matches|];
    PrefixLeftOut(rows, Liked, |matches|, b);
  }

  /** The `gte('likedPercent', 98)` filter of the top-rated query. */
  predicate IsTopRated(b: Book) {
    b.likedPercent >= TopRatedLikedMin
  }

  /** The rows of `books` with `likedPercent >= 98`, in table order. */
  function TopRatedRows(books: seq<Book>): (r: seq<Book>)
    ensures forall b :: multiset(r)[b] == if IsTopRated(b) then multiset(books)[b] else 0
    ensures forall i :: 0 <= i < |r| ==> IsTopRated(r[i])
  {
    if books == [] then []
    else
      assert books == [books[0]] + books[1..];
      var rest := TopRatedRows(books[1..]);
      if IsTopRated(books[0]) then [books[0]] + rest else rest
  }

  /** The rows the top-rated query selects: filtered, ordered by `likedPercent` descending, first `n`. */
  function TopRatedMatches(books: seq<Book>, n: nat): seq<Book> {
    Take(SortDesc(TopRatedRows(books), Liked), n)
  }

  /** The top-rated query of `getAllRecommendations`, projected. */
  function TopRated(books: seq<Book>, n: nat): seq<BookRecord> {
    ProjectAll(TopRatedMatches(books, n))
  }

  /**
   * The top-rated rows: at most `n`, each a catalogue row with
   * `likedPercent >= 98`, by non-increasing `likedPercent`.
   */
  lemma TopRatedSpec(books: seq<Book>, n: nat)
    ensures |TopRatedMatches(books, n)| <= n
    ensures forall i :: 0 <= i < |TopRatedMatches(books, n)| ==>
              IsTopRated(TopRatedMatches(books, n)[i]) && TopRatedMatches(books, n)[i] in books
    ensures SortedDesc(TopRatedMatches(books, n), Liked)
  {
    var sorted := SortDesc(TopRatedRows(books), Liked);
    var r := Take(sorted, n);
    forall i, j | 0 <= i < j < |r| ensures Liked(r[i]) >= Liked(r[j]) {
      assert r[i] == sorted[i] && r[j] == sorted[j];
    }
    forall i | 0 <= i < |r| ensures IsTopRated(r[i]) && r[i] in books {
      TopRatedFromCatalogue(books, n, i);
    }
  }

  /** One top-rated row passes the filter and comes from the catalogue. */
  lemma TopRatedFromCatalogue(books: seq<Book>, n: nat, i: nat)
    requires i < |TopRatedMatches(books, n)|
    ensures IsTopRated(TopRatedMatches(books, n)[i]) && TopRatedMatches(books, n)[i] in books
  {
    var rows := TopRatedRows(books);
    var sorted := SortDesc(rows, Liked);
    assert TopRatedMatches(books, n)[i] == sorted[i];
    SortedFromInput(rows, Liked, i);
    var k :| 0 <= k < |rows| && rows[k] == sorted[i];
    assert multiset(rows)[rows[k]] > 0;
  }

  /**
   * The top-rated query (with `n >= 1`) is empty exactly when no catalogue row
   * qualifies; when at most `n` qualify it returns all of them, and otherwise
   * it returns `n` of them.
   */
  lemma TopRatedComplete(books: seq<Book>, n: nat)
    requires n >= 1
    ensures TopRatedMatches(books, n) == [] <==> forall b :: b in books ==> !IsTopRated(b)
    ensures |TopRatedRows(books)| <= n ==>
              multiset(TopRatedMatches(books, n)) == multiset(TopRatedRows(books))
    ensures |TopRatedRows(books)| > n ==> |TopRatedMatches(books, n)| == n
  {
    var rows := TopRatedRows(books);
    var sorted := SortDesc(rows, Liked);
    if !forall b :: b in books ==> !IsTopRated(b) {
      var b :| b in books && IsTopRated(b);
      assert multiset(rows)[b] > 0;
      assert |sorted| > 0;
    }
    if |rows| <= n {
      assert TopRatedMatches(books, n) == sorted;
    }
  }

  /** A qualifying row the top-rated query leaves out is rated no higher than the last row it returns. */
  lemma TopRatedLeftOut(books: seq<Book>, n: nat, b: Book)
    requires b in books && IsTopRated(b) && b !in TopRatedMatches(books, n)
    ensures |TopRatedMatches(books, n)| == n
    ensures n > 0 ==> Liked(b) <= Liked(TopRatedMatches(books, n)[n - 1])
  {
    var rows := TopRatedRows(books);
    var sorted := SortDesc(rows, Liked);
    assert multiset(sorted)[b] == multiset(rows)[b] > 0;
    var j :| 0 <= j < |sorted| && sorted[j] == b;
    assert j >= n;
    if n > 0 {
      assert TopRatedMatches(books, n)[n - 1] == sorted[n - 1];
    }
  }

  // ---------------------------------------------------------------------------
  // getAllRecommendations and getRecommendations

  /** The genre loop of `getAllRecommendations`: each genre's recommendations, in the order of `genres`. */
  function GenreParts(books: seq<Book>, genres: seq<string>, n: nat): (r: seq<seq<BookRecord>>)
    ensures |r| == |genres|
    ensures forall i :: 0 <= i < |genres| ==> r[i] == GenreRecommendations(books, genres[i], n)
  {
    seq(|genres|, i requires 0 <= i < |genres| => GenreRecommendations(books, genres[i], n))
  }

  /** The title loop of `getAllRecommendations`: each title's recommendations, in the order of `titles`. */
  function TitleParts(sims: seq<SimilarityRow>, books: seq<Book>, titles: seq<string>, n: nat): (r: seq<seq<BookRecord>>)
    ensures |r| == |titles|
    ensures forall i :: 0 <= i < |titles| ==> r[i] == TitleRecommendations(sims, books, titles[i], n)
  {
    seq(|titles|, i requires 0 <= i < |titles| => TitleRecommendations(sims, books, titles[i], n))
  }

  /** The records the genre loop gathers. */
  function GenreSources(books: seq<Book>, genres: seq<string>, n: nat): seq<BookRecord> {
    Flatten(GenreParts(books, genres, n))
  }

  /** The records the title loop gathers. */
  function TitleSources(sims: seq<SimilarityRow>, books: seq<Book>, titles: seq<string>, n: nat): seq<BookRecord> {
    Flatten(TitleParts(sims, books, titles, n))
  }

  /** One more genre of the loop appends that genre's recommendations. */
  lemma GenreSourcesStep(books: seq<Book>, genres: seq<string>, i: nat, n: nat)
    requires i < |genres|
    ensures GenreSources(books, genres[..i + 1], n) == GenreSources(books, genres[..i], n) + GenreRecommendations(books, genres[i], n)
  {
    assert GenreParts(books, genres[..i + 1], n)[..i] == GenreParts(books, genres[..i], n);
  }

  /** One more title of the loop appends that title's recommendations. */
  lemma TitleSourcesStep(sims: seq<SimilarityRow>, books: seq<Book>, titles: seq<string>, i: nat, n: nat)
    requires i < |titles|
    ensures TitleSources(sims, books, titles[..i + 1], n) ==
            TitleSources(sims, books, titles[..i], n) + TitleRecommendations(sims, books, titles[i], n)
  {
    assert TitleParts(sims, books, titles[..i + 1], n)[..i] == TitleParts(sims, books, titles[..i], n);
  }

  /** Some requested genre recommends `x`. */
  predicate GenreRecommended(books: seq<Book>, genres: seq<string>, n: nat, x: BookRecord) {
    exists i :: 0 <= i < |genres| && x in GenreRecommendations(books, genres[i], n)
  }

  /** Some requested title recommends `x`. */
  predicate TitleRecommended(sims: seq<SimilarityRow>, books: seq<Book>, titles: seq<string>, n: nat, x: BookRecord) {
    exists i :: 0 <= i < |titles| && x in TitleRecommendations(sims, books, titles[i], n)
  }

  /** A record is gathered by the genre loop exactly when some genre recommends it. */
  lemma InGenreSources(books: seq<Book>, genres: seq<string>, n: nat, x: BookRecord)
    ensures x in GenreSources(books, genres, n) <==> GenreRecommended(books, genres, n, x)
  {
    var gp := GenreParts(books, genres, n);
    InFlatten(gp, x);
    if x in Flatten(gp) {
      var i :| 0 <= i < |gp| && x in gp[i];
      assert x in GenreRecommendations(books, genres[i], n);
    }
    if GenreRecommended(books, genres, n, x) {
      var i :| 0 <= i < |genres| && x in GenreRecommendations(books, genres[i], n);
      assert x in gp[i];
    }
  }

  /** A record is gathered by the title loop exactly when some title recommends it. */
  lemma InTitleSources(sims: seq<SimilarityRow>, books: seq<Book>, titles: seq<string>, n: nat, x: BookRecord)
    ensures x in TitleSources(sims, books, titles, n) <==> TitleRecommended(sims, books, titles, n, x)
  {
    var tp := TitleParts(sims, books, titles, n);
    InFlatten(tp, x);
    if x in Flatten(tp) {
      var i :| 0 <= i < |tp| && x in tp[i];
      assert x in TitleRecommendations(sims, books, titles[i], n);
    }
    if TitleRecommended(sims, books, titles, n, x) {
      var i :| 0 <= i < |titles| && x in TitleRecommendations(sims, books, titles[i], n);
      assert x in tp[i];
    }
  }

  /** Everything `getAllRecommendations` gathers before removing duplicates: genres, then titles, then top-rated. */
  function Gathered(sims: seq<SimilarityRow>, books: seq<Book>, genres: seq<string>, titles: seq<string>, n: nat): seq<BookRecord> {
    GenreSources(books, genres, n) + TitleSources(sims, books, titles, n) + TopRated(books, n)
  }

  /** `getAllRecommendations(genres, titles, n)`. */
  function AllRecommendations(sims: seq<SimilarityRow>, books: seq<Book>, genres: seq<string>, titles: seq<string>, n: nat): seq<BookRecord> {
    Dedup(Gathered(sims, books, genres, titles, n))
  }

  /**
   * The combined result holds no record twice and lists the records in the
   * order of their first occurrence in genres-then-titles-then-top-rated order.
   */
  lemma AllRecommendationsSpec(sims: seq<SimilarityRow>, books: seq<Book>, genres: seq<string>, titles: seq<string>, n: nat)
    ensures NoDup(AllRecommendations(sims, books, genres, titles, n))
    ensures forall i, j :: 0 <= i < j < |AllRecommendations(sims, books, genres, titles, n)| ==>
              FirstIndex(Gathered(sims, books, genres, titles, n), AllRecommendations(sims, books, genres, titles, n)[i]) <
              FirstIndex(Gathered(sims, books, genres, titles, n), AllRecommendations(sims, books, genres, titles, n)[j])
  {
    DedupKeepsFirstOccurrenceOrder(Gathered(sims, books, genres, titles, n));
  }

  /** The combined result holds exactly the records some genre, some title or the top-rated query produced. */
  lemma AllRecommendationsMembers(sims: seq<SimilarityRow>, books: seq<Book>, genres: seq<string>, titles: seq<string>, n: nat)
    ensures forall x :: x in AllRecommendations(sims, books, genres, titles, n) <==>
              GenreRecommended(books, genres, n, x) ||
              TitleRecommended(sims, books, titles, n, x) ||
              x in TopRated(books, n)
  {
    forall x
      ensures x in AllRecommendations(sims, books, genres, titles, n) <==>
              GenreRecommended(books, genres, n, x) ||
              TitleRecommended(sims, books, titles, n, x) ||
              x in TopRated(books, n)
    {
      InAllRecommendations(sims, books, genres, titles, n, x);
    }
  }

  /** One record is in the combined result exactly when some query produced it. */
  lemma InAllRecommendations(sims: seq<SimilarityRow>, books: seq<Book>, genres: seq<string>, titles: seq<string>, n: nat, x: BookRecord)
    ensures x in AllRecommendations(sims, books, genres, titles, n) <==>
            GenreRecommended(books, genres, n, x) ||
            TitleRecommended(sims, books, titles, n, x) ||
            x in TopRated(books, n)
  {
    var g := GenreSources(books, genres, n);
    var t := TitleSources(sims, books, titles, n);
    assert x in g + t + TopRated(books, n) <==> x in g || x in t || x in TopRated(books, n);
    InGenreSources(books, genres, n, x);
    InTitleSources(sims, books, titles, n, x);
  }

  /** `genres.split(",") if genres else []`, the parsing of a query parameter of `getRecommendations`. */
  function SplitQuery(q: string): (r: seq<string>)
    ensures q == [] ==> r == []
    ensures q != [] ==> r == Split(q, ',')
  {
    if q == [] then [] else Split(q, ',')
  }

  // ---------------------------------------------------------------------------
  // tbr_list

  /** Some row links `user` to `book`. */
  predicate HasPair(rows: seq<TbrRow>, user: string, book: string) {
    exists i :: 0 <= i < |rows| && rows[i].userId == user && rows[i].bookId == book
  }

  /** Some row already has the key `id`, so inserting another row under it raises. */
  predicate TbrIdTaken(rows: seq<TbrRow>, id: string) {
    exists i :: 0 <= i < |rows| && rows[i].tbrId == id
  }

  /** How many rows link `user` to `book`. */
  function PairCount(rows: seq<TbrRow>, user: string, book: string): (c: nat)
    ensures c == 0 <==> !HasPair(rows, user, book)
  {
    if rows == [] then 0
    else
      var rest := PairCount(rows[1..], user, book);
      HasPairCons(rows, user, book);
      (if rows[0].userId == user && rows[0].bookId == book then 1 else 0) + rest
  }

  /** A pair is present in a non-empty table when the first row has it or the rest does. */
  lemma HasPairCons(rows: seq<TbrRow>, user: string, book: string)
    requires rows != []
    ensures HasPair(rows, user, book) <==>
              (rows[0].userId == user && rows[0].bookId == book) || HasPair(rows[1..], user, book)
  {
    if HasPair(rows[1..], user, book) {
      var i :| 0 <= i < |rows[1..]| && rows[1..][i].userId == user && rows[1..][i].bookId == book;
      assert rows[i + 1] == rows[1..][i];
    }
    if HasPair(rows, user, book) && !(rows[0].userId == user && rows[0].bookId == book) {
      var i :| 0 <= i < |rows| && rows[i].userId == user && rows[i].bookId == book;
      assert rows[1..][i - 1] == rows[i];
    }
  }

  /** Counting distributes over concatenation. */
  lemma {:induction false} PairCountAppend(a: seq<TbrRow>, b: seq<TbrRow>, user: string, book: string)
    ensures PairCount(a + b, user, book) == PairCount(a, user, book) + PairCount(b, user, book)
  {
    if a == [] {
      assert a + b == b;
    } else {
      PairCountAppend(a[1..], b, user, book);
      assert (a + b)[1..] == a[1..] + b;
    }
  }

  /** The table after `addToTBR` (with a successful insert): unchanged when the pair exists, otherwise one new row. */
  function AddPair(rows: seq<TbrRow>, tbrId: string, user: string, book: string): seq<TbrRow> {
    if HasPair(rows, user, book) then rows else rows + [TbrRow(tbrId, user, book)]
  }

  /**
   * After `addToTBR` the pair is present; a pair that was absent is now in
   * exactly one row, and every other pair keeps its count.
   */
  lemma AddPairSpec(rows: seq<TbrRow>, tbrId: string, user: string, book: string)
    ensures HasPair(AddPair(rows, tbrId, user, book), user, book)
    ensures !HasPair(rows, user, book) ==> PairCount(AddPair(rows, tbrId, user, book), user, book) == 1
    ensures forall u, b :: u != user || b != book ==>
              PairCount(AddPair(rows, tbrId, user, book), u, b) == PairCount(rows, u, b)
  {
    if !HasPair(rows, user, book) {
      var r := rows + [TbrRow(tbrId, user, book)];
      assert r[|rows|].userId == user && r[|rows|].bookId == book;
      PairCountAppend(rows, [TbrRow(tbrId, user, book)], user, book);
      forall u, b | u != user || b != book ensures PairCount(r, u, b) == PairCount(rows, u, b) {
        PairCountAppend(rows, [TbrRow(tbrId, user, book)], u, b);
        assert [TbrRow(tbrId, user, book)][1..] == [];
      }
      assert [TbrRow(tbrId, user, book)][1..] == [];
    }
  }

  /** Adding the same pair twice leaves the table as adding it once. */
  lemma AddPairIdempotent(rows: seq<TbrRow>, id1: string, id2: string, user: string, book: string)
    ensures AddPair(AddPair(rows, id1, user, book), id2, user, book) == AddPair(rows, id1, user, book)
  {
    AddPairSpec(rows, id1, user, book);
  }

  /** The table after `delete().match({user_id, book_id})`: every row of the pair removed, the rest in order. */
  function RemovePair(rows: seq<TbrRow>, user: string, book: string): (r: seq<TbrRow>)
    ensures !HasPair(r, user, book)
    ensures forall i :: 0 <= i < |r| ==> r[i] in rows
    ensures forall x :: x in rows && !(x.userId == user && x.bookId == book) ==> x in r
  {
    if rows == [] then []
    else
      var rest := RemovePair(rows[1..], user, book);
      assert rows == [rows[0]] + rows[1..];
      if rows[0].userId == user && rows[0].bookId == book then rest else [rows[0]] + rest
  }

  /** `viewTBR(user)`: for each of the user's rows in table order, the record of the book with the stripped id, if any. */
  function TbrView(rows: seq<TbrRow>, books: seq<Book>, user: string): seq<BookRecord> {
    if rows == [] then []
    else
      var prefix := TbrView(rows[..|rows| - 1], books, user);
      var row := rows[|rows| - 1];
      if row.userId != user then prefix
      else match BookById(books, Trim(row.bookId))
        case Some(b) => prefix + [Project(b)]
        case None => prefix
  }

  /** Every viewed record is a catalogue book whose id is the stripped id of one of the user's rows. */
  lemma {:induction false} TbrViewFromRows(rows: seq<TbrRow>, books: seq<Book>, user: string)
    ensures forall x :: x in TbrView(rows, books, user) ==>
              exists i, b :: 0 <= i < |rows| && rows[i].userId == user && b in books &&
                             b.bookId == Trim(rows[i].bookId) && x == Project(b)
  {
    if rows != [] {
      var p := rows[..|rows| - 1];
      TbrViewFromRows(p, books, user);
      forall x | x in TbrView(rows, books, user)
        ensures exists i, b :: 0 <= i < |rows| && rows[i].userId == user && b in books &&
                               b.bookId == Trim(rows[i].bookId) && x == Project(b)
      {
        if x in TbrView(p, books, user) {
          var i, b :| 0 <= i < |p| && p[i].userId == user && b in books && b.bookId == Trim(p[i].bookId) && x == Project(b);
          assert rows[i] == p[i];
        } else {
          var k := |rows| - 1;
          var b := BookById(books, Trim(rows[k].bookId)).value;
          assert x == Project(b);
        }
      }
    }
  }

  /** Viewing concatenated tables concatenates the views, so the view keeps the table order of the rows. */
  lemma {:induction false} TbrViewAppend(a: seq<TbrRow>, b: seq<TbrRow>, books: seq<Book>, user: string)
    ensures TbrView(a + b, books, user) == TbrView(a, books, user) + TbrView(b, books, user)
  {
    if b == [] {
      assert a + b == a;
    } else {
      var b', last := b[..|b| - 1], b[|b| - 1];
      assert b == b' + [last];
      calc {
        TbrView(a + b, books, user);
        { assert a + b == (a + b') + [last]; }
        TbrView((a + b') + [last], books, user);
        { TbrViewSnoc(a + b', last, books, user); }
        TbrView(a + b', books, user) + TbrView([last], books, user);
        { TbrViewAppend(a, b', books, user); }
        (TbrView(a, books, user) + TbrView(b', books, user)) + TbrView([last], books, user);
        { AppendAssoc(TbrView(a, books, user), TbrView(b', books, user), TbrView([last], books, user)); }
        TbrView(a, books, user) + (TbrView(b', books, user) + TbrView([last], books, user));
        { TbrViewSnoc(b', last, books, user); }
        TbrView(a, books, user) + TbrView(b, books, user);
      }
    }
  }

  /** One more row adds what that row alone shows. */
  lemma TbrViewSnoc(rows: seq<TbrRow>, row: TbrRow, books: seq<Book>, user: string)
    ensures TbrView(rows + [row], books, user) == TbrView(rows, books, user) + TbrView([row], books, user)
  {
    assert (rows + [row])[..|rows|] == rows;
    assert [row][..0] == [];
  }

  /** Each of the user's rows whose stripped id names a catalogue book shows that book, at its place among the rows. */
  lemma TbrViewKeepsFound(rows: seq<TbrRow>, books: seq<Book>, user: string, k: nat)
    requires k < |rows| && rows[k].userId == user
    requires BookById(books, Trim(rows[k].bookId)).Some?
    ensures TbrView(rows, books, user) ==
              TbrView(rows[..k], books, user) + [Project(BookById(books, Trim(rows[k].bookId)).value)] +
              TbrView(rows[k + 1..], books, user)
  {
    assert rows == rows[..k] + [rows[k]] + rows[k + 1..];
    TbrViewAppend(rows[..k] + [rows[k]], rows[k + 1..], books, user);
    TbrViewAppend(rows[..k], [rows[k]], books, user);
    assert [rows[k]][..0] == [];
  }

  /** Stored book ids carry no surrounding whitespace. */
  predicate IdsStripped(rows: seq<TbrRow>) {
    forall i :: 0 <= i < |rows| ==> Trim(rows[i].bookId) == rows[i].bookId
  }

  /**
   * After removing a pair, viewing that user's list shows no book with the
   * removed id (given that stored ids are already stripped).
   */
  lemma RemoveThenView(rows: seq<TbrRow>, books: seq<Book>, user: string, book: string)
    requires IdsStripped(rows)
    ensures forall x :: x in TbrView(RemovePair(rows, user, book), books, user) ==> x.bookId != book
  {
    var rest := RemovePair(rows, user, book);
    TbrViewFromRows(rest, books, user);
    forall x | x in TbrView(rest, books, user) ensures x.bookId != book {
      var i, b :| 0 <= i < |rest| && rest[i].userId == user && b in books &&
                  b.bookId == Trim(rest[i].bookId) && x == Project(b);
      assert rest[i] in rows;
      var k :| 0 <= k < |rows| && rows[k] == rest[i];
      assert Trim(rows[k].bookId) == rows[k].bookId;
      assert !(rest[i].userId == user && rest[i].bookId == book);
    }
  }

  /**
   * Without stripped stored ids the promise fails: `addToTBR` stores the id as
   * sent, `removeFromTBR` matches it as sent, but `viewTBR` strips it, so a row
   * stored as `" 7"` survives the removal of `"7"` and still shows book `"7"`.
   */
  lemma RemoveMissesPaddedId()
    ensures var rows := [TbrRow("t", "u", " 7")];
            var books := [Book("Title", "Author", "", "", "", "7", 99.0)];
            RemovePair(rows, "u", "7") == rows &&
            TbrView(RemovePair(rows, "u", "7"), books, "u") == [Project(books[0])]
  {
    var rows := [TbrRow("t", "u", " 7")];
    var books := [Book("Title", "Author", "", "", "", "7", 99.0)];
    assert " 7"[1..] == "7";
    assert TrimStart(" 7") == "7";
    assert TrimEnd("7") == "7";
    assert rows[..0] == [];
  }

  // ---------------------------------------------------------------------------
  // Preference lists of a `users` row

  /** `addTitle`/`addGenre`: the stored list (missing or null read as `[]`) with `v` appended, duplicates allowed. */
  function AppendPreference(stored: Option<seq<string>>, v: string): (r: seq<string>)
    ensures |r| == |OrEmpty(stored)| + 1 && r[..|r| - 1] == OrEmpty(stored) && r[|r| - 1] == v
  {
    OrEmpty(stored) + [v]
  }

  /**
   * `deleteTitle`/`deleteGenre`: `list.remove(v)` on the stored list; `None`
   * when `v` is absent, where Python raises `ValueError`.
   */
  function DeletePreference(stored: Option<seq<string>>, v: string): (r: Option<seq<string>>)
    ensures r.None? <==> v !in OrEmpty(stored)
    ensures r.Some? ==> multiset(r.value) == multiset(OrEmpty(stored)) - multiset{v}
    ensures r.Some? ==> exists k :: 0 <= k < |OrEmpty(stored)| && OrEmpty(stored)[k] == v &&
                          v !in OrEmpty(stored)[..k] && r.value == OrEmpty(stored)[..k] + OrEmpty(stored)[k + 1..]
  {
    var xs := OrEmpty(stored);
    if v in xs then
      RemoveFirstCount(xs, v);
      var k := FirstIndex(xs, v);
      assert xs[k] == v && v !in xs[..k];
      Some(RemoveFirst(xs, v))
    else None
  }

  /** Deleting the value just added, when it was not there before, restores the list. */
  lemma AddThenDeletePreference(stored: Option<seq<string>>, v: string)
    requires v !in OrEmpty(stored)
    ensures DeletePreference(Some(AppendPreference(stored, v)), v) == Some(OrEmpty(stored))
  {
    RemoveFirstAppended(OrEmpty(stored), v);
  }
}
