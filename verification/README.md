# Book selector: a verified model of the recommendation backend and its screens

This project models the book-dating app in Dafny. The app has four parts, and the model covers the logic of each:

- **The FastAPI backend** (`recommendation.py`):
  - recommendations by similar title, by genre and from the top-rated books;
  - combining those sources and removing duplicates;
  - the to-be-read (TBR) table;
  - the lists of preferred titles and genres.

  The four Supabase tables (`books`, `similarity_scores`, `tbr_list`, `users`) are the fields of one `Database` object. Its endpoints are methods, specified by pure functions over the table contents.
- **The offline recommender** (`book-select-app/backend/recommendation.py`). It reads a precomputed map from each title to its ranked similar titles, and it runs a feature search over the rows of the book CSV.
- **The similarity builder** (`generateMatrixChunks.py` and its copy `book-select-app/backend/generateMatrixChunks.py`):
  - it splits the books into chunks of 1000 rows;
  - for each book it keeps the 100 most similar other books, best first;
  - it writes one file per chunk;
  - it merges the chunk files into one map.

  The similarity matrix is an input; scores are reals.
- **The React Native screens**:
  - the preferences editor (`src/screens/ProfileScreen.js`, and the identical handlers of `src/screens/ProfileScreenOld.js`);
  - the recommendation feed (`src/screens/HomeScreen.js`);
  - the TBR screen (`src/screens/TBRScreen.js`);
  - the swipe card (`src/component/DatesCard.js`).

  Each screen is a class whose fields are its React state. Each handler is one atomic method. Every awaited API call is a parameter of type `Call<Body>`: either the promise rejected, or it resolved with a parsed JSON body.

Modules, one per file:

- `Api`: JSON bodies, backend replies and client calls.
- `Strings`: strip, lower-case, substring, split and join.
- `Lists`: prefix, filter, `list.remove`, de-duplication and concatenation.
- `Sorting`: a stable descending sort.
- `BackendModel` and `BackendApi`: the backend.
- `OfflineRecommender`, `SimilarityChunks`, `ProfileEditor`, `HomeFeed`, `TbrScreen` and `DatesCard`: the other parts.

Behaviours of the source that the model makes explicit:

- **Every JSON answer counts as success.** The preference handlers only test whether the body is truthy. So a `{"detail": "User not found"}` answer still appends the value on the screen.
- **Deleting a missing preference is a 500.** On the backend, `deleteTitle`/`deleteGenre` call `list.remove` on a value that may be absent. The resulting `ValueError` becomes a plain-text 500 answer, whose parse rejects on the client.
- **Delete semantics differ on duplicates.** The screen removes every equal entry, but the backend removes only the first. On a duplicate-free list the two agree (`ProfileEditor.ScreenMatchesBackend`).
- **The feature search is not de-duplicated.** The comments in its source acknowledge this.

## Model

| member | source | states |
|---|---|---|
| Api.OrEmpty | src/screens/ProfileScreen.js:27-28 | A missing or null list reads as `[]`; a present list reads as itself. |
| Api.Receive | src/api/API.js:47-54 | The client's `response.json()` rejects exactly on the backend's plain-text 500 answer; otherwise it yields the JSON body. |
| Strings.TrimStartSpec | recommendation.py:25 | Stripping the front leaves a suffix. The dropped prefix is all whitespace, and the result does not start with whitespace. |
| Strings.TrimEndSpec | recommendation.py:25 | Stripping the back leaves a prefix. The dropped suffix is all whitespace, and the result does not end with whitespace. |
| Strings.TrimSpec | recommendation.py:25 | `strip()` returns a slice of the input whose two cut-off ends are whitespace only and whose own ends are not whitespace. |
| Strings.TrimEmptyIffBlank | src/screens/ProfileScreen.js:40 | `!title.trim()` holds exactly when the input is all whitespace (or empty). |
| Strings.Lower | recommendation.py:37 | Lower-casing keeps the length and maps each character through the ASCII lower-case mapping. |
| Strings.Split | recommendation.py:277-278 | `split(',')` never returns an empty list. |
| Strings.SplitSpec | recommendation.py:277-278 | No piece contains the separator, and there is one more piece than there are separators. |
| Strings.Join | src/screens/HomeScreen.js:33 | `join(',')` of `[]` is `""`, and of a one-element list is that element. |
| Strings.SplitJoin | src/screens/HomeScreen.js:33 | Splitting the join of a non-empty list of comma-free pieces returns exactly those pieces. |
| Strings.JoinSplit | recommendation.py:277-278 | Joining the pieces of a split gives back the original string. |
| Lists.Take | recommendation.py:40 | `s[:n]` has `min(n, len(s))` elements, each equal to the element at the same position of `s`. |
| Lists.Without | src/screens/ProfileScreen.js:66 | `filter(t => t !== x)` drops every `x` and keeps every other value as often as it occurred. |
| Lists.WithoutAppend | src/screens/ProfileScreen.js:66 | Filtering distributes over concatenation, so the kept entries stay in their order. |
| Lists.WithoutKeepsNoDup | src/screens/ProfileScreen.js:64-67 | Filtering keeps a duplicate-free list duplicate-free and only keeps entries it had. |
| Lists.AppendFreshKeepsNoDup | src/screens/ProfileScreen.js:41-45 | Appending a value that is not yet listed keeps the list duplicate-free. |
| Lists.FirstIndex | recommendation.py:260 | The index of the first occurrence: it holds the value, and no earlier position does. |
| Lists.RemoveFirst | recommendation.py:260 | `list.remove(x)` shortens the list by one; elements before the first occurrence of `x` keep their places and later ones move one place to the front. |
| Lists.RemoveFirstCount | recommendation.py:260 | `list.remove(x)` takes one `x` out of the multiset of entries and nothing else. |
| Lists.RemoveFirstAppended | recommendation.py:238-260 | Removing a value that was just appended, and was absent before, restores the list. |
| Lists.Dedup | recommendation.py:118-119 | The de-duplicated list has no repeated record and holds exactly the records of its input. |
| Lists.DedupKeepsFirstOccurrenceOrder | recommendation.py:118-119 | The dict comprehension keeps records in the order of their first occurrence. |
| Lists.Flatten | recommendation.py:87-93 | Extending an empty list with no parts gives `[]`. |
| Lists.FlattenSnoc | recommendation.py:89-93 | One more `extend` appends exactly that part, after everything gathered so far. |
| Lists.FlattenAppend | recommendation.py:89-93 | Gathering two runs of parts gives the first run's records followed by the second's, so every part keeps its place and its order. |
| Lists.InFlatten | recommendation.py:89-93 | A record is in the extended list exactly when it is in one of the parts. |
| Sorting.Insert | recommendation.py:64 | Insertion into a descending list keeps it descending and adds exactly the new element. |
| Sorting.SortedCons | recommendation.py:64 | A head no smaller than the first element of a descending list keeps it descending. |
| Sorting.InsertBehindHead | recommendation.py:64 | Insertion behind a larger head keeps the list descending and adds only the new element. |
| Sorting.SortDesc | recommendation.py:64 | `order(desc=True)` / `sorted(reverse=True)` gives a non-increasing permutation of the input. |
| Sorting.HeadIsMax | recommendation.py:64 | The first sorted element has the largest key. |
| Sorting.SortedFromInput | book-select-app/backend/recommendation.py:103 | Every sorted element comes from the input. |
| Sorting.PrefixLeftOut | book-select-app/backend/recommendation.py:103 | An input element missing from the first `m` sorted places leaves some place after them, and its key is no larger than any of theirs. |
| BackendModel.ProjectAll | recommendation.py:76-83 | The six-field projection is applied to every row, in order. |
| BackendModel.SimilarityRowFor | recommendation.py:21-29 | The `.eq("title")` lookup finds the first row with that title, or reports that no row has it. |
| BackendModel.BookByTitle | recommendation.py:41-43 | None exactly when no row has the title. Otherwise a row with that title that sits at some index before which no row has the title: the first match. |
| BackendModel.BookById | recommendation.py:207-209 | None exactly when no row has the id. Otherwise a row with that id that sits at some index before which no row has the id: the first match. |
| BackendModel.OmitQueriedTitle | recommendation.py:37 | An entry survives exactly when its title does not contain the queried title, ignoring case; the result is no longer than the input. |
| BackendModel.OmitQueriedTitleAppend | recommendation.py:37 | The comprehension distributes over concatenation, so the kept entries stay in their stored order. |
| BackendModel.OmitQueriedTitleCount | recommendation.py:37 | A kept entry occurs as often as it is stored; an omitted one does not occur. |
| BackendModel.OmitQueriedTitleCons | recommendation.py:37 | One more leading entry is kept in front exactly when its title does not contain the queried title. |
| BackendModel.ResolveOne | recommendation.py:41-51 | An entry yields at most one record, and none exactly when no catalogue book has the stripped title. |
| BackendModel.Resolve | recommendation.py:40-51 | The resolve loop never yields more records than entries. |
| BackendModel.ResolveSnoc | recommendation.py:40-51 | One more loop iteration appends that entry's record, if any. |
| BackendModel.ResolveFromCatalogue | recommendation.py:41-51 | Every resolved record is the projection of a catalogue book named like one of the entries. |
| BackendModel.ResolveKeepsFound | recommendation.py:41-51 | An entry with a catalogue row contributes its record to the result. |
| BackendModel.TitleRecommendationsSpec | recommendation.py:20-55 | `recommendByTitle` gives `[]` without a similarity row and at most `n` records. Every record is a catalogue book named like a row entry that does not contain the query; every found entry among the first `n` kept is returned. |
| BackendModel.GenreRows | recommendation.py:58-68 | The filtered rows are exactly the catalogue rows that contain the genre and have `likedPercent >= 90`, with their multiplicities. |
| BackendModel.GenreMatchesSpec | recommendation.py:57-83 | At most `n` rows. Each is a catalogue row containing the genre with `likedPercent >= 90`. Rows are in non-increasing `likedPercent` order. |
| BackendModel.GenreMatchFromCatalogue | recommendation.py:58-68 | Every returned row is a catalogue row containing the genre with `likedPercent >= 90`. |
| BackendModel.GenreMatchesComplete | recommendation.py:57-83 | `recommendByGenre` is empty exactly when no catalogue row matches. When at most `n` rows match, it returns all of them; when more match, exactly `n`. |
| BackendModel.GenreLeftOut | recommendation.py:58-68 | A matching row that is left out means `n` rows were returned, and it is liked no more than the last of them. |
| BackendModel.TopRatedRows | recommendation.py:96-105 | The filter keeps every catalogue row with `likedPercent >= 98`, as often as it occurs, and no other row. |
| BackendModel.TopRatedSpec | recommendation.py:96-105 | At most `n` rows, each a catalogue row with `likedPercent >= 98`, in non-increasing `likedPercent` order. |
| BackendModel.TopRatedFromCatalogue | recommendation.py:96-105 | Each selected row passes the filter and comes from the catalogue. |
| BackendModel.TopRatedComplete | recommendation.py:96-105 | Empty exactly when no row qualifies. All qualifying rows are returned when at most `n` qualify; otherwise exactly `n` are. |
| BackendModel.TopRatedLeftOut | recommendation.py:96-105 | A qualifying row that is left out is rated no higher than the last row returned. |
| BackendModel.GenreParts | recommendation.py:89-90 | Part `i` is the recommendation list of genre `i`. |
| BackendModel.TitleParts | recommendation.py:92-93 | Part `i` is the recommendation list of title `i`. |
| BackendModel.GenreSourcesStep | recommendation.py:89-90 | One more genre appends that genre's recommendations. |
| BackendModel.TitleSourcesStep | recommendation.py:92-93 | One more title appends that title's recommendations. |
| BackendModel.AllRecommendationsSpec | recommendation.py:86-119 | The combined result has no duplicate and keeps first-occurrence order over genres, then titles, then top-rated. |
| BackendModel.AllRecommendationsMembers | recommendation.py:86-119 | The combined result contains exactly the records of some genre, some title or the top-rated query. |
| BackendModel.InAllRecommendations | recommendation.py:86-119 | A single record is in the combined result exactly when some genre, some title or the top-rated query produced it. |
| BackendModel.InGenreSources | recommendation.py:89-90 | The genre loop gathers a record exactly when some requested genre recommends it. |
| BackendModel.InTitleSources | recommendation.py:92-93 | The title loop gathers a record exactly when some requested title recommends it. |
| BackendModel.SplitQuery | recommendation.py:277-278 | An empty query parameter gives `[]`; any other is split at every comma. |
| BackendModel.PairCount | recommendation.py:175-176 | A pair's row count is zero exactly when no row links the user to the book. |
| BackendModel.HasPairCons | recommendation.py:175-176 | The existence check on a non-empty table: the first row, or the rest. |
| BackendModel.PairCountAppend | recommendation.py:179-183 | Counting rows distributes over appending rows. |
| BackendModel.AddPairSpec | recommendation.py:173-188 | After `addToTBR` the pair is present. A previously absent pair is in exactly one row, and all other pairs keep their counts. |
| BackendModel.AddPairIdempotent | recommendation.py:175-177 | Adding the same pair twice gives the table of adding it once. |
| BackendModel.RemovePair | recommendation.py:192-195 | The delete leaves no row of the pair, keeps every other row, and adds none. |
| BackendModel.TbrViewFromRows | recommendation.py:202-218 | Every viewed record is a catalogue book whose id is the stripped id of one of the user's rows. |
| BackendModel.TbrViewAppend | recommendation.py:204-217 | The view of concatenated rows is the concatenation of the views, so it follows the table order of the rows. |
| BackendModel.TbrViewSnoc | recommendation.py:204-217 | One more stored row adds exactly what that row alone shows, after the view of the earlier rows. |
| BackendModel.TbrViewKeepsFound | recommendation.py:204-217 | Each of the user's rows whose stripped id names a catalogue book contributes that book's record, at its place between the views of the rows before and after it. |
| BackendModel.RemoveThenView | recommendation.py:190-218 | After removing a pair, viewing that user's list shows no book with the removed id, provided the stored ids carry no surrounding whitespace. |
| BackendModel.RemoveMissesPaddedId | recommendation.py:178-206 | A row stored with id `" 7"` survives the removal of `"7"`, and the view still shows book `"7"`. |
| BackendModel.AppendPreference | recommendation.py:237-238 | The stored list (missing read as `[]`) with the value appended at the end; duplicates are allowed. |
| BackendModel.DeletePreference | recommendation.py:259-260 | Fails exactly when the value is absent. Otherwise it removes exactly its first occurrence (one fewer in the multiset). |
| BackendModel.AddThenDeletePreference | recommendation.py:231-262 | Deleting a value just added, when it was absent before, restores the stored list. |
| BackendApi.Database.constructor | recommendation.py:18 | The four tables start as given. |
| BackendApi.Database.RecommendByTitle | recommendation.py:20-55 | The loop over the kept entries computes `TitleRecommendations`. |
| BackendApi.Database.ResolveEntries | recommendation.py:40-51 | The lookup loop keeps, in order, the projected catalogue row of each entry whose stripped title is found, and drops the others. |
| BackendModel.ResolvePrefix | recommendation.py:40-51 | Resolving one more entry appends exactly that entry's lookup result. |
| BackendApi.Database.CollectGenreResults | recommendation.py:89-90 | The genre loop gathers every genre's recommendations in order. |
| BackendApi.Database.CollectTitleResults | recommendation.py:92-93 | The title loop gathers every title's recommendations in order. |
| BackendApi.Database.GetAllRecommendations | recommendation.py:86-119 | The endpoint computes `AllRecommendations` (see its spec lemma). |
| BackendApi.Database.GetRecommendations | recommendation.py:275-281 | The body holds `AllRecommendations` of the split query strings, five per source. |
| BackendApi.Database.ViewTbr | recommendation.py:202-218 | The loop over `tbr_list` computes the user's `TbrView`. |
| BackendApi.Database.GetPreferences | recommendation.py:220-229 | Both preference columns of the user's row, or the 400 "Error fetching preferences" when there is none. |
| BackendApi.Database.Register | recommendation.py:145-161 | A new user row under a fresh id. A refused insert or an id already in the table answers "User already exists" and changes nothing. |
| BackendApi.Database.AddToTbr | recommendation.py:173-188 | An existing pair answers "already added" with no change. A `tbr_id` already in the table gives the 500 answer with no change. Otherwise exactly one row is inserted with "Book added to TBR list", or a failed insert gives the 400. No other table changes. |
| BackendApi.Database.RemoveFromTbr | recommendation.py:190-200 | Deletes every row of the pair. Answers "Book removed from TBR list" when there was one, otherwise the 400 error. |
| BackendApi.Database.AddTitle | recommendation.py:231-240 | "User not found" with no change, or the title appended to that user's titles and nothing else changed. |
| BackendApi.Database.AddGenre | recommendation.py:242-251 | "User not found" with no change, or the genre appended to that user's genres and nothing else changed. |
| BackendApi.Database.DeleteTitle | recommendation.py:253-262 | "User not found"; a 500 with nothing written when the title is absent; otherwise its first occurrence removed. |
| BackendApi.Database.DeleteGenre | recommendation.py:264-273 | "User not found"; a 500 with nothing written when the genre is absent; otherwise its first occurrence removed. |
| OfflineRecommender.Titles | book-select-app/backend/recommendation.py:57 | `[book[0] for book in ...]` keeps the length and takes each entry's title. |
| OfflineRecommender.RecommendByTitle | book-select-app/backend/recommendation.py:37-60 | `[]` for a title that is not a key. Otherwise the titles of the first `min(n, len)` stored entries, in stored order. |
| OfflineRecommender.FeatureRows | book-select-app/backend/recommendation.py:83 | The selected rows are exactly the CSV rows whose feature column contains the feature (ignoring case, NaN false). |
| OfflineRecommender.FeatureRowsCount | book-select-app/backend/recommendation.py:83 | The mask keeps each matching row as often as the CSV holds it, and no other row. |
| OfflineRecommender.FeatureRowsAppend | book-select-app/backend/recommendation.py:83 | The mask distributes over concatenation, so the kept rows stay in CSV order. |
| OfflineRecommender.FeatureRowsCons | book-select-app/backend/recommendation.py:83 | The mask on one more leading row keeps that row in front exactly when it has the feature. |
| OfflineRecommender.InCandidates | book-select-app/backend/recommendation.py:96-101 | An entry is gathered exactly when it is among the first `n` entries of some matching title that is a key. |
| OfflineRecommender.RowTitles | book-select-app/backend/recommendation.py:96 | The titles of the matching rows, in CSV order. |
| OfflineRecommender.RecommendByFeature | book-select-app/backend/recommendation.py:63-104 | The filter, gather loop, sort and truncation compute `FeatureRecommendations`. |
| OfflineRecommender.GatherCandidates | book-select-app/backend/recommendation.py:95-101 | The loop over the matching titles gathers the first `n` similar entries of each title that has a list, in row order. |
| OfflineRecommender.FeatureRecommendationsSpec | book-select-app/backend/recommendation.py:83-104 | At most `n` titles; `[]` when no row has the feature; non-increasing score order. Each title comes from the first `n` similar entries of a matching row. |
| OfflineRecommender.FeatureRankingComplete | book-select-app/backend/recommendation.py:103 | The ranking keeps `min(len(candidates), n)` entries, and all the candidates, each as often as gathered, when there are at most `n`. |
| OfflineRecommender.FeatureLeftOut | book-select-app/backend/recommendation.py:103 | A gathered candidate that is cut off scores no higher than every entry kept. |
| OfflineRecommender.NoFeatureNoRows | book-select-app/backend/recommendation.py:83-87 | When no row has the feature, the filter keeps nothing. |
| OfflineRecommender.RankedEntryOrigin | book-select-app/backend/recommendation.py:95-104 | Each ranked entry is among the first `n` similar entries of a matching row's title. |
| SimilarityChunks.Range | generateMatrixChunks.py:70 | Every element of `range(start, stop, step)` lies in `[start, stop)`. |
| SimilarityChunks.ChunkEnd | generateMatrixChunks.py:40 | `min(start + chunkSize, numBooks)`: within both bounds and equal to one of them. |
| SimilarityChunks.RangeAt | generateMatrixChunks.py:70 | The `k`-th start is `k * chunkSize`. |
| SimilarityChunks.RangeNext | generateMatrixChunks.py:75 | Consecutive starts are one chunk apart, and the last start is within a chunk of the end. |
| SimilarityChunks.ChunkSizes | book-select-app/backend/generateMatrixChunks.py:76 | Every chunk is non-empty and has at most `chunkSize` rows. |
| SimilarityChunks.ChunksDisjoint | generateMatrixChunks.py:34-40 | A chunk ends no later than any later chunk starts, so chunks are pairwise disjoint. |
| SimilarityChunks.ChunksCover | book-select-app/backend/generateMatrixChunks.py:58-76 | Every row index below `numBooks` lies in some chunk. |
| SimilarityChunks.ChunkFileIndex | generateMatrixChunks.py:57 | Chunk `k` starts at `k * 1000` and is written to file `k`, so no two chunks share a file. |
| SimilarityChunks.Enumerate | generateMatrixChunks.py:50 | `enumerate(row)` pairs each column index with its score. |
| SimilarityChunks.SkipFirstTake | generateMatrixChunks.py:53 | `s[1:101]`: empty for at most one element, otherwise `min(100, len - 1)` elements taken from position 1 on. |
| SimilarityChunks.Ranking | generateMatrixChunks.py:50-51 | The sorted enumeration is a non-increasing permutation of the `(index, score)` pairs, so it keeps the row's length and names only existing columns. |
| SimilarityChunks.Label | generateMatrixChunks.py:54 | Each kept pair becomes `(title of its column, score)`. |
| SimilarityChunks.TopListSpec | book-select-app/backend/generateMatrixChunks.py:85-90 | A stored list has `min(100, numBooks - 1)` entries (none for a single book), is in non-increasing score order, and skips the top-ranked entry. |
| SimilarityChunks.CollectKeys | generateMatrixChunks.py:48-54 | A title is a key of a chunk map exactly when some row of the range has it. |
| SimilarityChunks.CollectLastWins | generateMatrixChunks.py:54 | For a repeated title, the last row of the range decides the stored list. |
| SimilarityChunks.CollectUpdate | book-select-app/backend/generateMatrixChunks.py:112-115 | `update` of the map of rows `a..b` with that of `b..c` is the map of `a..c`, so later chunks overwrite earlier ones. |
| SimilarityChunks.TopLists | generateMatrixChunks.py:48-54 | One stored list per row of the matrix. |
| SimilarityChunks.SimilarityBuilder.constructor | generateMatrixChunks.py:34-35 | The builder starts with the titles, the matrix and no chunk files. |
| SimilarityChunks.SimilarityBuilder.RowTopList | generateMatrixChunks.py:49-54 | The loop body computes the row's stored list. |
| SimilarityChunks.SimilarityBuilder.ChunkSimilarity | generateMatrixChunks.py:40-54 | The row loop builds the chunk's map of rows `start..min(start + 1000, numBooks)`. |
| SimilarityChunks.ChunkMapStep | generateMatrixChunks.py:48-54 | One more row of the loop adds exactly that title's top list to the chunk's map. |
| SimilarityChunks.SimilarityBuilder.ProcessChunkSimilarity | book-select-app/backend/generateMatrixChunks.py:61-96 | Exactly the chunk's file `start / 1000` changes, and it then holds the chunk's map. |
| SimilarityChunks.SimilarityBuilder.ProcessAllChunks | generateMatrixChunks.py:69-70 | Every chunk's file holds that chunk's map, and every other file is as it was. |
| SimilarityChunks.SimilarityBuilder.MergeChunks | generateMatrixChunks.py:74-79 | The merged map equals the map one pass over all rows builds, every chunk file is deleted, and every other file is as it was. |
| SimilarityChunks.MergeStep | generateMatrixChunks.py:74-79 | Chunk `k` lives in file `k`, and updating the map of the earlier chunks with it gives the map of all rows up to its end. |
| SimilarityChunks.MergedFileRemoved | generateMatrixChunks.py:79 | Deleting chunk file `k` leaves the later chunk files and every non-chunk file as they were. |
| SimilarityChunks.SimilarityBuilder.BuildAll | book-select-app/backend/generateMatrixChunks.py:99-116 | Processing and merging give the single-pass map, leave no chunk file, and keep every other file as it was. |
| ProfileEditor.Rejection | src/screens/ProfileScreen.js:40-41 | The add handler alerts "… cannot be empty" exactly for whitespace-only input, "… already exists" for an exact duplicate, and sends otherwise. |
| ProfileEditor.AddTo | src/screens/ProfileScreenOld.js:30-39 | On valid input and a truthy answer the untrimmed input is appended at the end; otherwise the list is unchanged. |
| ProfileEditor.DeleteFrom | src/screens/ProfileScreen.js:61-68 | On a truthy answer every equal entry is removed and the other entries keep their counts; otherwise the list is unchanged. |
| ProfileEditor.DeleteAfterReply | src/screens/ProfileScreen.js:61-68 | A 500 answer to a delete makes `response.json()` reject and leaves the list unchanged. A truthy JSON answer filters the value out. |
| ProfileEditor.Loaded | src/screens/ProfileScreen.js:24-30 | Loading replaces both lists, reading missing fields as `[]`; a body without `preferences` gives two empty lists; a `null` body throws. |
| ProfileEditor.Apply | src/screens/ProfileScreen.js:45-76 | Title edits never change the genres, and genre edits never change the titles. |
| ProfileEditor.AddKeepsClean | src/screens/ProfileScreen.js:39-48 | An add keeps a list duplicate-free and free of whitespace-only entries. |
| ProfileEditor.DeleteKeepsClean | src/screens/ProfileScreen.js:61-69 | A delete keeps a list duplicate-free and free of whitespace-only entries. |
| ProfileEditor.EditsKeepClean | src/screens/ProfileScreenOld.js:30-70 | From clean lists, any sequence of local adds and deletes keeps both lists duplicate-free and free of whitespace-only entries. |
| ProfileEditor.WithoutAbsent | src/screens/ProfileScreen.js:66 | Filtering out an absent value leaves the list unchanged. |
| ProfileEditor.AddThenDelete | src/screens/ProfileScreen.js:43-67 | A successful add followed by a successful delete of the same value restores the list. |
| ProfileEditor.WithoutIsRemoveFirst | src/screens/ProfileScreen.js:66 | On a list where the value occurs once, the screen's filter equals the backend's `list.remove`. |
| ProfileEditor.ScreenMatchesBackend | recommendation.py:237-260 | On a duplicate-free list, the screen's append and delete produce the lists the backend stores. |
| ProfileEditor.ProfileScreen.constructor | src/screens/ProfileScreen.js:16-18 | Both inputs start empty, and both lists start as `[]`. |
| ProfileEditor.ProfileScreen.FetchPreferences | src/screens/ProfileScreenOld.js:15-21 | Replaces both lists with the loaded ones. A rejected call or a `null` body changes nothing. The inputs are untouched. |
| ProfileEditor.ProfileScreen.HandleAddTitle | src/screens/ProfileScreen.js:39-48 | Invalid input alerts without a call or any change. A truthy answer appends the title and clears the field; otherwise nothing changes. Genres are untouched. |
| ProfileEditor.ProfileScreen.HandleAddGenre | src/screens/ProfileScreen.js:50-59 | The same for genres; titles are untouched. |
| ProfileEditor.ProfileScreen.HandleDeleteTitle | src/screens/ProfileScreenOld.js:52-60 | A truthy answer filters the title out, and nothing else changes. |
| ProfileEditor.ProfileScreen.HandleDeleteGenre | src/screens/ProfileScreen.js:71-79 | A truthy answer filters the genre out, and nothing else changes. |
| HomeFeed.RecommendationQuery | src/screens/HomeScreen.js:28-33 | A missing or null list is sent as `""`; genres are sent first, then titles. |
| HomeFeed.QueryRoundTrip | src/screens/HomeScreen.js:33 | For entries that are non-empty and comma-free, the backend's split of the sent strings recovers both lists exactly. |
| HomeFeed.JoinRoundTrip | src/screens/HomeScreen.js:33 | One list through `join(',')` and the backend's split comes back unchanged. |
| HomeFeed.JoinNonEmpty | src/screens/HomeScreen.js:33 | A joined list whose first entry is non-empty is a non-empty string. |
| HomeFeed.MessageOf | src/screens/HomeScreen.js:59 | `result.message` exists exactly for message bodies. |
| HomeFeed.Classify | src/screens/HomeScreen.js:59-65 | Added or already-present exactly on the two exact messages; a `null` body throws; anything else is an error. |
| HomeFeed.HomeScreen.constructor | src/screens/HomeScreen.js:18-20 | `books` is `[]`, `loading` is true, and `currentIndex` is 0. |
| HomeFeed.HomeScreen.FetchBooks | src/screens/HomeScreen.js:23-40 | `loading` goes true, then false. The joined query is sent only for a preferences body. On success `books` is replaced; a body without `recommendations` stores `undefined`; any throw keeps `books`. `currentIndex` is untouched. |
| HomeFeed.HomeScreen.OnSwipeRight | src/screens/HomeScreen.js:55-67 | No call without a `bookId` or a user. Otherwise the answer is classified. State is untouched. |
| TbrScreen.FetchedList | src/screens/TBRScreen.js:23-24 | `data.tbr_list` is the list for a TBR body and `undefined` for another body; a `null` body throws. |
| TbrScreen.TbrScreen.constructor | src/screens/TBRScreen.js:16-17 | The list is `[]` and `loading` is true. |
| TbrScreen.TbrScreen.FetchTbrBooks | src/screens/TBRScreen.js:20-30 | `loading` goes true, then false, in every case. A successful fetch replaces the list wholesale; a failed one keeps it. |
| TbrScreen.TbrScreen.HandleRemove | src/screens/TBRScreen.js:39-46 | The list is refetched exactly when the remove call resolved, whatever its message; a rejected remove changes nothing. |
| DatesCard.FontSize | src/component/DatesCard.js:18-23 | 14 below 600 characters, 12 below 900, 10 below 1400, 8 otherwise. |
| DatesCard.FontSizeRange | src/component/DatesCard.js:18-23 | The size is one of 8, 10, 12, 14. |
| DatesCard.FontSizeMonotone | src/component/DatesCard.js:19-22 | A longer text never gets a larger font. |
| DatesCard.StripGenres | src/component/DatesCard.js:72 | The result is no longer than the input. |
| DatesCard.StripRemovesPunctuation | src/component/DatesCard.js:72 | No `[`, `]` or `'` remains after the replacement. |
| DatesCard.StripKeepsOthers | src/component/DatesCard.js:72 | Every other character is kept as often as it occurred. |
| DatesCard.StripClean | src/component/DatesCard.js:72 | A string without list punctuation is left unchanged. |
| DatesCard.StripIdempotent | src/component/DatesCard.js:72 | Stripping twice equals stripping once. |
| DatesCard.StripAppend | src/component/DatesCard.js:72 | Stripping distributes over concatenation, so kept characters stay in order. |
| DatesCard.Card.constructor | src/component/DatesCard.js:10 | The card starts unflipped. |
| DatesCard.Card.ToggleFlip | src/component/DatesCard.js:13-15 | `isFlipped` is negated, so two toggles restore it. |

## Left out

- **HTTP transport.** `fetch` in `src/api/API.js` and FastAPI's routing and pydantic validation are not modelled. Each call is a `Call<Body>` parameter, and each endpoint is a method. The unencoded query string of `getRecommendations` is not modelled.
- **Supabase.** Its client is replaced by in-memory tables. The outcome of an insert (`response.data` empty or not) and the generated `uuid4` ids are parameters.
- **Password hashing.** bcrypt hashing happens before `Register` is called, and the hash is a parameter.
- **`login`.** It is not modelled: it only compares a bcrypt hash. `src/screens/LoginScreen.js` and `src/screens/RegisterScreen.js` are not part of this model; the login screen stores the user id only on the exact message "Login successful".
- **Database query semantics** are simplified:
  - `.ilike('%g%')` is a plain case-insensitive substring test, so SQL wildcards inside the genre are not modelled;
  - rows with equal `likedPercent` are assumed to come back in table order (a stable sort);
  - `.range(0, n-1)` is a prefix of length `n`.
  - `.eq(col, v)` returns the matching rows in table order, so `data[0]` (used by `SimilarityRowFor`, `BookByTitle` and `BookById`) is the first matching row of the table.
- **Unicode.** `lower()` is modelled on ASCII letters only. `strip()` and `trim()` remove exactly space, tab, line feed, carriage return, vertical tab and form feed. That is JavaScript's ASCII set. Python's `strip()` also removes `\x1c` to `\x1f`, and both also remove non-ASCII spaces. Neither difference is modelled.
- **Numerics.** TF-IDF vectorisation, `cosine_similarity` and `compareTwoBooks` are floating-point numerics inside scikit-learn. The similarity matrix is an input of real scores; the model states only that it is square, one row and one column per book.
- **Pandas behaviour.**
  - The English-language filter of the CSV and its `fillna` are not modelled.
  - The `str.contains` of the feature search is a plain case-insensitive substring test, not a regular expression.
  - A NaN cell is a missing column.
- **Concurrency and I/O.** `multiprocessing.Pool` runs the chunks sequentially, in chunk order. Pickle files are entries of a map from chunk number to chunk map. `os.remove` deletes an entry. CSV loading and all `print`/`console` output are left out. The chunk size is the constant 1000.
- **Overlapping handlers.** Races between overlapping, focus-triggered loads are asynchronous interleavings. Every handler is atomic.
- **Screens without logic.** `onSwipeLeft` has an empty body. Navigation, layout, styles, `App.js`, `src/navigation/AppNavigation.js` and `src/component/OldDatesCard.js` are not part of this model.
- **Sorting.SortDesc:** stability (equal keys keep input order) holds by its definition but is not stated as a contract.
- **HomeFeed.HomeScreen.OnSwipeRight:** when `books` is `undefined`, reading `books[index]` throws; this is modelled as the outcome `Rejected`. A `bookId` is falsy only when it is the empty string.
- BackendModel.RemoveThenView: the promise that a removed book is gone from the next view holds only when stored book ids carry no surrounding whitespace. `addToTBR` stores `book_id` as sent and `removeFromTBR` matches it as sent, but `viewTBR` strips it before the lookup (recommendation.py:178-206). `BackendModel.RemoveMissesPaddedId` shows a padded id that survives the removal and is still viewed. The model keeps the source's behaviour and does not correct it.
- OfflineRecommender.RecommendByFeature: a `featureType` that is not a column of the CSV makes `data[featureType]` raise `KeyError`, and a column that does not hold strings makes `.str` raise `AttributeError` (book-select-app/backend/recommendation.py:83). The model has no column set or error outcome: a missing column reads as no match and gives `[]`.
