/**
 * The preferences editor of the profile screen (`src/screens/ProfileScreen.js`,
 * and the identical handlers of its earlier copy
 * `src/screens/ProfileScreenOld.js`): two text inputs, `title` and `genre`,
 * and the `preferences` state holding the user's preferred titles and genres.
 *
 * Each handler runs to completion as one step. The API call a handler awaits
 * is a parameter of type `Call<Body>`: the promise rejected, or resolved with
 * a parsed body. The handlers test the body only for truthiness, so any JSON
 * object counts as success, including the `{"detail": "User not found"}` of a
 * 400 answer.
 */
module ProfileEditor {
  import opened Api
  import opened Strings
  import opened Lists
  import opened BackendModel

  /** The `preferences` state: `{ titles, genres }`. */
  datatype Preferences = Preferences(titles: seq<string>, genres: seq<string>)

  /** What an add handler did: it showed an alert and returned, or it sent the request. */
  datatype AddOutcome = Alerted(message: string) | Sent

  /** `if (success)` after an awaited call: the call resolved and its body is truthy. */
  predicate Succeeded(reply: Call<Body>) {
    reply.Returned? && Truthy(reply.value)
  }

  /** The input passes validation: it is not whitespace only and not already listed (exact match). */
  predicate Accepts(list: seq<string>, input: string) {
    !IsBlank(input) && input !in list
  }

  /**
   * The validation of an add handler for the list `list` of kind `kind`
   * (`"Title"` or `"Genre"`): the alert it shows, if any.
   */
  function Rejection(list: seq<string>, input: string, kind: string): (r: Option<string>)
    ensures r.None? <==> Accepts(list, input)
    ensures IsBlank(input) ==> r == Some(kind + " cannot be empty")
    ensures !IsBlank(input) && input in list ==> r == Some(kind + " already exists")
  {
    TrimEmptyIffBlank(input);
    if Trim(input) == [] then Some(kind + " cannot be empty")
    else if input in list then Some(kind + " already exists")
    else None
  }

  /**
   * The list after an add handler: the untrimmed input appended at the end
   * when validation passes and the call succeeds, otherwise the list as it was.
   */
  function AddTo(list: seq<string>, input: string, reply: Call<Body>): (r: seq<string>)
    ensures Accepts(list, input) && Succeeded(reply) ==>
              |r| == |list| + 1 && r[..|list|] == list && r[|list|] == input
    ensures !Accepts(list, input) || !Succeeded(reply) ==> r == list
  {
    if Accepts(list, input) && Succeeded(reply) then list + [input] else list
  }

  /** The list after a delete handler: `filter` out every equal entry when the call succeeds. */
  function DeleteFrom(list: seq<string>, value: string, reply: Call<Body>): (r: seq<string>)
    ensures Succeeded(reply) ==> value !in r
    ensures Succeeded(reply) ==> forall y :: y != value ==> multiset(r)[y] == multiset(list)[y]
    ensures !Succeeded(reply) ==> r == list
  {
    if Succeeded(reply) then Without(list, value) else list
  }

  /**
   * A delete the backend answers with its plain-text 500 page (the value was
   * not in the stored list) makes `response.json()` reject, so the local list
   * stays as it was; any truthy JSON answer filters the value out.
   */
  lemma DeleteAfterReply(list: seq<string>, value: string, r: Reply)
    ensures r.InternalServerError? ==> DeleteFrom(list, value, Receive(r)) == list
    ensures r.Json? && Truthy(r.body) ==> DeleteFrom(list, value, Receive(r)) == Without(list, value)
  {
  }

  /**
   * What `fetchPreferences` stores: `data.preferences?.preferred_titles || []`
   * and the same for genres, or nothing when reading `data.preferences`
   * throws (a `null` body).
   */
  function Loaded(b: Body): (r: Option<Preferences>)
    ensures b.JsonNull? <==> r.None?
    ensures b.PreferencesBody? ==>
              r == Some(Preferences(OrEmpty(b.preferences.preferredTitles), OrEmpty(b.preferences.preferredGenres)))
    ensures !b.PreferencesBody? && !b.JsonNull? ==> r == Some(Preferences([], []))
  {
    match b
    case JsonNull => None
    case PreferencesBody(p) => Some(Preferences(OrEmpty(p.preferredTitles), OrEmpty(p.preferredGenres)))
    case _ => Some(Preferences([], []))
  }

  /** One local edit of the preferences: an add with the input field's text, or a delete of a listed value. */
  datatype Edit =
    | AddTitle(input: string, reply: Call<Body>)
    | AddGenre(input: string, reply: Call<Body>)
    | DeleteTitle(value: string, reply: Call<Body>)
    | DeleteGenre(value: string, reply: Call<Body>)

  /** The preferences after one edit; a title edit leaves the genres alone and a genre edit the titles. */
  function Apply(p: Preferences, e: Edit): (r: Preferences)
    ensures (e.AddTitle? || e.DeleteTitle?) ==> r.genres == p.genres
    ensures (e.AddGenre? || e.DeleteGenre?) ==> r.titles == p.titles
  {
    match e
    case AddTitle(input, reply) => p.(titles := AddTo(p.titles, input, reply))
    case AddGenre(input, reply) => p.(genres := AddTo(p.genres, input, reply))
    case DeleteTitle(value, reply) => p.(titles := DeleteFrom(p.titles, value, reply))
    case DeleteGenre(value, reply) => p.(genres := DeleteFrom(p.genres, value, reply))
  }

  /** The preferences after a sequence of edits, in order. */
  function ApplyAll(p: Preferences, edits: seq<Edit>): Preferences
    decreases |edits|
  {
    if edits == [] then p else ApplyAll(Apply(p, edits[0]), edits[1..])
  }

  /** A list with no repeated entry and no whitespace-only entry. */
  predicate CleanList(list: seq<string>) {
    NoDup(list) && forall i :: 0 <= i < |list| ==> !IsBlank(list[i])
  }

  /** Both lists are clean. */
  predicate Clean(p: Preferences) {
    CleanList(p.titles) && CleanList(p.genres)
  }

  /** An add handler keeps a clean list clean. */
  lemma AddKeepsClean(list: seq<string>, input: string, reply: Call<Body>)
    requires CleanList(list)
    ensures CleanList(AddTo(list, input, reply))
  {
    if Accepts(list, input) && Succeeded(reply) {
      AppendFreshKeepsNoDup(list, input);
      var r := list + [input];
      forall i | 0 <= i < |r| ensures !IsBlank(r[i]) {
        if i < |list| {
          assert r[i] == list[i];
        }
      }
    }
  }

  /** A delete handler keeps a clean list clean. */
  lemma DeleteKeepsClean(list: seq<string>, value: string, reply: Call<Body>)
    requires CleanList(list)
    ensures CleanList(DeleteFrom(list, value, reply))
  {
    if Succeeded(reply) {
      WithoutKeepsNoDup(list, value);
      var r := Without(list, value);
      forall i | 0 <= i < |r| ensures !IsBlank(r[i]) {
        assert r[i] in list;
      }
    }
  }

  /**
   * Starting from clean lists, any sequence of local adds and deletes keeps
   * both lists free of duplicates and of whitespace-only entries.
   */
  lemma {:induction false} EditsKeepClean(p: Preferences, edits: seq<Edit>)
    requires Clean(p)
    ensures Clean(ApplyAll(p, edits))
    decreases |edits|
  {
    if edits != [] {
      var e := edits[0];
      match e {
        case AddTitle(input, reply) => AddKeepsClean(p.titles, input, reply);
        case AddGenre(input, reply) => AddKeepsClean(p.genres, input, reply);
        case DeleteTitle(value, reply) => DeleteKeepsClean(p.titles, value, reply);
        case DeleteGenre(value, reply) => DeleteKeepsClean(p.genres, value, reply);
      }
      EditsKeepClean(Apply(p, e), edits[1..]);
    }
  }

  /** Deleting a value that is absent leaves a list as it was. */
  lemma {:induction false} WithoutAbsent(list: seq<string>, value: string)
    requires value !in list
    ensures Without(list, value) == list
  {
    if list != [] {
      WithoutAbsent(list[1..], value);
      assert list == [list[0]] + list[1..];
    }
  }

  /** A successful add followed by a successful delete of the same value restores the list. */
  lemma AddThenDelete(list: seq<string>, input: string, addReply: Call<Body>, deleteReply: Call<Body>)
    requires Accepts(list, input)
    requires Succeeded(addReply) && Succeeded(deleteReply)
    ensures DeleteFrom(AddTo(list, input, addReply), input, deleteReply) == list
  {
    WithoutAppend(list, [input], input);
    WithoutAbsent(list, input);
    assert Without([input], input) == [];
  }

  /** On a list where `v` occurs once, filtering it out is removing its first occurrence. */
  lemma WithoutIsRemoveFirst(list: seq<string>, v: string)
    requires NoDup(list) && v in list
    ensures Without(list, v) == RemoveFirst(list, v)
  {
    var k := FirstIndex(list, v);
    var before, after := list[..k], list[k + 1..];
    assert v !in after by {
      forall j | 0 <= j < |after| ensures after[j] != v {
        assert after[j] == list[k + 1 + j];
      }
    }
    assert list == before + ([v] + after);
    WithoutAppend(before, [v] + after, v);
    WithoutAppend([v], after, v);
    WithoutAbsent(before, v);
    WithoutAbsent(after, v);
    assert Without([v], v) == [];
  }

  /**
   * On a duplicate-free list the screen and the backend agree: the local
   * append is the stored append, and the local `filter` of a listed value is
   * the backend's `list.remove` of its first occurrence.
   */
  lemma ScreenMatchesBackend(list: seq<string>, v: string, reply: Call<Body>)
    requires NoDup(list) && Succeeded(reply)
    ensures Accepts(list, v) ==> AddTo(list, v, reply) == AppendPreference(Some(list), v)
    ensures v in list ==> DeletePreference(Some(list), v) == Some(DeleteFrom(list, v, reply))
  {
    if v in list {
      WithoutIsRemoveFirst(list, v);
      RemoveFirstCount(list, v);
    }
  }

  /** The screen's state: the two input fields and the preferences shown. */
  class ProfileScreen {
    var title: string
    var genre: string
    var preferences: Preferences

    /** `useState('')`, `useState('')`, `useState({ titles: [], genres: [] })`. */
    constructor ()
      ensures title == "" && genre == "" && preferences == Preferences([], [])
    {
      title := "";
      genre := "";
      preferences := Preferences([], []);
    }

    /** `fetchPreferences`: replace both lists wholesale; a rejected call or a `null` body changes nothing. */
    method FetchPreferences(reply: Call<Body>)
      modifies this
      ensures reply.Returned? && Loaded(reply.value).Some? ==> preferences == Loaded(reply.value).value
      ensures reply.Threw? || Loaded(reply.value).None? ==> preferences == old(preferences)
      ensures title == old(title) && genre == old(genre)
    {
      if reply.Returned? {
        var loaded := Loaded(reply.value);
        if loaded.Some? {
          preferences := loaded.value;
        }
      }
    }

    /** `handleAddTitle`: validate, call `addTitle`, and on success append and clear the field. */
    method HandleAddTitle(reply: Call<Body>) returns (outcome: AddOutcome)
      modifies this
      ensures Rejection(old(preferences.titles), old(title), "Title").Some? ==>
                outcome == Alerted(Rejection(old(preferences.titles), old(title), "Title").value)
      ensures Rejection(old(preferences.titles), old(title), "Title").None? ==> outcome == Sent
      ensures preferences == Apply(old(preferences), AddTitle(old(title), reply))
      ensures title == if outcome == Sent && Succeeded(reply) then "" else old(title)
      ensures genre == old(genre)
    {
      var alert := Rejection(preferences.titles, title, "Title");
      if alert.Some? {
        return Alerted(alert.value);
      }
      outcome := Sent;
      if Succeeded(reply) {
        preferences := preferences.(titles := preferences.titles + [title]);
        title := "";
      }
    }

    /** `handleAddGenre`: validate, call `addGenre`, and on success append and clear the field. */
    method HandleAddGenre(reply: Call<Body>) returns (outcome: AddOutcome)
      modifies this
      ensures Rejection(old(preferences.genres), old(genre), "Genre").Some? ==>
                outcome == Alerted(Rejection(old(preferences.genres), old(genre), "Genre").value)
      ensures Rejection(old(preferences.genres), old(genre), "Genre").None? ==> outcome == Sent
      ensures preferences == Apply(old(preferences), AddGenre(old(genre), reply))
      ensures genre == if outcome == Sent && Succeeded(reply) then "" else old(genre)
      ensures title == old(title)
    {
      var alert := Rejection(preferences.genres, genre, "Genre");
      if alert.Some? {
        return Alerted(alert.value);
      }
      outcome := Sent;
      if Succeeded(reply) {
        preferences := preferences.(genres := preferences.genres + [genre]);
        genre := "";
      }
    }

    /** `handleDeleteTitle(titleToDelete)`: on success keep every title different from it. */
    method HandleDeleteTitle(titleToDelete: string, reply: Call<Body>)
      modifies this
      ensures preferences == Apply(old(preferences), DeleteTitle(titleToDelete, reply))
      ensures title == old(title) && genre == old(genre)
    {
      if Succeeded(reply) {
        preferences := preferences.(titles := Without(preferences.titles, titleToDelete));
      }
    }

    /** `handleDeleteGenre(genreToDelete)`: on success keep every genre different from it. */
    method HandleDeleteGenre(genreToDelete: string, reply: Call<Body>)
      modifies this
      ensures preferences == Apply(old(preferences), DeleteGenre(genreToDelete, reply))
      ensures title == old(title) && genre == old(genre)
    {
      if Succeeded(reply) {
        preferences := preferences.(genres := Without(preferences.genres, genreToDelete));
      }
    }
  }
}
