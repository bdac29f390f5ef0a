/**
 * The to-be-read screen (`src/screens/TBRScreen.js`): the list the backend's
 * `viewTBR` returns, a loading flag, and a remove button that calls
 * `removeFromTBR` and then reloads the list.
 *
 * The awaited API calls are parameters (`Call<Body>`).
 */
module TbrScreen {
  import opened Api

  /**
   * What `setTbrList(data.tbr_list)` stores for a body: the list, or `None`
   * (`undefined`) when the body has no `tbr_list` field. A `null` body makes
   * the property read throw, which is the `None` result here.
   */
  function FetchedList(b: Body): (r: Option<Option<seq<BookRecord>>>)
    ensures r.None? <==> b.JsonNull?
    ensures b.TbrListBody? ==> r == Some(Some(b.tbrList))
    ensures !b.TbrListBody? && !b.JsonNull? ==> r == Some(None)
  {
    match b
    case JsonNull => None
    case TbrListBody(list) => Some(Some(list))
    case _ => Some(None)
  }

  /** The screen's state; `tbrList` is `None` once it has been set to `undefined`. */
  class TbrScreen {
    var tbrList: Option<seq<BookRecord>>
    var loading: bool
    /** Every value `setLoading` has been given, in order. */
    ghost var loadingHistory: seq<bool>

    /** `useState([])`, `useState(true)`. */
    constructor ()
      ensures tbrList == Some([]) && loading && loadingHistory == []
    {
      tbrList := Some([]);
      loading := true;
      loadingHistory := [];
    }

    /**
     * `fetchTBRBooks`: set `loading`, replace the list wholesale with the
     * server's `tbr_list`, and clear `loading` in `finally`; a failed call
     * is caught and leaves the list as it was.
     */
    method FetchTbrBooks(reply: Call<Body>)
      modifies this
      ensures loadingHistory == old(loadingHistory) + [true, false] && !loading
      ensures reply.Returned? && FetchedList(reply.value).Some? ==> tbrList == FetchedList(reply.value).value
      ensures reply.Threw? || FetchedList(reply.value).None? ==> tbrList == old(tbrList)
    {
      loading := true;
      loadingHistory := loadingHistory + [true];
      if reply.Returned? {
        var fetched := FetchedList(reply.value);
        if fetched.Some? {
          tbrList := fetched.value;
        }
      }
      loading := false;
      loadingHistory := loadingHistory + [false];
    }

    /**
     * `handleRemove(bookId)`: await `removeFromTBR`, then reload the list,
     * whatever message came back. When the remove call rejects, the reload
     * is skipped and nothing changes. Returns whether the reload ran.
     */
    method HandleRemove(removeReply: Call<Body>, viewReply: Call<Body>) returns (refetched: bool)
      modifies this
      ensures refetched <==> removeReply.Returned?
      ensures !refetched ==> tbrList == old(tbrList) && loading == old(loading) &&
                             loadingHistory == old(loadingHistory)
      ensures refetched ==> loadingHistory == old(loadingHistory) + [true, false] && !loading
      ensures refetched && viewReply.Returned? && FetchedList(viewReply.value).Some? ==>
                tbrList == FetchedList(viewReply.value).value
      ensures refetched && (viewReply.Threw? || FetchedList(viewReply.value).None?) ==> tbrList == old(tbrList)
    {
      if removeReply.Threw? {
        return false;
      }
      FetchTbrBooks(viewReply);
      refetched := true;
    }
  }
}
