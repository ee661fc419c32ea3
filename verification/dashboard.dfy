/**
  The dashboard page's state and the operations that change it: adding a
  bookmark (optimistic provisional row, then the server row or removal),
  deleting one (optimistic removal, restored on error), setting the
  favourite flag (optimistic patch, then reconciliation) and the star
  button's click / double-click timers.

  The backend is not called: each operation receives the backend's answer as
  a parameter, and the ghost `sent` log records the request it would have
  made. The toast is the returned `Notice`.
 */
module Dashboard {
  import opened Wrappers
  import opened Text
  import opened Seqs
  import opened Bookmarks
  import opened Views

  /** The insert payload: a row as the form builds it, before it has an id or a timestamp. */
  datatype Draft = Draft(
    title: string,
    url: string,
    tag: string,
    userId: string,
    favorite: bool,
    pinned: bool,
    isRead: bool,
    archived: bool)

  /**
    The provisional row `{ ...payload, id: tempId, created_at: now }`: it
    carries the temporary id and the payload's fields, and it counts as
    recent at the instant it is made (unless that instant is 0).
   */
  function Provisional(d: Draft, tempId: int, now: int): (r: Bookmark)
    ensures r.id == tempId && r.tag == Some(d.tag)
    ensures IsRecent(r, now) <==> now != 0
  {
    Bookmark(tempId, d.title, d.url, Some(d.tag), d.userId, Some(now),
             d.favorite, d.pinned, d.isRead, d.archived)
  }

  /** The backend's answer to the insert: an error, no row, or the stored row. */
  datatype InsertResult = InsertError | InsertNoRow | InsertRow(row: Bookmark)

  /** The backend's answer to the delete. */
  datatype DeleteResult = DeleteOk | DeleteError

  /** A row of the favourite update's answer (`select('id,favorite')`). */
  datatype FavoriteRow = FavoriteRow(id: int, favorite: bool)

  /** The backend's answer to the favourite update: an error, or the updated rows (none when a policy blocked it). */
  datatype UpdateResult = UpdateError | UpdateRows(rows: seq<FavoriteRow>)

  /** The toast an operation shows, if any. */
  datatype Notice =
    | NoNotice
    | SaveFailed
    | BookmarkAdded
    | DeleteFailed
    | Deleted
    | FavoriteUpdateFailed
    | BlockedByRls

  /** A call the page makes to the backend; every one but the insert names the signed-in user. */
  datatype Request =
    | InsertRequest(draft: Draft)
    | DeleteRequest(id: int, userId: string)
    | FavoriteRequest(id: int, userId: string, favorite: bool)

  predicate IdFresh(bs: seq<Bookmark>, id: int) {
    forall b :: b in bs ==> b.id != id
  }

  /** At most one row per id. */
  predicate UniqueIds(bs: seq<Bookmark>) {
    forall i, j :: 0 <= i < j < |bs| ==> bs[i].id != bs[j].id
  }

  /** `prev.filter((x) => x.id !== id)`: the rows with other ids, in order. */
  function RemoveById(bs: seq<Bookmark>, id: int): (r: seq<Bookmark>)
    ensures Subseq(r, bs)
    ensures forall b :: b in r <==> b in bs && b.id != id
    ensures IdFresh(r, id)
  {
    Filter(bs, (x: Bookmark) => x.id != id)
  }

  /** Removing by id keeps every other row as often as it occurs. */
  lemma RemoveByIdCounts(bs: seq<Bookmark>, id: int)
    ensures forall b :: multiset(RemoveById(bs, id))[b] == if b.id != id then multiset(bs)[b] else 0
  {
    FilterCounts(bs, (x: Bookmark) => x.id != id);
  }

  /** `prev.map((x) => (x.id === id ? row : x))`: rows with the id become `row`, in place. */
  function ReplaceById(bs: seq<Bookmark>, id: int, row: Bookmark): (r: seq<Bookmark>)
    ensures |r| == |bs|
    ensures forall i :: 0 <= i < |bs| && bs[i].id == id ==> r[i] == row
    ensures forall i :: 0 <= i < |bs| && bs[i].id != id ==> r[i] == bs[i]
  {
    if bs == [] then []
    else [if bs[0].id == id then row else bs[0]] + ReplaceById(bs[1..], id, row)
  }

  /**
    `prev.map((x) => (x.id === id ? { ...x, favorite: val } : x))`: the rows
    with the id get `favorite == val` and keep every other field; the other
    rows are untouched.
   */
  function SetFavoriteById(bs: seq<Bookmark>, id: int, val: bool): (r: seq<Bookmark>)
    ensures |r| == |bs|
    ensures forall i :: 0 <= i < |bs| && bs[i].id == id ==> r[i] == bs[i].(favorite := val)
    ensures forall i :: 0 <= i < |bs| && bs[i].id != id ==> r[i] == bs[i]
  {
    if bs == [] then []
    else [if bs[0].id == id then bs[0].(favorite := val) else bs[0]] + SetFavoriteById(bs[1..], id, val)
  }

  /** Removing an id that no row has changes nothing. */
  lemma RemoveFreshId(bs: seq<Bookmark>, id: int)
    requires IdFresh(bs, id)
    ensures RemoveById(bs, id) == bs
  {
    FilterAll(bs, (x: Bookmark) => x.id != id);
  }

  /** A failed add removes the provisional row and gives back the list it was prepended to, if its id was fresh. */
  lemma ProvisionalRemoved(bs: seq<Bookmark>, t: Bookmark)
    requires IdFresh(bs, t.id)
    ensures RemoveById([t] + bs, t.id) == bs
  {
    assert ([t] + bs)[1..] == bs;
    RemoveFreshId(bs, t.id);
  }

  /** A successful add puts the server row where the provisional row was, if its id was fresh. */
  lemma ProvisionalReplaced(bs: seq<Bookmark>, t: Bookmark, row: Bookmark)
    requires IdFresh(bs, t.id)
    ensures ReplaceById([t] + bs, t.id, row) == [row] + bs
  {
  }

  /**
    The list after an add has settled, from the list `bs` it started with and
    the provisional row `t`: the stored row in the provisional row's place,
    or the provisional row removed.
   */
  function AddSettled(bs: seq<Bookmark>, t: Bookmark, result: InsertResult): (r: seq<Bookmark>)
    ensures result.InsertRow? ==> |r| == |bs| + 1 && r[0] == result.row
    ensures result.InsertRow? ==> forall i :: 1 <= i < |r| && bs[i - 1].id != t.id ==> r[i] == bs[i - 1]
    ensures !result.InsertRow? ==> Subseq(r, [t] + bs) && IdFresh(r, t.id)
    ensures !result.InsertRow? ==> forall b :: b in r <==> b in bs && b.id != t.id
  {
    match result
    case InsertRow(row) => ReplaceById([t] + bs, t.id, row)
    case _ => RemoveById([t] + bs, t.id)
  }

  /**
    With a fresh temporary id, a successful add leaves exactly the stored row
    in front of the old list, and a failed one leaves the old list.
   */
  lemma AddSettledFresh(bs: seq<Bookmark>, t: Bookmark, result: InsertResult)
    requires IdFresh(bs, t.id)
    ensures AddSettled(bs, t, result) == if result.InsertRow? then [result.row] + bs else bs
  {
    if result.InsertRow? {
      ProvisionalReplaced(bs, t, result.row);
    } else {
      ProvisionalRemoved(bs, t);
    }
  }

  /**
    An add keeps ids unique when the temporary id is fresh and the stored
    row's id is too.
   */
  lemma AddSettledKeepsUniqueIds(bs: seq<Bookmark>, t: Bookmark, result: InsertResult)
    requires UniqueIds(bs) && IdFresh(bs, t.id)
    requires result.InsertRow? ==> IdFresh(bs, result.row.id)
    ensures UniqueIds(AddSettled(bs, t, result))
  {
    AddSettledFresh(bs, t, result);
    if result.InsertRow? {
      var r := [result.row] + bs;
      forall i, j | 0 <= i < j < |r|
        ensures r[i].id != r[j].id
      {
        if i == 0 {
          assert r[j] in bs;
        } else {
          assert r[i] == bs[i - 1] && r[j] == bs[j - 1];
        }
      }
    }
  }

  /** Removing rows keeps ids unique. */
  lemma {:induction false} RemoveKeepsUniqueIds(bs: seq<Bookmark>, id: int)
    requires UniqueIds(bs)
    ensures UniqueIds(RemoveById(bs, id))
    decreases |bs|
  {
    if bs != [] {
      var tail := RemoveById(bs[1..], id);
      assert UniqueIds(bs[1..]) by {
        assert forall i :: 0 <= i < |bs| - 1 ==> bs[1..][i] == bs[i + 1];
      }
      RemoveKeepsUniqueIds(bs[1..], id);
      if bs[0].id != id {
        assert RemoveById(bs, id) == [bs[0]] + tail;
        forall j | 0 <= j < |tail|
          ensures tail[j].id != bs[0].id
        {
          assert tail[j] in bs[1..];
        }
      } else {
        assert RemoveById(bs, id) == tail;
      }
    }
  }

  /** Setting the favourite flag twice on the same id is setting it once, to the second value. */
  lemma SetFavoriteTwice(bs: seq<Bookmark>, id: int, first: bool, second: bool)
    ensures SetFavoriteById(SetFavoriteById(bs, id, first), id, second) == SetFavoriteById(bs, id, second)
  {
  }

  /**
    Rolling back to `!val` gives back the list before the optimistic step
    exactly when every row with that id already had favourite `!val`; for a
    row that already had `val` the rollback flips it.
   */
  lemma FavoriteRollbackRestores(bs: seq<Bookmark>, id: int, val: bool)
    ensures SetFavoriteById(SetFavoriteById(bs, id, val), id, !val) == bs
        <==> forall b :: b in bs && b.id == id ==> b.favorite == !val
  {
  }

  /**
    The list after a favourite update has settled: on an error, or when the
    update returns no row, the rows with the id end with `!val`; otherwise
    the optimistic `val` stands and the rows with the returned row's id take
    the returned value.
   */
  function FavoriteSettled(bs: seq<Bookmark>, id: int, val: bool, result: UpdateResult): (r: seq<Bookmark>)
    ensures |r| == |bs|
    ensures forall i :: 0 <= i < |bs| ==> r[i].id == bs[i].id
  {
    match result
    case UpdateError => SetFavoriteById(bs, id, !val)
    case UpdateRows(rows) =>
      if rows == [] then SetFavoriteById(bs, id, !val)
      else SetFavoriteById(SetFavoriteById(bs, id, val), rows[0].id, rows[0].favorite)
  }

  /** `id` is the id of the row the favourite update returned. */
  predicate ReturnedId(result: UpdateResult, id: int) {
    result.UpdateRows? && result.rows != [] && result.rows[0].id == id
  }

  /** The toast of a favourite update: a failure, a policy block, or none. */
  function FavoriteNotice(result: UpdateResult): (n: Notice)
    ensures n == FavoriteUpdateFailed <==> result.UpdateError?
    ensures n == BlockedByRls <==> result == UpdateRows([])
    ensures n == NoNotice <==> result.UpdateRows? && result.rows != []
  {
    match result
    case UpdateError => FavoriteUpdateFailed
    case UpdateRows(rows) => if rows == [] then BlockedByRls else NoNotice
  }

  /**
    A favourite update only ever changes the `favorite` field: the list keeps
    its length and order, each row keeps all its other fields, and a row
    whose id is neither the requested one nor the returned one is untouched.
    On a failure or block the rows with the id read `!val`; on success with
    the requested id echoed back they read the server's value.
   */
  lemma FavoriteSettledSpec(bs: seq<Bookmark>, id: int, val: bool, result: UpdateResult)
    ensures |FavoriteSettled(bs, id, val, result)| == |bs|
    ensures forall i :: 0 <= i < |bs| ==>
              FavoriteSettled(bs, id, val, result)[i]
              == bs[i].(favorite := FavoriteSettled(bs, id, val, result)[i].favorite)
    ensures forall i :: 0 <= i < |bs| && bs[i].id != id && !ReturnedId(result, bs[i].id) ==>
              FavoriteSettled(bs, id, val, result)[i] == bs[i]
    ensures (result.UpdateError? || result.rows == []) ==>
              forall i :: 0 <= i < |bs| && bs[i].id == id ==> !FavoriteSettled(bs, id, val, result)[i].favorite == val
    ensures result.UpdateRows? && result.rows != [] && result.rows[0].id == id ==>
              forall i :: 0 <= i < |bs| && bs[i].id == id ==>
                FavoriteSettled(bs, id, val, result)[i].favorite == result.rows[0].favorite
  {
    if result.UpdateRows? && result.rows != [] {
      var row := result.rows[0];
      assert FavoriteSettled(bs, id, val, result)
          == SetFavoriteById(SetFavoriteById(bs, id, val), row.id, row.favorite);
      SetFavoriteThenApply(bs, id, val, row.id, row.favorite);
    } else {
      assert FavoriteSettled(bs, id, val, result) == SetFavoriteById(bs, id, !val);
    }
  }

  /** The success case of `FavoriteSettledSpec`: the optimistic flag, then the returned row's flag. */
  lemma SetFavoriteThenApply(bs: seq<Bookmark>, id: int, val: bool, id2: int, val2: bool)
    ensures |SetFavoriteById(SetFavoriteById(bs, id, val), id2, val2)| == |bs|
    ensures forall i :: 0 <= i < |bs| ==>
              SetFavoriteById(SetFavoriteById(bs, id, val), id2, val2)[i]
              == bs[i].(favorite := SetFavoriteById(SetFavoriteById(bs, id, val), id2, val2)[i].favorite)
    ensures forall i :: 0 <= i < |bs| && bs[i].id != id && bs[i].id != id2 ==>
              SetFavoriteById(SetFavoriteById(bs, id, val), id2, val2)[i] == bs[i]
    ensures forall i :: 0 <= i < |bs| && bs[i].id == id2 ==>
              SetFavoriteById(SetFavoriteById(bs, id, val), id2, val2)[i].favorite == val2
  {
    var o := SetFavoriteById(bs, id, val);
    var r := SetFavoriteById(o, id2, val2);
    forall i | 0 <= i < |bs|
      ensures r[i] == bs[i].(favorite := r[i].favorite)
    {
      assert o[i] == bs[i].(favorite := o[i].favorite);
    }
  }

  /** Setting the favourite flag keeps ids unique. */
  lemma SetFavoriteKeepsUniqueIds(bs: seq<Bookmark>, id: int, val: bool)
    requires UniqueIds(bs)
    ensures UniqueIds(SetFavoriteById(bs, id, val))
  {
  }

  /** A settled favourite update keeps ids unique. */
  lemma FavoriteSettledKeepsUniqueIds(bs: seq<Bookmark>, id: int, val: bool, result: UpdateResult)
    requires UniqueIds(bs)
    ensures UniqueIds(FavoriteSettled(bs, id, val, result))
  {
    SetFavoriteKeepsUniqueIds(bs, id, !val);
    if result.UpdateRows? && result.rows != [] {
      SetFavoriteKeepsUniqueIds(bs, id, val);
      SetFavoriteKeepsUniqueIds(SetFavoriteById(bs, id, val), result.rows[0].id, result.rows[0].favorite);
    }
  }

  /** A user is signed in and has a non-empty id. */
  predicate SignedInAs(user: Option<string>) {
    user.Some? && user.value != []
  }

  /** The add form's three inputs, as typed. */
  datatype Form = Form(title: string, url: string, tag: string)

  /** The form as the page mounts and as a successful add leaves it: empty, tag "General". */
  const EmptyForm: Form := Form("", "", DefaultTag)

  /** The guard of `addBookmark`: a title and a URL that are not blank, a user, and no add in flight. */
  predicate CanAdd(form: Form, user: Option<string>, saving: bool)
    ensures CanAdd(form, user, saving)
        <==> !AllSpace(form.title) && !AllSpace(form.url) && user.Some? && user.value != [] && !saving
  {
    Trim(form.title) != [] && Trim(form.url) != [] && SignedInAs(user) && !saving
  }

  /** The tag the form submits, `tag?.trim() ? tag.trim() : 'General'`: never blank. */
  function FormTag(tag: string): (r: string)
    ensures Trim(r) != []
    ensures r == DefaultTag || (r == Trim(tag) && !AllSpace(tag))
    ensures AllSpace(tag) ==> r == DefaultTag
    ensures !AllSpace(tag) ==> r == Trim(tag)
  {
    var t := Trim(tag);
    if t != [] then
      TrimIdempotent(tag);
      t
    else
      DefaultTagNotBlank();
      DefaultTag
  }

  /**
    The insert payload the form builds: title trimmed, URL normalised, the
    form tag; not a favourite, not pinned, read, not archived. For a form
    that passes the guard, the title is not blank, the URL carries a scheme
    and the tag is not blank.
   */
  function DraftOf(form: Form, user: string): (d: Draft)
    ensures Trim(form.title) != [] ==> d.title != [] && !IsSpace(d.title[0])
    ensures Trim(form.url) != [] ==> HasScheme(d.url)
    ensures Trim(d.tag) != []
    ensures d.title == Trim(form.title) && d.url == NormalizeUrl(form.url) && d.tag == FormTag(form.tag)
    ensures d.userId == user
    ensures !d.favorite && !d.pinned && d.isRead && !d.archived
  {
    Draft(Trim(form.title), NormalizeUrl(form.url), FormTag(form.tag), user, false, false, true, false)
  }

  /** The page's state (the component's `useState` hooks and the `clickTimers` ref). */
  class Dashboard {
    var userId: Option<string>
    var bookmarks: seq<Bookmark>
    var saving: bool
    var form: Form
    var selectedTag: string
    var viewFilter: ViewFilter
    var search: string
    /** Pending star-click timers by bookmark id; `false` is a cleared (`null`) entry. */
    var clickTimers: map<int, bool>
    /** The backend calls made so far, in order. */
    ghost var sent: seq<Request>

    /** The page as it mounts, with the signed-in user (or none) already known. */
    constructor (user: Option<string>)
      ensures userId == user && bookmarks == [] && !saving
      ensures form == EmptyForm
      ensures selectedTag == AllTag && viewFilter == All && search == ""
      ensures clickTimers == map[] && sent == []
    {
      userId := user;
      bookmarks := [];
      saving := false;
      form := EmptyForm;
      selectedTag, viewFilter, search := AllTag, All, "";
      clickTimers := map[];
      sent := [];
    }

    /** `user?.id` is set. */
    predicate SignedIn()
      reads this
    {
      SignedInAs(userId)
    }

    /**
      The cards on screen, `filteredBookmarks` of the page's state: the list
      with some rows deleted, each shown row passing the selected tag and the
      search box.
     */
    function Shown(now: int): (r: seq<Bookmark>)
      reads this
      ensures Subseq(r, bookmarks)
      ensures forall b :: b in r ==>
                b in bookmarks && TagMatches(b, selectedTag) && SearchMatches(b, SearchKey(search))
      ensures viewFilter == Favorites ==> forall b :: b in r ==> b.favorite
    {
      FilteredBookmarksSound(bookmarks, selectedTag, viewFilter, search, now);
      FilteredBookmarks(bookmarks, selectedTag, viewFilter, search, now)
    }

    predicate TimerPending(id: int)
      reads this
    {
      id in clickTimers && clickTimers[id]
    }

    /** After a successful add: the form is cleared (tag back to "General") and the "Recent" tab is selected. */
    method ResetForm()
      modifies this`form, this`viewFilter
      ensures form == EmptyForm && viewFilter == Recent
    {
      form := EmptyForm;
      viewFilter := Recent;
    }

    /**
      `addBookmark`. When the guard fails nothing changes. Otherwise a
      provisional row with id `tempId` and timestamp `now` is put in front
      (`provisional`), the insert is sent, and then the provisional row is
      replaced in place by the stored row (and the form is cleared and the
      "Recent" tab selected) or removed; `saving` is false again either way.
     */
    method AddBookmark(tempId: int, now: int, result: InsertResult)
      returns (notice: Notice, ghost payload: Option<Draft>, ghost provisional: seq<Bookmark>)
      modifies this`bookmarks, this`saving, this`sent
      modifies this`form, this`viewFilter
      ensures !CanAdd(old(form), old(userId), old(saving)) ==>
                && bookmarks == old(bookmarks) && saving == old(saving) && sent == old(sent)
                && form == old(form)
                && viewFilter == old(viewFilter) && notice == NoNotice && payload == None
      ensures CanAdd(old(form), old(userId), old(saving)) ==>
                && payload == Some(DraftOf(old(form), old(userId).value))
                && provisional == [Provisional(payload.value, tempId, now)] + old(bookmarks)
                && sent == old(sent) + [InsertRequest(payload.value)]
                && bookmarks == AddSettled(old(bookmarks), Provisional(payload.value, tempId, now), result)
                && !saving
      ensures CanAdd(old(form), old(userId), old(saving)) && result.InsertRow? ==>
                && form == EmptyForm && viewFilter == Recent
                && notice == BookmarkAdded
      ensures CanAdd(old(form), old(userId), old(saving)) && !result.InsertRow? ==>
                && form == old(form)
                && viewFilter == old(viewFilter) && notice == SaveFailed
      ensures CanAdd(old(form), old(userId), old(saving)) && IdFresh(old(bookmarks), tempId) ==>
                bookmarks == if result.InsertRow? then [result.row] + old(bookmarks) else old(bookmarks)
      ensures UniqueIds(old(bookmarks)) && IdFresh(old(bookmarks), tempId)
              && (result.InsertRow? ==> IdFresh(old(bookmarks), result.row.id)) ==>
                UniqueIds(bookmarks)
    {
      provisional := bookmarks;
      payload := None;
      if !CanAdd(form, userId, saving) {
        notice := NoNotice;
        return;
      }
      ghost var before := bookmarks;
      var draft := DraftOf(form, userId.value);
      notice, provisional := Submit(draft, tempId, now, result);
      payload := Some(draft);
      if IdFresh(before, tempId) {
        AddSettledFresh(before, Provisional(draft, tempId, now), result);
        if UniqueIds(before) && (result.InsertRow? ==> IdFresh(before, result.row.id)) {
          AddSettledKeepsUniqueIds(before, Provisional(draft, tempId, now), result);
        }
      }
    }

    /** `addBookmark` past its guard, with the payload already built from the form. */
    method Submit(draft: Draft, tempId: int, now: int, result: InsertResult)
      returns (notice: Notice, ghost provisional: seq<Bookmark>)
      modifies this`bookmarks, this`saving, this`sent
      modifies this`form, this`viewFilter
      ensures provisional == [Provisional(draft, tempId, now)] + old(bookmarks)
      ensures sent == old(sent) + [InsertRequest(draft)]
      ensures bookmarks == AddSettled(old(bookmarks), Provisional(draft, tempId, now), result)
      ensures !saving
      ensures result.InsertRow? ==> form == EmptyForm && viewFilter == Recent && notice == BookmarkAdded
      ensures !result.InsertRow? ==>
                form == old(form) && viewFilter == old(viewFilter) && notice == SaveFailed
    {
      ghost var before := bookmarks;
      BeginAdd(draft, tempId, now);
      provisional := bookmarks;
      notice := SettleAdd(tempId, result, Provisional(draft, tempId, now), before);
    }

    /** The provisional row goes in front, `saving` is set and the insert is sent. */
    method BeginAdd(draft: Draft, tempId: int, now: int)
      modifies this`bookmarks, this`saving, this`sent
      ensures saving
      ensures bookmarks == [Provisional(draft, tempId, now)] + old(bookmarks)
      ensures sent == old(sent) + [InsertRequest(draft)]
    {
      saving := true;
      bookmarks := [Provisional(draft, tempId, now)] + bookmarks;
      sent := sent + [InsertRequest(draft)];
    }

    /**
      The insert's answer arrives: the provisional row is replaced by the
      stored row and the form reset, or the provisional row is removed;
      `saving` is cleared either way.
     */
    method SettleAdd(tempId: int, result: InsertResult, ghost t: Bookmark, ghost bs: seq<Bookmark>)
      returns (notice: Notice)
      requires t.id == tempId && bookmarks == [t] + bs
      modifies this`bookmarks, this`saving, this`form, this`viewFilter
      ensures !saving
      ensures bookmarks == AddSettled(bs, t, result)
      ensures result.InsertRow? ==> form == EmptyForm && viewFilter == Recent && notice == BookmarkAdded
      ensures !result.InsertRow? ==>
                form == old(form) && viewFilter == old(viewFilter) && notice == SaveFailed
    {
      match result {
        case InsertRow(row) =>
          bookmarks := ReplaceById(bookmarks, tempId, row);
          ResetForm();
          notice := BookmarkAdded;
        case _ =>
          bookmarks := RemoveById(bookmarks, tempId);
          notice := SaveFailed;
      }
      saving := false;
    }

    /**
      `deleteBookmark`. Without a user nothing changes. Otherwise every row
      with the id is removed at once (`optimistic`), the delete is sent, and
      on an error the list as it was before the call is put back.
     */
    method DeleteBookmark(id: int, result: DeleteResult)
      returns (notice: Notice, ghost optimistic: seq<Bookmark>)
      modifies this`bookmarks, this`sent
      ensures !old(SignedIn()) ==>
                bookmarks == old(bookmarks) && sent == old(sent) && notice == NoNotice
      ensures old(SignedIn()) ==>
                && optimistic == RemoveById(old(bookmarks), id)
                && sent == old(sent) + [DeleteRequest(id, userId.value)]
      ensures old(SignedIn()) && result.DeleteError? ==>
                bookmarks == old(bookmarks) && notice == DeleteFailed
      ensures old(SignedIn()) && result.DeleteOk? ==>
                bookmarks == optimistic && notice == Deleted
      ensures old(UniqueIds(bookmarks)) ==> UniqueIds(bookmarks)
    {
      optimistic := bookmarks;
      if !SignedIn() {
        notice := NoNotice;
        return;
      }
      var snapshot := bookmarks;
      bookmarks := RemoveById(bookmarks, id);
      optimistic := bookmarks;
      sent := sent + [DeleteRequest(id, userId.value)];
      if result.DeleteError? {
        bookmarks := snapshot;
        notice := DeleteFailed;
      } else {
        notice := Deleted;
        if UniqueIds(snapshot) {
          RemoveKeepsUniqueIds(snapshot, id);
        }
      }
    }

    /**
      `setFavorite`. Without a user nothing changes. Otherwise the rows with
      the id get `favorite == val` at once (`optimistic`), the update is sent,
      and the list settles as `FavoriteSettled` says.
     */
    method SetFavorite(id: int, val: bool, result: UpdateResult)
      returns (notice: Notice, ghost optimistic: seq<Bookmark>)
      modifies this`bookmarks, this`sent
      ensures !old(SignedIn()) ==>
                bookmarks == old(bookmarks) && sent == old(sent) && notice == NoNotice
      ensures old(SignedIn()) ==>
                && optimistic == SetFavoriteById(old(bookmarks), id, val)
                && sent == old(sent) + [FavoriteRequest(id, userId.value, val)]
                && bookmarks == FavoriteSettled(old(bookmarks), id, val, result)
                && notice == FavoriteNotice(result)
      ensures old(UniqueIds(bookmarks)) ==> UniqueIds(bookmarks)
    {
      optimistic := bookmarks;
      if !SignedIn() {
        notice := NoNotice;
        return;
      }
      ghost var before := bookmarks;
      bookmarks := SetFavoriteById(bookmarks, id, val);
      optimistic := bookmarks;
      sent := sent + [FavoriteRequest(id, userId.value, val)];
      notice := SettleFavorite(id, val, result, before);
      if UniqueIds(before) {
        FavoriteSettledKeepsUniqueIds(before, id, val, result);
      }
    }

    /**
      The update's answer arrives: on an error or an empty answer the flag is
      set back to `!val`, otherwise the returned row's flag is applied.
     */
    method SettleFavorite(id: int, val: bool, result: UpdateResult, ghost bs: seq<Bookmark>)
      returns (notice: Notice)
      requires bookmarks == SetFavoriteById(bs, id, val)
      modifies this`bookmarks
      ensures bookmarks == FavoriteSettled(bs, id, val, result)
      ensures notice == FavoriteNotice(result)
    {
      match result {
        case UpdateError =>
          bookmarks := SetFavoriteById(bookmarks, id, !val);
          notice := FavoriteUpdateFailed;
          SetFavoriteTwice(bs, id, val, !val);
        case UpdateRows(rows) =>
          if rows == [] {
            bookmarks := SetFavoriteById(bookmarks, id, !val);
            notice := BlockedByRls;
            SetFavoriteTwice(bs, id, val, !val);
          } else {
            bookmarks := SetFavoriteById(bookmarks, rows[0].id, rows[0].favorite);
            notice := NoNotice;
          }
      }
    }

    /** `onStarClick`: any pending timer for the id is cleared and a new one is pending. */
    method StarClick(id: int)
      modifies this`clickTimers
      ensures clickTimers == old(clickTimers)[id := true]
      ensures TimerPending(id)
    {
      clickTimers := clickTimers[id := true];
    }

    /**
      `onStarDoubleClick`: a pending timer for the id is cleared (so it will
      not set the favourite), then the favourite is set to false.
     */
    method StarDoubleClick(id: int, result: UpdateResult)
      returns (notice: Notice, ghost optimistic: seq<Bookmark>)
      modifies this`clickTimers, this`bookmarks, this`sent
      ensures clickTimers == if old(TimerPending(id)) then old(clickTimers)[id := false] else old(clickTimers)
      ensures !TimerPending(id)
      ensures !old(SignedIn()) ==>
                bookmarks == old(bookmarks) && sent == old(sent) && notice == NoNotice
      ensures old(SignedIn()) ==>
                && optimistic == SetFavoriteById(old(bookmarks), id, false)
                && sent == old(sent) + [FavoriteRequest(id, userId.value, false)]
                && bookmarks == FavoriteSettled(old(bookmarks), id, false, result)
                && notice == FavoriteNotice(result)
    {
      if TimerPending(id) {
        clickTimers := clickTimers[id := false];
      }
      notice, optimistic := SetFavorite(id, false, result);
    }

    /**
      The pending timer for the id fires (230 ms after the last click with no
      double click): the favourite is set to true and the entry is cleared.
      A cleared timer never fires.
     */
    method StarTimerFires(id: int, result: UpdateResult)
      returns (notice: Notice, ghost optimistic: seq<Bookmark>)
      requires TimerPending(id)
      modifies this`clickTimers, this`bookmarks, this`sent
      ensures clickTimers == old(clickTimers)[id := false]
      ensures !old(SignedIn()) ==>
                bookmarks == old(bookmarks) && sent == old(sent) && notice == NoNotice
      ensures old(SignedIn()) ==>
                && optimistic == SetFavoriteById(old(bookmarks), id, true)
                && sent == old(sent) + [FavoriteRequest(id, userId.value, true)]
                && bookmarks == FavoriteSettled(old(bookmarks), id, true, result)
                && notice == FavoriteNotice(result)
    {
      notice, optimistic := SetFavorite(id, true, result);
      clickTimers := clickTimers[id := false];
    }

    /**
      A double click as the browser delivers it (click, click, dblclick)
      before the timer fires: no request sets the favourite to true, exactly
      one sets it to false, and no timer is left pending for the id.
     */
    method DoubleClickGesture(id: int, result: UpdateResult)
      returns (notice: Notice)
      modifies this`clickTimers, this`bookmarks, this`sent
      ensures sent == old(sent) + if old(SignedIn()) then [FavoriteRequest(id, userId.value, false)] else []
      ensures old(SignedIn()) ==> bookmarks == FavoriteSettled(old(bookmarks), id, false, result)
      ensures old(SignedIn()) ==> notice == FavoriteNotice(result)
      ensures !old(SignedIn()) ==> bookmarks == old(bookmarks) && notice == NoNotice
      ensures !TimerPending(id)
      ensures clickTimers == old(clickTimers)[id := false]
    {
      StarClick(id);
      StarClick(id);
      ghost var optimistic;
      notice, optimistic := StarDoubleClick(id, result);
    }

    /**
      A single click whose timer then fires: exactly one request, setting the
      favourite to true, and no timer left pending for the id.
     */
    method SingleClickGesture(id: int, result: UpdateResult)
      returns (notice: Notice)
      modifies this`clickTimers, this`bookmarks, this`sent
      ensures sent == old(sent) + if old(SignedIn()) then [FavoriteRequest(id, userId.value, true)] else []
      ensures old(SignedIn()) ==> bookmarks == FavoriteSettled(old(bookmarks), id, true, result)
      ensures old(SignedIn()) ==> notice == FavoriteNotice(result)
      ensures !old(SignedIn()) ==> bookmarks == old(bookmarks) && notice == NoNotice
      ensures !TimerPending(id)
      ensures clickTimers == old(clickTimers)[id := false]
    {
      StarClick(id);
      ghost var optimistic;
      notice, optimistic := StarTimerFires(id, result);
    }
  }
}
