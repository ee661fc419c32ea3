# Bookmark dashboard: a verified model of the page's list logic

The bookmark dashboard (`app/page.tsx`) is one client component. It holds
the signed-in user's bookmarks in memory and does four things with them:

- It normalises URLs typed into the add form.
- It derives two views from the list: the tag inventory ("Collections") and
  the list of cards shown. The shown list comes from a tag filter, then a
  view tab (All / Recent / Favorites), then a case-folded text search.
- It changes the list optimistically. Adding inserts a provisional row and
  later replaces or removes it. Deleting removes the row at once and puts
  the old list back on error. Setting the favourite flag patches the row at
  once, then rolls it back or takes the server's value.
- It tells a single click on a star from a double click. Each bookmark id
  has a timer that a click starts and a double click cancels.

The model has six modules:

- `Wrappers` holds `Option`.
- `Text` holds the string built-ins the page relies on: `trim` over the
  ECMAScript whitespace set, `startsWith`, an ASCII `toLowerCase` and
  `includes`.
- `Seqs` holds `filter`, order-preserving subsequences, and
  `Array.from(new Set(...))` as `Distinct`.
- `Bookmarks` holds the row, the two tag readings and `normalizeUrl`.
- `Views` holds `uniqueTags` and `filteredBookmarks`, as pure functions of
  the list, the filter inputs and an explicit `now`.
- `Dashboard` holds the page state as a class (`bookmarks`, `saving`, the
  add form, the filters and `clickTimers`) and the operations that change it
  as methods.

Backend calls are not made. Each operation takes the backend's answer as a
parameter: an error, no row, or the row. A ghost log `sent` records the
requests the page would have made, and the toast is a returned `Notice`.

In four places the code behaves differently from what the page's controls
suggest. The model follows the code:

- On a failed or blocked favourite update, `setFavorite` writes `!val` into
  the rows. It does not restore a snapshot, so the prior list comes back
  only when the rows already held `!val` (`FavoriteRollbackRestores`).
- A second click within the debounce window does not cancel the timer. It
  replaces it. Only the browser's `dblclick` event cancels the timer and
  sets the favourite to false (`DoubleClickGesture`).
- A stored tag of "General" is grouped with the blank tags. The effective
  tag is "General" when the stored tag is blank, absent or "General"
  (`EffectiveTagIsDefault`).
- The search text uses `b.tag || 'General'` without trimming. A
  whitespace-only tag is grouped as "General" but searched as whitespace
  (`SearchTagDiffers`).

## Model

| member | source | states |
|---|---|---|
| Text.Trim | app/page.tsx:111 | `trim` is empty exactly when the input is all whitespace; otherwise it neither starts nor ends with whitespace, and it is no longer than the input |
| Text.TrimSlice | app/page.tsx:111 | `trim` is a slice of the input, and everything cut off before and after it is whitespace |
| Text.TrimIdempotent | app/page.tsx:111 | trimming twice is trimming once |
| Text.ToLower | app/page.tsx:255 | lower-casing keeps the length, folds every ASCII capital and leaves every other character alone |
| Text.StartsWith | app/page.tsx:113 | `s.startsWith(p)` holds exactly when `s` is `p` followed by the rest of `s` |
| Text.ToLowerAppend | app/page.tsx:257 | lower-casing a concatenation lower-cases each part |
| Text.ToLowerSpaced | app/page.tsx:257 | lower-casing three words joined by spaces lower-cases each word and keeps the spaces |
| Text.Contains | app/page.tsx:257 | a needle that `includes` finds is no longer than the haystack, and the empty needle is found in every haystack |
| Text.ContainsAt | app/page.tsx:257 | `includes` holds whenever the needle occurs at some offset of the haystack |
| Text.ContainsOffset | app/page.tsx:257 | conversely, whenever `includes` holds the needle occurs at some offset of the haystack |
| Seqs.Filter | app/page.tsx:240 | `filter` keeps elements in order (a subsequence), and an element is in the result exactly when it is in the input and passes the test |
| Seqs.FilterCounts | app/page.tsx:240 | `filter` keeps each passing element as many times as it occurs and drops every other element |
| Seqs.Distinct | app/page.tsx:232-233 | `Array.from(new Set(xs))` has no duplicates, and lists a value exactly when `xs` contains it |
| Seqs.DistinctFirstOccurrenceOrder | app/page.tsx:232-233 | the distinct values come in the order of their first occurrence |
| Bookmarks.EffectiveTag | app/page.tsx:232 | the grouping tag is never blank; it is the stored tag or "General", and "General" whenever the stored tag is absent or blank |
| Bookmarks.EffectiveTagIsDefault | app/page.tsx:232 | the grouping tag is "General" exactly when the stored tag is absent, blank or literally "General" |
| Bookmarks.SearchTag | app/page.tsx:257 | the tag in the search text is the stored tag or "General", and never empty |
| Bookmarks.SearchTagDiffers | app/page.tsx:257 | the search tag and the grouping tag differ exactly on tags that are non-empty and all whitespace |
| Bookmarks.NormalizeUrl | app/page.tsx:110-115 | empty exactly for a blank input; a trimmed input with a scheme is kept; any other non-blank input gets `https://` in front; a non-empty result always has a scheme |
| Bookmarks.NormalizeUrlIdempotent | app/page.tsx:110-115 | normalising a normalised URL changes nothing |
| Bookmarks.NormalizeUrlBareHost | app/page.tsx:114 | "example.com" becomes "https://example.com" |
| Bookmarks.NormalizeUrlKeepsHttp | app/page.tsx:113 | "http://x.com" is kept as it is |
| Views.EffectiveTags | app/page.tsx:232 | the grouping tags of the rows, one per row, in order |
| Views.UniqueTags | app/page.tsx:231-234 | the inventory starts with "All" and has at most one entry per row after it |
| Views.UniqueTagsSpec | app/page.tsx:231-234 | "All" first; each later entry is some row's grouping tag; each row's grouping tag is listed exactly once |
| Views.UniqueTagsOrder | app/page.tsx:231-234 | the tags after "All" come in the order in which they first occur in the list |
| Views.UniqueTagsOfTwo | app/page.tsx:231-234 | two rows with different grouping tags give "All" and both tags, in row order |
| Views.UniqueTagsExample | app/page.tsx:231-234 | a "Work" row and an untagged row give "All", "Work", "General" |
| Views.SearchKey | app/page.tsx:255 | the search key is empty exactly when the search box is blank |
| Views.IsRecent | app/page.tsx:246-248 | a row without a timestamp, or with timestamp 0, is never recent; a row stamped at or after `now` always is |
| Views.Haystack | app/page.tsx:257 | the search text is the lower-cased title, a space, the lower-cased URL, a space and the lower-cased search tag, and it holds no ASCII capital |
| Views.TagFiltered | app/page.tsx:237-240 | the tag step keeps rows in order, and a row is kept exactly when its grouping tag is the selection, or always under "All" |
| Views.TagFilteredCounts | app/page.tsx:237-240 | the tag step keeps each matching row as many times as it occurs and drops every other row |
| Views.ViewFiltered | app/page.tsx:245-253 | the view step is a subsequence; "Favorites" keeps exactly the favourites; "All" keeps everything |
| Views.ViewFilteredCounts | app/page.tsx:245-253 | "Favorites", and "Recent" when some row is recent, keep each passing row as many times as it occurs and drop every other row |
| Views.SearchFiltered | app/page.tsx:255-257 | the search step keeps rows in order, and a row is kept exactly when its lower-cased text contains the key, or always for a blank search |
| Views.SearchFilteredCounts | app/page.tsx:255-257 | the search step keeps each matching row as many times as it occurs and drops every other row |
| Views.FilteredBookmarks | app/page.tsx:236-258 | the shown list keeps the bookmarks' order: it is the list with some rows deleted |
| Views.FilteredBookmarksSound | app/page.tsx:236-258 | the shown list is a subsequence of the bookmarks; every shown row passes the tag test and the search test, and under "Favorites" is a favourite |
| Views.FilteredBookmarksExact | app/page.tsx:236-258 | under "All" and "Favorites" a row is shown exactly when it passes every test |
| Views.FilteredBookmarksCounts | app/page.tsx:236-258 | under "All" and "Favorites" each row that passes every test is shown as many times as it occurs in the list, and no other row is shown |
| Views.RecentView | app/page.tsx:245-251 | when some row is recent, a row is kept by "Recent" exactly when it has a non-zero timestamp at most a day old; when no row is recent it keeps the first six rows |
| Views.RecentFallbackExample | app/page.tsx:250 | ten rows with none recent show the first six |
| Dashboard.Provisional | app/page.tsx:132-137 | the provisional row carries the temporary id and the submitted tag, and counts as recent for any non-zero `now` |
| Dashboard.RemoveById | app/page.tsx:143 | removing by id keeps rows in order, and a row is kept exactly when its id differs; no row with the id is left |
| Dashboard.RemoveByIdCounts | app/page.tsx:143 | removing by id keeps each other row as many times as it occurs |
| Dashboard.ReplaceById | app/page.tsx:149 | replacing by id swaps every row with that id for the stored row, in place, and keeps the others |
| Dashboard.SetFavoriteById | app/page.tsx:190 | patching by id sets `favorite` on the rows with that id, keeps their other fields, and leaves the other rows alone |
| Dashboard.RemoveFreshId | app/page.tsx:143 | removing an id no row has changes nothing |
| Dashboard.ProvisionalRemoved | app/page.tsx:143 | removing a prepended provisional row with a fresh id gives back the old list |
| Dashboard.ProvisionalReplaced | app/page.tsx:149 | replacing a prepended provisional row with a fresh id gives the stored row in front of the old list |
| Dashboard.AddSettled | app/page.tsx:138-149 | on success the list grows by one with the stored row in front and every row with another id where it was; on failure a row is left exactly when it was in the old list and its id is not the temporary id, in order |
| Dashboard.AddSettledFresh | app/page.tsx:138-149 | with a fresh temporary id, an add leaves the stored row in front of the old list on success, and the old list on failure |
| Dashboard.AddSettledKeepsUniqueIds | app/page.tsx:138-149 | an add keeps ids unique when the temporary id and the stored id are fresh |
| Dashboard.RemoveKeepsUniqueIds | app/page.tsx:164 | a delete keeps ids unique |
| Dashboard.SetFavoriteTwice | app/page.tsx:200 | patching the favourite flag twice is patching it once, with the second value |
| Dashboard.FavoriteRollbackRestores | app/page.tsx:199-209 | rolling back to `!val` restores the list exactly when every row with the id already held `!val` |
| Dashboard.FavoriteSettled | app/page.tsx:190-212 | a settled favourite update keeps the list's length and every row's id in place |
| Dashboard.FavoriteNotice | app/page.tsx:199-209 | the toast is "update failed" exactly on an error, "blocked" exactly on an empty answer, and none exactly when a row came back |
| Dashboard.FavoriteSettledSpec | app/page.tsx:187-213 | a favourite update changes only `favorite`, and only on rows with the requested or returned id; failures leave `!val`; an echoed row's value is taken |
| Dashboard.SetFavoriteThenApply | app/page.tsx:189-211 | the optimistic patch followed by the returned row's patch changes only `favorite`, leaves rows with neither id alone, and gives the returned id's rows the server's value |
| Dashboard.FavoriteSettledKeepsUniqueIds | app/page.tsx:187-213 | a settled favourite update keeps ids unique, whatever the server answers |
| Dashboard.SetFavoriteKeepsUniqueIds | app/page.tsx:190 | patching the favourite flag keeps ids unique |
| Dashboard.CanAdd | app/page.tsx:118 | the add guard passes exactly when neither title nor URL is blank, a user with a non-empty id is signed in, and no add is in flight |
| Dashboard.FormTag | app/page.tsx:124 | the submitted tag is never blank: it is exactly the trimmed form tag when that is not blank, and "General" when the form tag is blank |
| Dashboard.DraftOf | app/page.tsx:121-130 | the payload is the trimmed title, the normalised URL, the form tag (trimmed, or "General"), the signed-in user's id, not favourite, not pinned, read and not archived; for a form that passes the guard its title is not blank, its URL has a scheme and its tag is not blank |
| Dashboard.Dashboard.constructor | app/page.tsx:22-36 | the page mounts with no bookmarks, an empty form with tag "General", "All" selected, and no timers |
| Dashboard.Dashboard.Shown | app/page.tsx:236-258 | the cards on screen are the page's list with some rows deleted and the order kept; each passes the selected tag and the search box, and under "Favorites" each is a favourite |
| Dashboard.Dashboard.ResetForm | app/page.tsx:151-155 | a successful add clears the form, sets the tag back to "General" and selects "Recent" |
| Dashboard.Dashboard.AddBookmark | app/page.tsx:117-158 | if the guard fails nothing changes; otherwise the provisional row is prepended, the payload is sent, and the list settles, with the stored row in front or the old list back when the temporary id was fresh; `saving` ends false; ids stay unique |
| Dashboard.Dashboard.Submit | app/page.tsx:119-157 | past the guard, the payload is sent once, the provisional row goes in front, and the list settles as `AddSettled` says |
| Dashboard.Dashboard.BeginAdd | app/page.tsx:119-140 | the provisional row goes in front, `saving` is set and the insert is sent |
| Dashboard.Dashboard.SettleAdd | app/page.tsx:142-157 | the provisional row is replaced and the form reset on success, or removed on failure; `saving` is cleared |
| Dashboard.Dashboard.DeleteBookmark | app/page.tsx:160-174 | without a user nothing changes; otherwise the rows with the id are removed and the delete is sent; on error the list from before the call is back; ids stay unique |
| Dashboard.Dashboard.SettleFavorite | app/page.tsx:198-211 | the update's answer turns the optimistic list into the list `FavoriteSettled` describes, with the toast `FavoriteNotice` gives |
| Dashboard.Dashboard.SetFavorite | app/page.tsx:187-213 | without a user nothing changes; otherwise the flag is patched, the update is sent, and the list and toast settle as `FavoriteSettled` and `FavoriteNotice` say; ids stay unique |
| Dashboard.Dashboard.StarClick | app/page.tsx:215-221 | a click replaces any pending timer for the id with a new pending one |
| Dashboard.Dashboard.StarDoubleClick | app/page.tsx:223-229 | a double click clears the pending timer and sets the favourite to false |
| Dashboard.Dashboard.StarTimerFires | app/page.tsx:217-220 | a pending timer that fires sets the favourite to true and clears its entry |
| Dashboard.Dashboard.DoubleClickGesture | app/page.tsx:215-229 | click, click, double click sends exactly one request, setting the favourite to false; the list and the toast settle as that update's answer says; without a user nothing is sent, the list is unchanged and there is no toast; no timer is left pending |
| Dashboard.Dashboard.SingleClickGesture | app/page.tsx:215-221 | a click whose timer fires sends exactly one request, setting the favourite to true; the list and the toast settle as that update's answer says; without a user nothing is sent, the list is unchanged and there is no toast; no timer is left pending |

## Left out

- The backend calls (`insert`, `update`, `delete`, `select`) are not made, because they are network calls. Their answers are parameters, and the ghost `sent` log records the requests.
- `getUser`, `fetchBookmarks`, login, logout, the OAuth redirect and `window.location` (app/page.tsx:45-108) are left out. They are authentication and navigation plumbing; the signed-in user is given to the constructor.
- `safeDomain` (app/page.tsx:176-183) is left out, because it depends on the browser's `URL` parser.
- Real time is not modelled: no `setTimeout` or `clearTimeout`, and no 230 ms or 1700 ms delays. A timer is a `true` entry in `clickTimers`, and its firing is the explicit event `StarTimerFires`. The toast is the returned `Notice`.
- Dashboard.Dashboard.StarTimerFires: requires a pending timer, because a cleared timer never runs.
- Overlapping operations are not modelled: each operation runs to completion before the next one starts. This concurrency leaves out three things:
  - the window in which `saving` is true while the insert is in flight;
  - a stale `snapshot` in `deleteBookmark` undoing another operation's changes;
  - the favourite update answering after the timer entry was cleared.
- Dashboard.Dashboard.AddBookmark: freshness of the temporary id `Date.now() * -1` is a hypothesis of its last two postconditions, not a fact. The id is a parameter, and the clock is left out.
- Timestamps are integers in milliseconds. ISO date parsing is left out; a row whose `created_at` is missing or unparsable has `createdAt == None`.
- Text.ToLower: folds ASCII letters only, not full Unicode `toLowerCase`.
- Text.Trim: treats strings as sequences of code points, not UTF-16 code units.
- A missing optional flag (`favorite?`, `pinned?`, `is_read?`, `archived?`) reads as `false`. The model stores it as a plain boolean.
- The modal, `showFilters`, dark mode, the keyboard shortcuts, all JSX and CSS, and app/layout.tsx are left out, because they are presentation.
- The plain setters (`setSearch`, `setSelectedTag`, `setViewFilter`, the form inputs) are left out, because they only assign a field.
