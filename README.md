# Blog search, admin scripts and route rules, in Dafny

A model of the decision logic of a small Flask blog: the live-search and
"load more" scripts of its pages, the admin panel's editing scripts, and the
guards and store updates of its route handlers.

- `text.dfy` (module `Text`): the string operations the rest relies on:
  ECMAScript `trim` (its whitespace set written out), the submit check shared
  by the search and add-category forms (`TrimsToEmpty`), ASCII lower-casing,
  prefix and substring tests, and a code-point comparison in place of
  `localeCompare`.
- `search.dfy` (module `Search`, static/js/search.js): the
  live-search input as a class `LiveSearch` whose debounce timer is a single
  `pending` slot holding the query its callback captured, with explicit
  events for the timer firing, a response arriving and a click on the page;
  the dropdown rendering (`RenderDropdown`) as a structured view (no-results
  message / entries / "View all N" link) rather than HTML; `truncateText`;
  the results-page card; and the "load more" button as a class
  `LoadMoreButton` (counter, disabled flag, caption, hidden flag, the cards
  above it, and the pages requested so far).
- `admin.dfy` (module `Admin`, static/js/admin.js): the Tab key in the content
  editor (`ContentEditor`), the posts-table filter and the sort-and-reappend
  (`PostsTable`, sorting an array copy of the rows in place with a stable
  insertion sort), the admin-role checkbox
  (`RoleToggle`) and the CSRF token lookup.
- `routes.dfy` (module `Routes`, routes.py): the store as a class `Database`
  holding users, posts and categories with their next free ids, whose
  invariant `Valid()` keeps ids, usernames, e-mail addresses and category
  names unique and every post's author and categories present; the handlers
  `register`, `create_post`, `edit_post`, `delete_post`, `create_category` and
  `delete_category` as methods on it; `login` and `search` as functions.
  `ilike` is modelled as SQLite evaluates it (`lower(x) LIKE lower(p)`, ASCII
  only, no escape character), and `Like` is proved to be a plain
  case-insensitive substring test for queries without `%` or `_`.
- `wrappers.dfy` (module `Wrappers`): `Option`.

Network responses, the clock, the logged-in session and the password hash
functions are parameters: a response is `Received(body)` or `Failed`, `now`
is the current timestamp, `session` is the user id the session holds, and
`checkPassword` / `passwordHash` stand for werkzeug's hashing.

Three behaviours of the code are worth noting:

- After a failed "load more" request the page counter is not rolled back, so
  "Try Again" requests the page after the failed one
  (`Search.RetryRequestsNextPage`), not the same page again.
- The live search has no guard against stale responses: `LiveSearch.Respond`
  renders whatever response arrives, for whichever query it was sent.
- Search responses are read as the scripts read them (`posts`,
  `total_items`); the `/api/search` endpoint itself is not part of routes.py.

## Model

| member | source | states |
|---|---|---|
| Text.Trim | static/js/search.js:22 | the trimmed string is the slice of the input between its leading and trailing whitespace, which is all that is cut off, and starts and ends with non-whitespace |
| Text.TrimEmptyIff | static/js/search.js:10-11 | an input trims to the empty string exactly when every character is whitespace |
| Text.TrimsToEmpty | static/js/search.js:9-15 | the search form's submit handler (and the add-category form's, static/js/admin.js:25-31) cancels the submission exactly when the value is all whitespace |
| Text.TrimIdempotent | static/js/search.js:22 | trimming an already trimmed query changes nothing |
| Text.Lower | static/js/admin.js:138 | lower-casing keeps the length and maps each character on its own |
| Text.Contains | static/js/admin.js:145 | `includes` can only find a needle no longer than the text |
| Text.ContainsIff | static/js/admin.js:145 | `includes` holds exactly when the needle occurs at some position |
| Text.LexCompareAntisymmetric | static/js/admin.js:166 | swapping the arguments of the title/author comparison negates it; it is zero only for equal strings |
| Text.LexCompareTransitive | static/js/admin.js:178 | the title/author comparison is transitive, so the sort's result is ordered |
| Search.Truncate | static/js/search.js:129-133 | missing or empty text gives ""; text within the limit is returned unchanged; longer text gives its first max characters plus "...", max+3 characters in all |
| Search.Excerpt | static/js/search.js:106 | the excerpt is the summary when it is non-empty, else the truncated content |
| Search.EntryFor | static/js/search.js:95-110 | a dropdown entry links to the post, shows a thumbnail exactly when the post has a non-empty image, and carries the 50-character excerpt |
| Search.DropdownView | static/js/search.js:88-123 | missing or empty posts give exactly the no-results message for the query; otherwise one entry per post in response order, and the "View all N" link exactly when total_items exceeds the number of posts |
| Search.RenderDropdown | static/js/search.js:88-123 | the `forEach` over the posts builds exactly that view |
| Search.LiveSearch.constructor | static/js/search.js:17-19 | the live search starts with the page's input value, no pending timer, no request, and the dropdown and loading indicator hidden |
| Search.LiveSearch.Input | static/js/search.js:21-40 | an input event cancels the pending timer first and sends nothing; all-whitespace input clears and hides the dropdown, other input shows the loading indicator and arms the one pending timer with the trimmed text; the invariant keeps every request non-empty and trimmed |
| Search.LiveSearch.TimerFires | static/js/search.js:42-44 | the firing timer sends exactly the query it holds, which is the trimmed current input, and empties the slot |
| Search.LiveSearch.Respond | static/js/search.js:45-71 | a settled request hides the loading indicator and shows the dropdown: for a received body exactly the rendered view of it for the request's query, for a failure the error message |
| Search.LiveSearch.ClickOutside | static/js/search.js:76-83 | a click hides the dropdown only when it is shown and the click is neither on the input nor inside it; the content stays |
| Search.PostCard | static/js/search.js:194-220 | a results-page card shows the image exactly when the post has one (and narrows its text column then), and the summary or the 150-character excerpt |
| Search.LoadMoreButton.constructor | static/js/search.js:139-141 | the counter starts at 1 with the server-rendered cards and no request made |
| Search.LoadMoreButton.Click | static/js/search.js:143-153 | each click adds exactly one to the counter; a request is made exactly when the new value is within the total pages, for that page, with the button disabled; otherwise the button hides |
| Search.LoadMoreButton.Succeed | static/js/search.js:160-180 | cards for the received posts are appended after the existing ones in response order, the button reads "Load More" again and hides once the counter reaches the total |
| Search.LoadMoreButton.Fail | static/js/search.js:181-185 | a failed request re-enables the button as "Try Again" and leaves cards and counter as they were |
| Search.LoadMoreButton.Settle | static/js/search.js:154-185 | a response with posts appends their cards, reads "Load More", hides once the counter reaches the total and sets data-page to the counter; a failure or a body without posts reads "Try Again" and changes neither cards, hidden flag nor data-page |
| Search.RetryRequestsNextPage | static/js/search.js:146-185 | with three pages, page 2 failing makes the next click request page 3 |
| Admin.TabSplice | static/js/admin.js:128 | the new text is the text before the selection, two spaces, and the text after it; its length is the old length minus the selection plus two |
| Admin.TabSpliceUndo | static/js/admin.js:128 | removing the two inserted spaces gives the old text with the selection deleted |
| Admin.ContentEditor.KeyDown | static/js/admin.js:121-131 | Tab splices in two spaces and collapses the caret to start+2; any other key changes neither text nor selection |
| Admin.RowMatches | static/js/admin.js:141-145 | the empty filter keeps every row; a filter longer than both title and author keeps none |
| Admin.RowMatchesIff | static/js/admin.js:141-145 | a row passes the filter exactly when the lower-cased filter occurs in its lower-cased title or author |
| Admin.PostsTable.Filter | static/js/admin.js:137-151 | every row's visibility becomes whether it matches the filter; no row is added, removed or moved |
| Admin.SortKeyOf | static/js/admin.js:163-180 | only "title", "date-asc", "date-desc" and "author" select an order; any other value selects none |
| Admin.Compare | static/js/admin.js:162-181 | titles and authors compare level exactly when equal after lower-casing; date-asc puts a first exactly when it is older and date-desc exactly when it is newer; any other sort value compares every pair as level |
| Admin.DateDescReversesDateAsc | static/js/admin.js:167-174 | newest-first compares like oldest-first with the arguments swapped |
| Admin.CompareTotal | static/js/admin.js:162-181 | when the comparator puts b before a, b may stand before a, so any two rows can be ordered |
| Admin.CompareTransitive | static/js/admin.js:162-181 | the comparator's "may stand before" is transitive |
| Admin.InsertingSwap | static/js/admin.js:162 | swapping the inserted row past a neighbour that must follow it keeps the partial order |
| Admin.InsertingDone | static/js/admin.js:162 | once its neighbour may precede it, the inserted row is in place and the prefix is ordered |
| Admin.InsertAt | static/js/admin.js:162 | one insertion step: with the first i rows ordered, moving row i left past every row that must follow it leaves the first i+1 rows ordered, the same rows, and nothing moved with no sort key |
| Admin.SortRows | static/js/admin.js:162-181 | after the sort the rows are ordered by the comparator and are a permutation of the old rows; with no sort key nothing moves |
| Admin.PostsTable.SortAndReappend | static/js/admin.js:156-191 | after emptying and re-appending, the table body holds exactly the old rows (none lost or duplicated), ordered; with no sort key in the old order |
| Admin.RoleToggle.Change | static/js/admin.js:54-56 | flipping the box requests its new value |
| Admin.RoleToggle.Settle | static/js/admin.js:73-87 | on success the checkbox is left as it is; on a refusal or an error it is set to the negation of the requested value |
| Admin.ToggleOutcome | static/js/admin.js:54-87 | after a flip and its settlement the box shows the requested value on success and its original value otherwise |
| Admin.CsrfToken | static/js/admin.js:113-116 | the token is the meta tag's content, or "" without the tag |
| Routes.Find | routes.py:32 | the first position satisfying the condition, or none when no element does |
| Routes.CurrentUser | models.py:7-9 | the session's user is the stored user with the session's id, and anonymous when there is none |
| Routes.PostIndex | routes.py:143 | the position of the post with the requested id, or none when no post has it |
| Routes.CategoryIndex | routes.py:229 | the position of the category with the requested id, or none exactly when no category has it |
| Routes.MayModify | routes.py:146 | an administrator may edit or delete any post; anyone else only their own |
| Routes.Resolvable | routes.py:126-129 | the resolved category ids are exactly the submitted ids that name a stored category; a single id is kept exactly when its category exists |
| Routes.ResolvableAppend | routes.py:126-129 | resolving a + b gives a's resolved ids followed by b's, so with the single-id case every kept id stays in submitted order |
| Routes.AsWrittenNextPage | routes.py:39-42 | as written, any non-empty `next` starting with '/' is followed, else the index |
| Routes.AsWrittenNextPageLeavesSite | routes.py:40 | as written, `next=//evil.example` is followed although it names another host |
| Routes.TabbedNextPage | routes.py:40 | as written, `next=/%09/evil.example` (arriving as "/\t/evil.example", which URL parsing turns into "//evil.example") is followed; the corrected check sends it to the index |
| Routes.SafeNextPage | routes.py:39-42 | corrected: `next` is followed exactly when it starts with '/', is not "//…" or "/\…", and holds no tab, LF or CR; every path it follows is such a same-site path, else the index |
| Routes.Login | routes.py:24-44 | as written: an authenticated user goes to the index; an unknown username or wrong password returns to the login form; a successful login goes to any `next` starting with '/', else the index |
| Routes.CorrectedLogin | routes.py:24-44 | corrected: the same outcomes, but a successful login follows `next` only when it is a same-site path (starting with '/', not "//…" or "/\…", and without tab, LF or CR), so neither of the known off-site forms gets through |
| Routes.LoginFollowsOffSiteNext | routes.py:38-42 | with correct credentials and `next=//evil.example`, the login as written redirects off-site and the corrected login to the index |
| Routes.Like | routes.py:248 | a pattern without `%` or `_` matches exactly the string equal to it |
| Routes.LikeAnything | routes.py:248 | the pattern `%` matches every string |
| Routes.LikePrefix | routes.py:248 | `q%` matches exactly the strings starting with a wildcard-free q |
| Routes.LikeContains | routes.py:248-249 | `%q%` matches exactly the strings containing a wildcard-free q |
| Routes.IlikeContainsIff | routes.py:248-249 | for a wildcard-free query, `ilike('%q%')` is a case-insensitive substring test |
| Routes.PostMatches | routes.py:246-250 | a post matches a wildcard-free query exactly when its title or content contains it, ignoring case |
| Routes.Matching | routes.py:246-250 | the filtered posts are exactly the stored posts that match, each at most as often as stored |
| Routes.NewestFirstPairwise | routes.py:251 | neighbour-wise newest-first order is order between any two positions |
| Routes.InsertByDate | routes.py:251 | inserting a post into a newest-first list keeps it newest-first and adds exactly that post |
| Routes.SortNewestFirst | routes.py:251 | the ordered results are newest first and a permutation of the matches |
| Routes.Search | routes.py:237-253 | an empty q redirects without results; otherwise exactly the matching posts, each at most as often as stored (so none twice, as stored post ids are unique), newest first |
| Routes.Unlink | routes.py:230 | deleting a category drops it from every post's category list and changes nothing else |
| Routes.UnlinkKeepsStoreValid | routes.py:229-231 | after the category and its links are removed, every post's author and categories still exist |
| Routes.PostsAfterRemove | routes.py:181 | removing one post keeps the remaining post ids unique |
| Routes.CategoriesAfterRemove | routes.py:230 | removing one category keeps the remaining ids and names unique |
| Routes.Database.Register | routes.py:47-79 | an authenticated user is redirected with no change; a taken username, then a taken e-mail, is rejected with no change; otherwise exactly one user is added, an admin exactly when there was no user before; uniqueness is preserved |
| Routes.Database.ResolveCategories | routes.py:125-129 | the append loop collects exactly the resolvable submitted ids, in order |
| Routes.Database.CreatePost | routes.py:101-137 | a missing title or content re-renders the form with no change; otherwise exactly one post by the current user is added, with the resolvable category ids |
| Routes.Edited | models.py:44 | an edited post keeps its id, author and creation time, takes the submitted fields and category ids, and its updated_at becomes now exactly when a column value changed, else stays |
| Routes.Database.EditPost | routes.py:140-169 | an unknown post is a 404; a user who is neither author nor admin gets a 403 with no change; otherwise exactly that post becomes its edited version, with its categories replaced wholesale by the resolvable submitted ids |
| Routes.Database.DeletePost | routes.py:172-184 | an unknown post is a 404; a user who is neither author nor admin gets a 403 with no change; otherwise exactly that post is removed |
| Routes.Database.CreateCategory | routes.py:198-220 | a non-admin gets a 403 with no change; an empty or existing name is rejected with no change; otherwise exactly one category is added, so names stay unique |
| Routes.Database.DeleteCategory | routes.py:223-234 | a non-admin gets a 403 and an unknown category a 404, with no change; otherwise the category and its links from posts are removed |

## Findings

| source | as written | input that shows it | evidently intended | confidence | as-written member | corrected member |
|---|---|---|---|---|---|---|
| routes.py:40-42 | `next` is followed whenever it is non-empty and starts with '/' | `next=//evil.example` (a protocol-relative URL, which browsers resolve to another host), or `next=/%09/evil.example`, whose tab URL parsing drops | only paths on this site are followed; anything else goes to the index | high, not executed | Routes.AsWrittenNextPage, Routes.Login, Routes.LoginFollowsOffSiteNext, Routes.TabbedNextPage | Routes.SafeNextPage, Routes.CorrectedLogin |

## Left out

- Timers: the 300 ms debounce is the `pending` slot and an explicit `TimerFires` event; the alert auto-dismiss timers are not modelled.
- Network: requests are recorded (`LiveSearch.requests`, `LoadMoreButton.requested`) and responses are inputs; transport, status codes and JSON decoding collapse into `Received` or `Failed`.
- Presentation: exact HTML, escaping and URL-encoding of the templates, Bootstrap modals, `confirm`/`alert` dialogs, `showAlert`, `console.error`, and the delete-post / delete-category form wiring in static/js/admin.js:2-48.
- Missing DOM nodes: the model assumes the search input, results container, loading indicator, load-more button and table body exist and that live search is switched on (`data-live-search`).
- Text.Lower: only A–Z are lower-cased. This is exact for SQLite's `lower()`; JavaScript's `toLowerCase` in the admin filter and sort also folds non-ASCII letters, which the model does not.
- Text.LexCompare: `localeCompare` is replaced by code-point order; only its being a total order matters to the sort. `new Date(...)` parsing becomes an integer timestamp per row.
- Search.Truncate: lengths count Unicode code points, while JavaScript counts UTF-16 units, so text with characters outside the Basic Multilingual Plane may be cut at a different place.
- Admin.SortRows: stability among rows that compare equal is stated only for a value that selects no order, not for ties under a real order.
- Admin.PostsTable.SortAndReappend: the table body is assumed to hold exactly the `.post-row` rows, so emptying it and re-appending the sorted rows is all that happens.
- Admin.CsrfToken: a meta tag without a `content` attribute yields `null` in the browser; the model takes a present tag to have content.
- Routes: the `index`, `post`, `admin`, `category`, `logout` and `/api/posts` routes, GET requests that only render forms, flashed messages, `login_user`/`logout_user`, commit/rollback, and the pagination of search results by `paginate` (routes.py:251) are not modelled; `Search` returns all matching posts.
- Routes: form fields are strings; an absent field (Python `None`) is not distinguished from the empty string. In `edit_post` an absent title or content would fail the NOT NULL constraint; empty strings are accepted there, as the code does not check them.
- Routes.Search: the `LIKE` model has no escape character, as SQLite's default; posts with equal creation times may come in any order.
- Routes.Database.CreatePost and EditPost: a category id submitted twice is assumed not to occur (the association table's primary key would reject it).
- Routes.Database: new ids come from counters that never reuse a value, whereas SQLite gives an `INTEGER PRIMARY KEY` row the largest stored id plus one, so after the post (or category) with the largest id is deleted the next one created reuses that id in the application but not in the model.
- Routes.Database: every handler is one atomic step; interleaved requests are not modelled, so the check-then-insert races of the handlers (two concurrent first registrations both seeing no user and both becoming administrators, routes.py:58-74) are not captured.
- Password hashing and checking (models.py:27-31) are werkzeug calls and appear as parameters.
