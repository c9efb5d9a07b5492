# PREHSG Contest Hub — a Dafny model

PREHSG Contest Hub publishes past "PREHSG" programming contests. Each contest has a class level (9–12), a year, a pre number, a contest URL and a solution URL. The system has two halves.

- A FastAPI backend keeps the contests in one SQL table. It serves them with read routes and with create, update and delete routes that need an admin bearer token. A small password login issues those tokens.
- A React frontend has a public home page and an admin panel.
  - The home page lets a visitor pick a class and a year. It groups the class's contests by year in a sidebar and shows the chosen contests as cards.
  - The admin panel edits the table through a form.

This project models the logic of both halves:

- `models.dfy` (module `Models`): the contest record and its field bounds, as enforced. `pre_number` is limited to 1..3, although the field's description says 1–5.
- `auth.dfy` (module `Auth`): the token store.
  - `login` checks the password and adds a token. The token's random value is a parameter.
  - `verify_token` parses a `Bearer <token>` header.
  - `logout` discards a token.
- `contests.dfy` (module `ContestsRouter`): a class holding the table as a map from id to record, with one method per route. Each query's result is a sorted permutation of the rows that match.
  - Every response is checked against `ContestRead`, which keeps the field bounds. A stored row that breaks a bound (possible for rows written without validation) makes a read answer 500. In a table whose rows all keep the bounds, the reads always succeed.
  - 401 comes from the token dependency first, then 422 from body validation, then 404 for a missing id.
  - 400 for a class outside 9..12.
  - `update` applies a `setattr` loop.
- `listing.dfy` (module `Listing`): the shared machinery.
  - Filtering is a datatype of criteria.
  - The sort orders are a total preorder each.
  - A stable insertion sort. It is proved to return a sorted permutation for every order, and proved stable for the pre-number order the home page sorts by.
  - A set of years listed strictly descending.
- `numbers.dfy` (module `Numbers`):
  - decimal text for integers, as JavaScript's `String(n)` writes it;
  - JavaScript's `parseInt`, which reads the longest numeric prefix and gives NaN when there is none;
  - Python's `int(s)` in base 10, which FastAPI applies to an integer path segment: surrounding whitespace, an optional `+` or `-`, and digits that single underscores may separate.
- `homepage.dfy` (module `HomePage`): the page's state as a class. It covers the derived lists, the `contestsByYear` reduce loop, the default-year effect, the in-place card sort and the page's texts.
- `adminpanel.dfy` (module `AdminPanel`): the form state machine as a class. It covers the required-field check, the `parseInt` payload, PUT against POST, and the edit, delete, reset and dialog handlers.
- `api.dfy` (module `ApiClient`):
  - the request interceptor, which writes `Authorization: Bearer <token>` into the request config in place;
  - the pass-through response interceptor.

The cross-file round trips are proved:

- The client's header is read back by `verify_token` as exactly the stored token.
- A record put into the admin form and submitted unchanged reaches the server as the same record, at its own id.
- Card titles and count labels read back as the numbers they were built from.

Asynchrony is modelled as parameters. Each network answer, the confirmation prompt and `localStorage` become an input of the handler that awaits it. Each handler that talks to the server returns the requests it issues, in order.

## Model

| member | source | states |
|---|---|---|
| `Models.Violations` | backend/models.py:11-15 | the fields reported are exactly the ones outside their bounds (class 9..12, year 2000..2100, pre 1..3), in declaration order and so each once; none are reported exactly when the record is valid |
| `Models.ValidateBody` | backend/models.py:9-15 | a create or update body is accepted unchanged exactly when every bound holds, and refused with 422 otherwise; the URLs are unconstrained |
| `Models.WithId` | backend/models.py:31-33 | a response record carries the given id and exactly the row's five fields |
| `Models.ToRead` | backend/models.py:17-33 | a table row serialises as `ContestRead` exactly when it has an id and its fields keep the bounds `ContestRead` inherits; it then keeps its id and fields, and otherwise the answer is 500 |
| `Models.ToReadList` | backend/routers/contests.py:16 | a list response serialises exactly when every record keeps the bounds, and then unchanged; otherwise the answer is 500 |
| `Numbers.NatToString` | frontend/src/components/AdminPanel.tsx:100-102 | `String(n)` of a natural is a non-empty run of digits with no leading zero |
| `Numbers.IntToString` | frontend/src/components/AdminPanel.tsx:100-102 | `String(n)` is digits, with a leading `-` exactly for negatives |
| `Numbers.ParseInt` | frontend/src/components/AdminPanel.tsx:74-76 | `parseInt` gives NaN exactly when no digit follows the optional sign |
| `Numbers.ParseIntAfterToString` | frontend/src/components/AdminPanel.tsx:74-76 | `parseInt` reads back `String(n)` as `n`, whatever non-digit text follows |
| `Numbers.ParseStrict` | backend/routers/contests.py:54-56 | a path segment converts to `int` exactly when, once stripped of surrounding whitespace and an optional sign, it is digits with single underscores only between digits |
| `Numbers.ParseStrictAfterToString` | backend/routers/contests.py:54-56 | the server's path conversion reads back `${id}` as `id` |
| `Numbers.ParseStrictPadded` | backend/routers/contests.py:54-56 | surrounding whitespace does not change the number read |
| `Numbers.ParseStrictPlus` | backend/routers/contests.py:54-56 | a leading `+` does not change the number read |
| `Numbers.ParseStrictNeedsDigit` | backend/routers/contests.py:54-56 | text without a digit is refused |
| `Numbers.ParseStrictUnderscore` | backend/routers/contests.py:54-56 | an underscore between two runs of digits is skipped |
| `Numbers.IntToStringInjective` | frontend/src/pages/HomePage.tsx:110 | different numbers print differently |
| `Listing.FilterMembers` | frontend/src/pages/HomePage.tsx:55-57 | a filter keeps exactly the elements that satisfy the criterion |
| `Listing.FilterCounts` | frontend/src/pages/HomePage.tsx:55-57 | a filter keeps every satisfying element as often as it occurs, and no other |
| `Listing.FilterIsSubsequence` | frontend/src/pages/HomePage.tsx:55-57 | a filter keeps input order |
| `Listing.FilterTwice` | frontend/src/pages/HomePage.tsx:60 | filtering by class and then by year is filtering by both at once |
| `Listing.Insert` | backend/routers/contests.py:22-23 | inserting into a sorted list keeps it sorted and adds exactly that element |
| `Listing.SortStable` | frontend/src/pages/HomePage.tsx:105-106 | the sort returns a sorted permutation of its input |
| `Listing.SortStableKeepsPreGroups` | frontend/src/pages/HomePage.tsx:105-106 | sorting by `pre_number` keeps contests with equal pre numbers in input order |
| `Listing.Max` | frontend/src/pages/HomePage.tsx:35-37 | the largest year of a non-empty set is in it and bounds it |
| `Listing.Descending` | frontend/src/pages/HomePage.tsx:35 | the distinct years, strictly descending, each year of the set exactly once, the largest first |
| `Listing.YearsOf` | frontend/src/pages/HomePage.tsx:35 | `new Set(contests.map(c => c.year))`: every contest's year, and only those |
| `Auth.SplitOnce` | backend/routers/auth.py:35 | `split(" ", 1)` gives the text before the first space and, when there is one, the text after it |
| `Auth.BearerToken` | backend/routers/auth.py:33-35 | a header yields a token exactly when it starts with `Bearer `, and then the header is `Bearer ` followed by the token |
| `Auth.Verify` | backend/routers/auth.py:31-38 | `verify_token` succeeds exactly for a `Bearer ` header whose token is held, and returns that token; otherwise 401, with the "missing header" detail exactly when the header is malformed |
| `Auth.VerifyBearerHeader` | backend/routers/auth.py:35-38 | for `Bearer t`, `verify_token` returns `t` if it is held and refuses it with "Invalid or expired token" otherwise |
| `Auth.DiscardRevokes` | backend/routers/auth.py:46-47 | after discarding `t`, a header carrying `t` is refused and every other token verifies as before |
| `Auth.TokenStore.constructor` | backend/routers/auth.py:9-12 | the store starts empty; the password is `ADMIN_PASSWORD` from the environment when set, else the built-in default |
| `Auth.TokenStore.Login` | backend/routers/auth.py:15-28 | login succeeds exactly for a non-empty matching password; it adds exactly the returned token, which then verifies; a failure is 401 "Invalid password" and changes nothing |
| `Auth.TokenStore.Logout` | backend/routers/auth.py:41-48 | a malformed header is 401 and changes nothing; otherwise exactly the header's token is removed (absent tokens are no error) and it no longer verifies |
| `ContestsRouter.NextId` | backend/routers/contests.py:48-51 | a new row's id is fresh, above every existing id, and 1 in an empty table |
| `ContestsRouter.Matching` | backend/routers/contests.py:115 | a query selects exactly the stored rows that satisfy its `WHERE` clause, with their ids |
| `ContestsRouter.SetAttr` | backend/routers/contests.py:74 | `setattr` changes the named field to the value and leaves every other field alone |
| `ContestsRouter.UpdateFields` | backend/routers/contests.py:72 | the update's `dict(exclude_unset=True)` assigns every field its value from the request |
| `ContestsRouter.FieldsDetermine` | backend/routers/contests.py:72-74 | two records that agree on every field are equal |
| `ContestsRouter.ApplyAssignments` | backend/routers/contests.py:73-74 | after the `setattr` loop, each field holds its last assigned value, or its old value when never assigned |
| `ContestsRouter.ContestTable.constructor` | backend/models.py:17-21 | the table starts empty |
| `ContestsRouter.ContestTable.Select` | backend/routers/contests.py:22-23 | a query returns each matching row exactly once, sorted by its `ORDER BY` |
| `ContestsRouter.ContestTable.GetAllContests` | backend/routers/contests.py:16-24 | every row, each once, year descending, then pre number ascending; 500 exactly when some row breaks a bound, which a valid table never does |
| `ContestsRouter.ContestTable.GetContest` | backend/routers/contests.py:26-37 | 404 "Contest with id {id} not found" exactly when there is no such row; 500 when the row breaks a bound; otherwise the row with that id |
| `ContestsRouter.ContestTable.GetContestsByClass` | backend/routers/contests.py:101-117 | 400 exactly when the class is outside 9..12; otherwise exactly that class's rows, year descending, then pre number, or 500 when one of them breaks a bound |
| `ContestsRouter.ContestTable.GetContestsByYear` | backend/routers/contests.py:119-129 | exactly that year's rows, class ascending, then pre number, or 500 when one of them breaks a bound |
| `ContestsRouter.ContestTable.CreateContest` | backend/routers/contests.py:39-52 | token, then body validation, each failure leaving the table unchanged; success adds exactly one row, under a fresh id, holding the body |
| `ContestsRouter.ContestTable.UpdateContest` | backend/routers/contests.py:54-79 | token, then validation, then 404 for a missing id, each failure leaving the table unchanged; success replaces that row's fields with the update, keeping its id and every other row |
| `ContestsRouter.ContestTable.DeleteContest` | backend/routers/contests.py:81-99 | token, then 404 for a missing id, each failure leaving the table unchanged; success removes exactly that row |
| `ApiClient.RequestConfig.constructor` | frontend/src/lib/api.ts:7-12 | a request starts with the instance's `Content-Type: application/json` header |
| `ApiClient.BearerHeader` | frontend/src/lib/api.ts:28 | the header is `Bearer ` followed by exactly the token |
| `ApiClient.WithToken` | frontend/src/lib/api.ts:25-32 | with a non-empty `admin_token` item in storage and a headers object, `Authorization` is set to the bearer header and no other header changes; a missing or empty item, a missing headers object or unavailable storage leaves the headers as they were |
| `ApiClient.RequestInterceptor` | frontend/src/lib/api.ts:24-34 | the interceptor updates the given config's headers in place, changes nothing else and returns the same object |
| `ApiClient.InterceptorHeaderVerifies` | frontend/src/lib/api.ts:28 | the header the client writes is read by `verify_token` as exactly the stored token, accepted exactly when the server holds it |
| `ApiClient.ResponseInterceptor` | frontend/src/lib/api.ts:15-21 | a response passes through unchanged and an error is rejected again as it was |
| `HomePage.FilteredContestsSpec` | frontend/src/pages/HomePage.tsx:55-57 | `filteredContests` is exactly the contests of the selected class and, when a year is selected, of that year, each as often as in the input, in input order |
| `HomePage.BucketsPartition` | frontend/src/pages/HomePage.tsx:60-66 | `contestsByYear` partitions the class's contests: each one is in the bucket of its year and in no other, no bucket is empty, and every bucket keeps input order |
| `HomePage.PushKeys` | frontend/src/pages/HomePage.tsx:61-63 | a push adds the contest's year to the accumulator's keys |
| `HomePage.PushBuckets` | frontend/src/pages/HomePage.tsx:61-64 | a push appends the contest to its year's array, created empty on first use, and leaves every other year's array alone |
| `HomePage.GroupByYear` | frontend/src/pages/HomePage.tsx:60-66 | the reduce loop makes one array per year, holding that year's contests in input order |
| `HomePage.GroupedAreBuckets` | frontend/src/pages/HomePage.tsx:60 | grouping the class's contests by year gives the class-and-year selections |
| `HomePage.ContestsByYear` | frontend/src/pages/HomePage.tsx:60-66 | `contestsByYear` equals the buckets stated above |
| `HomePage.SidebarYearsSpec` | frontend/src/pages/HomePage.tsx:75 | the sidebar lists every year of the class's contests exactly once, strictly descending |
| `HomePage.DefaultYear` | frontend/src/pages/HomePage.tsx:32-39 | with contests, a selected class and no (truthy) year, the year becomes the class's newest year; a selected year is never overwritten; with no contests for the class it stays as it was |
| `HomePage.DefaultYearHeadsSidebar` | frontend/src/pages/HomePage.tsx:35-37 | the default year is the sidebar's first entry |
| `HomePage.TitleFields` | frontend/src/pages/HomePage.tsx:110 | a card title's year and class read back from their places in it |
| `HomePage.CardTitleReadsBack` | frontend/src/pages/HomePage.tsx:110 | the title `PREHSG {year} Class {class}` reads back as its year and class, and two titles agree exactly when year and class do |
| `HomePage.CountLabelReadsBack` | frontend/src/pages/HomePage.tsx:102 | the count label reads back as the count |
| `HomePage.CountLabelPlural` | frontend/src/pages/HomePage.tsx:102 | the label ends in "contests found" unless the count is 1 |
| `HomePage.MainContent` | frontend/src/pages/HomePage.tsx:84-96 | the main area shows "Loading" exactly while loading, the year prompt exactly when no year is selected, and "No contests" exactly when nothing matches |
| `HomePage.NoContestsSpec` | frontend/src/pages/HomePage.tsx:92-95 | "No contests" is shown exactly when no contest has the selected class and year |
| `HomePage.CardGridSpec` | frontend/src/pages/HomePage.tsx:97-115 | the cards are every selected contest, each as often as in the list, by ascending pre number, with ties in input order, under the right heading and count |
| `HomePage.SameElements` | frontend/src/pages/HomePage.tsx:105-106 | a permutation has the same elements |
| `HomePage.SortCards` | frontend/src/pages/HomePage.tsx:105-106 | the in-place sort leaves the array as the stable sort of its old contents |
| `HomePage.HomeView.constructor` | frontend/src/pages/HomePage.tsx:21-24 | class 9, no year, no contests, not loading |
| `HomePage.HomeView.ApplyDefaultYear` | frontend/src/pages/HomePage.tsx:32-39 | the effect sets the year as the default-year rule says and changes nothing else |
| `HomePage.HomeView.FetchContests` | frontend/src/pages/HomePage.tsx:42-52 | issues one GET of `/contests`; a successful fetch replaces the contests and runs the effect on them; a failure changes neither; loading ends false |
| `HomePage.HomeView.SelectClass` | frontend/src/pages/HomePage.tsx:70 | choosing a class runs the effect only when the class changed, so a selected year survives a class change |
| `HomePage.HomeView.SelectYear` | frontend/src/pages/HomePage.tsx:77 | choosing a year in the sidebar selects it and changes nothing else |
| `HomePage.HomeView.Sidebar` | frontend/src/pages/HomePage.tsx:73-79 | the sidebar is shown exactly while a truthy class is selected, listing that class's years |
| `AdminPanel.WithField` | frontend/src/components/AdminPanel.tsx:185 | an input's change sets that field and keeps the other four |
| `AdminPanel.BuildPayload` | frontend/src/components/AdminPanel.tsx:73-79 | the URLs are sent as typed and each number is NaN exactly when its text has no leading digits |
| `AdminPanel.ContestPathReadsBack` | frontend/src/components/AdminPanel.tsx:82 | `/contests/${id}` is read back by the server as `id` |
| `AdminPanel.SaveRequest` | frontend/src/components/AdminPanel.tsx:81-85 | PUT to the edited record's path exactly when `editingId` is truthy, otherwise POST to `/contests`, with the payload as body |
| `AdminPanel.DialogTitleMatchesRequest` | frontend/src/components/AdminPanel.tsx:163 | the dialog says "Edit Contest" exactly when a save would be a PUT |
| `AdminPanel.RequestBody` | backend/models.py:11-15 | the server reads a payload as a contest body exactly when no number is null, field for field |
| `AdminPanel.EditSubmitRoundTrip` | frontend/src/components/AdminPanel.tsx:98-108 | editing a record and submitting unchanged passes the required check and sends the record's own numbers and URLs, which the server reads as the record without its id, by PUT to the record's id |
| `AdminPanel.FormOffersRefusedPreNumbers` | frontend/src/components/AdminPanel.tsx:221-225 | pre numbers 4 and 5 pass the form and parse, but the server refuses them with 422 |
| `AdminPanel.AdminPanelState.constructor` | frontend/src/components/AdminPanel.tsx:30-41 | no contests, dialog closed, no edit, not loading, no error, empty form |
| `AdminPanel.AdminPanelState.FetchContests` | frontend/src/components/AdminPanel.tsx:48-59 | issues one GET; success replaces the contests, failure sets "Failed to fetch contests"; loading ends false |
| `AdminPanel.AdminPanelState.ResetForm` | frontend/src/components/AdminPanel.tsx:125-135 | empty form, no edit, no error, nothing else changed |
| `AdminPanel.AdminPanelState.HandleSubmit` | frontend/src/components/AdminPanel.tsx:61-96 | a missing field sets "Please fill in all required fields" and sends nothing; otherwise the save request is sent first; a successful save reloads, resets the form and closes the dialog; a failed one sets "Failed to save contest" and keeps form and edit; loading ends false |
| `AdminPanel.AdminPanelState.HandleEdit` | frontend/src/components/AdminPanel.tsx:98-108 | the form holds the record's values as text, `editingId` is its id and the dialog opens |
| `AdminPanel.AdminPanelState.HandleDelete` | frontend/src/components/AdminPanel.tsx:110-123 | a refused confirmation sends nothing and changes nothing; otherwise a DELETE to the record, then a reload on success or "Failed to delete contest" on failure; loading ends false |
| `AdminPanel.AdminPanelState.HandleOpenChange` | frontend/src/components/AdminPanel.tsx:137-140 | closing the dialog resets the form; opening only opens it |
| `AdminPanel.AdminPanelState.AddContest` | frontend/src/components/AdminPanel.tsx:151-156 | "Add Contest" resets the form and opens the dialog for a new record |
| `AdminPanel.AdminPanelState.ChangeField` | frontend/src/components/AdminPanel.tsx:185 | an input's change updates that form field only |

## Left out

- Only the contests router is mounted in `backend/main.py`, so the `/auth` routes are not reachable in the running app. `auth.py` is modelled as written.
- `backend/database.py`, `backend/main.py` and `backend/init_db.py` are not part of this model. They cover the engine and session, CORS, the health routes and seeding.
- The SQL engine is not modelled. A query is its `WHERE` filter plus its `ORDER BY`. Rows that tie under the `ORDER BY` may come back in any order, so the model does not fix that order.
- `ContestsRouter.NextId`: new ids follow SQLite's rowid rule (one past the largest id). Id reuse after deleting the top row, and the rowid ceiling, are not modelled.
- `ContestUpdate` inherits every field as required. So `dict(exclude_unset=True)` always holds all five fields, and an update always replaces the whole record; only `exclude_unset=True` (backend/routers/contests.py:72) suggests a partial update was meant. The `setattr` loop is still modelled over any list of assignments.
- Body validation is reduced to the field bounds. Type coercion of JSON values (such as `"9"` for 9) and the text of the 422 error body are not modelled. A null number in the body counts as a refused body.
- `Auth.TokenStore.Login`: the password is the body's `password` entry as a string. Non-string JSON values are not modelled. The token is a parameter standing for `secrets.token_urlsafe(32)`; its length and alphabet are not modelled.
- HTTP header names are matched case-insensitively by the server. The model uses the one spelling the client sends.
- `Numbers.ParseInt`: leading whitespace, `0x` prefixes and non-decimal text are not modelled. The form's numeric fields hold decimal digits. JavaScript numbers are doubles, so `parseInt` rounds digit runs above 2^53; the model's integers are exact. No value this system handles comes near that range.
- `Numbers.IntToString`: `String(n)` switches to exponent form from 1e21 on. The model writes every integer in plain digits; ids and bounded fields stay far below that.
- `Numbers.ParseStrict`: only ASCII whitespace and ASCII digits are modelled. Python's `int` also accepts other Unicode whitespace and digits. Any other lax forms of pydantic's integer parsing, such as a zero fraction (`5.0`), are not modelled either. Nor is the limit of 4300 digits that Python's `int` and pydantic place on an integer string: longer numerals are accepted here.
- The browser's `min`/`max` attributes on the year input are not modelled.
- Asynchrony is not modelled: awaiting, interleaved handlers and React's render batching. Each handler runs to completion with the network outcome given as a parameter.
- `console.error` is left out, and so is `window.open` on the card buttons.
- Markup and styling are not modelled. The frontend's other components, `Header.tsx`, `Sidebar.tsx`, `ContestCard.tsx`, `AdminPage.tsx` and `App.tsx`, only map state to markup. Their inputs appear as `HomeView.SelectClass`, `HomeView.SelectYear` and the card titles.
- The axios base URL `/api` and the dev proxy in front of the backend are not modelled. Paths are written relative to the base.
