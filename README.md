# Task manager: sessions, tasks and the refresh-and-retry client, in Dafny

This project models the logic at the centre of a small task manager. The
backend uses Express and Prisma; the frontend uses Next.js. The model has
four parts:

- **Server sessions** (`backend/controllers/auth.ts`, `backend/utils/token.ts`).
  - The state is a user table keyed by email. Each row holds an id, a
    password digest and the refresh token stored for that user, if any.
  - `register` adds a row and `login` mints an access/refresh token pair,
    storing the refresh token. `logout` clears the stored token.
  - `refresh` exchanges the stored, unexpired refresh token for a new
    access token.
  - Tokens are JSON Web Tokens (RFC 7519). Each is represented by its
    claims: the signing secret, `userId`, `iat`, and `exp` (section 4.1.4
    of RFC 7519).
  - `AuthSpec` states each handler as a function from table to (table,
    reply). `AuthController.UserTable` is the class whose methods update
    the table in place. Each method is proved equal to its function, and
    `AuthProperties` relates several calls.
- **Task table** (`backend/controllers/task.ts`).
  - `getTasks` is a pure query in `Tasks`: owner, status and
    case-insensitive title filters, newest first, `skip`/`take` paging, and
    `totalPages` by integer ceiling division.
  - Create, partial update, owner-scoped delete and status toggle are
    functions in `TaskSpec` over a `TaskDb` value.
  - `TaskController.TaskTable` is the class whose methods update the table
    in place; each is proved equal to its `TaskSpec` function.
    `TaskProperties` relates several calls.
- **Client refresh-and-retry-once protocol** (`frontend/app/utils/api.ts`
  and `frontend/utils/api.ts`).
  - `Http.Browser` holds `localStorage`, the current location and the log
    of requests sent. Its `Fetch` asks a server oracle for the reply to the
    n-th request.
  - For each variant, `Protocol` is a pure function giving the requests
    sent, the storage and location left behind, and the reply returned.
    `ApiRequest` is the imperative method, proved to produce exactly that
    exchange.
- **Dashboard** (`frontend/app/dashboard/page.tsx`).
  - `TaskList` holds the list transforms inside the `setTasks` callbacks:
    de-duplicating prepend, replace by id, replace-then-stable-sort
    pending-first, delete by id, and the status/search view filter.
  - `Dashboard.DashboardPage` is the page state. Its handlers call
    `AppApi.ApiRequest` and apply those transforms.
  - The page also has the client logout and the pager.

## Model

| member | source | states |
|---|---|---|
| Tokens.Verify | backend/controllers/auth.ts:132-135 | a token verifies exactly when it is signed with the expected secret and `now < exp`, and it yields its own `userId`; a wrong secret gives a bad-signature error, a past `exp` an expiry error |
| Tokens.GenerateAccessToken | backend/utils/token.ts:2-8 | the token carries the given `userId`, verifies under the access secret for exactly 900 seconds after issue, is expired from then on, and never verifies under the refresh secret |
| Tokens.GenerateRefreshToken | backend/utils/token.ts:10-16 | the token carries the given `userId`, verifies under the refresh secret for exactly 604800 seconds (7 days) after issue, is expired from then on, and never verifies under the access secret |
| Tokens.DistinctMints | backend/utils/token.ts:2-16 | tokens minted for different users or in different seconds differ: two such refresh tokens, and an access token and a refresh token |
| AuthSpec.Hash | backend/controllers/auth.ts:28 | the digest matches an attempt exactly when the attempt is the hashed password |
| AuthSpec.Register | backend/controllers/auth.ts:9-48 | 201 exactly when both fields are non-empty and the email is new; otherwise 400 with the table unchanged, carrying the missing-fields message when a field is empty and the user-exists message when the email is taken; on success exactly one row is added under that email, with a digest that matches only the password, no refresh token and a fresh id that is returned; other rows are unchanged and the table invariant is kept |
| AuthSpec.Login | backend/controllers/auth.ts:52-99 | 400 with the table unchanged for a missing field; 401 "Invalid credentials" with the table unchanged for an unknown email or a wrong password; 200 exactly for a known email with a matching password, returning an access token and a refresh token for that user's id and storing that refresh token on that row only |
| AuthSpec.Logout | backend/controllers/auth.ts:103-119 | 200 exactly when a row has the caller's id, and every such row loses its refresh token while all other rows and the key set stay; otherwise the 500 of a failed Prisma `update`, with the table unchanged |
| AuthSpec.Refresh | backend/controllers/auth.ts:123-155 | 400 exactly for a missing token; 200 exactly for an unexpired token signed with the refresh secret that equals the token stored for its user, with a new access token for that user expiring 900 seconds later; every other case is 403 with a message |
| AuthController.UserTable.constructor | backend/controllers/auth.ts:30-35 | the table starts empty, with ids drawn from 1 |
| AuthController.UserTable.Register | backend/controllers/auth.ts:9-48 | the early-return handler leaves the state and reply that `AuthSpec.Register` gives, and keeps the table invariant |
| AuthController.UserTable.Login | backend/controllers/auth.ts:52-99 | the handler leaves the state and reply that `AuthSpec.Login` gives, and keeps the table invariant |
| AuthController.UserTable.Logout | backend/controllers/auth.ts:103-119 | the handler, which clears the one row with the caller's id, leaves the state and reply that `AuthSpec.Logout` gives |
| AuthController.LogoutRow | backend/controllers/auth.ts:106-109 | with unique ids, clearing the refresh token of every row with the id equals updating the single row that has it |
| AuthController.UserTable.Refresh | backend/controllers/auth.ts:123-155 | the handler reads the table without changing it and replies as `AuthSpec.Refresh` |
| AuthProperties.LoginFailuresIndistinguishable | backend/controllers/auth.ts:66-78 | an unknown email and a wrong password give the identical status, message and table |
| AuthProperties.AtMostOneLiveRefreshToken | backend/controllers/auth.ts:137-144 | two refresh tokens that `refresh` accepts for the same user are the same token |
| AuthProperties.AcceptedTokenIsStored | backend/controllers/auth.ts:137-144 | an accepted refresh token is the one stored on its user's row |
| AuthProperties.RefreshRefusedAfterLogout | backend/controllers/auth.ts:106-144 | after `logout`, every refresh token of that user is refused with 403 |
| AuthProperties.LogoutIdempotent | backend/controllers/auth.ts:105-112 | a second `logout` gives the same table and the same reply as the first |
| AuthProperties.RefreshRefusedAfterRelogin | backend/controllers/auth.ts:80-144 | after a successful `login`, every other refresh token of that user is refused with 403 |
| AuthProperties.RefreshAcceptedAfterLogin | backend/controllers/auth.ts:80-149 | the refresh token a `login` returns is accepted until it expires |
| AuthProperties.AccessTokenRefused | backend/controllers/auth.ts:132-135 | an access token is never accepted by `refresh` |
| AuthProperties.ExpiredRefreshRefused | backend/controllers/auth.ts:150-154 | a refresh token presented at or after its `exp` is refused with 403 |
| AuthProperties.RegisterThenLogin | backend/controllers/auth.ts:28-92 | registering new credentials and logging in with them succeeds, with both tokens for the id `register` returned |
| AuthProperties.LogoutScenario | backend/controllers/auth.ts:103-144 | register, login, logout, then refresh with the login's token: the logout succeeds and the refresh is refused with 403 "Invalid refresh token" |
| AuthProperties.ReloginScenario | backend/controllers/auth.ts:80-149 | after logins in two different seconds, the first refresh token is refused and the second is accepted |
| AuthProperties.SameSecondReloginKeepsToken | backend/utils/token.ts:10-15 | two logins in the same second mint the identical refresh token |
| Tasks.IndexOf | backend/controllers/task.ts:79-81 | finds a position holding the id, or reports that no row has it |
| Tasks.Where | backend/controllers/task.ts:38-49 | keeps exactly the rows owned by the caller that pass the optional status filter and the optional case-insensitive title search, as a subsequence of the table in table order |
| Tasks.WhereCounts | backend/controllers/task.ts:38-49 | every selected row is kept as many times as the table holds it, and every other row zero times |
| Tasks.InsertByCreatedAt | backend/controllers/task.ts:54 | the result is the input with the new row added, as a multiset |
| Tasks.InsertKeepsOrder | backend/controllers/task.ts:54 | inserting into a newest-first sequence keeps it newest-first |
| Tasks.SortNewestFirst | backend/controllers/task.ts:54 | the result is a permutation of the input, ordered by `createdAt` descending |
| Tasks.InsertBeforeTies | backend/controllers/task.ts:54 | the inserted row goes in front of every row with the same `createdAt`, and those rows keep their order |
| Tasks.SortKeepsTieOrder | backend/controllers/task.ts:54 | the sort is stable: for each timestamp, the rows created then come out in table order |
| Tasks.CeilDiv | backend/controllers/task.ts:61 | the least count of pages of size `d` that covers `n` items |
| Tasks.Ordered | backend/controllers/task.ts:50-56 | the selected rows, newest first, with the same count the `count` query uses |
| Tasks.Window | backend/controllers/task.ts:52-53 | at most `take` elements, every one from the input; every index in `[skip, skip + take)` that exists is included; a newest-first input gives a newest-first window; precisely, element `i` of the result is element `skip + i` of the input, and the length is `take` clamped to what remains after `skip` |
| Tasks.GetTasks | backend/controllers/task.ts:32-70 | echoes `page` and `limit` after their defaults of 1 and 5; lists at most `limit` tasks, each owned by the caller and passing both filters, newest first; `totalTasks` counts the same selection and `totalPages` is its ceiling division by `limit`; the tasks are exactly the window of the ordered selection that starts at `(page - 1) * limit` and holds `limit` rows |
| Tasks.PageOfIndex | backend/controllers/task.ts:37 | element `k` of the ordered selection lies in the window of a page between 1 and `totalPages` |
| Tasks.EverySelectedRowIsListed | backend/controllers/task.ts:50-61 | every selected row is listed on some page between 1 and `totalPages` |
| Tasks.PagePastLastIsEmpty | backend/controllers/task.ts:37-61 | a page number beyond `totalPages` lists nothing |
| Tasks.Toggled | backend/controllers/task.ts:143-144 | the new status is "completed" exactly when the old one is "pending", and "pending" otherwise |
| Tasks.ToggleIsInvolution | backend/controllers/task.ts:143-144 | toggling twice restores "pending" and "completed" |
| Tasks.Patch | backend/controllers/task.ts:85-92 | each of title, description and status changes exactly when it is supplied; id, owner and creation time never change |
| Tasks.EmptyPatchIsIdentity | backend/controllers/task.ts:87-91 | a patch that supplies no field leaves the task unchanged |
| Tasks.Without | backend/controllers/task.ts:117-119 | keeps exactly the rows with another id; unique ids stay unique |
| Tasks.WithoutAbsent | backend/controllers/task.ts:117-119 | deleting an id no row has changes nothing |
| Tasks.WithoutRemovesOne | backend/controllers/task.ts:117-119 | with unique ids, deleting a present id removes exactly one row |
| TaskSpec.IndexOfOwned | backend/controllers/task.ts:106-111 | finds a row with both this id and this owner, or reports that none has both |
| TaskSpec.CreateTask | backend/controllers/task.ts:5-30 | a missing title gives 400 and creates nothing; otherwise 201 and exactly one row is appended, owned by the caller, with the given title and description, status "pending", the creation time and a fresh id; the table invariant is kept |
| TaskSpec.UpdateTask | backend/controllers/task.ts:72-101 | a non-numeric id gives 400 and an absent id 404, both with the table unchanged; otherwise 200 and only that row is patched, with the supplied fields; there is no owner check |
| TaskSpec.DeleteTask | backend/controllers/task.ts:103-128 | 200 exactly when a row has both the id and the caller as owner, and then exactly the rows with that id leave the table; otherwise 404 with the table unchanged |
| TaskSpec.ToggleTaskStatus | backend/controllers/task.ts:131-157 | a non-numeric id gives 400 and an absent id 404, both with the table unchanged; otherwise 200 and only that row's status flips; there is no owner check |
| TaskController.TaskTable.constructor | backend/controllers/task.ts:13-19 | the table starts empty, with ids drawn from 1 |
| TaskController.TaskTable.CreateTask | backend/controllers/task.ts:5-30 | the handler leaves the state and reply that `TaskSpec.CreateTask` gives, and keeps the table invariant |
| TaskController.TaskTable.UpdateTask | backend/controllers/task.ts:72-101 | the handler leaves the state and reply that `TaskSpec.UpdateTask` gives |
| TaskController.TaskTable.DeleteTask | backend/controllers/task.ts:103-128 | the handler leaves the state and reply that `TaskSpec.DeleteTask` gives |
| TaskController.TaskTable.ToggleTaskStatus | backend/controllers/task.ts:131-157 | the handler leaves the state and reply that `TaskSpec.ToggleTaskStatus` gives |
| TaskProperties.DeleteRemovesOneRow | backend/controllers/task.ts:117-119 | in a valid table, a successful delete removes exactly one row |
| TaskProperties.DeleteRefusedForOtherOwner | backend/controllers/task.ts:106-116 | a task owned by someone else cannot be deleted: 404 and the table is unchanged |
| TaskProperties.DeleteTwiceNotFound | backend/controllers/task.ts:106-116 | a second delete of the same id gives 404 |
| TaskProperties.EmptyUpdateChangesNothing | backend/controllers/task.ts:85-92 | an update that supplies no field leaves the table unchanged |
| TaskProperties.ToggleAtRow | backend/controllers/task.ts:137-148 | in a valid table, toggling the id of row `k` flips the status of row `k` and of no other row |
| TaskProperties.ToggleTwiceRestores | backend/controllers/task.ts:143-148 | toggling a "pending" or "completed" task twice restores the whole table |
| TaskProperties.CreatedTaskIsListed | backend/controllers/task.ts:13-61 | a task just created by the caller appears on one of the pages of the caller's unfiltered listing |
| Text.Lower | frontend/app/dashboard/page.tsx:188 | same length, each character lower-cased |
| Text.ContainsIffOccurs | frontend/app/dashboard/page.tsx:188 | `includes` holds exactly when the needle occurs at some offset |
| Text.EmptySearchMatchesAll | frontend/app/dashboard/page.tsx:188 | an empty search string is found in every title |
| Text.TrimStart | frontend/app/dashboard/page.tsx:56 | the result is a suffix with no leading whitespace, and only whitespace was dropped |
| Text.TrimEnd | frontend/app/dashboard/page.tsx:56 | the result is a prefix with no trailing whitespace, and only whitespace was dropped |
| Text.Trim | frontend/app/dashboard/page.tsx:56 | the result is the slice of the input left after its leading and trailing whitespace; it neither starts nor ends with whitespace, and only whitespace was cut off |
| Text.TrimEmptyIffBlank | frontend/app/dashboard/page.tsx:56 | `trim()` is empty exactly when every character is whitespace |
| Text.NatToString | frontend/app/dashboard/page.tsx:214 | a non-empty string of decimal digits, with no leading zero |
| Text.NatToStringRoundTrip | frontend/app/dashboard/page.tsx:214 | reading the digits back gives the number |
| Text.IntToString | frontend/app/dashboard/page.tsx:214 | a non-negative number renders as decimal digits that read back as the number; a negative one as "-" followed by the digits of its magnitude |
| Http.WithHeaders | frontend/app/utils/api.ts:9-16 | `{ ...options, headers }` keeps the method and body and replaces the headers |
| Http.GetItem | frontend/app/utils/api.ts:7 | `getItem` gives the stored value, or nothing for a missing key |
| Http.JsString | frontend/utils/api.ts:11 | a present value renders as itself and an absent one as the given placeholder ("null" or "undefined") |
| Http.Bearer | frontend/app/utils/api.ts:14 | the header value is "Bearer " followed by the token |
| Http.RefreshRequest | frontend/app/utils/api.ts:21-25 | a POST to the backend URL plus "/auth/refresh", with only the JSON content type, carrying the refresh token |
| Http.Browser.Fetch | frontend/app/utils/api.ts:9 | the request is appended to the log, the reply is the server's reply to the request with that index, and storage and location are unchanged |
| AppApi.FirstHeaders | frontend/app/utils/api.ts:11-15 | JSON content type unless the caller sets one; every caller header is kept; when a token is stored, `Authorization` is its bearer value, overriding the caller's; otherwise `Authorization` is present exactly when the caller set it |
| AppApi.RetryHeaders | frontend/app/utils/api.ts:33-37 | as the first headers, but `Authorization` is always the bearer value of the new token |
| AppApi.AfterUnauthorized | frontend/app/utils/api.ts:18-45 | after a 401, exactly one refresh request carrying the stored refresh token; if it succeeds, one retry of the same URL with the new token, whose reply is returned, with only `accessToken` in storage replaced; otherwise storage is emptied, the location becomes "/login" and the 401 is returned |
| AppApi.Protocol | frontend/app/utils/api.ts:3-46 | one to three requests; the first goes to `BASE_URL + endpoint` with the first headers; a reply other than 401 is returned as is, with storage and location unchanged and no further request; a 401 leads to the refresh and at most one retry as above |
| AppApi.RetryRepeatsRequest | frontend/app/utils/api.ts:31-38 | the retry has the first request's URL, method, body and header names; only `Authorization` may differ |
| AppApi.ApiRequest | frontend/app/utils/api.ts:3-46 | the requests sent, the new storage and location, and the reply are exactly those of `AppApi.Protocol` for the state before the call |
| AppApi.RefreshAndRetry | frontend/app/utils/api.ts:18-43 | the requests sent, the new storage and location, and the reply are exactly those of `AppApi.AfterUnauthorized` |
| UtilsApi.AuthorizedHeaders | frontend/utils/api.ts:9-12 | every caller header except `Authorization` is kept, no `Content-Type` is added, and `Authorization` is always the bearer value of the given token |
| UtilsApi.AfterUnauthorized | frontend/utils/api.ts:16-46 | after a 401, exactly one refresh request to the backend URL; if it succeeds, one retry of `url` with the new token, whose reply is returned, with `accessToken` overwritten; otherwise storage is emptied, the location becomes "/login" and the 401 is returned |
| UtilsApi.Protocol | frontend/utils/api.ts:1-49 | one to three requests; the first goes to `url` verbatim with `Authorization` always set, reading "Bearer null" without a stored token; a reply other than 401 is returned as is, with no further request and storage unchanged; a 401 leads to the refresh and at most one retry |
| UtilsApi.RetryRepeatsRequest | frontend/utils/api.ts:35-41 | the retry has the first request's URL, method, body and header names; only `Authorization` may differ |
| UtilsApi.ApiRequest | frontend/utils/api.ts:1-49 | the requests sent, the new storage and location, and the reply are exactly those of `UtilsApi.Protocol` |
| UtilsApi.RefreshAndRetry | frontend/utils/api.ts:16-46 | the requests sent, the new storage and location, and the reply are exactly those of `UtilsApi.AfterUnauthorized` |
| TaskList.Filter | frontend/app/dashboard/page.tsx:183-189 | `filter` keeps exactly the elements that pass, and never lengthens the list |
| TaskList.FilterIsSubsequence | frontend/app/dashboard/page.tsx:183-189 | `filter` keeps the surviving elements in their order |
| TaskList.InsertUnique | frontend/app/dashboard/page.tsx:83-87 | a list that already has the id is unchanged; otherwise the new task is prepended to the intact list; either way the id is present, and distinct ids stay distinct |
| TaskList.InsertUniqueIdempotent | frontend/app/dashboard/page.tsx:83-87 | inserting the same task twice equals inserting it once |
| TaskList.ReplaceById | frontend/app/dashboard/page.tsx:231-235 | same length; every position with the id holds the new task; every other position is unchanged |
| TaskList.ReplaceKeepsIdsDistinct | frontend/app/dashboard/page.tsx:231-235 | replacing by a task with the same id keeps ids distinct and keeps that id present exactly when it was |
| TaskList.Compare | frontend/app/dashboard/page.tsx:287-290 | 0 for equal statuses; negative exactly when only the first is "pending" |
| TaskList.InsertByStatus | frontend/app/dashboard/page.tsx:287-290 | the result is the input with the element added, as a multiset |
| TaskList.SortByStatus | frontend/app/dashboard/page.tsx:287-290 | the stable sort returns a permutation of its input |
| TaskList.SortSplitsByStatus | frontend/app/dashboard/page.tsx:287-290 | with statuses "pending" and "completed" only, the sort gives the pending tasks in their order followed by the others in their order |
| TaskList.ToggleUpdate | frontend/app/dashboard/page.tsx:282-290 | the result is a permutation of the list after replacing by id |
| TaskList.ToggleUpdateOrder | frontend/app/dashboard/page.tsx:282-290 | with known statuses, every pending task precedes every completed one, and each group is a subsequence of the replaced list in its order |
| TaskList.RemoveId | frontend/app/dashboard/page.tsx:329-331 | keeps exactly the tasks with another id, so the id is gone |
| TaskList.RemoveIdKeepsOrder | frontend/app/dashboard/page.tsx:329-331 | the remaining tasks keep their order, and an absent id changes nothing |
| TaskList.Visible | frontend/app/dashboard/page.tsx:182-189 | a task is shown exactly when it is listed, passes the status filter ("all" passes all) and its lower-cased title contains the lower-cased search |
| TaskList.VisibleIsSubsequence | frontend/app/dashboard/page.tsx:182-189 | the shown list keeps the order of the task list |
| TaskList.UnfilteredShowsAll | frontend/app/dashboard/page.tsx:182-189 | with filter "all" and an empty search the whole list is shown |
| Dashboard.PrevPage | frontend/app/dashboard/page.tsx:351-352 | Prev is disabled on page 1 and otherwise goes back one page |
| Dashboard.NextPageAsWritten | frontend/app/dashboard/page.tsx:363-364 | Next as written moves forward by one page, and stays exactly when the current page equals `totalPages` |
| Dashboard.NextAsWrittenLeavesRange | frontend/app/dashboard/page.tsx:363-364 | with `totalPages = 0` Next as written leaves the pager range |
| Dashboard.NextPage | frontend/app/dashboard/page.tsx:363-364 | the corrected Next moves forward exactly when a later page exists, otherwise it stays |
| Dashboard.PagerStaysInRange | frontend/app/dashboard/page.tsx:349-368 | Prev and the corrected Next keep the current page in range |
| Dashboard.TaskPath | frontend/app/dashboard/page.tsx:214 | the endpoint of a task is "/tasks/" followed by digits that read back as its id (after a "-" for a negative id) |
| Dashboard.DashboardPage.constructor | frontend/app/dashboard/page.tsx:15-28 | the initial state: no tasks, empty inputs, filter "all", page 1 of 1, nothing being edited |
| Dashboard.DashboardPage.Shown | frontend/app/dashboard/page.tsx:182-189 | the rendered list holds exactly the tasks passing the status filter and the search |
| Dashboard.DashboardPage.HandleCreateTask | frontend/app/dashboard/page.tsx:55-97 | with a blank title or no truthy token stored, nothing is sent and nothing changes; otherwise the browser performs exactly the `apiRequest` exchange of a POST to `/tasks` with the JSON content type, the stored token and the title and description (its requests appended, storage and location as that exchange leaves them), and on an ok reply carrying a task that task is prepended unless its id is listed and the form is cleared, else list and form are unchanged; distinct ids stay distinct; the other page fields, the edit fields included, are unchanged |
| Dashboard.DashboardPage.PostTask | frontend/app/dashboard/page.tsx:67-90 | the browser performs exactly the `apiRequest` exchange of the POST to `/tasks` with the given token; on an ok reply carrying a task the list is the de-duplicating prepend of that task and the form is cleared, otherwise list and form are unchanged; distinct ids stay distinct; the other page fields, the edit fields included, are unchanged |
| Dashboard.DashboardPage.ApplyCreated | frontend/app/dashboard/page.tsx:78-90 | on an ok reply carrying a task, the task is inserted uniquely and the form is cleared; otherwise nothing changes; every other page field, the edit fields included, is unchanged |
| Dashboard.DashboardPage.SaveEdit | frontend/app/dashboard/page.tsx:210-242 | the browser performs exactly the `apiRequest` exchange of a PATCH to `/tasks/:id` with the stored token and the edited title and description; on an ok reply carrying a task that id's entry is replaced by it, otherwise the list is unchanged; an ok reply ends edit mode; the length is kept; the form, filters, pager and edit fields are unchanged |
| Dashboard.DashboardPage.ApplySaved | frontend/app/dashboard/page.tsx:230-241 | on an ok reply, the edit mode ends and the returned task replaces that id; otherwise nothing changes; every other page field, the edit fields included, is unchanged |
| Dashboard.DashboardPage.Toggle | frontend/app/dashboard/page.tsx:266-297 | the browser performs exactly the `apiRequest` exchange of a bodiless PATCH to `/tasks/:id/toggle` with the stored token; on an ok reply carrying a task the list is the replace-then-sort of the old list with it, otherwise unchanged; every other page field, the edit fields included, is unchanged |
| Dashboard.DashboardPage.ApplyToggled | frontend/app/dashboard/page.tsx:281-291 | on an ok reply carrying a task, the list becomes the replace-then-sort; otherwise nothing changes; every other page field, the edit fields included, is unchanged |
| Dashboard.DashboardPage.Delete | frontend/app/dashboard/page.tsx:315-338 | the browser performs exactly the `apiRequest` exchange of a DELETE to `/tasks/:id` with the stored token; on an ok reply every entry with that id is removed, otherwise the list is unchanged; every other page field, the edit fields included, is unchanged |
| Dashboard.DashboardPage.ApplyDeleted | frontend/app/dashboard/page.tsx:328-331 | on an ok reply every entry with that id leaves the list; otherwise nothing changes; every other page field, the edit fields included, is unchanged |
| Dashboard.DashboardPage.Logout | frontend/app/dashboard/page.tsx:106-115 | exactly `accessToken` and `refreshToken` leave storage, the location becomes "/", and no request is sent |
| Dashboard.DashboardPage.Prev | frontend/app/dashboard/page.tsx:350-356 | the current page becomes `PrevPage` of the old one; every other page field is unchanged |
| Dashboard.DashboardPage.Next | frontend/app/dashboard/page.tsx:362-368 | the current page becomes `NextPageAsWritten` of the old one, the guard as the page has it; every other page field is unchanged |

## Left out

- Prisma and the database are in-memory values: a `map` of users and a `seq` of tasks. Ids come from a counter.
- Prisma exceptions are left out, and so is the 500 reply of the `catch` blocks, except for `logout`. There, the `update` of a missing id is modelled as its 500 reply.
- Collation is left out. The database's order among rows with equal `createdAt` is unspecified; the model fixes one, table order (`Tasks.SortKeepsTieOrder`).
- bcrypt and jsonwebtoken are abstract.
  - `AuthSpec.Hash`: a digest records what was hashed and matches exactly that password. bcrypt's 72-byte truncation and the real cost factor are left out.
  - `Tokens.Verify`: tokens are their claims. Access and refresh secrets are assumed distinct, and any string that is not a token is `Garbage`. JWT clock tolerance and `nbf` are left out.
- The `authenticate` middleware, Express routing and CORS are not part of this model. The authenticated `userId` is an input.
- `Tasks.GetTasks` requires `page >= 1` and `limit >= 1`. `parseInt` of other query strings (zero, negative, `NaN`) and `Math.ceil` over floating point are left out.
- `TaskSpec.UpdateTask` and `TaskSpec.ToggleTaskStatus` take `Number(id)` as given. A non-numeric id is `None`; the parsing itself is left out.
- `TaskSpec.DeleteTask` takes `parseInt(id)` as an integer. A `NaN` id, which Prisma rejects with a 500, is left out.
- The Prisma schema is not part of this model. New tasks take the status "pending", its evident default, and an omitted description is `None`.
- `Text.Lower` and Prisma's `mode: "insensitive"` fold only ASCII letters; Unicode case mapping is left out. `Text.TrimStart` and `Text.TrimEnd` strip ASCII whitespace, NO-BREAK SPACE and the byte order mark, not every Unicode space.
- `Http.Browser`: header names are compared case-sensitively. Headers given as a `Headers` object or an array of pairs are left out; plain-object headers are modelled.
- Response bodies are reduced to the fields the client reads: `accessToken`, `task` and `message`. `res.json()` throwing on a body that is not JSON is left out.
- `Dashboard.DashboardPage.ApplySaved` and `Dashboard.DashboardPage.ApplyToggled`: an ok reply without a `task` leaves the list alone. page.tsx would put `undefined` into the list.
- `Dashboard.DashboardPage.ApplyCreated`: an ok reply without a `task` leaves the list and the form alone. In page.tsx reading `data.task.id` would throw instead.
- A `fetch` that rejects (a network error) is not modelled: `Http.Browser.Fetch` always yields a response. In page.tsx such a rejection reaches the `catch` of `handleCreateTask`, which only shows a toast; the save, toggle and delete handlers have no `catch`, and the promise is left rejected.
- `TaskList.SortSplitsByStatus` and `TaskList.ToggleUpdateOrder` assume statuses "pending" and "completed". These are the only values that `createTask`'s default and `toggleTaskStatus` write and the only ones the dashboard sends. `updateTask` stores any `status` its request body carries, and such a status falls outside these two lemmas; the Prisma schema, which might restrict it, is not part of this model. For other statuses the comparator is not a consistent order, and the result of `sort` is implementation-defined.
- The `useEffect` fetch of the current page is not modelled. The same holds for React's re-rendering, toasts, the `message` state and the edit-mode buttons that only set state (Edit, Cancel).
- The 500 ms `setTimeout` before navigation after logout is collapsed into an immediate location change.
- Several requests in flight at once, each refreshing on its own 401, are left out. A single call is modelled.
- There is no refresh-token rotation and no owner check on update or toggle, because the handlers have neither.
- `frontend/app/lib/api.ts` and the login, register and landing pages are not part of this model.

## Findings

| source | as written | input that shows it | evidently intended | confidence | as-written member | corrected member |
|---|---|---|---|---|---|---|
| frontend/app/dashboard/page.tsx:363 | Next is disabled only when `currentPage === totalPages` | a user with no tasks: `totalPages` is `ceil(0 / 6) = 0`, so on page 1 Next stays enabled and each click moves to an empty page further out | Next is enabled only while `currentPage < totalPages` | not executed | Dashboard.NextAsWrittenLeavesRange | Dashboard.PagerStaysInRange |

`Dashboard.DashboardPage.Next` keeps the guard as the page has it, so the page model reproduces the behaviour above; `Dashboard.NextPage` is the corrected guard, with `Dashboard.PagerStaysInRange` proved about it.
