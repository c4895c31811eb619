# Library management core in Dafny

This project models the business core of a small library management service.
The core has three parts.

- **Loan lifecycle.** Books are created and edited. Copies are reserved,
  picked up, lent directly, returned and cancelled. Loans past their due date
  are marked overdue and fined.
- **Policy store.** It holds the pickup window, the standard loan period and
  the daily fine. It repairs missing or sentinel values when it reads them,
  and it re-derives overdue fines when the policy changes.
- **Accounts.** This covers the request validators, user creation through a
  role-resolving factory, the authentication and role gates, and the
  admin/librarian endpoints that promote, demote, ban, unban, reset passwords
  and delete users.

The main invariant is the **copy ledger**. For every book, the copies on the
shelf (`available_copies`) plus the copies held by its RESERVED, ACTIVE and
OVERDUE loans is constant. Every lifecycle operation is proved to conserve it
(`Ledger.Conserved`).

## Layout

| file | module | models |
|---|---|---|
| common.dfy | `Wrappers`, `Http`, `Validation` | option/result types; HTTP errors; field-level validation errors |
| models.dfy | `Models` | the records (book, loan, user, settings row), loan states, roles, column defaults, time |
| ledger.dfy | `Ledger` | the copy ledger and its conservation lemmas |
| fines.dfy | `Fines` | the fine rule, defined once, and the overdue rewrite of a loan |
| database.dfy | `Database` | the session: a class with one map per table, the settings row and id counters |
| settings_schema.dfy | `SettingsSchema` | the settings update validator |
| settings_service.dfy | `SettingsService` | reading, repairing and updating the policy; recalculating fines |
| book_schema.dfy | `BookSchema` | the book create/update validators |
| library_service.dfy | `LibraryService` | the book and loan operations |
| user_factory.dfy | `UserFactory` | role resolution and user creation |
| dependencies.dfy | `Dependencies` | token subject parsing, current-user lookup, role gates |
| admin_api.dfy | `AdminApi` | promote, demote, password changes, deletion |
| users_api.dfy | `UsersApi` | ban and unban |

## Conventions

- **Time.** Time is whole seconds, and `now` is a parameter of every operation
  that reads the clock. A calendar date is `t / 86400`. For a positive divisor
  Dafny's division is floor division, which is what taking the `.date()` of a
  naive UTC timestamp gives.
- **Money.** Money is `real`, so there is no binary rounding.
- **Database.** The database session is the class `Database.Db`. Its fields are
  maps from id to value records, plus the optional settings row and the next
  id of each table. Each service operation is a method that takes the session,
  as the source's static methods do. It is one atomic step up to its commit.
- **Errors.** A raised HTTP error is a `Failure(HttpError(status, detail))`
  with the source's status code and message.
- **Passwords.** Password hashing is an ideal injective hash `HashOf(p)`. Checking
  a password is equality of hashes.

### Where the code differs from its written description

The model follows the code, with one exception: user deletion. As written,
the deletion drops the copies held by the user's open loans
(`AdminApi.CascadeDeleted`, `AdminApi.CascadeLosesCopy`). The model's
`AdminApi.DeleteUser`, `AdminApi.ReleaseAndDeleteLoans` and
`AdminApi.RemoveLoan` are the corrected deletion, which puts those copies
back on the shelf (see "## Findings").

- There is no duplicate-reservation check. The only guard is the 24-hour
  cooldown after a cancellation.
- There is no background expiry sweep. Expiry happens only inside
  `confirm_pickup`. It commits the EXPIRED state and the counter increment,
  and then reports an error.
- Putting a copy back is never capped at `total_copies`.
- "Days late" counts calendar-day boundaries, not a ceiling of elapsed time.
  It is at least 1, and it is within one day of the elapsed time
  (`Fines.DaysLate`).
- `create_book` and `update_book` do not recompute `is_available`. A new book
  keeps the column default `true`, even with zero copies on the shelf. Only
  the lifecycle operations recompute the flag.
- The read path replaces a stored rate of 0.0 or 0.5 with 0.1. This also hits
  a rate that was set to 0.0 or 0.5 on purpose through the validated update
  (`SettingsService.AcceptedSentinelRateReadsAsDefault`).

## Model

| member | source | states |
|---|---|---|
| Fines.DaysLate | app/services/library_service.py:350-352 | days late is at least one, and within one day of the time elapsed since the due date in either direction |
| Fines.Fine | app/services/library_service.py:348-355 | a late loan owes at least one day's rate, and the fine is zero exactly when the rate is zero |
| Fines.MarkedOverdue | app/services/library_service.py:469-478 | a loan that is ACTIVE or OVERDUE and past due becomes OVERDUE with the fine; any other loan is returned unchanged; only status and fine ever change, and whether the loan holds a copy does not |
| Fines.FineMonotone | app/services/library_service.py:350-355 | re-evaluating later never lowers the fine (for a non-negative rate) |
| Fines.FineOnDueDay | app/services/library_service.py:350-352 | late by part of a day on the due date itself: one day's rate |
| Fines.FineForWholeDays | app/services/settings_service.py:63-67 | exactly n whole days late: n times the rate |
| Fines.FineTenDaysAtThreeQuarters | tests/test_library_service.py:89-93 | ten days late at 0.75 a day is 7.5 |
| Fines.MarkedOverdueIdempotent | app/services/library_service.py:469-478 | marking a loan overdue twice at the same moment changes nothing more |
| Fines.MarkAllConserves | app/services/library_service.py:469-478 | marking any set of loans overdue moves no copy: every book's stock is unchanged |
| Ledger.WithCopies | app/services/library_service.py:225-226 | the counter is set, the availability flag becomes "counter > 0", and nothing else changes |
| Ledger.ClaimThenRelease | app/services/library_service.py:396-399 | taking a copy and putting it back restores the counter; the books come back unchanged exactly when the flag was in step with the counter |
| Ledger.ClaimConserves | app/services/library_service.py:216-226 | a new holding loan plus one copy off the shelf conserves every book's stock |
| Ledger.ReleaseConserves | app/services/library_service.py:393-399 | a holding loan moved to a non-holding state plus one copy back conserves every book's stock |
| Ledger.RewriteConserves | app/services/library_service.py:265-268 | a loan rewritten without changing its book or whether it holds a copy conserves every stock |
| SettingsSchema.ValidateSettingsUpdate | app/schemas/settings.py:15-19 | accepted exactly when all three fields are present and within 1..14, 1..120 and 0..100; the accepted values are the inputs; a rejection names only fields that are missing or out of range |
| SettingsService.CurrentPolicy | app/services/settings_service.py:16-38 | a missing row reads as 2/30/0.1; NULL day columns read as 2 and 30; a NULL, 0.0 or 0.5 rate reads as 0.1; other stored values are kept; the rate read is never 0.0 or 0.5 |
| SettingsService.RepairKeepsSoundRow | app/services/settings_service.py:19-32 | a row with nothing to repair reads back exactly as stored |
| SettingsService.GetSettingsIdempotent | app/services/settings_service.py:19-32 | a second read repairs nothing and returns the same policy |
| SettingsService.AcceptedSentinelRateReadsAsDefault | app/services/settings_service.py:26-28 | a validator-accepted rate of 0.0 or 0.5, once stored, reads back as 0.1 |
| SettingsService.GetSettings | app/services/settings_service.py:16-38 | returns the repaired policy, stores it as the row, and leaves a row that needs no repair untouched |
| SettingsService.Assign | app/services/settings_service.py:43-44 | one setattr: the assigned key holds its value and every other key keeps its value |
| SettingsService.AssignAllOverwritesSupplied | app/services/settings_service.py:42-44 | with distinct keys, every supplied key ends with its value and every unsupplied key keeps its value |
| SettingsService.Dump | app/api/settings.py:35 | an update body dumps to a dictionary with distinct keys |
| SettingsService.AssignDumpReplacesPolicy | app/api/settings.py:35 | applying a full update body replaces the whole policy by it |
| SettingsService.UpdateSettings | app/services/settings_service.py:41-48 | the stored policy is the repaired one with the supplied keys overwritten in order; loans are re-fined at the new rate; books and users are untouched; stock is conserved |
| SettingsService.RecalculateOverdueFines | app/services/settings_service.py:51-69 | exactly the loans that are ACTIVE or OVERDUE with a due date before now become OVERDUE with the fine at the new rate; every other loan is unchanged; stock is conserved |
| BookSchema.ValidateBookCreate | app/schemas/book.py:8-20 | accepted exactly when title 1..200, author 1..100 and isbn 10..20 characters are present and any supplied copy counts lie in 1..1000 and 0..1000; absent counts default to 1; nothing relates the two counts |
| BookSchema.ValidateBookUpdate | app/schemas/book.py:23-30 | every field optional; accepted exactly when every supplied field obeys its creation bound |
| BookSchema.CreateBoundsCoverUpdate | app/schemas/book.py:23-30 | an update carrying all fields of a valid create request is valid |
| LibraryService.NewBook | app/services/library_service.py:39-43 | title, author, isbn, description and total are the request's; the stored counter is the smaller of the two counts (at most each, equal to one of them); the flag keeps its default |
| LibraryService.NewBookCounterInRange | app/services/library_service.py:40-42 | a validated create request gives 0 <= available <= total <= 1000 |
| LibraryService.CreateBook | app/services/library_service.py:24-53 | a taken ISBN fails with 400 and no change; otherwise the new book is stored under the next id |
| LibraryService.UpdateDataPatches | app/services/library_service.py:121-123 | setting the supplied fields one by one replaces exactly the supplied attributes |
| LibraryService.AssignFields | app/services/library_service.py:122-123 | the setattr loop sets the fields in order |
| LibraryService.UpdatedBook | app/services/library_service.py:121-127 | the patch is applied; if a copy count was supplied, the counter becomes the smaller of the patched counter and the total; otherwise the counts are untouched; the flag is never touched |
| LibraryService.UpdateBook | app/services/library_service.py:99-131 | an unknown book fails with 404 and no change; otherwise the patched and capped book is stored |
| LibraryService.ReserveRefusal | app/services/library_service.py:172-210 | a reservation is refused exactly when the book is unknown or has no copy on the shelf, the user is unknown or banned, or the user cancelled this book less than a day ago; the checks run in that order, and each failing check gives its own error (404 book, 400 not available, 404 user, 403 banned, 400 cooldown) |
| LibraryService.ReserveBook | app/services/library_service.py:155-231 | on refusal nothing changes; otherwise a RESERVED loan dated now with deadline now + pickup window is added under the next id, the counter drops by exactly 1 and stays >= 0, the flag is "counter > 0", and stock is conserved |
| LibraryService.DeadlinesInFuture | app/schemas/settings.py:17-18 | under a validated policy, pickup deadlines and due dates are strictly after now |
| LibraryService.ConfirmPickup | app/services/library_service.py:233-272 | unknown loan 404 and non-RESERVED 400, both with no change; past the deadline the loan becomes EXPIRED and a copy is put back, but 400 is still reported; otherwise ACTIVE, started now, due now + loan period, counter unchanged; stock conserved in every case |
| LibraryService.AssignRefusal | app/services/library_service.py:279-306 | a direct loan is refused exactly when the user is unknown, not a member or banned, or the book is unknown or has no copy on the shelf; the checks run in that order, and each failing check gives its own error (404 user, 400 not a member, 403 banned, 404 book, 400 not available) |
| LibraryService.AssignLoan | app/services/library_service.py:274-325 | on refusal nothing changes; otherwise an ACTIVE loan due after the loan period is added, the counter drops by exactly 1 and stays >= 0, and stock is conserved |
| LibraryService.ReturnBook | app/services/library_service.py:327-367 | unknown loan 404 and a loan not ACTIVE/OVERDUE 400, both with no change; otherwise RETURNED at now, the fine is set only when past due and then by the fine rule, one copy goes back, and stock is conserved |
| LibraryService.CancelReservation | app/services/library_service.py:369-403 | unknown loan 404, another user's loan 403, a non-RESERVED loan 400, each with no change; otherwise CANCELLED at now, one copy back, stock conserved |
| LibraryService.CancelStartsCooldown | app/services/library_service.py:199-210 | a cancellation at now blocks a new reservation of that book by that user for the next day |
| LibraryService.MarkOverdue | app/services/library_service.py:464-478 | exactly the listed loans that are overdue are rewritten by the fine rule at the repaired rate; the policy is read (and repaired) only if one is overdue; books untouched; stock conserved |
| UserFactory.ChooseCreator | app/services/user_factory.py:117-122 | the librarian creator is chosen exactly for a LIBRARIAN request |
| UserFactory.ResolveRole | app/services/user_factory.py:117-122 | no role gives MEMBER, LIBRARIAN gives LIBRARIAN, any other role (ADMIN included) gives MEMBER; never ADMIN |
| UserFactory.CreateBaseUser | app/services/user_factory.py:32-54 | the stored user copies email, username and full name, stores the hash of the password, takes the requested role or MEMBER, and is active and not banned |
| UserFactory.CreateWith | app/services/user_factory.py:63-96 | each concrete creator stores the user with its own role |
| UserFactory.CreateUser | app/services/user_factory.py:105-124 | the stored user has the resolved role, never ADMIN, and the copied fields |
| Dependencies.ParseInt | app/api/dependencies.py:46-49 | a string converts exactly when, once stripped, it is well-formed decimal digits, optionally after one `+` or `-`; the value is the digits' number, negated after `-` |
| Dependencies.ParseShowInt | app/api/dependencies.py:46-49 | converting an integer's decimal form back gives the integer |
| Dependencies.ToInt | app/api/dependencies.py:46-49 | integers convert to themselves, booleans to 1 or 0, reals truncate toward zero, strings convert as `ParseInt` says, null and other values (lists, objects) fail |
| Dependencies.SubjectId | app/api/dependencies.py:42-49 | a user id is read only from a present, non-null `sub` claim |
| Dependencies.GetCurrentUser | app/api/dependencies.py:15-55 | every failure (no payload, no or null sub, unconvertible sub, unknown user) is the same 401; success returns the user the sub names |
| Dependencies.TokenForUser | app/api/dependencies.py:38-55 | a token whose sub is a stored user's id, as a number or a decimal string, authenticates that user |
| Dependencies.GetCurrentLibrarian | app/api/dependencies.py:58-79 | admits exactly LIBRARIAN and ADMIN, returning the same user; otherwise 403 |
| Dependencies.GetCurrentMember | app/api/dependencies.py:82-102 | admits exactly MEMBER, returning the same user; otherwise 403 |
| Dependencies.GetCurrentAdmin | app/api/dependencies.py:105-126 | admits exactly ADMIN, returning the same user; otherwise 403 |
| Dependencies.MemberAndStaffGatesPartition | app/api/dependencies.py:74-101 | each user passes exactly one of the member gate and the staff gate |
| Dependencies.AdminIsStaff | app/api/dependencies.py:74-125 | whoever passes the admin gate passes the staff gate |
| AdminApi.PromoteUserToLibrarian | app/api/admin.py:45-87 | non-admin caller 403, unknown user 404, ADMIN or LIBRARIAN target 400, each with no change; a MEMBER becomes LIBRARIAN with no other field changed |
| AdminApi.DemoteLibrarianToMember | app/api/admin.py:90-132 | non-admin caller 403, unknown user 404, ADMIN or non-LIBRARIAN target 400, each with no change; a LIBRARIAN becomes MEMBER |
| AdminApi.PromoteThenDemote | app/api/admin.py:84-129 | promoting a member and then demoting it restores the users exactly |
| AdminApi.ChangeAdminPassword | app/api/admin.py:135-170 | succeeds exactly for an admin caller with the correct old password and a new password of at least 6 characters, storing its hash; otherwise nothing changes |
| AdminApi.ChangeUserPassword | app/api/admin.py:173-198 | a short password is refused before the user lookup; succeeds exactly for an admin caller, a long enough password and a known user |
| AdminApi.CascadeDeleted | app/models/user.py:43 | the loans left after deleting a user are exactly the other users' loans, unchanged |
| AdminApi.CascadeLosesCopy | app/api/admin.py:222-223 | as written, deleting a user who holds the only copy of a book lowers that book's stock from 1 to 0 |
| AdminApi.RemoveConserves | app/api/admin.py:222-223 | removing a loan and putting back the copy it held conserves every stock |
| AdminApi.RemoveLoan | app/api/admin.py:222-223 | corrected (as written: `CascadeDeleted` / `CascadeLosesCopy`): one loan is removed, its copy (if it held one) goes back, and stock is conserved |
| AdminApi.ReleaseAndDeleteLoans | app/api/admin.py:222-223 | corrected (as written: `CascadeDeleted` / `CascadeLosesCopy`): all the user's loans are removed, copies they held go back, stock is conserved, and no other book field changes |
| AdminApi.DeleteUser | app/api/admin.py:201-224 | corrected (as written: `CascadeDeleted` / `CascadeLosesCopy`): non-admin caller 403, unknown user 404, ADMIN target 400, each with no change; otherwise the user and their loans are removed and stock is conserved |
| UsersApi.BanUser | app/api/users.py:58-82 | non-staff caller 403, unknown user 404, ADMIN target 400, each with no change; otherwise only `is_banned` becomes true |
| UsersApi.UnbanUser | app/api/users.py:85-104 | non-staff caller 403, unknown user 404; any other user, of any role, gets `is_banned` false |
| UsersApi.BanTwice | app/api/users.py:79 | banning twice leaves the users as banning once does |
| UsersApi.BanThenUnban | app/api/users.py:79-101 | a ban then an unban leaves the user unbanned with every other field, role included, as before |

## Left out

- Concurrency: there is no locking between the availability check and the decrement; each operation is modelled as one atomic step.
- Floating point: fines and rates are exact reals, and the `in (None, 0.0, 0.5)` test is exact equality; no binary rounding.
- The clock: the current UTC time is read once per operation and becomes the parameter `now`.
- Queries, pagination and search (`get_book`, `get_books`, `get_all_loans` offset/limit, `get_user_loans`, `get_user_loans_for_management`): these are SQL features. `MarkOverdue` takes the ids the listing returned, in the order returned.
- `delete_book` and the cascade from a book to its loans are not part of the core lifecycle.
- LibraryService.CreateBook: the `available_copies is None` branch cannot run, because the validated request always carries an integer; it is not modelled.
- LibraryService.UpdateBook: an explicit JSON null for title, author, isbn or a copy count passes validation and then fails in the database or in the comparison. Only an explicit null description, which the column allows, is modelled; a field set to null counts as left out. A duplicate ISBN on update is an unhandled database error and is not modelled.
- UserFactory.CreateBaseUser: a duplicate email or username is an unhandled database error and is not modelled. The creators also overwrite the caller's request object, which is not visible here.
- Password hashing and token decoding are external libraries. Hashing is an ideal injective function, and decoding is its outcome, an optional claims map.
- Dependencies.ParseInt: whitespace is modelled as the ten ASCII characters `str.isspace()` accepts (space, tab, line feed, carriage return, vertical tab, form feed and U+001C–U+001F), and digits as ASCII digits. Python also accepts non-ASCII Unicode whitespace and digits, which are not modelled.
- Dependencies.ToInt: converting an infinite float raises `OverflowError`, which escapes the handler's `except (TypeError, ValueError)`. A NaN raises `ValueError`, which the handler catches, so the request gets the 401. Reals have neither value, so neither case is modelled.
- `is_active` is stored but never checked by any gate; it is modelled as a field only.
- HTTP plumbing, response schemas, the `WWW-Authenticate` header, startup, migrations and configuration are not part of this model.

## Findings

| source | as written | input that shows it | evidently intended | confidence | as-written member | corrected member |
|---|---|---|---|---|---|---|
| app/api/admin.py:222-223 | deleting a user cascades (the user's `loans` relationship deletes orphans) to delete their RESERVED, ACTIVE and OVERDUE loans without putting the held copies back, so those copies disappear from the shelf for good | a book with 1 copy, 0 on the shelf, lent to member 2; delete member 2: the book has 0 on the shelf and no loan holds a copy | copies held by the deleted user's open loans go back on the shelf, keeping every book's stock | medium (not executed) | AdminApi.CascadeLosesCopy | AdminApi.DeleteUser |
