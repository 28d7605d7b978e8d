# A verified model of the misrravb link-in-bio site's logic

This project models the parts of a Next.js link-in-bio site that hold real logic. Each part is written in Dafny as immutable data and pure functions, and the properties below are proved about it.

- **Click analytics store** (`lib/db.ts`):
  - a SQLite `clicks` table and a `daily_stats` upsert;
  - the readers: total, per platform, last N days, last 24 hours, top links, dashboard summary.
- **User table** (`lib/users-db.ts`): the `salt:hash` password format, bootstrapping the default admin, create, partial update, activate and deactivate, delete, filtered and paginated listing, and login.
- **JSON click log** (`app/api/analytics/click/route.ts`): `POST` appends a click event (two overlapping POSTs can lose one, see Findings); `GET` counts events per platform and per day and returns the newest 50.
- **Track endpoint** (`app/api/analytics/track/route.ts`): the required-field check, the client IP taken from `x-forwarded-for`, the 16-character IP hash, and the hand-off to `registerClick`.
- **Front-end state machines:**
  - the Konami-code recogniser (`components/KonamiEasterEgg.tsx`);
  - arrow-key focus movement (`hooks/useKeyboardNav.ts`);
  - the newsletter modal (`components/NewsletterModal.tsx`);
  - the dark/streamer theme provider (`components/ThemeContext.tsx`).
- **Admin pages:**
  - the devotionals list, with its query string, search filter, delete/restore and deleted count (`app/admin/devotionals/page.tsx`);
  - the "new devotional" form (`app/admin/devotionals/new/page.tsx`);
  - the "new payment" form (`app/admin/payments/new/page.tsx`).

The project has one module per source file. Shared helper modules hold the JavaScript string primitives (`Text`), hex encoding (`Hex`), counting, filtering and histograms (`Tally`), descending sort (`Sorting`), `GROUP BY` (`Grouping`), SQLite `LIKE` (`SqlLike`), the password format (`Password`), the analytics database (`ClickStore`), and the reply handling the two admin forms share (`SaveReply`).

Modelling choices:
- **Inputs from outside become parameters.** These are the clock, the 16 random salt bytes, PBKDF2 (`Kdf`), SHA-256, whether a file write succeeds, how far the two statements of `registerClick` get, the server's HTTP replies, `confirm()`, and `parseFloat`.
- **Timestamps in `lib/db.ts`.** They are whole seconds since the epoch (UTC). A date is the day number, and `datetime('now', '-N days')` is `now - N * 86400`. SQLite compares its `YYYY-MM-DD HH:MM:SS` text in the same order as these numbers.
- **The users table is a sequence of rows in rowid order.** It is not a map from id to user. With a sequence, `ORDER BY created_at DESC` and `LIMIT/OFFSET` can be stated, and `UPDATE/DELETE ... WHERE id = ?` act on every matching row, as SQL does. The invariant `UsersDb.Valid` carries the key constraints: ids strictly increase, emails are unique, and no id exceeds the AUTOINCREMENT counter. Every write is proved to keep it.
- **SQLite `LIMIT` and `OFFSET`.** A negative `LIMIT` means no limit, and a negative `OFFSET` counts as 0.
- **The deleted count on the devotionals page follows the code.** The code counts rows whose `deleted_at` is truthy, so an empty string does not count. `DevotionalsList.DeletedCountIsNonNull` proves this equals the number of non-null rows whenever no `deleted_at` is the empty string.
- **The Konami dots can disagree with the key index.** Closing the success modal restarts the key index but leaves the dots as they were. The invariant kept is therefore `index <= progress <= 10`, not `index == progress` (`Konami.CloseSplitsProgress`).

## Model

| member | source | states |
|---|---|---|
| ClickStore.RegisterClick | lib/db.ts:57-88 | inserts exactly one click at the end with a fresh rowid, stores an absent or empty user agent, IP hash or referrer as NULL, sets `daily_stats[today]` to 1 or adds 1 to it, and leaves every other date alone |
| ClickStore.InsertClick | lib/db.ts:70-75 | the INSERT alone: appends exactly one click with a fresh rowid and leaves `daily_stats` untouched |
| ClickStore.BumpDay | lib/db.ts:77-85 | the upsert alone: a new date starts at 1, an existing one goes up by 1, every other date keeps its count |
| ClickStore.InsertAloneBreaksValid | lib/db.ts:70-85 | the two statements are not one transaction: if the INSERT commits and the upsert does not, `daily_stats` no longer equals the clicks per day |
| ClickStore.TotalClicks | lib/db.ts:91-94 | `COUNT(*)`: every stored click counted once, zero only for an empty table, never fewer than the clicks of any one day |
| ClickStore.NullIfEmpty | lib/db.ts:75 | `v \|\| null`: an absent or empty string is stored as NULL; anything else is stored as it is |
| ClickStore.RegisterIncrementsTotal | lib/db.ts:70-94 | after a registration `getTotalClicks` is exactly one more |
| ClickStore.RegisterFreshId | lib/db.ts:24-25 | the returned rowid is larger than every stored click's id |
| ClickStore.RegisterPreservesValid | lib/db.ts:78-85 | if every `daily_stats[d]` equals the number of stored clicks on day d, this still holds after a registration |
| ClickStore.RegisterAllValid | lib/db.ts:57-88 | any sequence of registrations keeps the daily counts equal to the clicks per day, and raises the total by the number of registrations |
| ClickStore.EmptyDbValid | lib/db.ts:21-51 | a freshly created database satisfies the invariant |
| ClickStore.ClicksByPlatform | lib/db.ts:97-104 | one row per distinct platform and one for every clicked platform; each count is positive and equals the clicks on that platform; counts do not increase down the list; the counts sum to the total |
| ClickStore.PlatformOfUrl | lib/db.ts:132-134 | the bare `platform` column of a `GROUP BY url` group comes from some click with that url |
| ClickStore.TopLinks | lib/db.ts:130-138 | exactly min(limit, number of distinct urls) rows (all of them for a negative limit); distinct urls; positive counts equal to each url's clicks, non-increasing; no omitted url beats a listed one; with a limit that is large enough, every url appears |
| ClickStore.DistinctKeysBound | lib/db.ts:132-134 | `GROUP BY url` yields exactly as many groups as there are distinct urls |
| ClickStore.ClicksLastDays | lib/db.ts:107-117 | dates strictly ascending; each count positive; every click in the window has its date listed; no date earlier than the window's first day; the counts sum to the clicks in the window |
| ClickStore.RecentClicks | lib/db.ts:120-127 | the 24-hour count never exceeds the total |
| ClickStore.RecentIsOneDayTrend | lib/db.ts:107-127 | the 24-hour count equals the total of a one-day trend |
| ClickStore.WiderWindowCountsMore | lib/db.ts:113 | widening the time window never drops a click |
| ClickStore.AllStats | lib/db.ts:149-157 | the total is the number of clicks; the per-platform counts sum to it; the 24-hour count is at most the 7-day trend total, which is at most the total; at most 5 top links; trend dates lie within 7 days of now; each field is exactly its reader's result (24-hour count, per-platform rows, seven-day trend, five busiest links), so those readers' contracts carry over to the summary |
| Grouping.GroupBy | lib/db.ts:98-103 | one row per distinct value with its number of occurrences, sorted by the given score, counts summing to the input length |
| Sorting.SortDesc | lib/db.ts:102 | the result is a permutation of the input, ordered non-increasing by the key |
| Sorting.SumOfPermutation | lib/db.ts:102 | reordering rows does not change the sum of their counts |
| Tally.Histogram | app/api/analytics/click/route.ts:81-88 | a key is present exactly when the value occurs, and maps to its number of occurrences |
| Tally.HistogramSum | app/api/analytics/click/route.ts:81-91 | the counts of a histogram sum to the length of the input |
| Tally.FilterIsSubsequence | app/admin/devotionals/page.tsx:89-93 | `Array.prototype.filter` keeps an order-preserving subsequence |
| Tally.Page | lib/users-db.ts:158 | `LIMIT ? OFFSET ?`: exactly min(limit, rows left after the offset) rows (all that are left for a negative limit), and row i of the page is row offset + i of the input |
| Sorting.SortedScores | lib/users-db.ts:157 | however `ORDER BY score DESC` orders rows with equal scores, the sequence of scores it yields is the same: the input's scores, largest first |
| Hex.ToHex | lib/users-db.ts:56-57 | `toString('hex')`: two hex digits per byte |
| Hex.ToHexInjective | lib/users-db.ts:64-65 | different byte strings never have the same hex encoding |
| Password.HashPassword | lib/users-db.ts:55-59 | the stored value is 32 hex digits of salt, a colon and 128 hex digits of key |
| Password.VerifyPassword | lib/users-db.ts:61-66 | false when the stored value has no colon or an empty salt or hash part; true exactly when the salt part is non-empty and the hash part equals the hex of PBKDF2 of the password and the salt part |
| Password.HashThenVerify | lib/users-db.ts:55-66 | a password verifies against its own hash, whatever the salt and whatever PBKDF2 is |
| Password.VerifyOnlyOnCollision | lib/users-db.ts:61-65 | another password verifies against a hash only if PBKDF2 gives both passwords the same key for that salt |
| Password.VerifyIgnoresTrailingPieces | lib/users-db.ts:62 | destructuring `split(':')` ignores anything after a second colon |
| SqlLike.LikeIsSubstring | lib/users-db.ts:137-139 | for a search text without wildcards, `LIKE '%s%'` holds exactly when the text occurs in the field, ignoring ASCII case |
| SqlLike.LikeMatchesSomewhere | lib/users-db.ts:137-139 | for a search text without `%`, `LIKE '%s%'` holds exactly when the text matches at some position of the field, each `_` standing for any one character and other characters compared up to ASCII case |
| SqlLike.UnderscoreIsWildcard | lib/users-db.ts:139 | `_` in the search text is not escaped: a search `a_b` finds every field holding `a`, then any one character, then `b` |
| UsersDb.FindById | lib/users-db.ts:112-117 | finds a row with that id exactly when one exists |
| UsersDb.FindByEmail | lib/users-db.ts:119-125 | finds a row with that email exactly when one exists |
| UsersDb.FindByEmailUnique | lib/users-db.ts:73 | with unique emails, looking up a user's email finds that user |
| UsersDb.GetUserById | lib/users-db.ts:112-117 | returns the public fields of the row with that id, or null exactly when there is none |
| UsersDb.InitUsersDb | lib/users-db.ts:88-97 | a non-empty table is left alone; an empty one gets exactly the active admin "Administrador" / admin@misrravb.com, whose password "admin123" verifies |
| UsersDb.InitUsersDbValid | lib/users-db.ts:68-97 | bootstrapping keeps unique emails and increasing ids |
| UsersDb.CreateUser | lib/users-db.ts:102-110 | fails exactly when the email is taken; otherwise appends one row with the given fields, status defaulting to active, a fresh id, and a hash against which the password verifies |
| UsersDb.CreateUserValid | lib/users-db.ts:73 | a successful create keeps emails unique and ids increasing |
| UsersDb.Matching | lib/users-db.ts:134-150 | the WHERE clause keeps exactly the rows that pass every given filter, and their number is what `COUNT(*)` reports |
| UsersDb.GetUsers | lib/users-db.ts:133-162 | `total` counts every matching row whatever the page; the page holds exactly min(limit, total - offset) entries (all that are left for a negative limit); each is the public view of a matching row, and no row appears more often than it matches; its `created_at` values are exactly positions offset.. of all matches' `created_at` values sorted newest first |
| UsersDb.GetUsersDistinct | lib/users-db.ts:152-161 | in a table with unique ids no user appears twice on a page |
| UsersDb.PageSorted | lib/users-db.ts:157-158 | taking a page of a newest-first list keeps it newest first |
| UsersDb.UpdateUser | lib/users-db.ts:164-192 | with no fields given, writes nothing and returns the current record; fails exactly when a given email belongs to another user; otherwise changes only the given fields and `updated_at` of that id's row and returns it, or null for an unknown id |
| UsersDb.UpdateUserValid | lib/users-db.ts:164-192 | a successful update keeps emails unique and ids increasing |
| UsersDb.UpdateUserAsWritten | lib/users-db.ts:185-190 | with no field given it returns the current record; otherwise, unless SQLite accepts double-quoted strings, the UPDATE fails to prepare; when it does accept them, the result is the intended update |
| UsersDb.UpdateAsWrittenFails | lib/users-db.ts:187-190 | without double-quoted string literals an edit of an existing user fails, where the intended update succeeds and returns the row |
| UsersDb.UpdateUserPassword | lib/users-db.ts:194-200 | true exactly when the id exists; only that row's hash and `updated_at` change, and the new password verifies against it |
| UsersDb.DeactivateUser | lib/users-db.ts:202-207 | true exactly when the id exists; that row becomes inactive; every other row is unchanged |
| UsersDb.ActivateUser | lib/users-db.ts:209-214 | true exactly when the id exists; that row becomes active; every other row is unchanged |
| UsersDb.DeactivateActivate | lib/users-db.ts:202-214 | for a user who was active, deactivating then activating gives back the same row except for `updated_at`; every other active row is unchanged |
| UsersDb.DeleteUser | lib/users-db.ts:216-219 | true exactly when the id exists; the rows left are exactly the other rows; the table shrinks by the number of rows with that id |
| UsersDb.DeleteUserValid | lib/users-db.ts:216-219 | keeps the invariant; removes exactly one row when the id exists and changes nothing otherwise |
| UsersDb.LoginUser | lib/users-db.ts:221-234 | a result is the public view, without the hash, of an active user with that email whose password verifies; an unknown email gives null |
| UsersDb.LoginRejects | lib/users-db.ts:223-224 | an inactive user or a wrong password gets null |
| UsersDb.LoginAccepts | lib/users-db.ts:221-234 | with unique emails, a stored user gets their public record back exactly when they are active and the password verifies, and null otherwise |
| UsersDb.CreateThenLogin | lib/users-db.ts:102-110 | a user created active can log in with the password they were created with |
| ClickLog.ReadAnalytics | app/api/analytics/click/route.ts:29-36 | a missing or unparseable file reads as an empty log last updated now; a parsed file reads as it is |
| ClickLog.Post | app/api/analytics/click/route.ts:43-71 | a body that is not JSON gives 500 and a falsy platform gives 400, both leaving the file unchanged; an accepted request, taken on its own, appends exactly one event, with the platform, the first clock reading, the user agent or "unknown" and the referer or "direct", and the request's own address when it has one (absent otherwise); `lastUpdated` is the second reading; it reports the new length |
| ClickLog.PostGrowsByOne | app/api/analytics/click/route.ts:61-66 | two accepted posts applied one after the other grow the log by one each, keeping what was there |
| ClickLog.OverlappingPosts | app/api/analytics/click/route.ts:51-66 | two posts whose read and write interleave both read the same log; when both are accepted they report the same total and the log ends one event longer, holding only the later writer's event |
| ClickLog.SerialisedPosts | app/api/analytics/click/route.ts:51-66 | the same two posts applied one after the other: both events are kept and the second reports one more than the first |
| ClickLog.OverlapLosesClick | app/api/analytics/click/route.ts:51-66 | for two accepted posts, overlapping keeps one new event where serialising keeps two |
| ClickLog.LastN | app/api/analytics/click/route.ts:95 | `slice(-n)` for n > 0 (the route uses 50): the last min(n, length) events in their original order |
| ClickLog.CountClicks | app/api/analytics/click/route.ts:78-88 | the loop builds exactly the histograms of platforms and of timestamp dates |
| ClickLog.CountsFacts | app/api/analytics/click/route.ts:81-91 | every key is a clicked platform or date; each count is at least 1 and equals the clicks on it; the counts sum to the number of clicks |
| ClickLog.Get | app/api/analytics/click/route.ts:73-101 | a log whose `clicks` is unusable gives 500; otherwise the total is the number of clicks and the platform and daily counts are as above, with the dates taken before the first 'T' and the newest 50 events in order |
| ClickLog.GetUnreadableIsEmpty | app/api/analytics/click/route.ts:29-36 | an unreadable log reports zero clicks and empty statistics instead of failing |
| ClickLog.RecordCount | app/api/analytics/click/route.ts:78-88 | the fold over a plain object, as written: it only ever stores keys that occur in the input |
| ClickLog.RecordCountAgrees | app/api/analytics/click/route.ts:81-88 | as long as no key names an `Object.prototype` member, the object fold gives the histogram |
| ClickLog.ProtoPlatformVanishes | app/api/analytics/click/route.ts:83 | a click on platform `__proto__` is missing from `platformStats` |
| ClickLog.InheritedNameIsNotACount | app/api/analytics/click/route.ts:83 | a click on platform `constructor` gets a count that is not a number |
| TrackRoute.ClientIp | app/api/analytics/track/route.ts:18-19 | the text before the first ',' of `x-forwarded-for` if that is non-empty, else `request.ip` if truthy, else "unknown"; never empty |
| TrackRoute.FirstForwardedAddress | app/api/analytics/track/route.ts:19 | for a proxy chain, the first address is the client IP |
| TrackRoute.IpHash | app/api/analytics/track/route.ts:20 | 16 hex characters, a prefix of the hex SHA-256 digest of the IP |
| TrackRoute.TrackInput | app/api/analytics/track/route.ts:23-29 | passes platform and url through, the IP hash, and the user agent and referer or "" |
| TrackRoute.Post | app/api/analytics/track/route.ts:5-44 | a body that is not JSON gives 500 and a missing platform or url gives 400, both writing nothing; a failing INSERT gives 500 and writes nothing; a failing upsert gives 500 after the click was stored; only when both statements commit is the click registered and its id returned |
| TrackRoute.TrackedClickStored | app/api/analytics/track/route.ts:23-35 | a tracked click is stored with its platform, url and a 16-character IP hash; a missing user agent or referer is stored as NULL; the total grows by one; the returned id is the new row's |
| TrackRoute.RejectedLeavesDb | app/api/analytics/track/route.ts:10-43 | a request answered with 400 or 500 leaves the database unchanged, except after a failed upsert, which leaves exactly the inserted click behind |
| TrackRoute.FailedUpsertBreaksValid | app/api/analytics/track/route.ts:23-43 | a 500 caused by the upsert leaves one more stored click and a `daily_stats` that no longer matches the clicks per day |
| Konami.Step | components/KonamiEasterEgg.tsx:23-45 | a matching key advances index and progress by one; the tenth activates, hides the hint and restarts the index; a mismatch, even the code's first key, resets both to 0; activation happens only on the tenth key; closing deactivates and restarts the index but keeps progress and hint; the 30-second timer shows the hint unless activated and changes nothing else |
| Konami.StepSane | components/KonamiEasterEgg.tsx:28-45 | every event keeps `index <= progress <= 10` |
| Konami.CloseSplitsProgress | components/KonamiEasterEgg.tsx:52-75 | closing the modal restarts the index but keeps the dots |
| Konami.CodeActivates | components/KonamiEasterEgg.tsx:28-40 | typing the ten keys in a row from index 0 always activates and leaves index 0 |
| Konami.UpperCaseKeyMatches | components/KonamiEasterEgg.tsx:29-30 | keys are compared case-insensitively: "B" matches "b" |
| Konami.MismatchRestarts | components/KonamiEasterEgg.tsx:41-44 | a third ArrowUp after two goes back to 0, not to 1 |
| Konami.OverlapIsMissed | components/KonamiEasterEgg.tsx:28-45 | ArrowUp followed by the whole code contains the code yet does not activate, because the recogniser never falls back to a shorter partial match |
| Konami.FilledDots | components/KonamiEasterEgg.tsx:90-96 | the hint fills one dot per matched key and never more than 10 |
| KeyboardNav.HandleKey | hooks/useKeyboardNav.ts:15-45 | `preventDefault` is called exactly for the four navigation keys, even with no links; for n > 0 every navigation key focuses an index in [0, n); with no links nothing is focused; Escape only blurs; any other key does nothing |
| KeyboardNav.ArrowDownIsSuccessor | hooks/useKeyboardNav.ts:23-25 | ArrowDown focuses (current + 1) mod n: from the last link, or from nothing focused, it goes to 0 |
| KeyboardNav.ArrowUpIsPredecessor | hooks/useKeyboardNav.ts:26-28 | ArrowUp focuses (current - 1) mod n: from the first link, or from nothing focused, it goes to n - 1 |
| KeyboardNav.HomeAndEnd | hooks/useKeyboardNav.ts:29-34 | Home focuses 0 and End focuses n - 1 |
| KeyboardNav.DownUpRoundTrip | hooks/useKeyboardNav.ts:24-27 | from a focused link, ArrowDown then ArrowUp returns to it, and so does ArrowUp then ArrowDown |
| KeyboardNav.PressDownCycles | hooks/useKeyboardNav.ts:24 | n presses of ArrowDown return to the starting link |
| Newsletter.ValidateEmail | components/NewsletterModal.tsx:29-31 | the regular expression read left to right; anything it accepts has at least 5 characters and an '@' |
| Newsletter.ValidateEmailShape | components/NewsletterModal.tsx:29-31 | the pattern accepts exactly: a non-empty local part, '@', and a domain with an inner '.', neither part holding whitespace or '@' |
| Newsletter.AcceptedHasOneAt | components/NewsletterModal.tsx:30 | an accepted email has no whitespace and exactly one '@' |
| Newsletter.AddSubscriber | components/NewsletterModal.tsx:50-54 | the list is unchanged if the email is present, otherwise the email is appended once; no duplicates are introduced |
| Newsletter.AddSubscriberIdempotent | components/NewsletterModal.tsx:50-54 | subscribing the same email twice is subscribing it once |
| Newsletter.Submit | components/NewsletterModal.tsx:33-58 | blank input gets "Por favor ingresa tu email"; otherwise a pattern failure gets "Por favor ingresa un email válido"; the list changes only for an accepted email, which then counts as a success; an accepted email clears the error, ends submitting and sets success, leaving the typed email and the modal's visibility as they were |
| Newsletter.BlankIsNotAnEmail | components/NewsletterModal.tsx:37-44 | an accepted email is never blank, so the first check never hides an acceptance |
| Newsletter.WhitespaceGetsEmptyError | components/NewsletterModal.tsx:37-40 | of the handler alone (the email input strips surrounding whitespace before it): whitespace-only input gets the "enter your email" message, not the pattern's |
| Newsletter.SubmitKeepsListClean | components/NewsletterModal.tsx:41-54 | every stored subscriber passed the pattern and none is stored twice |
| Newsletter.Close | components/NewsletterModal.tsx:18-27 | closing clears the email, the success flag and the error, and hides the modal |
| Theme.Sync | components/ThemeContext.tsx:25-36 | before mount nothing is written; after mount the saved value becomes the theme's name and the theme is kept |
| Theme.ToggleTheme | components/ThemeContext.tsx:25-40 | `toggleTheme` and the effect it triggers: the theme becomes the other one and the mounted flag is kept |
| Theme.Toggle | components/ThemeContext.tsx:38-40 | toggling always changes the theme |
| Theme.ToggleInvolution | components/ThemeContext.tsx:38-40 | toggling twice gives back the theme |
| Theme.Mount | components/ThemeContext.tsx:19-23 | after mount the theme is streamer exactly when the saved value is "streamer", and stays as it was otherwise |
| Theme.InitialTheme | components/ThemeContext.tsx:16-22 | a fresh page starts dark and turns streamer only when the saved value is exactly "streamer" |
| Theme.MountSynced | components/ThemeContext.tsx:19-36 | after mount, the saved value and `data-theme` equal the theme, and the `streamer-mode` class is present exactly in streamer mode |
| Theme.ToggleKeepsSynced | components/ThemeContext.tsx:25-40 | toggling keeps storage and page in step with the theme |
| Theme.ReloadRestores | components/ThemeContext.tsx:16-36 | reloading the page restores the theme that was showing |
| Theme.ToggleTwice | components/ThemeContext.tsx:25-40 | toggling twice after mount restores the whole provider state, storage included |
| DevotionalsList.QueryParams | app/admin/devotionals/page.tsx:44-46 | a status parameter first when a status is chosen, then `includeDeleted=true` when deleted rows are shown |
| DevotionalsList.QueryParamsKeys | app/admin/devotionals/page.tsx:44-46 | `status` is sent exactly when the filter is not 'all'; `includeDeleted` exactly when showing deleted rows |
| DevotionalsList.ListUrl | app/admin/devotionals/page.tsx:44-48 | the request always goes to `/api/admin/devotionals?`, with an empty query exactly when the filter is 'all' and deleted rows are hidden |
| DevotionalsList.ListUrlBoth | app/admin/devotionals/page.tsx:43-47 | for either status, with both controls set the request is `/api/admin/devotionals?status=<status>&includeDeleted=true`, the status first |
| DevotionalsList.ListUrlStatusOnly | app/admin/devotionals/page.tsx:43-47 | a status with deleted rows hidden requests `/api/admin/devotionals?status=<status>` and nothing more |
| DevotionalsList.ListUrlDeletedOnly | app/admin/devotionals/page.tsx:43-47 | "all statuses" with deleted rows shown requests `/api/admin/devotionals?includeDeleted=true` |
| DevotionalsList.ApplyListReply | app/admin/devotionals/page.tsx:48-66 | an ok reply replaces the list, using [] when the field is missing; 401 redirects to /login; 403 shows the permissions error; anything else shows the load error |
| DevotionalsList.ListReplyEffects | app/admin/devotionals/page.tsx:48-66 | only a successful JSON reply changes the list; a reply never both redirects and shows an error; it redirects exactly on 401 |
| DevotionalsList.FilterDevotionals | app/admin/devotionals/page.tsx:89-93 | a devotional is kept exactly when the lower-cased query occurs in its lower-cased title or content |
| DevotionalsList.FilterKeepsOrder | app/admin/devotionals/page.tsx:89-93 | the filtered list is an order-preserving subsequence of the fetched one |
| DevotionalsList.EmptySearchKeepsAll | app/admin/devotionals/page.tsx:91-92 | an empty search keeps every devotional, in order |
| DevotionalsList.SearchIgnoresCase | app/admin/devotionals/page.tsx:91-92 | the query's letter case makes no difference |
| DevotionalsList.DeletedCount | app/admin/devotionals/page.tsx:310 | counts the rows whose `deleted_at` is truthy |
| DevotionalsList.DeletedCountZero | app/admin/devotionals/page.tsx:310 | the count is zero exactly when no row is deleted |
| DevotionalsList.DeletedCountIsNonNull | app/admin/devotionals/page.tsx:310 | when no `deleted_at` is the empty string, the count is the number of non-null `deleted_at` |
| DevotionalsList.DeleteRequest | app/admin/devotionals/page.tsx:69-77 | no request exactly for an unconfirmed soft delete, so a restore never asks; otherwise the URL carries the id and the action |
| DevotionalsList.AfterDelete | app/admin/devotionals/page.tsx:79-86 | an ok reply refetches; a failed one shows the delete/restore error; no reply shows the request error |
| SaveReply.AfterSave | app/admin/devotionals/new/page.tsx:42-50 | navigates exactly on an ok reply; a failed JSON reply shows its `error` or else the fallback; no reply, or a failed reply that is not JSON, shows the connection message |
| SaveReply.FailureShowsMessage | app/admin/payments/new/page.tsx:51-59 | with non-empty fixed messages, every failure shows a non-empty message |
| SaveReply.ServerMessageWins | app/admin/payments/new/page.tsx:54-55 | a non-empty server message is shown rather than the fallback |
| SaveReply.NavigateOnlyWhenSaved | app/admin/payments/new/page.tsx:20-59 | the form navigates away exactly when the checks pass and the server accepts |
| DevotionalForm.DefaultForm | app/admin/devotionals/new/page.tsx:12-17 | empty title and content, status draft, and the date part of the current ISO time |
| DevotionalForm.Check | app/admin/devotionals/new/page.tsx:24-39 | refuses exactly a blank title, blank content or empty date, with the required-fields message; otherwise posts the trimmed title, the content untrimmed, and the date and status unchanged |
| DevotionalForm.SentPayloadIsClean | app/admin/devotionals/new/page.tsx:24-39 | a posted title is non-empty with no surrounding whitespace, the content is not blank, and the date is set |
| DevotionalForm.DefaultFormIsIncomplete | app/admin/devotionals/new/page.tsx:12-28 | the untouched form is refused with the required-fields message |
| DevotionalForm.Submit | app/admin/devotionals/new/page.tsx:19-53 | an incomplete form shows the required-fields error; it navigates to /admin/devotionals exactly when complete and the server accepts; any error shown is non-empty |
| PaymentForm.DefaultForm | app/admin/payments/new/page.tsx:12-18 | empty recorder, amount and description, status pending, and the date part of the current ISO time |
| PaymentForm.Check | app/admin/payments/new/page.tsx:25-48 | a missing field gives "Todos los campos son obligatorios" first; then an amount that is NaN or not positive gives "El monto debe ser mayor a 0"; otherwise it posts the trimmed recorder and description, and the date and status unchanged |
| PaymentForm.SentAmount | app/admin/payments/new/page.tsx:31-44 | a posted amount is the parsed number and positive, or `null` exactly when the text parsed to +Infinity |
| PaymentForm.SentTextIsClean | app/admin/payments/new/page.tsx:25-46 | a posted recorder and description are non-empty with no surrounding whitespace |
| PaymentForm.RequiredBeforeAmount | app/admin/payments/new/page.tsx:25-36 | a missing field hides a bad amount |
| PaymentForm.SpacesAmountIsNotMissing | app/admin/payments/new/page.tsx:25-36 | of the handler alone (the number input empties a non-numeric value before it): an amount of spaces passes the required check, because the amount is not trimmed, and then fails the amount check |
| PaymentForm.DefaultFormIsIncomplete | app/admin/payments/new/page.tsx:12-29 | the untouched form is refused with the required-fields message |
| PaymentForm.Submit | app/admin/payments/new/page.tsx:20-62 | the two errors in order; it navigates to /admin/payments exactly when both checks pass and the server accepts; any error shown is non-empty |

## Left out

- SQLite itself, the WAL pragma, index creation, and creating directories and files (lib/db.ts:6-18, lib/users-db.ts:6-14). The stores are in-memory values.
- Writing `data/analytics.json` is modelled only as "the new log, or unchanged when the write fails". JSON text and its formatting are not modelled.
- PBKDF2-SHA512, `randomBytes` and SHA-256 are parameters. Nothing is assumed of them beyond their output lengths.
- ClickStore.RegisterClick: the `today` of the daily-stats upsert and the click's `clicked_at` come from one clock reading. The source reads the clock twice, a few microseconds apart.
- ClickStore.ClicksLastDays: dates are day numbers, not `YYYY-MM-DD` strings.
- UsersDb.GetUsers: `ORDER BY created_at DESC` leaves the order of rows with equal timestamps to SQLite. The model sorts such rows stably. Its contract does not say which of several rows with one timestamp fills a given page slot; it does fix the page's length, its timestamps, and which rows it may hold.
- UsersDb.UpdateUser, UsersDb.CreateUser: a UNIQUE violation is an `Err` value rather than a thrown exception. Other SQLite errors are not modelled.
- UsersDb: `getUserByEmail` and `getUserByEmailWithPassword` are the single lookup `FindByEmail`; they run the same query.
- `console.log` and `console.error` calls are left out.
- ClickLog.Post: platform values that are not strings are not modelled. A body is JSON whose `platform` is a string or absent.
- ClickLog.Post: applies one request from its read of the log to its write. Requests that overlap can lose an event; only the interleaving read, read, write, write is modelled, as `ClickLog.OverlappingPosts` (see Findings).
- TrackRoute.Post: a truthy `platform` or `url` that is not a string (a number, an object) passes the `!platform || !url` check and is handed to SQLite. The model's body holds only strings or absent fields.
- UsersDb.UpdateUser: models the UPDATE as evidently intended, with `updated_at` set to the current time. The code as written is `UsersDb.UpdateUserAsWritten` (see Findings). Other errors SQLite may raise while preparing a statement are not modelled.
- ClickLog.Get: the modelled counting is the one with correct semantics for every key (see Findings). The object fold as written is modelled separately, as `ClickLog.RecordCount`.
- The `OPTIONS` preflight handler of the track route returns fixed CORS headers and holds no logic.
- Konami: the 30-second hint timer is the `HintTimeout` event. Listener registration and removal are not modelled.
- Text.LowerChar: `toLowerCase` is modelled for ASCII and Latin-1 letters only; other scripts keep their case.
- Newsletter.Submit: the 800 ms pause and the `isSubmitting` flag in between are left out.
- Newsletter: a `localStorage` value that is not a JSON array is not modelled.
- Keyboard navigation: the unused Tab focus-trap lookups (hooks/useKeyboardNav.ts:8-12) and the `focusLink` helper are left out.
- The Twitch proxy, the randomised live-status mock, `useAnalytics`, and pages that only render or format numbers or dates have no logic worth modelling.
- The admin auth gate lives in `lib/auth`, which is not part of this model. `getPaymentsSummary` is not part of this model either.
- PaymentForm.Check: `parseFloat` is a parameter returning NaN, a real or an infinity. Its prefix parsing and IEEE-754 rounding are not modelled.
- The `loading` and `submitting` flags of the admin pages only drive spinners and are left out.
- DevotionalsList.DeleteRequest: the `confirm()` answer is a parameter.

## Findings

| source | as written | input that shows it | evidently intended | confidence | as-written member | corrected member |
|---|---|---|---|---|---|---|
| app/api/analytics/click/route.ts:78-88 | `platformStats` and `dailyStats` are `{}` object literals, so `stats[key]` also reads names inherited from `Object.prototype`, and assigning to `__proto__` is ignored | a logged click whose platform is `"__proto__"` is missing from `platformStats`; one whose platform is `"constructor"` gets the string `"function Object() { [native code] }1"` instead of 1 | one count per platform, equal to its number of clicks, with the counts summing to `totalClicks` (e.g. using `Object.create(null)` or a `Map`) | not executed | ClickLog.RecordCount (counterexamples ClickLog.ProtoPlatformVanishes, ClickLog.InheritedNameIsNotACount) | ClickLog.CountClicks with ClickLog.CountsFacts (agreement on ordinary keys: ClickLog.RecordCountAgrees) |
| lib/users-db.ts:187 | the SET list ends with `updated_at = datetime("now")`, with "now" in double quotes, which SQLite reads as a column name unless it is built to accept double-quoted string literals | any `updateUser(id, { name: 'x' })` for an existing id, on a SQLite built with SQLITE_DQS=0: preparing the UPDATE fails with "no such column: now" and the route sees an exception | `datetime('now')`, so that every edit writes the given fields and the time | not executed; holds only for a SQLite built without double-quoted string literals, which is the build option SQLite recommends | UsersDb.UpdateUserAsWritten (counterexample UsersDb.UpdateAsWrittenFails) | UsersDb.UpdateUser (kept valid: UsersDb.UpdateUserValid) |
| app/api/analytics/click/route.ts:51-64 | `POST` reads the whole log, pushes its event onto that copy, and later writes the whole log back, with nothing serialising the read and the write of concurrent requests | two accepted POSTs whose reads both happen before either write: both answer `totalClicks: n + 1`, and the second write replaces the first, so the first event is lost | every accepted click stays in the log and each request reports a distinct total, as when requests are applied one after the other (e.g. a lock around the read and write, or an append-only store) | not executed; needs two requests in flight at once | ClickLog.OverlappingPosts (counterexample ClickLog.OverlapLosesClick) | ClickLog.SerialisedPosts (one request at a time: ClickLog.Post, ClickLog.PostGrowsByOne) |
