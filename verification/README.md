# Data catalogue: sessions, datasets and the strict e-mail check

This project models two FastHTML example apps.

The first is the data catalogue of `datacat.py`:
- a `users` table (name to password);
- a `datasets` table (id to row with title, done flag, owner name, details and priority);
- a session that may carry an `auth` name.

Its request handlers change that state: the login gate, login with implicit sign-up, logout, reorder, create, update, delete and fetch. `DataCatalogue.Catalogue` holds the two tables and the session's `auth` entry as fields, and each handler is a method that updates them. The table library is modelled as a finite map keyed by primary key. Fresh ids come from a counter, and a missing id is a `NotFound` error.

The second is the `strict_email` check of `inputexamples.py`:

    ^[a-zA-Z0-9._%+-]+@[a-zA-Z0-9.-]+\.[a-zA-Z]{2,63}$

It is applied with Python's `re.match`, and the `/contact/email` handler renders its verdict.
- `StrictEmail.InPattern` is the pattern's language, written as the expression reads.
- `StrictEmail.RegexMatches` adds `$`, which also matches before one final newline.
- `StrictEmail.Accepts` is a direct check: it finds the first `@` and the last `.` and tests the three parts. It is proved to decide exactly `RegexMatches`.

Modules:
- `Wrappers`: `Option`.
- `Utf8`: UTF-8 encoding and its injectivity (for `compare_digest` on encoded passwords).
- `StrictEmail`: the e-mail pattern and the `/contact/email` handler.
- `Records`: the `Dataset` row and the listing by priority.
- `Reordering`: the effect of `/reorder` as a function, and what it implies for the listing.
- `DataCatalogue`: the `Catalogue` class and its handlers.

## Model

| member | source | states |
|---|---|---|
| DataCatalogue.Catalogue.constructor | datacat.py:16-17 | A new database file: both tables start empty, and the session carries no `auth`. |
| DataCatalogue.Catalogue.Before | datacat.py:21-24 | A path on the skip list (`/favicon.ico`, `/static/...`, `....css`, `/login`) bypasses the gate. Otherwise, without `auth` the answer is the 303 redirect to `/login`; with `auth` the request runs with that name. Each outcome is stated in both directions. (That the name is a registered user comes from the class invariant, not from a check in `before`.) |
| DataCatalogue.IsTruthy | datacat.py:22-23 | Python's truth value of `sess.get('auth', None)`: present and not the empty string. |
| DataCatalogue.IsStaticPath | datacat.py:34 | `re.fullmatch(r'/static/.*', path)`: the prefix `/static/` followed by no newline. |
| DataCatalogue.IsStylesheetPath | datacat.py:34 | `re.fullmatch(r'.*\.css', path)`: the suffix `.css` with no newline before it. |
| DataCatalogue.OnSkipList | datacat.py:34 | The Beforeware's skip list: `/favicon.ico`, a static path, a stylesheet path, or `/login`. |
| DataCatalogue.LogoutRoute | datacat.py:34 | `/logout` is not on the skip list, so behind the gate it always ends logged out with the 303 redirect to `/login` and never reaches the failing `del`; both tables are unchanged. |
| DataCatalogue.Catalogue.Login | datacat.py:61-67 | An empty name or password redirects to `/login` and changes nothing. An unknown name inserts exactly that user with the submitted password and logs in. A known name with another password changes nothing. A known name with its password logs in without touching `users`. The users table changes iff the name is new and both fields are non-empty. The answer is the redirect to `/` iff the fields are non-empty and the name is new or the password matches. `auth` only ever changes to the submitted name. |
| DataCatalogue.LoginAgain | datacat.py:61-67 | A first login registers the user. Logging out and in again with the same password succeeds, and a different password fails. The users table gains exactly the one entry. |
| Utf8.EncodeChar | datacat.py:65 | `encode("utf-8")` of one character: 1 to 4 bytes, a lead byte announcing the length, continuation bytes after it, and payload bits equal to the code point. The encoding is the shortest form: 2, 3 or 4 bytes only for code points from 0x80, 0x800 or 0x10000 up. |
| Utf8.Encode | datacat.py:65 | `encode("utf-8")` of a string: the encodings of its characters, in order; empty iff the string is. |
| Utf8.EncodeInjective | datacat.py:65 | Two strings with the same UTF-8 encoding are equal. |
| Utf8.SameEncodingIffEqual | datacat.py:65 | Comparing the UTF-8 encodings of two passwords is comparing the passwords. |
| DataCatalogue.Catalogue.Logout | datacat.py:70-72 | With `auth` present: it is removed and the answer is the 303 redirect to `/login`. Without it: the `del` raises (`KeyError`). The tables are unchanged either way. |
| DataCatalogue.Catalogue.Reorder | datacat.py:105-107 | The table becomes `Reprioritized(old table, ids up to the first missing one)`; users, session and id counter are unchanged. The answer is the listing by priority iff every id has a row, and `NotFound` otherwise. |
| DataCatalogue.Catalogue.Reprioritize | datacat.py:106 | The update loop: it stops at the first id with no row, and until then the table equals the reference fold `Reprioritized` over the ids written so far. |
| DataCatalogue.FirstMissing | datacat.py:106 | The first position whose id has no row, or the length of the list: every earlier id has a row, and the id at that position has none. |
| DataCatalogue.FirstMissingAt | datacat.py:106 | Any position with all earlier ids present and its own id absent (or at the end) is `FirstMissing`. |
| Reordering.Reprioritized | datacat.py:106 | The table after one priority update per position, in turn: same keys, and only the priority field of any row changes. |
| Reordering.ReprioritizedStep | datacat.py:106 | One more loop step: writing position `k` after the first `k` writes. |
| Reordering.LastIndexOf | datacat.py:106 | The last position at which an id appears in the list. |
| Reordering.ReprioritizedPositions | datacat.py:105-106 | Every listed id ends with the last position it appears at, so a repeated id keeps its last write. Every unlisted row is unchanged. |
| Reordering.ReorderExample | datacat.py:105-106 | Reordering by [3, 1, 2] gives 3 priority 0, 1 priority 1 and 2 priority 2. |
| Reordering.DistinctPositions | datacat.py:106 | With no id repeated, the row of `ids[q]` ends with priority `q`. |
| Reordering.DensePriorities | datacat.py:107 | Rows whose priorities rise strictly and cover exactly 0 to n-1 have priorities 0, 1, 2, ... in order. |
| Reordering.ListingByPosition | datacat.py:107 | If each row's priority is the position of its id in `ids`, then a listing by priority has the ids in the order of `ids`. |
| Reordering.ListingFollowsReorder | datacat.py:105-107 | After a reorder that names every row once, the listing by priority returned by the handler is exactly the submitted order. |
| Reordering.ReorderListingExample | datacat.py:105-107 | After reordering {1, 2, 3} by [3, 1, 2], the listing shows ids 3, 1, 2. |
| Records.ListsByPriority | datacat.py:107 | What `datasets(order_by='priority')` returns: every row of the table, as stored, each id exactly once, by non-decreasing priority. |
| DataCatalogue.Catalogue.ListByPriority | datacat.py:107 | `datasets(order_by='priority')`: every row of the table exactly once, each as stored, by non-decreasing priority. |
| DataCatalogue.KeysOf | datacat.py:107 | The ids of the table, each exactly once. |
| DataCatalogue.InsertAll | datacat.py:107 | Inserting the rows of distinct ids one by one gives a strictly ordered listing. It holds exactly those rows, as stored. |
| DataCatalogue.OrderedListing | datacat.py:107 | A strictly ordered listing of exactly the table's rows lists the table by priority, each id once. |
| Records.InsertByPriority | datacat.py:107 | Inserting a row with a new id into a strictly ordered listing keeps it strictly ordered, adds exactly that row and adds one to the length. |
| DataCatalogue.Catalogue.Delete | datacat.py:112-114 | Exactly the row with that id is removed, and nothing else changes. A missing id is `NotFound`. |
| DataCatalogue.DeleteThenFetch | datacat.py:112-113 | A deleted id can no longer be fetched. |
| DataCatalogue.Catalogue.Update | datacat.py:125-126 | The submitted row replaces the stored row with its id, and no other row changes. A missing id is `NotFound` and changes nothing. |
| DataCatalogue.Catalogue.Create | datacat.py:129-131 | Exactly one row is added: the submitted values under an id the table did not have. The other rows are unchanged. |
| DataCatalogue.CreateThenFetch | datacat.py:129-135 | A created row can be fetched back with the submitted values. |
| DataCatalogue.Catalogue.Fetch | datacat.py:133-135 | The answer is the stored row with that id iff the id is in the table; otherwise it is `NotFound`. The table is not changed. |
| StrictEmail.InPattern | inputexamples.py:4 | The language of the pattern between `^` and `$`: a local part over `[a-zA-Z0-9._%+-]+`, `@`, a domain over `[a-zA-Z0-9.-]+`, `.`, and 2 to 63 ASCII letters. |
| StrictEmail.RegexMatches | inputexamples.py:55 | `re.match(strict_email, s)` is truthy: `s` is in the language, or `s` is a string of the language followed by one newline (where `$` also matches). |
| StrictEmail.HasAddressShape | inputexamples.py:4 | The direct check: there is an `@` and a `.`, the first `@` comes before the last `.`, and the text before, between and after them is a local part, a domain and a top-level domain. |
| StrictEmail.Accepts | inputexamples.py:55 | The direct check applied after dropping at most one final newline. |
| StrictEmail.FindFirst | inputexamples.py:4 | The position of the first occurrence of a character, or none iff it does not occur. |
| StrictEmail.FindLast | inputexamples.py:4 | The position of the last occurrence of a character, or none iff it does not occur. |
| StrictEmail.WithoutFinalNewline | inputexamples.py:4 | Drops at most one final newline: the string is the result or the result plus `\n`, and it is the result plus `\n` exactly when it ends with a newline. |
| StrictEmail.ShapeIffPattern | inputexamples.py:4 | The direct check (first `@`, last `.`, three parts in class) holds iff the string is local `@` domain `.` tld with each part in its class. |
| StrictEmail.ShapeInPattern | inputexamples.py:4 | The direct check implies membership in the pattern's language. |
| StrictEmail.PatternHasShape | inputexamples.py:4 | Membership in the pattern's language implies the direct check. |
| StrictEmail.PatternSplit | inputexamples.py:4 | In a string of the language, the `@` is the first `@`, the separating `.` is the last `.`, and the three slices are the parts. |
| StrictEmail.PatternSplitUnique | inputexamples.py:4 | A string of the language splits into local part, domain and top-level domain in only one way. |
| StrictEmail.TopLevelAfterLastDot | inputexamples.py:4 | In a string of the language, the top-level domain is the text after the last `.`, and the first `@` comes before it. |
| StrictEmail.NoNewlineInPattern | inputexamples.py:4 | No string of the pattern's language holds a newline. |
| StrictEmail.AcceptsIffRegexMatches | inputexamples.py:4 | The direct check accepts a string iff `re.match` with the pattern matches it: the pattern in full, or the pattern followed by one final newline. |
| StrictEmail.ExactlyOneAt | inputexamples.py:4 | Every accepted string holds exactly one `@`. |
| StrictEmail.AtInPattern | inputexamples.py:4 | Every string of the language holds an `@`. |
| StrictEmail.AtRequired | inputexamples.py:4 | A string without `@` is not matched. |
| StrictEmail.FinalNewlineAccepted | inputexamples.py:4 | A string followed by one newline is accepted iff the string itself is in the language. |
| StrictEmail.AcceptedEnding | inputexamples.py:4 | An accepted string ends with a letter of the top-level domain or with the one newline `$` allows. Any other final character is rejected. |
| StrictEmail.TwoFinalNewlinesRejected | inputexamples.py:4 | Two final newlines are rejected. |
| StrictEmail.AcceptedExample | inputexamples.py:55 | "a@b.co" is matched. |
| StrictEmail.RejectedExample | inputexamples.py:55 | "not-an-email" is not matched. |
| StrictEmail.ContactEmail | inputexamples.py:54-71 | The widget echoes the submitted value. It is `aria_invalid="false"`, class `success` and no alert iff the pattern matches; otherwise it is `aria_invalid="true"`, class `error` and the `Error :(` alert. It is a function of the input alone. |

## Left out

- HTML rendering and front-end code are not modelled: `Dataset.__ft__`, the home page, the edit form, `clr_details` (the model returns `DetailsCleared` in its place), `_not_found`, the scripts and the GET form of `inputexamples.py`. A handler's answer is reduced to the rows or redirect it carries.
- Routing, `serve()`, the favicon and static-file handlers are not modelled. The Beforeware's skip patterns are modelled as `re.fullmatch` of each pattern (`.` does not match a newline); how the framework applies them beyond that is not modelled.
- The `/searchengine` handler is not modelled: it is SQL `LIKE` on an interpolated query string.
- The per-user scoping `datasets.xtra(name=auth)` (datacat.py:24) is not modelled. Every dataset handler sees the whole table. The table library also sets `name` to the logged-in user on the rows it inserts and updates (datacat.py:106, 126, 131); in the model, `Create` and `Update` store the submitted `name` as it is. The library's code is not part of this model.
- The table library is modelled as a map with a fresh-id counter. Database files, SQL and column types are not modelled. A `NULL` priority cannot occur in the model, because priority is an integer.
- `datasets(order_by='priority')` leaves the order of equal priorities to SQLite. `ListByPriority` breaks ties by id, and its contract promises only non-decreasing priority.
- An absent id is modelled as `NotFound`, which is the table library's `NotFoundError`, for update, delete, fetch and each reorder step. The updates a reorder made before the missing id stay made. The reorder handler therefore needs no precondition that every listed id exists.
- DataCatalogue.Catalogue.Create: always assigns a fresh id. A submitted row that already carries an id is not modelled; the creation form sends only a title.
- DataCatalogue.Catalogue.Update: the submitted row is taken as complete. Fields the edit form does not send (owner name, priority) are not treated specially.
- The constant-time property of `compare_digest` is not modelled: it is a timing guarantee, and the model compares the encodings for equality.
- That `auth` names a registered user is an invariant of the model (`Catalogue.Valid`), not a check in `before` (datacat.py:21-24). A session cookie that outlives a reset of the database file is not modelled.
- One session is modelled. Concurrent requests and several clients are not.
- Form decoding is not modelled: a missing form field is the empty string, not `None`.
