# Diary: a verified model of the request handlers

The diary is a small Flask application. A user registers and logs in, then keeps one diary entry per
calendar day: a title, a text and any number of uploaded pictures. A month calendar shows the
entries through a JSON feed. This project models the record-keeping behind the HTTP handlers of
`app.py` in Dafny and proves what each handler does to the stored state. The model covers:

- the three SQLite tables (`users`, `entries`, `images`), as maps from row id to row;
- the set of stored upload files, as relative paths;
- the session of one browser (`user_id`, `username`, `_csrf`).

Layout, one module per file:

- `wrappers.dfy`: `Option`.
- `text.dfy`: Python's `str.strip()` (with `str.isspace`), slicing `s[:n]`, ASCII `lower()` and `str(n)`.
- `isodate.dfy`: the date check of `datetime.date.fromisoformat`. It is the full-date form `YYYY-MM-DD` of section 5.6 of RFC 3339, with the month and day limits and the leap-year rule of section 5.7.
- `guards.dfy`: the session, `login_required`'s test, `get_csrf` and `validate_csrf`.
- `uploads.dfy`: `allowed_file`, the loop's choice of which uploads to keep, and the storage path `<user id>/<date>/<prefix>_<name>`.
- `tables.dfy`: the database as one value `Db`. Its invariant `Inv` holds the schema's constraints and the file layout. It also defines each handler's effect on the tables as a function (`AddUser`, `Upsert`, `Placeholder`, `SaveAll`, `DeleteByDate`, `DeleteImageAs`), with lemmas about each.
- `calendar.dfy`: the event label and the event of one entry.
- `diary.dfy`: class `Store`, whose fields are the tables, the files and the session. Each handler is a method on it. The handler methods (`Register`, `Login`, `Logout`, `GetCsrf`, `ApiEvents`, `SaveEntry`, `UploadImages`, `DeleteEntry`, `DeleteImage`) keep `Valid()`, which is the invariant plus "a logged-in session names a registered user". Each is proved against a function of `tables.dfy`, `guards.dfy` or `calendar.dfy`. The helper methods they call (`WriteEntry`, `SaveUpload`, `SaveUploads`, `EnsureEntry`, `RemoveEntry`, `RemoveFiles`) state their effect on the tables as one of those functions, and the caller re-establishes `Valid()` from the lemmas about that function.

Handlers answer with a `Response`: a redirect, a re-rendered form, HTTP 400, or the JSON list of events.

## Model

| member | source | states |
|---|---|---|
| Text.Strip | app.py:107 | `str.strip()`: the text with its leading and trailing whitespace removed (its properties are `Text.StripShape`, `Text.StripIdempotent` and `Text.StripEmptyIff`) |
| Text.Lower | app.py:78 | `str.lower()` on ASCII: same length, each letter A-Z replaced by its lower-case form, every other character kept |
| Text.StripShape | app.py:107 | `strip()` removes exactly a whitespace prefix and suffix: the stripped text is the slice of the input that starts where the leading whitespace ends, everything before and after that slice is whitespace, and the stripped text neither starts nor ends with whitespace |
| Text.StripIdempotent | app.py:221-222 | stripping twice is stripping once |
| Text.StripEmptyIff | app.py:108 | the stripped text is empty exactly when the input is all whitespace (so a blank user name counts as missing) |
| Text.Decimal | app.py:325 | `str(uid)` is a non-empty run of digits without a leading zero |
| Text.DecimalNumber | app.py:325 | `str(n)` denotes `n`: reading its digits back as a decimal number gives `n` |
| Text.DecimalInjective | app.py:325 | different user ids are written differently, so different users get different upload directories |
| IsoDate.Parse | app.py:224-227 | `date.fromisoformat`: a `YYYY-MM-DD` string whose fields name a real day is read as that day, anything else raises (`None`); a result is always a valid date |
| IsoDate.ParseFormat | app.py:224-227 | every valid date written as `YYYY-MM-DD` is accepted and read back as the same date |
| IsoDate.FormatParse | app.py:224-227 | every accepted string is exactly the canonical writing of the date it denotes |
| IsoDate.SameDaySameString | app.py:233-236 | two accepted strings denote the same day exactly when they are equal, so keying entries by the raw string keys them by day |
| IsoDate.ScenarioDate | app.py:224-227 | "2025-03-01" is read as 1 March 2025 |
| IsoDate.LeapDay | app.py:224-227 | 29 February 2024 is accepted |
| IsoDate.NoLeapDay | app.py:224-227 | 29 February 2025 is refused |
| IsoDate.NoCenturyLeapDay | app.py:224-227 | 29 February 1900 is refused (century year not a multiple of 400) |
| IsoDate.Refused | app.py:224-227 | year 0, month 13 and a one-digit month are refused |
| Guards.CsrfValid | app.py:88-92 | `validate_csrf` passes when the session token and the form token are both present, non-empty and equal; otherwise the handler answers 400 |
| Guards.IssueCsrf | app.py:81-86 | `get_csrf` keeps user id and name; with a token already set it returns that token and changes nothing |
| Guards.IssuedTokenValidates | app.py:81-92 | the token `get_csrf` hands out passes `validate_csrf` |
| Guards.IssueCsrfIdempotent | app.py:81-86 | once a token is set, later calls return it unchanged whatever fresh token they are offered |
| Guards.CsrfAcceptsOnlySessionToken | app.py:88-92 | the check passes exactly when the form token equals the session token and is non-empty |
| Uploads.AllowedFile | app.py:77-78 | `allowed_file`: the name holds a dot and the lower-cased text after its last dot is one of the allowed extensions (its properties are `Uploads.AllowedFileIff` and the lemmas below) |
| Uploads.AfterLastDot | app.py:78 | `rsplit(".", 1)[1]` is the dot-free suffix that follows the last dot |
| Uploads.AllowedFileIff | app.py:15 | `allowed_file` holds exactly when some dot is followed by a dot-free suffix whose lower-case form is png, jpg, jpeg, gif or webp |
| Uploads.AfterLastDotOf | app.py:78 | the extension of `stem.ext` is `ext` whatever dots the stem holds |
| Uploads.AcceptsExtension | app.py:77-78 | a name whose last extension, lower-cased, is on the list is accepted, whatever the text before the last dot holds |
| Uploads.AcceptsMixedCase | app.py:77-78 | `photo.PNG` is accepted |
| Uploads.RefusesExtension | app.py:77-78 | a name whose last extension, lower-cased, is not on the list is refused, whatever the text before the last dot holds |
| Uploads.RefusesExecutable | app.py:77-78 | `payload.exe` is refused |
| Uploads.RefusesDoubleExtension | app.py:77-78 | `a.png.exe` is refused |
| Uploads.RefusesNoExtension | app.py:77-78 | `noext` is refused |
| Uploads.Accepted | app.py:316-321 | the kept uploads are at most as many as the uploads, and each has a name and an allowed extension |
| Uploads.AcceptedMembers | app.py:316-321 | a name is kept exactly when it is among the uploads, is non-empty and passes `allowed_file` |
| Uploads.AcceptedStep | app.py:316-321 | one more upload is appended to the kept ones exactly when it passes both tests, so the kept ones stay in upload order |
| Uploads.StoragePath | app.py:324-325 | the stored path starts with the directory `<uid>/<date>/` |
| Uploads.FreshPrefix | app.py:324 | the prefix is non-empty hex and makes a path no stored file uses |
| Tables.EmptyInv | app.py:28-63 | the freshly created, empty database satisfies the invariant |
| Tables.AddUser | app.py:115-118 | the INSERT into `users`: a row with the name, hash and creation time under the next id |
| Tables.AddUserInv | app.py:115-127 | inserting an unused user name keeps the invariant, and the name then belongs to exactly the new id |
| Tables.AtMostOneEntry | app.py:48 | under `UNIQUE(user_id, entry_date)` the entry found for a (user, date) is the only one |
| Tables.InsertEntryInv | app.py:244-248 | inserting an entry for a (user, date) that has none keeps the invariant and gives it exactly that entry |
| Tables.Upsert | app.py:232-249 | the SELECT then UPDATE or INSERT of `save_entry` (its specification is `Tables.UpsertSpec`) |
| Tables.UpsertExisting | app.py:238-243 | with entry `id` for (user, date), the upsert is the UPDATE of that row's title, text and update time |
| Tables.UpsertInserts | app.py:244-248 | in the INSERT case the upsert meets its full specification (the relation stated by `Tables.UpsertSpec`) |
| Tables.UpsertUpdates | app.py:238-243 | in the UPDATE case the upsert meets its full specification (the relation stated by `Tables.UpsertSpec`): the row `id` stays the entry for (user, date) |
| Tables.UpsertSpec | app.py:232-248 | after the upsert: exactly one entry for (user, date), with the new title, text and update time; an old entry keeps its id and its creation time, a new one was created at `now`; every other entry, the users, images and files are unchanged |
| Tables.UpsertInv | app.py:232-248 | the upsert keeps the invariant and the users table |
| Tables.UpsertTwice | app.py:216-253 | saving the same day twice leaves one entry, with the second save's values and the same id set |
| Tables.Placeholder | app.py:299-310 | the "ensure entry exists" step of `upload_images`: an empty entry for (user, date) is inserted when there is none (its specification is `Tables.PlaceholderSpec`) |
| Tables.PlaceholderSpec | app.py:299-310 | after the placeholder step there is exactly one entry for (user, date); a created one has empty title and text; an existing one is left alone |
| Tables.UpsertDated | app.py:224-248 | when every entry has a valid date, the upsert of a checked date keeps it so |
| Tables.PlaceholderDated | app.py:299-310 | when every entry has a valid date, the placeholder step for a checked date keeps it so |
| Tables.AddImage | app.py:327-331 | one stored upload: the file at its path and an image row of the entry under the next id |
| Tables.AddImageInv | app.py:322-331 | adding an image row at an unused path under its entry's directory keeps the invariant |
| Tables.StoredNone | app.py:314 | before the loop nothing has been stored |
| Tables.StoredStep | app.py:322-332 | one more stored upload extends the loop's relation by that upload: next image id, row under the entry, new path in the right directory, file added |
| Tables.SaveAllStored | app.py:316-332 | after the loop only image rows and files were added: one row per kept upload, with consecutive new ids, each under the entry for (user, date), recording the sanitized name and `now`, at a path in `<uid>/<date>/` not stored before; old rows unchanged; the new files are exactly the new rows' paths; the invariant holds |
| Tables.SaveAll | app.py:316-332 | the upload loop over the kept uploads, each stored in turn at a fresh path (its specification is `Tables.SaveAllStored`) |
| Tables.SameNameTwice | app.py:322-325 | two uploads of the same name become two rows with the same recorded name and different paths |
| Tables.DropEntry | app.py:268-280 | removing an entry, its image rows and their files |
| Tables.DropEntryInv | app.py:274-280 | dropping an entry with its images and their files keeps the invariant and leaves no image pointing at it |
| Tables.DeleteByDate | app.py:265-281 | `delete_entry`'s effect: the entry for (user, date), if any, is dropped (its specification is `Tables.DeleteByDateSpec`) |
| Tables.DeleteByDateOf | app.py:266-280 | deleting by date removes exactly the entry found for (user, date) |
| Tables.DeleteByDateSpec | app.py:266-283 | deleting by date keeps the invariant and leaves no entry for (user, date); with none it changes nothing; users, other users' entries and images, and their files are untouched |
| Tables.DeleteImageAs | app.py:346-361 | `delete_image`'s effect: the image row and its file go when the image belongs to an entry of the user, otherwise nothing changes (its specification is `Tables.DeleteImageSpec`) |
| Tables.DeleteImageSpec | app.py:346-362 | deleting an image keeps the invariant; for an image of another user or an id naming no image nothing changes; otherwise exactly that row and its file go, every other row stays with its file, and every other file stays |
| Calendar.Label | app.py:208 | the event label: the title, else the first 24 characters of the stripped text, else "Entry" (its properties are `Calendar.LabelRule` and the lemmas below) |
| Calendar.LabelRule | app.py:208 | the label is non-empty: the title if there is one; otherwise the first min(24, length) characters of the stripped text, starting with a non-space, when the text is not blank; otherwise "Entry" |
| Calendar.EventOf | app.py:209-213 | an entry's event starts on the entry's date, is all-day and has a non-empty title |
| Calendar.TitledLabel | app.py:208 | the entry titled "Trip" with no text is labelled "Trip" |
| Calendar.UntitledLabel | app.py:208 | the untitled entry with text " Beach " is labelled "Beach" |
| Calendar.BlankLabel | app.py:208 | the untitled entry whose text is tab, newline, space is labelled "Entry" |
| Diary.OrderLists | app.py:202-213 | events built from a duplicate-free listing of a user's entries list exactly those entries, on distinct days |
| Diary.Store.constructor | app.py:28-63 | a new store holds the empty database and an empty session, and is valid |
| Diary.Store.FindUser | app.py:140-142 | the lookup by user name returns the one user with that name, or none when there is none |
| Diary.Store.FindEntry | app.py:233-237 | the lookup by (user, date) returns the one entry there, or none when there is none |
| Diary.Store.GetCsrf | app.py:81-86 | the session and token are as `get_csrf` gives them; the tables are unchanged |
| Diary.Store.Register | app.py:103-131 | a bad token gives 400 and changes nothing; an empty stripped name, an empty password or a taken name re-renders the form and changes nothing; otherwise exactly one user is added, owning the name, and the session logs in as that user |
| Diary.Store.Login | app.py:134-152 | the tables never change; a bad token gives 400; a known name whose hash accepts the password clears the session and logs in that user with a fresh token; otherwise the form is shown again and the session is unchanged |
| Diary.Store.SetSession | app.py:146-149 | only the session changes, and the store stays valid |
| Diary.Store.Logout | app.py:154-157 | the session is cleared and the tables are unchanged |
| Diary.Store.ApiEvents | app.py:196-214 | not logged in (`login_required`, app.py:68-75): redirect to login; otherwise the JSON lists every entry of the current user once, no other user's entries, on distinct days |
| Diary.Store.ListEvents | app.py:202-213 | the loop emits one event per entry of the user and nothing else |
| Diary.Store.SaveEntry | app.py:216-253 | not logged in (`login_required`, app.py:68-75): redirect to login; bad token or bad date: 400 and nothing changes; otherwise the tables become the upsert of the stripped title and text, and the answer redirects to the entry; entries keep valid dates |
| Diary.Store.WriteEntry | app.py:232-248 | the SELECT followed by UPDATE or INSERT changes the tables exactly as the upsert |
| Diary.Store.SaveUpload | app.py:317-332 | an upload without a name or with a refused extension changes nothing; otherwise one image row and its file are added, at a fresh path |
| Diary.Store.SaveUploads | app.py:313-332 | `saved` is the number of kept uploads and the tables become `SaveAll` of them, the kept uploads stored one by one in order |
| Diary.Store.UploadImages | app.py:286-338 | not logged in (`login_required`, app.py:68-75): redirect to login; bad token, or a missing date or one `date.fromisoformat` refuses (app.py:291-294): 400 and nothing changes; otherwise the entry for (user, date) is created empty when missing, the kept uploads are stored under it in order, `saved` counts them, the entry stays even when nothing is kept, and the answer redirects to the entry; every entry keeps a valid date |
| Diary.Store.StoreUploads | app.py:296-332 | the placeholder step then the upload loop: one entry for (user, date), the kept uploads stored under it by the loop's relation, and the store valid |
| Diary.Store.EnsureEntry | app.py:296-310 | the tables become the placeholder step's, and the entry returned is the one for (user, date) |
| Diary.Store.DeleteEntry | app.py:255-284 | not logged in (`login_required`, app.py:68-75): redirect to login; bad token or bad date: 400 and nothing changes; otherwise the tables become the delete-by-date of (user, date), and the answer redirects to the dashboard |
| Diary.Store.RemoveEntry | app.py:266-278 | the tables lose the entry, its image rows and their files, as `Tables.DropEntry` says |
| Diary.Store.RemoveFiles | app.py:268-273 | the files of the given images are removed, a missing one being skipped, and nothing else changes |
| Diary.Store.DeleteImage | app.py:340-364 | not logged in (`login_required`, app.py:68-75): redirect to login; bad token: 400 and nothing changes; otherwise the tables become `DeleteImageAs` for the current user, a no-op unless the user owns the image |

## Left out

- Flask itself is not modelled: routing, templates, `flash` messages and URL building. A handler's outcome is a `Response` value. A redirect keeps only what the model can check: its target and, for `login_required`, the `next` path.
- The GET pages are not modelled (`dashboard`, `entry_page`, the GET forms of register and login, `uploaded_file`). They only read and render. Their one effect on state is `get_csrf`, which is modelled as `Diary.Store.GetCsrf`.
- SQLite is not modelled: connections, commits, the SQL text and schema creation. The tables are maps, and UNIQUE, the foreign keys and AUTOINCREMENT are the invariant and next-id counters. `ON DELETE CASCADE` is never triggered by the code, since it deletes rows explicitly and never deletes users, and it is not modelled.
- The filesystem is not modelled: `os.makedirs`, `f.save`, `os.path.exists`, `os.remove` and serving files. Files are a set of relative paths. A file already missing at deletion is skipped, which set difference gives for free.
- `Diary.Store.SaveUpload`: the prefix is not the random 16-digit hex of `secrets.token_hex(8)`. It is the shortest run of the hex letter `a` whose path is not stored yet. The model keeps what the code relies on, a non-empty hex prefix making a new path, and leaves out the negligible chance of a random collision.
- Password hashing is a parameter. `generate_password_hash` is the `passwordHash` argument of `Register`, and `check_password_hash` is the `checkPassword` argument of `Login`.
- `secure_filename` is the `sanitize` argument of the upload methods, and the model says nothing about its output.
- `datetime.utcnow().isoformat()` is the `now` argument. One value serves every timestamp of a request, where the code reads the clock once per row.
- `secrets.token_urlsafe(32)` is the `newToken` argument, assumed non-empty as the real token is.
- `MAX_CONTENT_LENGTH` is not modelled, since the framework enforces it before any handler runs.
- Concurrent requests are not modelled. The model is sequential, so the race between a SELECT and the following INSERT or UPDATE is not observed.
- Only one browser session is modelled. Other users act on the tables through their own sessions, which the lemmas about other users' rows cover.
- `static/js/calendar.js` is not part of this model: browser configuration only.
- Application start-up is not modelled.
- The session key `username` is written as the code writes it, but nothing the model states reads it.
- Form fields are strings, a missing text field being the empty string, as `request.form.get(key, "")` gives. The `date` field and the CSRF token may be missing and are `Option`s. `image_id` is an `Option<nat>`: SQLite compares the submitted digits with the integer id, so a non-numeric value matches no row and is `None`.
- `IsoDate.Parse`: the date check is the exact `YYYY-MM-DD` form that `date.fromisoformat` accepts up to Python 3.10. From Python 3.11 it also accepts other ISO 8601 forms such as `20250301`. Because the raw string is the key, the same day could then get two entries under two spellings. `IsoDate.SameDaySameString` shows this cannot happen under the modelled form.
- `Text.Lower` models `str.lower()` on ASCII letters only. No other character lower-cases into one of the allowed extensions, so `allowed_file` is unaffected.
- Image rows record the output of `secure_filename` as the original name, as the code does, rather than the name the browser sent.
