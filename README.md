# Memento backend — a Dafny model

This project models the request logic of the Memento backend, a FastAPI
service in Python. Memento is a "life in weeks" diary. A user stores one
event per (year index, week index), together with uploaded pictures. The
user also keeps special days (anniversaries and plans) and asks which of
them fall in the next few days. An administrator registers users, and each
user edits their own profile and avatar.

The model covers four source files:

- `backend/routes.py`: the handlers.
- `backend/utils.py`: the upload helpers.
- `backend/models.py`: the records and their column defaults.
- `backend/config.py`: the settings and the derived paths.

Each database table (`events`, `special_days`, `users`) is a class. Its
`rows` field is a `seq` of records in insertion order, which is the order
`.first()` and `.all()` see. The handlers that change a table are methods
with `modifies this`. Each such method is proved against a function that
states the outcome. A handler that raises ends its session without
`commit`, so on every error path the table is left unchanged.

Pure parts are functions. They cover:

- the `"year-week"` key;
- the listing comprehension;
- the crop box;
- extension and path naming;
- path derivation.

Modules, one per file:

- `Common`: `Option`, `Result`, the HTTP error values, and JSON values.
- `Strings`: the string built-ins the code relies on: decimal text,
  `str` `<`, `lstrip`, `replace`, `split(".")[-1]`, `lower`, and
  `os.path.join`.
- `Gregorian`: Python's `date`:
  - validity, which is where `date(...)` raises;
  - ordering and day differences (`timedelta.days`);
  - `isoformat`;
  - `strptime(s, "%Y-%m-%d")`;
  - `date.fromisoformat`.
- `Config`: `backend/config.py`.
- `Models`: `backend/models.py`, plus the rule by which SQLite numbers a new
  row (`max(id) + 1`).
- `Uploads`: `backend/utils.py`.
- `EventStore`: `get_events` and `save_event`.
- `SpecialDays`: the special-day handlers, including the upcoming query.
- `Users`: `register`, `update_user_me` and `upload_avatar`.

The repository also has a single-page front end, which is not modelled. It
shows a diary keyed by calendar date, a heatmap and an archive export. The
backend keys events by year and week index instead, and this model follows
the backend code.

## Model

| member | source | states |
|---|---|---|
| Config.StripDir | backend/config.py:66 | `lstrip("./")` leaves a suffix of the configured directory. That suffix starts with neither `.` nor `/`, and every character removed was `.` or `/` (a set of characters, not a prefix) |
| Config.StripDirIdempotent | backend/config.py:63-76 | stripping the directory twice gives the same text as stripping it once |
| Config.UploadDirPath | backend/config.py:64-66 | for a base directory without a trailing `/`, the upload directory is the base directory, `/`, and the stripped `UPLOAD_DIR` |
| Config.OriginalDirPath | backend/config.py:69-71 | for a base directory without a trailing `/`, the originals directory is the base directory, `/`, and the stripped `ORIGINAL_DIR` |
| Config.ThumbnailDirPath | backend/config.py:74-76 | for a base directory without a trailing `/`, the thumbnails directory is the base directory, `/`, and the stripped `THUMBNAIL_DIR` |
| Config.StripDotSlash | backend/config.py:66 | a setting of the form `./x…` (x neither `.` nor `/`) loses exactly its first two characters |
| Config.DefaultUploadDir | backend/config.py:63-66 | with the default `./uploads`, the upload directory is the base directory joined with `uploads` |
| Config.DefaultOriginalDir | backend/config.py:68-71 | with the default `./uploads/originals`, the originals directory is the base directory joined with `uploads/originals` |
| Config.DefaultThumbnailDir | backend/config.py:73-76 | with the default `./uploads/thumbnails`, the thumbnails directory is the base directory joined with `uploads/thumbnails` |
| Config.SqliteUrlParts | backend/config.py:82-83 | a URL that is `sqlite:///` followed by a file part without `:` passes the `startswith` test, and `replace` leaves exactly that file part |
| Config.DatabasePathSqliteFile | backend/config.py:82-84 | for such a URL, `database_path` is the base directory joined with the file part |
| Config.DatabasePathDefault | backend/config.py:33 | the default URL gives the base directory joined with `./data/memento.db` |
| Config.DatabasePathAbsolute | backend/config.py:82-84 | `sqlite:////var/lib/memento.db` gives `/var/lib/memento.db`, because `os.path.join` drops the base for an absolute part |
| Config.DatabasePath | backend/config.py:79-85 | a URL that does not start with `sqlite:///` is returned unchanged; one that does gives the base directory joined with the rest of the URL after every further occurrence of `sqlite:///` is removed from it, and, with a file part free of `:`, with that file part |
| Config.DefaultAdminDobValue | backend/config.py:43-48 | the default `1990-01-01` parses to 1 January 1990 |
| Config.DefaultAdminDob | backend/config.py:46-48 | a date it returns is valid, and its `isoformat()` is exactly the configured text |
| Strings.LStrip | backend/config.py:66 | `lstrip(chars)` returns a suffix of its input. The suffix does not start with a character of the set, and every character removed is in the set |
| Strings.LStripIdempotent | backend/config.py:66 | `lstrip` applied twice equals `lstrip` applied once |
| Strings.ReplaceAllLeadingOnly | backend/config.py:83 | when `pat + rest` holds the pattern only at its start, `replace` turns it into `rep + rest` |
| Strings.ReplaceAll | backend/config.py:83 | `replace` scans left to right and replaces non-overlapping occurrences: an occurrence at the start becomes `rep` and scanning resumes after it, otherwise the first character is kept; a text without any occurrence is unchanged |
| Strings.ReplaceAllMissingChar | backend/config.py:83 | a text that lacks one of the pattern's characters is left unchanged by `replace` |
| Strings.PathJoin | backend/config.py:66 | `os.path.join(a, b)` is `b` for an absolute `b`; for a relative `b` it is `a + "/" + b`, or `a + b` when `a` is empty or already ends in `/` |
| Strings.AfterLast | backend/utils.py:148 | `split(sep)[-1]` is a suffix of the text without `sep`. It is the whole text when `sep` is absent, and otherwise it is preceded by `sep` |
| Strings.Lower | backend/utils.py:148 | `lower()` on ASCII letters: it keeps the length and maps each character on its own |
| Strings.LowerKeepsChar | backend/utils.py:148 | lower-casing on ASCII letters neither adds nor removes a character that is not a letter, such as `.` |
| Strings.IntToStringRoundTrip | backend/models.py:85 | the decimal text of an integer is an optional `-` followed by digits, and it reads back as that integer |
| Strings.StrLessIrreflexive | backend/routes.py:570 | `str` `<` is irreflexive |
| Strings.StrLessTransitive | backend/routes.py:570 | `str` `<` is transitive |
| Strings.StrLessTotal | backend/routes.py:570 | of two different texts, one is `<` the other |
| Strings.PaddedDigitsValue | backend/routes.py:561 | zero-padded digits of width `w` read back as the number |
| Strings.PaddedDigitsOrder | backend/routes.py:570 | for zero-padded numbers of one width, text order is numeric order (both directions) |
| Gregorian.DaysInMonth | backend/routes.py:542 | every month has 28 to 31 days |
| Gregorian.MakeDate | backend/routes.py:542 | `date(y, m, d)` succeeds exactly when the year, month and day form a calendar date, and then holds those fields |
| Gregorian.Ordinal | backend/routes.py:557 | the day number of a date is at least its day of the month, and in January of year 1 it is that day |
| Gregorian.DaysBetween | backend/routes.py:557 | `(a - b).days` is zero exactly for the same date and positive exactly when `b` comes first |
| Gregorian.Feb29Exists | backend/routes.py:550 | `date(y, 2, 29)` exists exactly in leap years |
| Gregorian.OrdinalOrder | backend/routes.py:552-557 | date comparison agrees with day numbers in both directions, so `<`, `<=` and `(a - b).days` agree |
| Gregorian.DaysBetweenSameMonth | backend/routes.py:557 | within one month, `(b - a).days` is the difference of the days |
| Gregorian.IsoFormat | backend/routes.py:561 | `isoformat()` of a date is 10 characters long |
| Gregorian.IsoFormatOrder | backend/routes.py:570 | ISO text order is date order in both directions, so sorting by the `date` string is chronological |
| Gregorian.StrptimeYmd | backend/routes.py:297 | every date that `strptime("%Y-%m-%d")` accepts is a valid calendar date |
| Gregorian.StrptimeIsoRoundTrip | backend/routes.py:441 | `strptime` reads an `isoformat()` text back as the same date |
| Gregorian.StrptimeLenient | backend/routes.py:441 | `strptime` also accepts one-digit fields (`2024-1-5`) and a space-padded day (`2024-02- 9`) |
| Gregorian.StrptimeRejects | backend/routes.py:441-443 | `2023-02-29` and `2024-01-32` are refused, so the handler answers 400 |
| Gregorian.FromIsoFormat | backend/config.py:48 | a date that `fromisoformat` accepts is valid, and its `isoformat()` gives back the text it was read from |
| Gregorian.FromIsoFormatRoundTrip | backend/config.py:48 | `fromisoformat` reads an `isoformat()` text back as the same date |
| Models.NewUser | backend/models.py:23-36 | a new user keeps its id, name and hash, is not an administrator, has life expectancy 100, and has no birth date, nickname or avatar |
| Models.NewEvent | backend/models.py:61-74 | a new event keeps its owner, year and week, has mood `neutral`, no title, content or images, and today's `updated_at` |
| Models.NewGoal | backend/models.py:100-104 | a new goal keeps its owner and text and is not completed |
| Models.NewSpecialDay | backend/models.py:125-135 | a new special day keeps its owner, title and date, has type `anniversary`, repeats yearly, has a notification lead of 0 days, and is created today |
| Models.NextId | backend/models.py:23 | a new row's id is larger than every id in the table, and it is 1 for an empty table |
| Models.NextIdKeepsDistinct | backend/models.py:23 | adding a row with the next id keeps primary keys distinct |
| Models.YearWeekKey | backend/models.py:83-85 | the `"{year}-{week}"` key parses back to its year and week |
| Models.YearWeekKeyInjective | backend/models.py:83-85 | different (year, week) pairs have different keys |
| Uploads.ValidateImageSize | backend/utils.py:124-133 | the size check passes (returning True) exactly when size ≤ limit × 1024 × 1024, and fails with 400 otherwise |
| Uploads.GetFileExtension | backend/utils.py:146-148 | the result is `""` without a dot, and otherwise the lower-cased text after the last dot. It never contains a dot |
| Uploads.UploadName | backend/utils.py:40 | a missing or empty file name is replaced by a non-empty one (`image`) |
| Uploads.ProcessImage | backend/utils.py:39-47 | a file is stored exactly when its extension is in {jpg, jpeg, png, webp} and Pillow decodes it. A bad extension is 400 and a decoding failure is 500 |
| Uploads.StoreUpload | backend/routes.py:253-258 | an oversized file is refused as too large whatever its name; otherwise the outcome is that of `process_image` |
| Uploads.StoredPathsShareStem | backend/utils.py:49-103 | the original and the thumbnail share the stem. The original is `/static/originals/<stem>.<ext>`, and the thumbnail is `/static/thumbnails/<stem>_thumb.jpg`, so it always ends in `.jpg` |
| Uploads.NoDotRejected | backend/utils.py:41-43 | a name without a dot is refused with 400 |
| Uploads.MissingFilenameRejected | backend/utils.py:40-43 | a missing name becomes `image`, which is refused |
| Uploads.LastDotDecides | backend/utils.py:41 | only the text after the last dot counts, lower-cased |
| Uploads.UpperCaseExtensionAccepted | backend/utils.py:41-43 | `x.PNG` is accepted |
| Uploads.InnerDotIgnored | backend/utils.py:41-43 | `x.png.exe` is refused |
| Uploads.SizeLimitBoundary | backend/utils.py:125-127 | a file of exactly the limit passes, and one byte more fails |
| EventStore.ChosenImages | backend/routes.py:244-248 | a non-empty `images` list wins over `image`; the single `image` is used only without it; and nothing is uploaded exactly when neither is given |
| EventStore.Collect | backend/routes.py:250-260 | a completed loop has exactly one original and one thumbnail per pass |
| EventStore.StoreAll | backend/routes.py:250-260 | the upload loop succeeds exactly when every file is stored, entry k of each list then comes from file k, and a failure carries the error of the first file that fails |
| EventStore.CollectOk | backend/routes.py:250-260 | the upload loop succeeds exactly when every file is stored. The two path lists then have one entry per file, and entry k of each comes from file k |
| EventStore.CollectFirstError | backend/routes.py:253-258 | a failed loop reports the error of the first file that failed; all files before it succeeded |
| EventStore.ProcessUploads | backend/routes.py:250-260 | the loop computes exactly the path lists, or the error, that the specification fold gives |
| EventStore.FirstMatch | backend/routes.py:220-224 | the lookup finds the first row of that user, year and week, or states that there is none |
| EventStore.FirstOf | backend/routes.py:180-181 | the main image is the first list element, or None exactly when the list is empty |
| EventStore.NormaliseColumn | backend/routes.py:155-172 | an image column shows as no image exactly when it is missing, empty or the JSON list `[]`. A JSON list is taken as it is, a JSON scalar is wrapped in a list, and text that is not JSON is its own one image |
| EventStore.View | backend/routes.py:174-184 | a view copies id, title, content and mood, normalises both columns the same way, and has a main image exactly when its list is non-empty, namely the first one |
| EventStore.StoreEntriesKeys | backend/routes.py:148-175 | a key is in the dictionary exactly when some stored entry has it |
| EventStore.StoreEntriesLast | backend/routes.py:175 | the last entry stored with a key is the value under that key |
| EventStore.EventsMap | backend/routes.py:145-150 | the answer's keys are exactly the `"year-week"` keys of the user's events (both directions) |
| EventStore.EventsMapLast | backend/routes.py:149-184 | a later event with the same key replaces an earlier one, so the answer shows the view of the last event |
| EventStore.CollectEvents | backend/routes.py:145-186 | the loop over the rows builds exactly the dictionary of storing each of the user's rows in order under its key, a later row with the same key replacing an earlier one |
| EventStore.EventTable.GetEvents | backend/routes.py:145-186 | the handler answers exactly that dictionary for the table's current rows |
| EventStore.EventTable.SaveEvent | backend/routes.py:219-266 | the table becomes the upserted table, or stays unchanged with the upload's error |
| EventStore.Upserted | backend/routes.py:220-236 | with an existing (user, year, week) event, only that row is replaced by the saved row; without one, exactly that row is appended and every old row is kept |
| EventStore.SaveOutcome | backend/routes.py:219-266 | a save succeeds exactly when every chosen file is stored, fails with the error of the first file that is not, never shrinks the table, and keeps a valid table valid |
| EventStore.SavedRow | backend/routes.py:219-264 | the saved row has the form's user, year and week, and title, content, mood and date are overwritten, even with None. The image columns are replaced only when images were stored and are otherwise kept. It keeps the existing row's id, or takes a fresh one |
| EventStore.SaveKeepsTableValid | backend/routes.py:219-233 | an upsert keeps ids distinct and (user, year, week) unique |
| EventStore.SavedView | backend/routes.py:262-264 | the saved row's view shows the form's fields. When `json.loads` inverts `json.dumps`, it also shows the stored path lists |
| EventStore.SaveThenGet | backend/routes.py:236-264 | after a save, `get_events` has the week's key, and it shows the form's fields and the stored images in upload order |
| SpecialDays.Owned | backend/routes.py:417 | the user's rows belong to the user and come from the table |
| SpecialDays.OwnedDistinct | backend/routes.py:545 | the user's rows keep the table's ids distinct |
| SpecialDays.OwnedComplete | backend/routes.py:417 | every row of the user is among them |
| SpecialDays.ListSpecialDays | backend/routes.py:417-429 | the list has the view of every row of the user and only such views, and is no longer than the table |
| SpecialDays.Find | backend/routes.py:478-481 | the lookup finds a row with this id and owner, or states that none exists |
| SpecialDays.ListAppend | backend/routes.py:417-429 | appending a row adds its view at the end of its owner's list and changes no other user's list |
| SpecialDays.CreatedRow | backend/routes.py:446-453 | the created row holds the request's fields, the parsed date and today as creation date, under an id no other row has |
| SpecialDays.CreateKeepsTableValid | backend/routes.py:446-455 | a created row keeps ids distinct and rows valid |
| SpecialDays.CreateThenList | backend/routes.py:417-455 | after a create, the owner's list gains exactly the new view at the end, and another user's list is unchanged |
| SpecialDays.Merged | backend/routes.py:486-499 | a field supplied as non-None takes the request's value and one left out keeps its stored value; the id, owner and creation date never change |
| SpecialDays.MergeIdempotent | backend/routes.py:486-499 | applying the same update twice equals applying it once |
| SpecialDays.MergeEmpty | backend/routes.py:486-499 | an update with no fields leaves the row as it was |
| SpecialDays.UpdateOutcome | backend/routes.py:477-499 | a missing or foreign row is 404 before the date is looked at, and a date strptime refuses is 400. Success happens exactly when neither applies, and then only that row changes, to the merged row |
| SpecialDays.UpdateKeepsTableValid | backend/routes.py:486-501 | a successful update keeps the table valid and changes only the row with that id |
| SpecialDays.SpecialDayTable.Create | backend/routes.py:439-466 | a bad date gives 400 and leaves the table unchanged. Otherwise one row with a fresh id is appended, its view is returned, and the table stays valid |
| SpecialDays.SpecialDayTable.Update | backend/routes.py:477-512 | there is a 404 for a missing or foreign row and a 400 for a bad date, and on either error nothing is committed. Otherwise the merged row is committed and returned |
| SpecialDays.DeleteRemovesOnlyThat | backend/routes.py:522-530 | a delete removes the one row with that id and keeps every other row |
| SpecialDays.SpecialDayTable.Delete | backend/routes.py:521-531 | there is a 404 for a missing or foreign row and the table is unchanged; otherwise exactly that row is removed |
| SpecialDays.WindowEnd | backend/routes.py:542 | `date(today.year, today.month, today.day + days)` exists exactly when the day stays within today's month, and then is that day of today's month |
| SpecialDays.Projected | backend/routes.py:550-553 | a projected date, when `date()` does not raise, is a valid date with the stored month and day; a one-off day stays in this year; a repeating day moves to next year exactly when its date this year is before today, so it is never before today; the result is missing exactly when `date()` raises for this year, or for next year after a rollover |
| SpecialDays.Candidate | backend/routes.py:550-567 | a pass fails exactly when the projection is refused, always with a 500. It lists the day exactly when the projection is in the window, with the row's fields, both ISO dates and `days_until` ≥ 0 |
| SpecialDays.GatherContents | backend/routes.py:546-567 | the loop succeeds exactly when every pass does; an entry is in the list exactly when some pass kept it, and it appears as many times as passes kept it; an error comes from some pass |
| SpecialDays.GatherDistinctIds | backend/routes.py:548-567 | over rows with distinct ids, the kept entries have distinct ids, since each carries the id of its own row |
| SpecialDays.Insert | backend/routes.py:570 | insertion keeps the contents (multiset) |
| SpecialDays.SortByDate | backend/routes.py:570 | the sort is a permutation (multiset) |
| SpecialDays.SortByDateSorted | backend/routes.py:570 | the output is in ascending order of the ISO `date` string |
| SpecialDays.SortByDateStable | backend/routes.py:570 | entries with equal dates keep their order (the sort is stable) |
| SpecialDays.SortByDateDistinctIds | backend/routes.py:570 | sorting keeps the ids of the entries distinct |
| SpecialDays.UpcomingWith | backend/routes.py:545-571 | the answer is a 500 exactly when one of the user's days cannot be projected. Otherwise it holds exactly the user's entries in the window, sorted by date, each as many times as passes over the user's rows kept it; no two entries share an id, so no day is listed twice |
| SpecialDays.PassFails | backend/routes.py:550-553 | a day whose projection `date()` refuses ends the whole request with a 500, whatever the later days are |
| SpecialDays.PassKeeps | backend/routes.py:556-567 | a day with projected date `t` adds its entry exactly when `t` is in the window, and nothing otherwise |
| SpecialDays.CollectUpcoming | backend/routes.py:548-567 | the loop stops with a 500 at the first day `date()` refuses and otherwise collects, in order, exactly the entries the passes keep, for either window |
| SpecialDays.SpecialDayTable.GetUpcoming | backend/routes.py:541-571 | the handler as written computes exactly `Upcoming`: a 500 when the window end does not exist, and otherwise the loop against that end date followed by the sort |
| SpecialDays.SpecialDayTable.GetUpcomingIntended | backend/routes.py:541-571 | with the window `today + days` (see Findings), the loop and the sort compute exactly the intended answer, including the 500 paths where `date()` raises |
| SpecialDays.WindowsAgree | backend/routes.py:542-556 | when the window end exists, `t <= future_date` is the same as `t` being at most `days` days ahead |
| SpecialDays.EndDateAgreesWithSpan | backend/routes.py:542-556 | whenever the window end exists, testing against it gives the same answer as testing against `days` |
| SpecialDays.Upcoming | backend/routes.py:541-571 | the handler as written is a 500 when the window end overruns the month, and otherwise answers exactly what `today + timedelta(days)` would |
| SpecialDays.UpcomingIntended | backend/routes.py:545-571 | the intended answer fails only with a 500; otherwise it is sorted by date, no two entries share an id, and every listed entry has `0 ≤ days_until ≤ days` |
| SpecialDays.LeapDayFails | backend/routes.py:550-553 | a stored 29 February makes the whole request a 500 in a non-leap year |
| SpecialDays.RepeatingLeapDayFails | backend/routes.py:550-553 | in a leap year after 29 February, a repeating 29 February rolls over to next year, which has no such day, so the whole request is a 500 |
| SpecialDays.WindowEndPastMonthEnd | backend/routes.py:542 | on 30 January with 7 days, the request is a 500, although 2 February is 3 days away and in the window |
| SpecialDays.IntendedListsNextMonth | backend/routes.py:542-567 | with the intended window, a day stored as 2 February is listed on 30 January with `days_until` 3 |
| Users.FindByName | backend/routes.py:104 | the lookup finds the first user with that name, or states that there is none |
| Users.RegisterOutcome | backend/routes.py:103-121 | non-administrators get 403 before the name is checked, and a taken name gets 400. Registration succeeds exactly when neither applies, and then keeps every row and appends one non-admin user with the hash and a fresh id, which the name lookup finds |
| Users.RegisterKeepsTableValid | backend/routes.py:103-121 | a registration keeps ids distinct and usernames unique |
| Users.RegisterTwiceFails | backend/routes.py:104-108 | registering the same name again gives 400 |
| Users.UserTable.Register | backend/routes.py:77-123 | non-administrators get 403 and a taken name gets 400, and on either error the table is unchanged. Otherwise the new user is appended |
| Users.ProfileRequest | backend/routes.py:285-289 | a request giving only the birth date has life expectancy 100 and no nickname or avatar |
| Users.Profiled | backend/routes.py:301-308 | the birth date and life expectancy are always set, the nickname and avatar only when given, and identity and role are kept |
| Users.ProfiledIdempotent | backend/routes.py:301-308 | applying the same profile update twice equals applying it once |
| Users.UserTable.UpdateUserMe | backend/routes.py:292-316 | a bad date gives 400 and leaves the table unchanged. Otherwise the caller's row becomes the updated profile, which is returned |
| Users.AvatarOutcome | backend/routes.py:342-392 | the result is 400 for a type outside {jpeg, png, gif, webp}, then 400 above 5 MiB, then 500 when decoding fails. Success happens exactly when all three checks pass, and gives a `/static/avatars/…jpg` URL |
| Users.AvatarSizeBoundary | backend/routes.py:350-351 | exactly 5 MiB passes, and one byte more is refused |
| Users.AvatarFileName | backend/routes.py:372 | the name is `avatar_`, the decimal id, `_`, at most eight hex digits and `.jpg`, in that order |
| Users.AvatarFileNameInjective | backend/routes.py:372 | two avatar names are equal only for one user and the same first eight hex digits |
| Users.CenterCropBox | backend/routes.py:362-366 | the crop is a square of side `min(w, h)`, inside `[0, w] × [0, h]`, with the margins on each axis differing by at most one pixel |
| Users.SquareNotCropped | backend/routes.py:362-366 | a square image is not cropped |
| Users.UserTable.UploadAvatar | backend/routes.py:319-392 | the result is that outcome. Only the caller's `avatar_url` changes, only on success, and the table stays valid |

## Left out

- Authentication: JWT decoding, bcrypt and the 401 path of `get_current_user` are left out. The caller is an index into the user table, and the password hash is a function parameter.
- The admin gate of `get_current_admin_user` (backend/auth.py:165-169) is modelled inside `Users.RegisterOutcome` as the first check. The rest of auth.py is not part of this model, including `create_initial_admin`.
- The login and health endpoints, the FastAPI wiring in backend/main.py, and the engine and session set-up in backend/database.py are not part of this model.
- Pillow is left out: decoding, EXIF transpose, mode conversion, resizing, and JPEG quality. An upload carries only whether decoding succeeds and its pixel size.
- File writes, file deletion, `makedirs`, `ensure_directories` and the file seeks are left out. They are side effects on the file system.
- `uuid.uuid4()` and `date.today()` are parameters, and so are `json.dumps` and `json.loads`.
- Uploads.ValidateImageSize: the size is compared as an exact rational number rather than as a float. For sizes below 2^53 bytes the two agree.
- Gregorian.StrptimeYmd: only ASCII digits are accepted, while CPython's `\d` also matches other Unicode digits.
- Gregorian.FromIsoFormat: only the `YYYY-MM-DD` form is modelled, so the extra forms Python 3.11 accepts (week dates, the basic format without dashes) are refused.
- Strings.Lower: only the ASCII letters `A`-`Z` are lower-cased, while Python's `str.lower` also maps other letters; Uploads.GetFileExtension therefore compares a non-ASCII extension unchanged.
- Strings.LowerKeepsChar: stated for that ASCII lower-casing only.
- JSON numbers are integers only (`Common.Json`); a float in a stored image column is not modelled.
- The request defaults that FastAPI fills in before a handler runs are not modelled: `mood = Form("neutral")` of `save_event` (backend/routes.py:195) and `days: int = 7` of the upcoming query (backend/routes.py:536). Both are plain inputs of the model.
- The columns `special_days.date` and `created_at` are non-null. The model therefore never takes the `if day.date else None` branches in the special-day views.
- Row order is insertion order, which is what SQLite without `ORDER BY` returns for these queries, though SQL does not guarantee it.
- The avatar's directory path (`os.path.join(settings.UPLOAD_DIR, "avatars")`) is I/O only and is left out; its public URL is modelled.
- Goals have no handlers in the modelled files. Only their record shape and defaults are modelled.
- Concurrency is left out: each request is one atomic step on the tables.

## Findings

| source | as written | input that shows it | evidently intended | confidence | as-written member | corrected member |
|---|---|---|---|---|---|---|
| backend/routes.py:542 | `future_date = date(today.year, today.month, today.day + days)` builds the window end inside today's month | `today` = 30 January, `days` = 7: `date(y, 1, 37)` raises, so the request fails with a 500 although 2 February is 3 days away | `today + timedelta(days=days)`, which lists 2 February with `days_until` 3 | high (not executed) | SpecialDays.WindowEndPastMonthEnd | SpecialDays.IntendedListsNextMonth |

`SpecialDays.Upcoming` and the class method `GetUpcoming` model the
handler as written. `SpecialDays.UpcomingIntended` and the class method
`GetUpcomingIntended` use the intended window. `SpecialDays.Upcoming`'s
contract states that the handler as written answers exactly what the
intended one does whenever the written window end exists, and is a 500
otherwise. `SpecialDays.UpcomingIntended` proves `0 ≤ days_until ≤ days`
for the intended version.
