# Personal ledger core in Dafny

A model of the non-UI core of a small personal-ledger desktop application. The
application keeps income and expense entries in one CSV file per user and user
accounts in a JSON document. It draws monthly summaries from the entries. The
model covers four modules, plus the date format they share:

- `models/transaction.py`: the five-field ledger entry and its validator
  (`transaction.dfy`). The date check is a model of
  `datetime.strptime(date, "%Y-%m-%d")` (`date_format.dfy`). It covers the
  regular expression that CPython builds for the format, the whole-string
  match, and the calendar check of `datetime.date`.
- `services/analytics.py`: the month summary and the daily net series,
  as functions over a sequence of rows (`analytics.dfy`). A pandas frame is a
  `seq<Row>`; the summary is a sequence of
  `SummaryRow(category, income, expense, net)`; the series is a sequence of
  `(date, net)` pairs.
- `services/storage.py`: the CSV store, as a class `LedgerStore` whose
  state is the file system seen as `map<Path, seq<Row>>`. A path that is not a
  key has no file. The delete-by-selection of the account book page, which is
  "overwrite with the unselected rows", is a method of the same class
  (`storage.dfy`).
- `services/auth.py`: user records, registration, login, lookup, profile
  update with the avatar file-name rule, and the signed-in-user cell
  (`auth.dfy`). The JSON document is a `map<string, map<string, Json>>`. The
  service is a class `AuthService` whose `db` field is the document as last
  saved. The module-global current user is a `Session` object passed to
  `UpdateProfile`.

`wrappers.dfy` holds the `Option` and `Outcome` types. Exceptions are modelled
as values: `Validate` returns `Fail(which check)` where Python raises
`ValueError`.

Inputs the core cannot compute become parameters:
- the SHA-256 digest is an uninterpreted `hash: string -> string`, not assumed
  injective;
- whether the avatar file could be copied is a `bool`;
- the loaded JSON document is the `stored` argument of the service's
  constructor.

## Model

The account service's methods are stated through pure functions of the document: `Auth.Registered` (services/auth.py:87-103), `Auth.LoggedIn` (services/auth.py:111-118), `Auth.StoredUser` (services/auth.py:122-123), and `Auth.ProfileUpdated` (services/auth.py:144-157), which composes `Auth.WithDisplayName`, `Auth.WithPassword` and `Auth.WithAvatar`, with `Auth.SavedAvatar` for the copy. Their behaviour is stated by the rows of the lemmas and methods below that use them.

| member | source | states |
|---|---|---|
| DateFormat.Parse | app/config.py:19 | The `%Y-%m-%d` parse. Any date it yields is a valid Gregorian date with a year of 1 to 9999, and the accepted text is 8 to 10 characters long. |
| DateFormat.ParseShape | app/config.py:19 | A four-digit year, `-`, a month token and `-`, then a day token, parses exactly when the numbers form a valid calendar date, and yields that date. Month tokens are `1`-`9`, `01`-`09` and `10`-`12`. Day tokens are one or two digits, or a blank and a digit. |
| DateFormat.ParseOnlyShape | app/config.py:19 | Conversely, every accepted string has that token shape; nothing else parses. |
| DateFormat.ParseFormatRoundTrip | app/config.py:19 | Writing a valid date as zero-padded `YYYY-MM-DD` and parsing it back gives the same date. |
| DateFormat.Format4Value | app/config.py:19 | Four-digit zero-padding of a year up to 9999 is a year token whose value is the year. |
| DateFormat.Format2Value | app/config.py:19 | Two-digit zero-padding reads back as the same number. |
| DateFormat.LeapDay | app/config.py:19 | `YYYY-02-29` parses exactly when the year is at least 1 and is a Gregorian leap year. |
| DateFormat.FormatDate | ui/pages/account_book.py:53 | `strftime("%Y-%m-%d")` of a valid date: ten characters with `-` at positions 4 and 7, whose three fields are a year, a month and a day token reading back as the date's year, month and day. |
| DateFormat.TokenValues | app/config.py:19 | The year, month and day tokens have values within 0..9999, 1..12 and 1..31. |
| DateFormat.RejectsMonth13 | models/transaction.py:32 | `2025-13-01` is refused. |
| DateFormat.RejectsFebruary30 | models/transaction.py:32 | `2024-02-30` is refused. |
| DateFormat.RejectsYearZero | models/transaction.py:32 | `0000-01-01` is refused: `datetime.date` has no year 0. |
| DateFormat.RejectsCommonLeapDay | models/transaction.py:32 | `2023-02-29` is refused. |
| DateFormat.AcceptsOneDigitFields | app/config.py:19 | `2025-8-1` is accepted as 1 August 2025: the format does not demand zero padding. |
| DateFormat.AcceptsBlankPaddedDay | app/config.py:19 | `2025-08- 1` is accepted as 1 August 2025: a blank may pad the day. |
| Transaction.Validate | models/transaction.py:24-36 | Passing implies that the date parses and the amount is an integer (a `bool` included). |
| Transaction.IsInt | models/transaction.py:35 | `isinstance(amount, int)` holds exactly for an integer or a `bool`, and for nothing else. |
| Transaction.ValidateAcceptsExactly | models/transaction.py:24-36 | Validation passes if and only if the date parses, the type is `수입` or `지출`, and the amount is an integer. |
| Transaction.ValidateReportsFirstFailure | models/transaction.py:32-36 | The checks run in order. A bad date is reported whatever the type and amount. A bad type is reported only for a good date. A bad amount is reported only when date and type are good. |
| Transaction.ValidateIgnoresCategoryAndDescription | models/transaction.py:24-36 | Category and description never affect the outcome; empty ones included. |
| Transaction.NegativeAmountAccepted | models/transaction.py:35-36 | Only the type of the amount is checked: a negative integer passes. |
| Transaction.FormattedEntryValid | models/transaction.py:24-36 | An entry dated with a formatted valid date, with a known type and an integer amount, passes. |
| Transaction.CalendarErrorsRejected | models/transaction.py:32 | Month 13, 30 February and 29 February of a common year fail with the date error, before the type or amount are looked at. |
| Storage.Ensured | services/storage.py:15-17 | After `ensure_csv` the path has a file. An existing file keeps its rows; a new one is empty. Other paths are unchanged. An existing file means no change at all. |
| Storage.Appended | services/storage.py:35-38 | Appending changes no path other than the one written. |
| Storage.Overwritten | services/storage.py:40-45 | Overwriting changes no path other than the one written. |
| Storage.LedgerStore.EnsureCsv | services/storage.py:10-17 | The new state is `Ensured` of the old: the file is created header-only only when missing. |
| Storage.LedgerStore.ReadAll | services/storage.py:19-28 | Returns the stored rows in file order (none for a missing file) and leaves the file ensured. |
| Storage.LedgerStore.AppendRow | services/storage.py:30-38 | The new state is `Appended` of the old: a read-modify-write of the whole file, with no validation of the row. |
| Storage.LedgerStore.Overwrite | services/storage.py:40-45 | The file at the path becomes exactly the given rows. |
| Storage.LedgerStore.DeleteSelected | ui/pages/account_book.py:177-194 | With nothing selected nothing is written. Otherwise the file becomes its rows minus the selected positions. |
| Storage.EnsureIdempotent | services/storage.py:15-17 | Ensuring twice is ensuring once. |
| Storage.ReadAfterAppend | services/storage.py:35-38 | Reading after an append gives the old rows followed by exactly the new row, so one more row. |
| Storage.ReadAfterOverwrite | services/storage.py:40-45 | Reading after an overwrite gives exactly the written rows, the empty sequence included, whatever was there before. |
| Storage.OtherPathsUntouched | services/storage.py:10-45 | Ensure, append and overwrite leave the rows at every other path as they were. |
| Storage.ReadAfterAppendEach | services/storage.py:30-38 | Appending rows one at a time and reading back gives the old rows followed by the new ones, in order. |
| Storage.FreshFileRoundTrip | tests/test_storage.py:11-15 | On a path with no file: ensure, append one row with amount 5000, and read. The result is one row with amount 5000. |
| Storage.KeptPositions | ui/pages/account_book.py:183-191 | The positions below the row count that are not selected, strictly increasing: a position is listed exactly when it is not selected. |
| Storage.Unselected | ui/pages/account_book.py:183-191 | Deleting a selection never adds rows. |
| Storage.UnselectedPositions | ui/pages/account_book.py:183-191 | The kept rows are, in order, the rows at the unselected positions: the k-th kept row is the row at the k-th unselected position. |
| Storage.UnselectedKeepsTheRest | ui/pages/account_book.py:183-191 | The kept rows plus the selected positions account for every row. Each kept row is an old row, and every unselected row is kept. |
| Storage.UnselectedNothing | ui/pages/account_book.py:183-191 | An empty selection keeps every row in order. |
| Storage.DeleteThenRead | ui/pages/account_book.py:177-194 | Deleting a selection and then reading the file gives exactly the unselected rows of the file as it was before, in order. |
| Analytics.InMonth | services/analytics.py:10 | A row is kept exactly when its date string starts with the `YYYY-MM` prefix, and no rows are invented. |
| Analytics.InMonthCounts | services/analytics.py:10 | Each row occurs in the filtered rows exactly as often as in the input when its date has the prefix, and not at all otherwise. |
| Analytics.GroupKeys | services/analytics.py:13-15 | The categories are exactly those with a `수입` or `지출` row, each listed once. |
| Analytics.Groups | services/analytics.py:13-17 | One summary row per such category, with the per-side sums. |
| Analytics.InsertByNet | services/analytics.py:18 | Inserting into a list sorted by net keeps it sorted. The result is a permutation of the list plus the new row, and distinct categories stay distinct. |
| Analytics.SortByNet | services/analytics.py:18 | The result is sorted by net, non-increasing, is a permutation of the input and keeps categories distinct. |
| Analytics.MonthSummary | services/analytics.py:3-18 | A month with no rows gives an empty summary. The rows are sorted by net, non-increasing, and no category appears twice. The categories are exactly those with an income or expense row in the month. Each row's income and expense are the sums of that category's month rows of that type, and its net is income minus expense. |
| Analytics.SortedGroupsFacts | services/analytics.py:13-18 | The grouped rows have distinct categories. Any permutation of them has exactly the tracked categories, each row carrying the correct per-category sums. |
| Analytics.MissingSideIsZero | services/analytics.py:15 | A category with no row of one type has 0 on that side. |
| Analytics.LexPrefixFirst | services/analytics.py:28 | Python's string order, used by `sort_index`, puts a proper prefix before the text it begins. |
| Analytics.LexIrreflexive | services/analytics.py:28 | No date string sorts before itself. |
| Analytics.LexTransitive | services/analytics.py:28 | String order is transitive. |
| Analytics.LexTotal | services/analytics.py:28 | Two different date strings are ordered one way or the other. |
| Analytics.Signed | services/analytics.py:27 | `sign_amt` is the amount for a `수입` row and its negation for a row of any other type. |
| Analytics.Lookup | services/analytics.py:28 | A date absent from the series reads as 0. |
| Analytics.AddAt | services/analytics.py:28 | Adding an amount at a date keeps the series strictly ascending. It adds the date to the key set, and changes only that date's value, by exactly the amount. |
| Analytics.LookupAt | services/analytics.py:28 | In a strictly ascending series each entry's value is what its date reads as. |
| Analytics.DailyTotals | services/analytics.py:27-28 | The totals are strictly ascending by date. They have one entry per date present, and each value is that date's sum of `+amount` for `수입` and `-amount` for every other type. |
| Analytics.DailyNetSeries | services/analytics.py:20-29 | A month with no rows gives an empty series. Dates are unique and ascending, exactly the month's dates, and each value is that date's signed sum over the month's rows. |
| Analytics.AugustGroups | services/analytics.py:13-17 | Example: one expense of 5000 for `식비` and one income of 2000000 for `월급` group into two rows, each with a zero side. |
| Analytics.AugustSummary | services/analytics.py:3-18 | Example: the summary lists the income category first because its net is larger. |
| Analytics.AugustDaily | services/analytics.py:20-29 | Example: the daily series is the two days in ascending order with signed amounts. |
| Analytics.AugustAddEarlierDay | services/analytics.py:28 | An earlier date is placed in front. |
| Analytics.LexPrefixStep | services/analytics.py:28 | Strings that agree up to a position are ordered by their first differing character. |
| Analytics.UntrackedTypeExample | services/analytics.py:13-15 | A row of another type is left out of the summary but counted as an outflow by the daily series. |
| Auth.Strip | services/auth.py:87 | `str.strip` yields the empty string exactly for all-whitespace text, and otherwise neither starts nor ends with whitespace. |
| Auth.StripLeft | services/auth.py:87 | Leading whitespace is removed: the result is a suffix that is empty only for blank text. |
| Auth.StripRight | services/auth.py:87 | Trailing whitespace is removed: the result is a prefix that is empty only for blank text. |
| Auth.StripLeftDropsBlanks | services/auth.py:87 | Every character `lstrip` drops is whitespace. |
| Auth.StripRightDropsBlanks | services/auth.py:87 | Every character `rstrip` drops is whitespace. |
| Auth.StripRemovesOnlyBlanks | services/auth.py:87 | The stripped text is a contiguous part of the input with only whitespace before and after it. |
| Auth.StripIdempotent | services/auth.py:87 | Stripping twice is stripping once. |
| Auth.StripKeepsTrimmed | services/auth.py:87 | Text with non-blank ends is unchanged by stripping. |
| Auth.LastIndex | services/auth.py:209 | The last position of a character, or -1 when it does not occur. |
| Auth.LastIndexIs | services/auth.py:209 | The last position is determined by its definition. |
| Auth.LowerAscii | services/auth.py:209 | Lower-casing keeps the length and maps each character on its own: `A`-`Z` become `a`-`z`, everything else is kept, so no upper-case ASCII letter is left. |
| Auth.ToDict | services/auth.py:58-64 | `to_dict` writes exactly the keys `username`, `display_name`, `password_hash` and `avatar`; all but `avatar` are strings, and `avatar` is null exactly when the user has none. |
| Auth.ToDictFields | services/auth.py:58-64 | Each key of `to_dict` holds the matching attribute. |
| Auth.FromDict | services/auth.py:50-56 | A user is read exactly when `username` and `password_hash` are strings. |
| Auth.FromDictToDict | services/auth.py:50-64 | `from_dict(to_dict(u))` is `u`, except that an empty display name comes back as the username. |
| Auth.DisplayNameFallback | services/auth.py:53 | The display name is the first non-empty of `display_name`, `nickname` and `username`. |
| Auth.AvatarExtension | services/auth.py:209 | `src.suffix.lower() or ".png"`: the lower-cased suffix of the source's file name, or `.png` exactly when that name has no suffix. Either way a dot and at least one more character, with no further dot, no `/` and no upper-case letter. |
| Auth.FileName | services/auth.py:209 | `Path.name` is the tail of the path after its last `/`: it holds no `/`, and it is all of the path when there is no `/`. |
| Auth.Suffix | services/auth.py:209 | A non-empty `Path.suffix` is a dot and at least one more character, taken from the end of the name, shorter than the name, with no further dot. |
| Auth.SuffixNoneExactly | services/auth.py:209 | A name has no suffix exactly when every dot strictly inside it is followed by another dot; a leading or trailing dot alone gives none. |
| Auth.AvatarPath | services/auth.py:202-210 | For a username that does not start with `/`, the destination is exactly the avatar directory, `/`, the username and the extension (`data/avatars/<username>.<ext>`). A username starting with `/` is taken by `pathlib` as the whole path, so the destination is the username and the extension. For a username without `/`, the file name is the username followed by the extension. |
| Auth.AvatarPathSlashInUsername | services/auth.py:210 | For a username containing `/`, the destination text is the directory, the part of the username before its last `/`, and then the rest with the extension (or, for a username starting with `/`, that path alone). The file name is what follows the last `/`, plus the extension. |
| Auth.CopyAvatar | services/auth.py:200-215 | A path is returned exactly when the copy succeeded. Unless the username starts with `/`, it is exactly the avatar directory, `/`, the username and the extension; otherwise it is the username and the extension. It is named after the username when that holds no `/`. |
| Auth.AvatarExtensionLowersSuffix | services/auth.py:209 | `C:/pictures/Me.JPG` gives `.jpg`. |
| Auth.AvatarExtensionLastSuffix | services/auth.py:209 | `archive.tar.gz` gives `.gz`. |
| Auth.AvatarExtensionNoDot | services/auth.py:209 | A name without a dot gives `.png`. |
| Auth.AvatarExtensionHiddenFile | services/auth.py:209 | `.face` has no suffix and gives `.png`. |
| Auth.AvatarExtensionTrailingDot | services/auth.py:209 | `me.` has no suffix and gives `.png`. |
| Auth.RegisterRejectsEmpty | services/auth.py:87-89 | A blank username, an empty password or an empty display name is refused. |
| Auth.RegisterRejectsTaken | services/auth.py:91-93 | A username taken after stripping is refused. |
| Auth.RegisterAddsOneRecord | services/auth.py:95-103 | Success adds exactly one new key, the stripped username, and keeps every other record. |
| Auth.RegisterStoresNewUser | services/auth.py:95-100 | The new record reads back with the stripped username, the stripped display name (the username if that is empty), the password's hash and no avatar. |
| Auth.RegisterBlankDisplayName | services/auth.py:88 | A blank display name passes the emptiness check and is stored as the empty string. |
| Auth.ProfileUpdatePolicy | services/auth.py:144-162 | Read back through `from_dict`, the updated record keeps the username. The display name becomes the stripped new one only if that is non-blank. The hash changes only for a non-blank new password of length at least 4. The avatar changes only when a copy produced a path. |
| Auth.ProfileKeepsUsername | services/auth.py:144-157 | `username` and `nickname` are never written. |
| Auth.ProfileDisplayNameRule | services/auth.py:146-147 | `display_name` is replaced only by a non-blank value, stripped. |
| Auth.ProfilePasswordRule | services/auth.py:149-151 | `password_hash` is replaced only for a non-blank password of at least four characters. |
| Auth.ProfileAvatarRule | services/auth.py:154-157 | `avatar` is replaced only when the copy produced a path. |
| Auth.ShortPasswordIgnored | services/auth.py:150-152 | A new password shorter than four characters leaves the hash as it was. |
| Auth.LoginIsLookupWithMatchingHash | services/auth.py:111-118 | Login gives the stored user exactly when that user's hash equals the password's hash, and nothing otherwise. |
| Auth.RegisterThenLogin | services/auth.py:81-118 | After a registration the stripped name logs in with the same password and yields the stored user. A password with another hash is refused. |
| Auth.LoginDoesNotStrip | services/auth.py:87-111 | Registration strips the name but login does not, so a name typed with surrounding blanks cannot log in as typed. |
| Auth.NewPasswordLogsIn | services/auth.py:149-151 | After a password change the new password logs in, and a password with a different hash is refused. |
| Auth.Session.constructor | services/auth.py:25 | Nobody is signed in at start. |
| Auth.Session.Get | services/auth.py:28-30 | `get_current_user` returns the last value set. |
| Auth.Session.Set | services/auth.py:33-36 | `set_current_user` replaces the value. |
| Auth.AuthService.constructor | services/auth.py:177-183 | The service starts from the stored document, or an empty one when there is none. |
| Auth.AuthService.Register | services/auth.py:81-103 | Returns True exactly when registration succeeds. The document then becomes the one with the new record; otherwise it is unchanged. |
| Auth.AuthService.Login | services/auth.py:105-118 | Returns a user if and only if a non-empty record exists under the name as given, its hash is the password's, and it reads as a user. That user carries the password's hash. The document is not changed. |
| Auth.AuthService.GetUser | services/auth.py:120-123 | Returns the stored user for a non-empty record, and None for an unknown name or an empty record. |
| Auth.AuthService.UpdateProfile | services/auth.py:125-169 | An unknown name gives None and changes nothing. Otherwise only that record changes, by the three field rules, and the returned user is the record read back. The session takes the updated user if and only if it held a user of that name; otherwise it is untouched. |
| Auth.SignUpAndSignIn | services/auth.py:81-118 | On a fresh document: a sign-up succeeds and a second sign-up of the same name is refused. The right password logs in as the new user, and a password with another hash does not. |
| Auth.SessionFollowsOwnProfile | services/auth.py:165-167 | A profile change of the signed-in user shows in the session; a change to another user leaves the session as it was. |

## Left out

- The user interface (tkinter pages, charts, colours, fonts), the module-level `mkdir` calls, and the CSV/JSON text formats (UTF-8 with BOM, `json.dumps` layout) are not modelled.
- DateFormat.Parse: only ASCII digits are modelled. Python's `\d` also matches other Unicode decimal digits, which `strptime` would accept.
- pandas typing and coercion are not modelled. `read_all` asks for an `int` amount, and a blank or non-numeric amount cell makes it raise; the model's rows always hold integers. `append_row` re-reads the file without types, and its values are the same integers here. An empty text cell, such as an empty description, is read back by pandas as NaN rather than `""`, so Storage.ReadAfterAppend and Storage.ReadAfterOverwrite give back the rows as written to the file, not the values pandas makes of them.
- Storage.LedgerStore.ReadAll: a file that cannot be read or parsed raises in Python; the model has no read errors.
- Storage.LedgerStore.DeleteSelected: the page rebuilds rows from the table's display values (amounts with thousands separators parsed back). The model takes those to be the file's rows as last loaded.
- Per-user CSV paths: `csv_path_for_user` is called by the account book page but is not defined in `services/storage.py`, so paths are plain parameters.
- Analytics.MonthSummary: pandas' default sort is not stable, so the order of rows with equal net is not promised. The model sorts stably but states only sortedness and a permutation.
- Analytics.MonthSummary: pandas sums in 64-bit integers (wrap-around on overflow); the model's sums are unbounded.
- Analytics.DailyNetSeries: the same holds for the per-date sums of `sign_amt`, which pandas also keeps in 64-bit integers; the model's sums are unbounded.
- The SHA-256 computation itself is not modelled; `hash` is any fixed function.
- Auth.FromDict: Python raises `KeyError` for a missing `username` or `password_hash`, and would accept a JSON `null` there. The model returns None for both and stores only strings and null as JSON values.
- Auth.AuthService.constructor: `_load` turns an unreadable or malformed document into `{}`. The model takes the loaded document (or none) as its argument, and each operation works on the current `db` instead of reloading.
- Auth.CopyAvatar: the existence check and the file copy are an input (`copied`); the avatar directory is a parameter. Paths use `/` only, and lower-casing covers ASCII letters only. Python's `str.lower` also maps other scripts, and `Path` on Windows also splits at `\`.
- Auth.AvatarPath: the join is on text, and the contract speaks of the text only. `pathlib` also collapses repeated `/` and drops `.` components of a username containing `/`; the avatar directory is taken to be written in that normal form already. A username with a `..` segment (registration accepts `../x`) keeps it, so the copy is written outside the avatar directory although the text starts with it; the model does not resolve `..`.
- Auth.FileName: the source path is taken in `pathlib`'s normal form. `pathlib` drops a trailing `/` or `/.` of the source, so `pic/me.JPG/` has the suffix `.JPG` and gives `.jpg` in Python, while the model reads an empty file name there and gives `.png`.
- Auth.Suffix: the rule is that of `PurePath.suffix` up to Python 3.13, where a name ending in a dot has no suffix. Python 3.14 changed this case (the suffix of `me.` is `.`), which would give the avatar the extension `.`.
- Auth.AuthService.UpdateProfile: when the updated record no longer reads as a user, Python raises after saving. The model returns None at that point, keeping the saved document and leaving the session unchanged.
- Concurrency: overlapping read-modify-write calls are not modelled; every operation is atomic here.
