# IronHead asset custody core, modelled in Dafny

IronHead keeps an inventory of an organisation's computers ("demirbas",
fixed assets) in one SQLite table, `demirbaslar`, and prints a custody
("zimmet") handover form for a chosen asset. The Python program does this
inside the button handlers of a PyQt6 window. This project lifts the logic
out of Qt and SQLite and models it as pure Dafny functions:

- `Assets`: the table row (`Asset`: the store-assigned `id`, the ten user
  columns `Fields`, the creation stamp `eklenme_tarihi`) and the entry form
  (`Form`: nine untrimmed text boxes and the date picker's date).
  `ReadForm` strips each text box as Python's `str.strip()` does and renders
  the date as `yyyy-MM-dd`.
- `Validation`: the checks made before an insert (name and tag together,
  then brand, cpu, ram, storage, first failure reported) and the much weaker
  check made before an update (name and tag only).
- `Store`: the table as a sequence of rows in rowid order plus the
  AUTOINCREMENT counter (`sqlite_sequence`). `Create`, `Update`, `Delete`,
  `Lookup`, `List`, `Query` and `Search` model the INSERT, UPDATE, DELETE
  and SELECT statements, including SQLite's refusal to insert once the
  rowid range is used up.
- `Like`: SQLite's LIKE as the search runs it (default case-insensitive
  mode, which folds ASCII letters only, and no ESCAPE clause).
- `Text`: Python's whitespace set and `strip()`, ASCII case folding, and
  case-insensitive substring containment.
- `Dates`: the `yyyy-MM-dd`, `%Y%m%d` and `%Y-%m-%d %H:%M:%S` renderings,
  with strict readers proved to invert them.
- `CustodyForm`: the PDF file name and the list of `drawString` calls
  (position, font size, text) that make up the form.
- `Wrappers`: `Option` and `Result`.

The clock is a parameter: `Create` takes the creation time `now`, and
`RenderForm` takes the day the form is produced. The store invariant
`Store.Valid` says ids are unique, ascending in row order, positive, and
never above the counter. It holds of `Store.Empty`, and every mutating
operation is proved to preserve it. List and search need it to return rows
newest id first.

Three behaviours of the code are easy to miss, and the model keeps them:
- the form's file name starts with `Zimmet_`;
- an update checks only the computer name and the asset tag, while an
  insert checks six columns;
- `%` and `_` typed into the search box reach LIKE unescaped and act as
  wildcards. `Like` models this, and lemmas state both the wildcard-free
  case and the wildcard cases.

## Model

| member | source | states |
|---|---|---|
| Text.Strip | ironhead.py:183 | the stripped value neither starts nor ends with whitespace and is a middle slice of the input with only whitespace cut away on either side |
| Text.StripEmptyIff | ironhead.py:183-188 | a stripped field is empty exactly when the raw field is all whitespace, which is when a required field counts as missing |
| Text.StripUnique | ironhead.py:183 | any string that is the input with only surrounding whitespace cut off and that neither starts nor ends with whitespace is the stripped value, so the slice description pins the result |
| Text.StripIdempotent | ironhead.py:183 | stripping an already stripped value changes nothing |
| Assets.ReadForm | ironhead.py:179-183 | each of the nine text columns is its box's text with only surrounding whitespace cut off (unique by `Text.StripUnique`), each required column is empty exactly when its box held only whitespace, and the stored custody date reads back as the picked date |
| Dates.IsoDateRoundTrip | ironhead.py:181 | the `yyyy-MM-dd` text of a date parses back to that date |
| Dates.CompactDateRoundTrip | ironhead.py:324 | the `%Y%m%d` text of a date parses back to that date |
| Dates.TimestampRoundTrip | ironhead.py:225 | the creation stamp reads back as the creation time: its first ten characters parse to the date, and the hour, minute and second fields denote the hour, minute and second |
| Validation.CheckForCreate | ironhead.py:188-206 | insert is accepted exactly when name, tag, brand, cpu, ram and storage are all non-empty; otherwise the first failing check in the order name-or-tag, brand, cpu, ram, storage is reported, each error exactly when the earlier checks passed and its own failed |
| Validation.CheckForUpdate | ironhead.py:248-250 | update is accepted exactly when name and tag are non-empty, and the only error it reports is the combined name-or-tag error |
| Validation.CreateCheckImpliesUpdateCheck | ironhead.py:188-206 | every row an insert accepts an update accepts too |
| Validation.UpdateAcceptsBlankHardware | ironhead.py:248-250 | an update with blank brand, cpu, ram and storage passes its check where an insert would fail with the brand error |
| Like.ContainsPatternIff | ironhead.py:139-140 | for a filter without `%` or `_`, a column LIKE `%filter%` exactly when it contains the filter as a substring, ASCII letters compared without case |
| Like.UnderscoreFilterMatchesNonEmpty | ironhead.py:140 | a filter of one `_` matches exactly the non-empty columns, because the filter is not escaped |
| Like.PercentFilterMatchesAll | ironhead.py:140 | a filter of one `%` matches every column |
| Store.Lookup | ironhead.py:155-156 | lookup by id returns a stored row carrying that id, and returns nothing exactly when no row carries it |
| Store.LookupRow | ironhead.py:39 | in a valid store each id names exactly one row, so lookup by a row's id returns that row |
| Store.NextId | ironhead.py:39 | the next AUTOINCREMENT id exceeds the counter and every id present |
| Store.Create | ironhead.py:208-227 | the insert succeeds exactly when the six required columns are non-empty and the rowid range has room; on a validation failure or a full rowid range the store is unchanged and the error is the validator's (or the full-range error); on success the new id is one more than the counter, so it exceeds every id ever issued, and becomes the counter, existing rows stay as a prefix, lookup of the new id gives the stripped form columns and the creation stamp, and every other id looks up as before |
| Store.Update | ironhead.py:252-279 | on a validation failure nothing changes; on success the row keeps its id and creation stamp and takes the new ten columns, every other id looks up as before, the counter and row count stay, and an id no row carries leaves the store unchanged while still reporting success |
| Store.Delete | ironhead.py:296-297 | afterwards the id is unknown, every other id looks up as before, the counter stays, the row count drops by one exactly when the id was present, and an unknown id is a no-op |
| Store.List | ironhead.py:136-142 | the listing holds every stored row once and no other, in strictly descending id order |
| Store.Query | ironhead.py:133-142 | an empty filter gives the listing; otherwise exactly the stored rows with a column LIKE `%filter%`, still strictly descending by id |
| Store.Search | ironhead.py:311-313 | the typed text is stripped first: a blank search gives the full listing, any other gives exactly the rows matching the stripped text, newest first |
| Store.RowMatchesIsSubstring | ironhead.py:139-140 | for a wildcard-free filter the ten-column LIKE clause holds exactly when some user column contains the filter without regard to ASCII case |
| Store.SearchIsSubstringSearch | ironhead.py:138-140 | a search for wildcard-free text returns exactly the stored rows with a user column containing it (case-insensitive for ASCII), or every row when the text is blank; id and creation stamp are never searched |
| Store.IdsNeverReused | ironhead.py:39 | after a create and a delete of that row, a further create gets a strictly larger id and the deleted id stays unknown |
| CustodyForm.FileName | ironhead.py:324 | the file name is `Zimmet_`, then the asset tag, then `_`, then the eight-digit date that parses back to the production day, then `.pdf` |
| CustodyForm.RenderForm | ironhead.py:329-360 | 28 draw calls: the title in 16 pt at (100, 750), the custody date and section heading at y = 730 and 710, eight label/value rows at x = 120 and x = 250 for y = 690 down to 550 in steps of 20, the values in the order tag, name, brand, cpu, ram, storage, consumables, serial number; then the custodian lines and the receiver and deliverer signature blocks at x = 100 and x = 400 at fixed offsets below y = 530; every call lies on the letter page |

## Left out

- Qt widgets, layout, signal wiring, message boxes and their texts, the
  row-selection requirement, the delete confirmation dialog (the model
  covers the confirmed path), `temizle` and `tablo_satir_sec`, which fills
  the form from a row and falls back to the current date when the stored
  date does not parse.
- The SQLite connection, cursor, commit and `CREATE TABLE IF NOT EXISTS`:
  the model covers what the statements do to the table, not the driver. Disk
  and driver exceptions caught by the handlers are not modelled; the one
  storage failure modelled is AUTOINCREMENT reaching the largest rowid.
- LIKE's pattern-length limit: SQLite rejects a pattern over 50000 bytes,
  and the model has no length limit.
- Store.Create: years before 1000 are not modelled. How strftime pads `%Y`
  for such years depends on the platform. Real clocks never produce them.
- Rendering of the PDF (reportlab canvas, page creation, TTF font
  registration and the font file): foreign library calls. The model is the
  draw list and the file name.
- Reading the clock: `datetime.now()` and `QDate.currentDate()` values are
  parameters.
- The debug `print` calls, and the `str()` conversion applied when cells
  are shown in the table and read back for the form. The form reads the
  stored column values directly.
