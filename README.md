# supply_QR core, modelled in Dafny

supply_QR is a Streamlit app for ordering supplies. It keeps a catalog of
items in `catalog.csv` and logs every order in a Supabase table,
`orders_log`. For each item it shows when the item was last ordered, and it
e-mails order summaries to a list of recipients read from the app's secrets
and from `emails.csv`.

This project models the data logic behind that UI:

- **OrderLog** (`db/supabase_client.py`)
  - `append_log` turns the order lines into log rows: `int(qty)`, `str(product_number)`, one shared timestamp.
  - `read_log` falls back to an empty table.
  - `last_info_map` sorts the log by time and keeps the last row of each `(item, product_number)` group.
- **Catalog** (`data/catalog.py`): `read_catalog` adds the missing catalog columns and normalises the seven columns in place, one statement at a time, as an imperative method.
- **Email** (`services/email_service.py`):
  - `_split_emails`, with `re.split(r"[;,]\s*")` modelled directly;
  - `get_smtp_config` and `smtp_ok`;
  - the recipient and header logic of `send_email`;
  - `all_recipients`.
  - `app.py` carries copies of `_split_emails`, `get_smtp_config`, `smtp_ok` and `send_email` that behave the same. The same members model them, and the rows below cite both places.
- **App** (`app.py`): `read_people`, and app.py's own `read_catalog`, whose normalisation is missing (see Findings).
- **Support modules**:
  - Text: `str.strip`, splitting at separators, joining, decimal integers;
  - Sorting: code-point order on strings, and `sorted(set(...))`;
  - Table: pandas cells, frames, `astype(str)`, `to_numeric`;
  - Wrappers: `Option` and `Result`.

Pandas behaviour the model writes out:

- `read_csv` reads an empty field as `NaN`.
- `pd.NA` renders as `"<NA>"` and `NaN` as `"nan"` under `astype(str)`.
- `df.empty` means no rows or no columns.
- `sort_values` puts `NaT` last.
- `groupby` drops rows with a missing key.
- `sort_values` is not stable. `last_info_map` is therefore proved correct for every time-sorted permutation of the log, not for one chosen order.

Where code has to raise, the model returns an error value:

- `int(qty)` on a bad quantity;
- `KeyError` on settings that could not be read;
- `RuntimeError("No recipients found.")`;
- `ValueError` from `EmailMessage` on a header value of more than one line;
- `TypeError` on a non-text e-mail cell.

## Model

| member | source | states |
|---|---|---|
| OrderLog.AppendLog | db/supabase_client.py:23-42 | Succeeds exactly when every quantity converts with `int`; otherwise fails at the first line that does not. On success there is one row per order line: the same item, `str(product_number)`, the converted quantity, and the shared timestamp and orderer; the returned stamp is that timestamp. |
| OrderLog.IntOf | db/supabase_client.py:35 | `int(cell)`: an integer is kept, `NaN` and `pd.NA` do not convert. |
| OrderLog.IntOfShowInt | db/supabase_client.py:35 | An integer written as text converts back to itself. |
| OrderLog.ReadLog | db/supabase_client.py:45-59 | Always has the five log columns. It is empty exactly when the query returned no data or an empty list; otherwise its rows are the returned records. |
| OrderLog.StampAll | db/supabase_client.py:79 | `pd.to_datetime(..., errors="coerce")` keeps every row and its position, and gives each row the instant its `ordered_at` text parses to, or `NaT`. |
| OrderLog.Renamed | db/supabase_client.py:88-96 | The renamed frame has one output row per kept row, in the same order, each with that row's item, product number, time, quantity and orderer. |
| OrderLog.SortByTime | db/supabase_client.py:81-83 | One admissible result of `sort_values("ordered_at")`: ascending with `NaT` last, and a permutation of the log. |
| OrderLog.Grouped | db/supabase_client.py:84 | The rows a group keeps are exactly the rows whose item is present. |
| OrderLog.GroupedPermutation | db/supabase_client.py:81-85 | Dropping rows without a key commutes with permuting the log. |
| OrderLog.GroupedSorted | db/supabase_client.py:81-85 | Dropping rows keeps the time order. |
| OrderLog.LastPerKey | db/supabase_client.py:84-85 | `tail(1)` per group keeps only rows of the input, covers every key, and has each key once. |
| OrderLog.LastPerKeyMaximal | db/supabase_client.py:81-86 | On a sorted log, no row of a key is later than the row kept for it. |
| OrderLog.LastPerKeySorted | db/supabase_client.py:81-86 | The kept rows stay in time order. |
| OrderLog.InfoKeysRenamed | db/supabase_client.py:88-96 | Renaming the columns keeps the set of keys. |
| OrderLog.LastInfoOfSorted | db/supabase_client.py:81-96 | For any time-sorted permutation of the log, the kept rows are a "last ordered" table. It has exactly the log's keys, each once; every row is a log row renamed; no row of its key is later; and it is in ascending time order. |
| OrderLog.GroupedSortedPermutation | db/supabase_client.py:78-96 | The same for the groups of any sorted permutation, measured against the grouped rows of the log. |
| OrderLog.LastInfoMap | db/supabase_client.py:62-96 | Always has the five output columns. An empty log gives no rows; otherwise the result is a "last ordered" table of the log's rows that have a key. |
| OrderLog.LatestKeyWins | db/supabase_client.py:81-96 | When every timestamp parses and is at most t, a key with a row at t is reported at t. |
| OrderLog.FreshOrderIsLast | db/supabase_client.py:23-42 | After `append_log` at a time no earlier than any logged time, `last_info_map` reports each ordered key (with its item present) at that time. |
| OrderLog.UnparsedTimeWins | db/supabase_client.py:79-86 | A key with an unparseable timestamp is reported with `NaT`, because `NaT` sorts last. |
| Catalog.ReadCatalog | data/catalog.py:31-73 | An empty file gives the empty frame with the seven catalog columns. Otherwise the file's columns come first, then the missing catalog columns in catalog order; rows keep their number and order; each row is normalised; the frame stays well formed and keeps one label per header name. |
| Catalog.AddMissingColumns | data/catalog.py:47-58 | After the column loop every catalog column the file lacked is appended, in catalog order, and no cell has changed. |
| Catalog.LabelledCompleted | data/catalog.py:47-58 | Appending catalog columns to a frame with proper labels keeps its labels proper. |
| Catalog.NameInjective | data/catalog.py:47-58 | In such a frame two labels with the same header name are the same label, so `c not in df.columns` tests the header name. |
| Catalog.CompletingStep | data/catalog.py:47-58 | One turn of the column loop appends the column if it is missing, and no cell changes (an added cell is `pd.NA`, which is how a missing cell reads). |
| Catalog.AddColumn | data/catalog.py:57-58 | `df[c] = pd.NA` appends the label and sets that cell of every row to `pd.NA`, leaving the other cells alone. |
| Catalog.NormalizeTypes | data/catalog.py:60-71 | The seven statements, in source order, leave every catalog column normalised and every other column untouched. |
| Catalog.SetColumnStep | data/catalog.py:61-71 | One statement normalises its own column and changes nothing else. |
| Catalog.TextCell | data/catalog.py:61-62 | `.astype(str).str.strip()` gives text with no surrounding whitespace. |
| Catalog.NumberOr | data/catalog.py:63-66 | Coerce, fill, cast: a number, or integer text with any surrounding whitespace, is kept; anything else, infinity text included, becomes the default (see Left out). |
| Catalog.MissingCell | data/catalog.py:57-71 | A missing cell becomes `"<NA>"` in the two text columns, 1, 1, 0, 0 in the numeric ones, and the row position for `sort_order`. |
| Catalog.MissingRead | data/catalog.py:57-71 | A cell of a column the file lacks exists after the call and is the normalisation of `pd.NA`. |
| Catalog.AbsentColumnDefaults | data/catalog.py:47-71 | A catalog column the file lacks exists afterwards and holds those defaults in every row. |
| Catalog.NormalizeIdempotent | data/catalog.py:60-71 | The result of `read_catalog` is its own normal form: normalising again changes nothing. |
| Catalog.RowNormalizedUnique | data/catalog.py:60-71 | The normalised row is uniquely determined by the input row and its position. |
| Email.RegexSplit | services/email_service.py:15 | `re.split(r"[;,]\s*")` gives at least one piece, and no piece contains a separator. |
| Email.SplitEmails | services/email_service.py:12-16 | Empty text gives no addresses; every address is non-empty, stripped and free of separators (the copy at app.py:46-50 is the same). |
| Email.RegexSplitVersusSplit | services/email_service.py:15 | The regex split matches a plain cut at `;` and `,`: the same number of pieces, the same first piece, and the same pieces once stripped. |
| Email.SplitEmailsReference | services/email_service.py:12-16 | `_split_emails` equals the stripped, non-blank pieces of a plain cut at the separators. |
| Email.SplitEmailsJoin | services/email_service.py:12-16 | Joining clean addresses with ", " and splitting them again returns the same addresses. |
| Email.GetSmtpConfig | services/email_service.py:20-35 | The settings are read exactly when there is an `[smtp]` section, its port converts with `int` (default 587), and its password is text. The password then has no spaces; host, user, from and `use_ssl` are as given; `subject_prefix` defaults to ""; `default_to` is `_split_emails` of a truthy `to` and otherwise empty. An exception gives `{}` (the copy at app.py:52-67 is the same). |
| Email.DefaultRecipientsClean | services/email_service.py:30 | The default recipients are always non-empty, stripped and free of separators. |
| Email.PasswordKeepsOthers | services/email_service.py:27 | Removing spaces keeps every other character of the password, the same number of times. |
| Email.SmtpOk | services/email_service.py:38-41 | `smtp_ok()`: it holds only when the settings were read and the password is non-empty (the copy at app.py:69-72 is the same). |
| Email.SmtpOkIff | services/email_service.py:38-41 | `smtp_ok` holds exactly when the settings were read and host, user, password and sender are non-empty and the port is non-zero (the copy at app.py:69-72 is the same). |
| Email.WithAt | services/email_service.py:49 | Keeps exactly the addresses that contain `@`. |
| Email.Recipients | services/email_service.py:48-49 | The given addresses plus the default ones that contain `@`, each once, in increasing order. |
| Email.RecipientsDetermined | services/email_service.py:48-49 | Any strictly sorted list of exactly those addresses is the recipient list. |
| Email.SendEmail | services/email_service.py:45-61 | No recipients gives the "No recipients found." error. Unreadable settings with recipients present give the missing-setting error. A `Subject` or `To` value that spans more than one line gives the `ValueError` of `EmailMessage`. Otherwise `To` is the recipients joined with ", ", `Subject` is prefixed exactly when the prefix is truthy, and `From` and `use_ssl` come from the settings (the copy at app.py:74-84 is the same). |
| Email.SendEmailHeaders | services/email_service.py:54-61 | With settings, a one-line subject and recipients without line breaks, the message is built. A recipient with a line break in its middle, such as one read from a multi-line `to` setting, makes it raise. |
| Email.JoinBreaks | services/email_service.py:61 | A `To` value joined from addresses, one of which has a line break followed by text, spans more than one line. |
| Email.ToHeaderRoundTrip | services/email_service.py:61 | For clean addresses, splitting the `To` header gives back the recipient list. |
| Email.TextCells | services/email_service.py:92 | `if e` keeps exactly the non-empty texts. |
| Email.AllRecipients | services/email_service.py:79-96 | `TypeError` exactly when the `email` column holds `NaN`, `pd.NA` or a non-zero number. Otherwise the file's and the default addresses that contain `@`, each once, in increasing order. |
| Email.AllRecipientsWithoutFile | services/email_service.py:85-89 | With no usable `email` column, only the default recipients remain. |
| App.ReadPeople | app.py:100-107 | No file gives no names; every name is non-empty, stripped and on one line. |
| App.ReadPeopleJoin | app.py:104 | A roster written one name per line is read back name for name. |
| App.ReadPeopleLines | app.py:104 | Any roster, including blank and indented lines, reads as its lines stripped, with blank ones dropped, in order. |
| App.ReadCatalogAsWritten | app.py:110-125 | The empty fallback is the normalised empty catalog; any other frame is returned unchanged. |
| App.AsWrittenSkipsNormalisation | app.py:110-125 | For a catalog with the single column `item` holding " Gloves ", app.py's result is not the normalised catalog, and the name keeps its spaces. |
| App.CorrectedOnGloves | data/catalog.py:31-73 | On the same catalog, the normalised result has every catalog column and the name "Gloves". |

## Left out

- User interface, and where the data comes from:
  - The Streamlit UI is not modelled.
  - File I/O (`safe_read_csv`, `write_catalog`, reading people.txt) becomes parameters. The frame, the text, or `None` for a missing or unreadable file.
  - The Supabase client and its `insert`, `select` and `order` calls become parameters. A query result is an optional list of records; the insert is the returned list of rows.
- E-mail delivery:
  - The SMTP connection (`smtplib`, TLS, login, `send_message`) is not modelled.
  - The HTML body is not modelled. `send_email` is modelled up to the `Subject`, `From` and `To` headers it sets and the SSL choice; `From` is the configured value as given.
- Clock and time parsing:
  - The clock reading `datetime.now(NYC)` and its `isoformat` rendering are a parameter `now`.
  - `pd.to_datetime(..., errors="coerce")` is a parameter `parse` from text to an optional instant.
- Numbers and text:
  - Floating point is not modelled. Cells hold integers, and `price` (`astype(float)`) is modelled as an integer column with default 0. How this changes the text of a key column is described under Catalog.TextCell below.
  - `int()` and `to_numeric` on text with underscores, decimal points or exponents, `to_numeric` on infinity text, and numeric secrets that are floats, are not modelled.
  - Table.ToNumeric: skips the whitespace around text using Python's whitespace set, as `int` does. pandas skips only ASCII whitespace, so text padded with other whitespace (such as a no-break space) converts in the model and not in pandas.
  - Text.ParseInt: integer text is an optional sign followed by the ASCII digits 0-9; its callers strip the whitespace around the text first, as `int` does. Python's `int` also accepts the other Unicode decimal digits, such as the full-width "３", so `int(qty)` in `append_log` and `int(port)` in `get_smtp_config` convert such text while the model does not.
  - `re.split` is modelled directly for the pattern `[;,]\s*` instead of through a regular-expression engine.
  - `\s` and `str.strip` use Python's whitespace code points.
  - `str.splitlines` ends lines at its break characters. A `\r\n` pair counts as two breaks, which only adds an empty line that `read_people` drops anyway.
- Frames and pandas operations:
  - The row index after `reset_index(drop=True)` is the implicit position of each row.
  - Extra columns Supabase returns beyond the five log fields are not modelled.
  - `as_index=False` and the column selection after `rename` are modelled as the renamed record type.
- Catalog.TextCell: a whole-number cell renders as its digits (12345 gives "12345"). pandas reads an integer column that has an empty field as floating point, so `astype(str)` there gives "12345.0". The same difference reaches the log key through `str(r["product_number"])` in `append_log`. Cells are modelled as integers, so the model does not render such a column with ".0".
- Catalog.NumberOr: `astype(int)` in pandas is a 64-bit integer, while the model's integers are unbounded. Overflow of a catalog number is not modelled. Infinity text ("inf", "-Infinity", "+INF", in any case) is read by `to_numeric` as an infinite float, which `fillna` keeps. `astype(int)` then raises for `multiplier`, `items_per_order`, `current_qty` and `sort_order`, so `read_catalog` fails, and `price` holds infinity. The model treats such text as not a number: the cell takes the column's default, and `ReadCatalog` has no failure outcome for it.
- Email.GetSmtpConfig: secret values are modelled as text, integers or booleans only. TOML arrays, tables, dates and floats are not modelled. For example, `to = ["a@x.com", "b@y.com"]` reaches `_split_emails` as its `str()` text, "['a@x.com', 'b@y.com']". That splits into "['a@x.com'" and "'b@y.com']", and both would count as recipients.
- Email.SendEmail: a `From` value that is missing, not text, or spans several lines is passed through as given. What `EmailMessage` does with such a value is not modelled.
- Catalog.ReadCatalog: takes a frame with proper labels. A header spelled like one of the seven catalog names is that catalog column, never `Other`; this matches `read_csv`, which keeps header names distinct.
- OrderLog.LastInfoMap: the tie order between equal timestamps is not fixed. The result is proved to be a "last ordered" table for any time-sorted permutation, because pandas' default sort is not stable; which of several rows with the same key and time is reported is left open.
- `read_emails` (called from app.py but not defined in its source) and `qr_gene.py` are not part of this model.

## Findings

| source | as written | input that shows it | evidently intended | confidence | as-written member | corrected member |
|---|---|---|---|---|---|---|
| app.py:110-125 | A non-empty catalog frame is returned unchanged. The column completion and type normalisation of `read_catalog` are replaced by a comment. | A catalog.csv whose only column is `item`, holding " Gloves ". | The normalisation of data/catalog.py:47-73: seven columns, and the name stripped to "Gloves". | not executed; read from the code | App.AsWrittenSkipsNormalisation | Catalog.ReadCatalog |
