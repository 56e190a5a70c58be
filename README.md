# Contact scraper core, modelled in Dafny

The program is a small Tkinter contact scraper (`app.py`). It fetches one
staff-listing page. Three regular expressions pull out the names, the phone
extensions and the `mailto:` addresses, and these are paired up positionally.
The records are shown as a fixed-width table in a scrolled text widget. They
are then saved into an SQLite table `contacts`, whose `email` column is
`UNIQUE` and which is filled with `INSERT OR IGNORE`.

This project models the sequential core of that pipeline:

- `width.dfy` (module `Width`) covers display-width arithmetic.
  - `get_display_width` counts 2 cells per East Asian Wide or Fullwidth character and 1 for every other character.
  - `pad_to_width` pads with spaces and never truncates.
  - The Unicode East Asian Width table is a parameter `isWide` of type `WideTable`. It is constrained only to treat the space and `-` as narrow, as Unicode does.
- `text.dfy` (module `Text`) covers the two Python string built-ins the core uses.
  - `str.strip()` uses the exact set of characters `str.isspace` accepts.
  - The substring test `sub in s` is checked against an independent definition (`Occurs`).
- `parse.dfy` (module `Parse`) covers the record pairing of `parse_contacts`.
  - The three `findall` result lists are inputs.
  - `zip` stops at the shortest list, and every field is stripped (the e-mail too).
- `store.dfy` (module `Store`) covers the `contacts` table.
  - `ContactStore` is a class holding whether the table exists and its rows in insertion order.
  - `SetupDatabase` is `CREATE TABLE IF NOT EXISTS`.
  - `SaveToDatabase` loops over the batch with `INSERT OR IGNORE` keyed on the e-mail address.
  - `SaveAll` is the specification of that loop. The lemmas about it cover uniqueness, first occurrence wins, idempotence and the exact growth of the row count.
- `render.dfy` (module `Render`) covers `display_contacts`.
  - The text widget is a class `OutputText` holding the texts inserted into it, one per `insert`.
  - `DisplayContacts` clears the widget and then inserts a header, a rule of `sum(widths)` dashes and one padded row per record.
  - Lemmas cover the number of inserted texts, the 70-dash rule and column alignment in display cells.
- `app.dfy` (module `App`) covers `fetch_data`.
  - An empty URL gives the warning box.
  - A URL that lacks `http` or `://` gives the error box.
  - Otherwise the outcome of the request is an input: either the text of the exception `requests` raised, or the page reduced to its three match lists.
  - On success the records are displayed and then saved.

`app.py:61` strips all three fields, the e-mail address included.

## Model

| member | source | states |
|---|---|---|
| `Width.Repeat` | app.py:37 | `c * n` has `max(0, n)` characters, all equal to `c`; a negative count gives the empty string |
| `Width.CharWidth` | app.py:30 | a character occupies 1 or 2 cells, and 2 exactly when the width table calls it Wide or Fullwidth |
| `Width.DisplayWidth` | app.py:28-30 | the width of a text lies between its length and twice its length, so `""` has width 0 |
| `Width.WidthIsLengthIffNarrow` | app.py:28-30 | the width equals the number of characters if and only if no character is wide |
| `Width.WidthAppend` | app.py:28-30 | width is additive over concatenation |
| `Width.PadToWidth` | app.py:33-37 | the result is the text followed only by spaces, exactly `max(0, width - DisplayWidth(text))` of them; its display width is `max(width, DisplayWidth(text))` |
| `Width.PadNeverTruncates` | app.py:33-37 | a text already at least `width` cells wide is returned unchanged |
| `Text.LeadingSpaceSpec` | app.py:61 | the run `strip()` removes at the front is whitespace, and the character after it, if any, is not |
| `Text.TrailingSpaceSpec` | app.py:61 | the run `strip()` removes at the back is whitespace, and the character before it, if any, is not |
| `Text.StripSpec` | app.py:61 | `strip()` returns a text with no whitespace at either end, obtained from the input by removing only whitespace at its two ends |
| `Text.StripUnique` | app.py:61 | any text with that property equals `Strip(s)`, so the characterisation is complete |
| `Text.StripIdempotent` | app.py:61 | stripping a stripped text changes nothing |
| `Text.Contains` | app.py:97 | the left-to-right substring search answers true exactly when the pattern occurs at some position |
| `Parse.ParsedContacts` | app.py:54-62 | the parsed list has `min(|names|, |exts|, |emails|)` records; record i is the stripped i-th name, extension and address, in order; it is empty when any list is empty |
| `Parse.ParseContacts` | app.py:59-62 | the append loop produces exactly `ParsedContacts` of the three match lists |
| `Parse.ParsedFieldsStripped` | app.py:61 | every field of every record has no surrounding whitespace, and stripping it again leaves it unchanged |
| `Parse.ParsedIgnoresSurplus` | app.py:60 | entries beyond the length of the shortest list have no influence on the result |
| `Store.Emails` | app.py:22 | every row's address is among the stored addresses |
| `Store.EmailsOnlyOfRows` | app.py:22 | every stored address belongs to some row, so with `Emails` the set is exactly the rows' addresses |
| `Store.InsertOrIgnore` | app.py:68-71 | one `INSERT OR IGNORE` keeps the old rows as a prefix; it adds the row if and only if its address is new, and then at the end; the `UNIQUE` constraint is kept |
| `Store.SaveAllExtends` | app.py:67-71 | after saving a batch, the rows present before are unchanged and in place; the stored addresses are the old ones plus those of the batch, so every address of the batch is present |
| `Store.SaveAllUnique` | app.py:22 | the addresses in the table stay pairwise distinct |
| `Store.SaveAllAddsOnlyNew` | app.py:67-71 | every added row is a record of the batch whose address was not stored before |
| `Store.SaveAllKeepsFirst` | app.py:67-71 | for an address not yet stored that the batch repeats, the first record carrying it is the one stored; an address already stored keeps its old row |
| `Store.SaveAllKnown` | app.py:67-71 | a batch whose addresses are all stored leaves the table unchanged |
| `Store.SaveAllIdempotent` | app.py:67-71 | saving the same batch twice gives the same table as saving it once |
| `Store.UniqueCount` | app.py:22 | under the `UNIQUE` constraint there are as many rows as distinct addresses |
| `Store.SaveAllCount` | app.py:67-71 | the table grows by exactly the number of distinct addresses of the batch that were not stored yet |
| `Store.SaveAllFresh` | app.py:67-71 | a batch of distinct, not yet stored addresses is appended whole and in order, so reading the table back gives the old rows followed by the batch |
| `Store.ContactStore.Connect` | app.py:11-12 | opening the database file gives the table a previous run left there, if there is one |
| `Store.ContactStore.SetupDatabase` | app.py:15-25 | afterwards the table exists; an existing table keeps its rows, and a new one is empty |
| `Store.ContactStore.SaveToDatabase` | app.py:65-72 | the loop leaves exactly `SaveAll(old rows, results)` and keeps the `UNIQUE` constraint |
| `Render.Rows` | app.py:85-87 | one formatted row per record, in input order |
| `Render.JoinPaddedWidth` | app.py:81 | a line of padded cells is at least as wide as its columns together, and exactly as wide when every cell fits its column |
| `Render.RenderedShape` | app.py:79-87 | the widget receives `2 + |results|` inserted texts: the header, a rule of exactly 70 `-` characters, then the row of record i as text i + 2 |
| `Render.RowCells` | app.py:86 | a row is the name padded to 20 cells, the extension padded to 20 and the address padded to 30 |
| `Render.SeparatorWidth` | app.py:83 | the rule is 70 cells wide |
| `Render.HeaderWidth` | app.py:79-82 | the header line is exactly 70 cells wide under any width table |
| `Render.RowWidth` | app.py:86 | a row is at least 70 cells wide, and exactly 70, aligned with the rule, if and only if every cell fits its column |
| `Render.OutputText.constructor` | app.py:137 | a new text widget is empty |
| `Render.OutputText.Clear` | app.py:77 | `delete("1.0", END)` empties the widget |
| `Render.OutputText.Insert` | app.py:82 | inserting one newline-terminated text at the end appends exactly that text after the old ones |
| `Render.DisplayContacts` | app.py:75-87 | the widget ends up holding exactly the rendered table of the records, and nothing left over from before |
| `App.CheckUrl` | app.py:93-99 | the empty URL gives the warning; otherwise the URL is accepted if and only if it contains both `http` and `://` |
| `App.HttpSchemesAccepted` | app.py:97 | every URL beginning with `http://` or `https://` is accepted |
| `App.DefaultUrlAccepted` | app.py:130 | the URL the window starts with is accepted |
| `App.UrlExamplesAccepted` | app.py:97 | `httpx://a` and `://http` are accepted: only the presence of the two substrings counts |
| `App.UrlExamplesRejected` | app.py:93-99 | `""` gives the empty-URL warning; `ftp://foo` and `http:/x` are rejected |
| `App.FetchData` | app.py:90-107 | a rejected URL or a failed request shows the matching message box and leaves the widget and the table untouched; a fetched page is parsed, displayed and saved, with no message box |
| `App.FetchTwice` | app.py:101-105 | fetching the same page twice leaves the widget and the table as fetching it once; the table grows only by the new addresses |

## Left out

- The Tkinter window, its layout, the URL entry, the button, the message boxes and `mainloop` (app.py:1-4, 116-142) are user interface. `FetchData` takes the URL as an argument and returns the message box as a value.
- `scrape_contacts` (app.py:40-44) is not modelled: the HTTP GET with its 10-second timeout and `raise_for_status`. Its outcome is the `Response` input, either the text of the `RequestException` or the page.
- The three regular expressions and `findall` (app.py:50-56) are library internals. Their three result lists are the inputs of `ParsedContacts` and `ParseContacts`.
- `unicodedata.east_asian_width` (app.py:30) is a Unicode table. It is the `isWide` parameter, and no lemma depends on its contents beyond the space and `-` being narrow.
- The SQLite connection, cursor, `commit` and `close` are foreign library I/O (app.py:11-12, 25, 72, 110-114), and so is `on_closing`. So are the autoincrement `id` values and the `NOT NULL` constraints, which Python strings always meet.
- Exceptions other than `RequestException` are not modelled, such as an SQLite error raised while saving. They escape `fetch_data` uncaught.
- The newline that ends each inserted text is not stored: the widget is modelled as a sequence of inserted texts, one per `insert`.
- A field with an inner newline is not split: the name and extension patterns (app.py:50-51) can match newlines and `strip()` keeps inner ones, so such a record takes up several lines in the real widget and breaks the column alignment there, while the model counts its row as one inserted text.
