# csv-server metadata store, modelled in Dafny

The server in `index.js` keeps one table, `data/metadata.csv`, with the fixed
columns `Filename`, `Title` and `Keywords`. This project models what it does
to that file:

- `csvEscape` (module `CsvField`). A field holding a double quote, a comma,
  CR or LF is wrapped in double quotes, and every quote inside it is doubled.
  This follows rules 6 and 7 of section 2 of RFC 4180. Any other field is
  written as it is. A null or undefined field becomes the empty string.
- Row building (module `CsvRecord`). The request's mapping is read in header
  order. A missing or empty value becomes an empty field and other keys are
  ignored. The escaped fields are joined with commas. The `appended` object
  maps each header to the field written under it.
- The file text (module `CsvText`). This covers the separator written
  before a new row, the `split(/\r?\n/)` that finds the header line, and the
  content that append and delete-all-rows leave behind.
- The file itself (module `MetadataStore`). Class `MetadataFile` holds the
  file as `Option<string>`, where `None` means the file does not exist. Its
  methods `AppendRow`, `ClearRows` and `GetFile` are the three handlers.
- Dispatch (module `Router`). `Route` maps an exact (method, URL) pair to a
  handler. `Serve` runs one request against the file.

Round trips are stated against an RFC 4180 reader written for the model:
`CsvField.ParseField` reads one field and `CsvRecord.ParseRecord` reads one
record. The central results are these:

- Reading back an escaped field gives the original text
  (`EscapeRoundTrip`).
- Reading back a written row gives exactly the three projected values, in
  header order (`RowRoundTrip`).
- Append only extends the file (`AppendExtends`, `AppendThenRead`).
- Clear keeps the header line (`ClearKeepsHeader`).
- Clear is idempotent exactly when the kept line does not end in CR
  (`ClearIdempotentIff`).

## Model

| member | source | states |
|---|---|---|
| `CsvField.Escape` | index.js:11-18 | null/undefined gives `''`; a field without `"`, `,`, LF or CR is returned unchanged; otherwise the result starts and ends with `"`; the result starts with `"` exactly when the field needs quoting |
| `CsvField.NeedsQuoting` | index.js:14 | definition: the field holds a double quote, a comma, LF or CR; it decides the quoted branch of `Escape`, whose round trip `EscapeRoundTrip` proves in both branches |
| `CsvField.DoubleQuotes` | index.js:15 | definition: `s.replace(/"/g, '""')`, each quote doubled and every other character kept in order; undone by the quoted-field reader (`ParseQuotedDoubled`), identity on quote-free text (`DoubleQuotesNoQuote`) |
| `CsvField.DoubleQuotesNoQuote` | index.js:15 | the quote-doubling replace leaves a string without `"` unchanged |
| `CsvField.ParseQuotedDoubled` | index.js:15 | stripping the opening quote and turning each `""` back into `"` recovers the original text, stopping at the closing quote |
| `CsvField.TakeUnquotedPlain` | index.js:14-17 | a field that needs no quoting is read back verbatim, up to the next comma or the line end |
| `CsvField.EscapeRoundTrip` | index.js:11-18 | for every string, reading back the escaped field gives the original string, and reading stops exactly at the following comma or line end |
| `CsvRecord.ValueFor` | index.js:35 | the fallback to `''` gives the value under `h` when present (an empty value stays empty) and `''` when missing |
| `CsvRecord.Project` | index.js:21-35 | the projected row has one value per header, in the order Filename, Title, Keywords; each is the request's value or `''` when missing |
| `CsvRecord.EscapeAll` | index.js:35 | definition: each value escaped at its own position; length kept; reading the comma-joined result back gives the values (`JoinEscapedRoundTrip`) |
| `CsvRecord.EscapedFields` | index.js:35 | definition: `newRowValues`, the three projected values escaped in header order; these are the fields `AppendRow` writes and returns |
| `CsvRecord.Join` | index.js:36 | definition: `join(',')`, the fields with one comma between neighbours (`''` for none); its inverse on escaped fields is `ParseRecord` (`JoinEscapedRoundTrip`) |
| `CsvRecord.Row` | index.js:36 | definition: `newLine`, the escaped fields joined; `RowRoundTrip` proves it reads back as the projected values, `RowScenario` gives a concrete row |
| `CsvRecord.ProjectIgnoresUnknownKeys` | index.js:35 | adding a key outside the header list does not change the row |
| `CsvRecord.ProjectEmptyIsMissing` | index.js:35 | an empty value and a missing key give the same row |
| `CsvRecord.JoinEscapedRoundTrip` | index.js:35-36 | joining any non-empty list of escaped values with commas and reading the line back as a record gives exactly those values |
| `CsvRecord.RowRoundTrip` | index.js:35-36 | the written row is a record of exactly three fields separated by two commas outside quotes, and it reads back as the projected Filename, Title and Keywords |
| `CsvRecord.BuildAppendedObject` | index.js:42-43 | the `appended` object has exactly the three header keys, and each maps to the escaped value at that header's position |
| `CsvText.Separator` | index.js:39 | the separator is LF exactly when the content is non-empty and its last character is not LF, and empty otherwise; the CRLF test can never change the outcome |
| `CsvText.AppendedContent` | index.js:38-40 | definition: old content (or `''` when absent) + `Separator` of it + the row; properties in `AppendExtends`, `AppendThenRead`, `AppendScenario`, `ClearAfterAppend` |
| `CsvText.SplitLines` | index.js:62 | splitting on `\r?\n` always yields at least one line, and the first line holds no LF |
| `CsvText.FirstLine` | index.js:62 | definition: `lines[0]` of the split; `FirstLineIsPrefix` characterises it independently, `FirstLineOfTerminated` and `FirstLineOfHeader` give it on terminated lines |
| `CsvText.ClearedContent` | index.js:67 | definition: `lines[0] + '\n'`, the content `ClearRows` writes; properties in `ClearedShape`, `ClearKeepsHeader`, `ClearAfterAppend`, `ClearIdempotentIff`, `ClearTwiceDropsCR` |
| `CsvText.AppendExtends` | index.js:38-40 | the old content (`''` if absent) is a prefix of the new content and the new row is its suffix; the text before the row is empty or ends in LF; an absent or empty file receives only the row, with no header; content ending in LF receives the row directly |
| `CsvText.FirstLineIsPrefix` | index.js:62-67 | the kept line is a prefix of the content and holds no LF; without an LF it is the whole content; otherwise it is followed by CRLF, or by an LF that has no CR just before it |
| `CsvText.FirstLineOfTerminated` | index.js:62 | re-splitting a line already ended by LF gives it back, except that a trailing CR is dropped as part of a CRLF |
| `CsvText.FirstLineOfHeader` | index.js:62 | the first line of a header (no CR or LF) followed by LF or CRLF is that header |
| `CsvText.ClearedShape` | index.js:67 | after clearing, the content holds exactly one LF, as its last character, so the next append writes no separator |
| `CsvText.ClearKeepsHeader` | index.js:61-67 | clearing a file that starts with a header ended by LF or CRLF leaves exactly that header followed by LF, whatever rows follow |
| `CsvText.ClearAfterAppend` | index.js:38-67 | an append followed by a clear leaves only the header line |
| `CsvText.ClearIdempotentIff` | index.js:62-67 | clearing twice gives the same content as clearing once exactly when the kept first line does not end in CR |
| `CsvText.ClearTwiceDropsCR` | index.js:62-67 | for a header (no CR or LF) followed by a lone CR, the first clear gives header + CRLF and the second gives header + LF, so the two differ |
| `MetadataStore.MetadataFile.AppendRow` | index.js:34-43 | the file becomes old content (or `''`) + separator + row, and is created if absent; the returned object maps each header to the escaped field written at its position |
| `MetadataStore.MetadataFile.ClearRows` | index.js:57-67 | an absent file gives NotFound and is left unchanged; otherwise the file becomes its first line followed by LF |
| `MetadataStore.MetadataFile.GetFile` | index.js:79-93 | the result is the whole content unchanged when the file exists, and NotFound exactly when it is absent |
| `MetadataStore.AppendThenRead` | index.js:35-40 | after an append the file is some text that extends the old content and is empty or ends in LF, followed by the row; that row reads back as the projected values |
| `MetadataStore.AppendScenario` | index.js:35-40 | appending `{Filename: "a.txt", Title: "Hi, there", Keywords: "x"}` to a file holding a header line ended by LF (such as `Filename,Title,Keywords`) gives that content followed directly by `a.txt,"Hi, there",x`, with no trailing newline |
| `MetadataStore.RowScenario` | index.js:35-36 | the row for that request quotes only the title, which holds a comma |
| `Router.Route` | index.js:26-98 | PUT /append-row, DELETE /deleteallrows and GET /getFile select their handlers, each exactly for that pair; every other pair is unmatched |
| `Router.Serve` | index.js:23-100 | invalid JSON gives InvalidJson and leaves the file unchanged; a valid append, a clear and a download act as the three methods state; an unmatched pair gives NotFound and leaves the file unchanged |

## Behaviour as written

The model follows the code where the code differs from how the server is
usually described:

- The appended row carries no trailing newline. The next append supplies
  the LF, because the content then does not end in one.
- Nothing writes the header. An append to an absent or empty file creates
  the file holding only the new row.
- The header list is the constant `CSV_HEADERS`. It is not re-read from the
  file.
- Deleting all rows of an absent file reports NotFound and does not create
  the file.
- Deleting all rows is not always idempotent. Take a file whose kept first
  line ends in CR, such as the content `Filename,Title,Keywords\r`. The
  first clear writes `Filename,Title,Keywords\r\n`. The second clear splits
  at that CRLF and writes `Filename,Title,Keywords\n`. `ClearIdempotentIff`
  states exactly when idempotence holds, and `ClearTwiceDropsCR` works
  through this input.
- The "CSV is already empty" answer (index.js:64) can never be given. The
  split always yields at least one line (`SplitLines`), so the model has no
  such branch.

## Left out

- HTTP plumbing is not modelled: the server, status codes, content types,
  response message texts, streaming the download, logging and `server.listen`.
  `Serve` reduces each answer to a `Response` value.
- Reading the request body chunk by chunk and `JSON.parse` are not modelled.
  The body arrives parsed, as `map<string, string>`, or as `None` when it is
  not valid JSON.
- JavaScript coercion of non-string JSON values is not modelled: numbers,
  `false`, `0` and objects under `data[h] || ''` and `String(field)`. Neither
  is a JSON body that is not an object, such as `null`, which makes the
  handler fail.
- File-system errors are not modelled. The 500 answers at index.js:48-52 and
  index.js:72-76 never arise, because the file is a field that cannot fail.
- Concurrency is not modelled. Each request is one atomic step, so the race
  between the read at index.js:38 and the append at index.js:40 is not
  captured.
- Routes for a second "unprocessed" table are not modelled. They do not
  exist in index.js.
- The file is modelled as decoded text, not bytes. Reading and rewriting
  with `'utf8'` (index.js:61, index.js:67) turns bytes of the first line that
  are not valid UTF-8 into U+FFFD after a clear, and a JSON value holding a
  lone UTF-16 surrogate (such as `"\ud800"`) has no counterpart in the
  model's `map<string, string>`. Neither touches the quote, comma or line
  break logic.
