# Dive logbook core, in Dafny

The dive logbook is a browser application for recording club dives. It keeps
one or more *pages*, each a log sheet with:

- an id, which is the page's creation time in milliseconds;
- six metadata fields: site, date, dive manager, boat, weather and comments;
- one row per diver, in eleven columns: name, grade, led, CTC, cylinders,
  gas in, time in, time out, gas out, maximum depth and dive time.

Pages live in the browser's `localStorage`, and the application uploads them to a
cloud store. This project models the logic of that core and proves properties
of it:

- **`src/ED.js`** holds the obfuscation codec for the stored upload key.
  - `E` UTF-8-encodes the text, XORs each byte with the key's bytes taken
    cyclically, and base64-encodes the result.
  - `D` undoes the three steps in reverse order.
  - Module `ED` models both functions. It builds on module `Utf8`, which models
    `TextEncoder` and the WHATWG `TextDecoder`, and on module `Base64`, which
    models `btoa` as in section 4 of RFC 4648 and `atob` as WHATWG
    forgiving-base64.
  - XOR is defined bit by bit in module `Bytes`.
- **`src/CloudStore.js`** holds the upload key, a `|`-separated list of fields
  read by position, and the base upload backend, which never uploads. Module
  `CloudStore` models it.
- **`src/PostCSV.js`** is the backend that POSTs the rows as CSV. Module
  `PostCSV` models it.
  - It builds the CSV text with a loop.
  - It moves inline `user:password@` credentials out of the URL into a Basic
    authorization header (section 2 of RFC 7617).
  - It reads the outcome of `fetch`.
  - Reading CSV back (section 2 of RFC 4180, with LF line ends) is the partner
    that shows the text loses nothing.
- **`src/Page.js`** is one log sheet. Module `DivePage` models it.
  - The constructor has four modes: from the screen, blank, from a record, and
    loaded by id.
  - `saveToLocal`, `updateFromUI` and its `calculateDiveTime` (the midnight
    wrap) are covered.
  - `loadIntoUI` writes the page onto the screen's inputs.
  - `uploadToDrive` flattens the page into records.
  - The screen is an explicit `UI` object: the `#currentPage` number, the
    metadata inputs, and the `.value` and `.checked` of every table input in
    document order.
- **`src/Pages.js`** is the list of pages, kept in step with the id list stored
  under `"dive_pages"`. Module `DivePages` models it.
  - It covers the constructor, `saveToLocal`, `addPage`, `newPage`,
    `removePage`, `getPageById` and `updatePageFromUI`.
  - It covers `retryUploads`, with the network's answer as a parameter.

`localStorage` is a `Storage` object holding a map from keys to structured
values, in module `LocalStorage`. The JSON text the source writes is replaced
by the value it encodes.

The model follows the code as written, including where it behaves unexpectedly.
The contracts state these behaviours:

- **The removal loop removes only some pages.** After a successful upload,
  `retryUploads` removes pages from the array it is iterating over. Only the
  pages at even positions go, and the pages at odd positions remain
  (`DivePages.Pages.RemoveUploaded`, `DivePages.RemainingDone`). See Findings
  for the loop over a copy of the list, `DivePages.Pages.ClearAllUploaded`.
- **`removePage` deletes the wrong key.** It deletes `"page_" + id`, but a page
  is stored under `"dive_page_" + id`. Removed pages' records therefore stay in
  storage (`DivePages.UploadedRecordsSurvive`). See Findings for the removal
  under the right key, `DivePages.Pages.RemovePageAndRecord`.
- **Removing an absent page drops the last page.** `indexOf` gives -1, and
  `splice(-1, 1)` removes the last element (`DivePages.RemoveNonMember`).
- **A stored empty list breaks the constructor.** With `[]` stored under the
  list key, the constructor finds no page to show, and `pages[0].loadIntoUI()`
  throws. `DivePages.Open` reports this as `ok == false`.
- **Every string is quoted in CSV.** The quoting test `/[",\n]/` is a
  regular-expression literal and therefore always true, so every string field
  is quoted (`PostCSV.StringsAlwaysQuoted`).
- **An empty key still encodes.** With an empty key, `E` is plain base64 of the
  UTF-8 bytes (`ED.EmptyKey`), and `D` still inverts it.
- **`D` drops a leading U+FEFF.** `new TextDecoder()` consumes a leading
  byte-order mark, so a text that starts with U+FEFF comes back without it
  (`ED.BomLost`; see Findings).

Other behaviour of the code that the contracts pin down:

- `addPage` appends the page at the end of the list.
- A blank page's date is its numeric id.
- The upload batch holds every page; there is no filter on which pages are
  uploaded.
- The batch is built from `uploadToDrive`: for each page, a header record,
  then `[id, ...row]` for each of its rows.

## Model

| member | source | states |
|---|---|---|
| Bytes.ToUint8 | src/ED.js:13-15 | storing a value already in 0..255 into a `Uint8Array` keeps it unchanged |
| Bytes.XorZero | src/ED.js:7 | `byte ^ 0` is the byte itself, which is the empty-key case of `byte ^ undefined` |
| Bytes.XorXor | src/ED.js:5-8 | XOR with the same key byte twice gives the original byte back |
| Bytes.XorOfBytes | src/ED.js:7 | the XOR of two bytes is again a byte, so `String.fromCharCode` gives a Latin-1 string |
| ED.XorStageExact | src/ED.js:5-8 | the `Uint8Array.map` loses nothing: output byte `i` is exactly `text[i] XOR key[i mod n]` for a key of `n` bytes |
| ED.XorStageInvolution | src/ED.js:18-21 | `D`'s XOR stage is the same transform as `E`'s, and applying it twice with the same key is the identity |
| ED.EncodeShape | src/ED.js:1-10 | `E` never throws; its token is the base64 of exactly as many bytes as the text's UTF-8 encoding, byte `i` being `text[i] XOR key[i mod n]` for a key of `n` bytes |
| ED.AtobCodesAreBytes | src/ED.js:13-15 | `atob` yields only code units below 256, so the `Uint8Array` built from them holds exactly those values |
| ED.EmptyKey | src/ED.js:6-7 | with an empty key, `E` is plain base64 of the text's UTF-8 bytes |
| ED.DecodeEncode | src/ED.js:12-24 | `E` never throws, and `D(E(x, k), k) == x` for every key, the empty key included, and every text that does not start with U+FEFF; a leading U+FEFF comes back removed |
| ED.XorBytesOfToken | src/ED.js:12-21 | on a token `E` made, `atob` succeeds and the XOR stage gives back exactly the text's UTF-8 bytes |
| ED.BomLost | src/ED.js:22-23 | a text that starts with U+FEFF comes back from `D(E(text, key), key)` without it |
| ED.DecodeKeepingBomEncode | src/ED.js:12-24 | with a decoder that keeps the byte-order mark, `D(E(x, k), k) == x` for every text and every key |
| Utf8.Encode | src/ED.js:2-4 | a text of `n` scalar values encodes to between `n` and `4n` bytes |
| Utf8.Decode | src/ED.js:22-23 | the WHATWG UTF-8 decoder with `ignoreBOM`; it never yields more characters than there are bytes |
| Utf8.DecodeOneEncodeChar | src/ED.js:22-23 | the decoder reads back the exact character whose encoding starts the input, and consumes exactly its bytes |
| Utf8.DecodeEncode | src/ED.js:2-4 | UTF-8 decoding of `TextEncoder().encode(s)` gives `s` back, a leading U+FEFF included |
| Utf8.TextDecodeEncode | src/ED.js:22-23 | `new TextDecoder().decode(new TextEncoder().encode(s))` gives `s` back, except that a leading U+FEFF is dropped |
| Utf8.BomOnlyFromFeff | src/ED.js:22-23 | only U+FEFF encodes to bytes that start with the byte-order mark, so no other text loses its first character |
| Base64.CharSextet | src/ED.js:14 | a character accepted as a base64 digit is the digit of the value it decodes to |
| Base64.CharSextetOfSextetChar | src/ED.js:14 | every digit the encoder writes decodes back to its 6-bit value |
| Base64.EncodeGroups | src/ED.js:9 | `n` bytes give `4 * (n / 3)` digits, plus 2 or 3 more for a trailing one or two bytes |
| Base64.Encode | src/ED.js:9 | the encoding's length is a multiple of 4, namely `4 * ceil(n / 3)` |
| Base64.RemoveWhitespace | src/ED.js:14 | the decoder's input has no ASCII whitespace left |
| Base64.FromBytes | src/ED.js:9 | `String.fromCharCode(...bytes)` gives one Latin-1 code unit per byte, with the byte's value |
| Base64.Btoa | src/ED.js:9 | `btoa` succeeds exactly when every code unit is below 256, then returns the RFC 4648 encoding of those bytes, and `atob` of it gives the string back |
| Base64.Atob | src/ED.js:14 | `atob` succeeds exactly when forgiving-base64 decoding succeeds, and then returns a Latin-1 string |
| Base64.DecodeEncodeGroups | src/ED.js:9 | decoding the 6-bit groups of a byte sequence gives the bytes back |
| Base64.RemovePaddingOfEncode | src/ED.js:14 | the decoder strips exactly the `=` padding the encoder added |
| Base64.DecodeEncode | src/ED.js:9 | forgiving-base64 decoding of an encoding gives the original bytes |
| JsText.DigitChar | src/Page.js:86 | a decimal digit's character is a digit whose value is that digit |
| JsText.NatToString | src/Page.js:86 | a number's decimal text is non-empty and starts with a digit |
| JsText.NatToStringDigits | src/Page.js:86 | a number's decimal text is made of digits only |
| JsText.DigitsValueOfNatToString | src/Page.js:86 | reading back the decimal text of `n` gives `n` |
| JsText.IntToStringInjective | src/Page.js:86 | different numbers have different decimal texts |
| JsText.ToText | src/Page.js:188 | the text an input shows: a string as is, a boolean as `true`/`false`, a number as decimal text that starts with `-` exactly for a negative number and whose digits read back as its magnitude |
| JsText.Split | src/CloudStore.js:19 | `split` always returns at least one field |
| JsText.SplitFieldsHaveNoSeparator | src/CloudStore.js:19 | no field that `split` returns contains the separator |
| JsText.JoinSplit | src/CloudStore.js:19 | joining the fields of a split gives the original string |
| JsText.SplitJoin | src/CloudStore.js:19 | splitting the join of separator-free fields gives those fields back |
| JsText.SplitOfPlain | src/CloudStore.js:19 | a string without the separator splits into itself alone |
| JsText.SplitPrefix | src/CloudStore.js:19 | a separator-free first field followed by the separator splits off as the first field |
| LocalStorage.Storage.SetItem | src/CloudStore.js:13 | `setItem` changes the entry under its key and nothing else |
| LocalStorage.Storage.RemoveItem | src/Pages.js:79 | `removeItem` deletes only its key; removing an absent key changes nothing |
| CloudStore.SetKey | src/CloudStore.js:12-14 | `setKey` stores the key as text under `CloudStore_Key` and changes no other entry |
| CloudStore.GetKey | src/CloudStore.js:16-23 | with no numeric field, the stored key or `""`; with a stored non-empty key and field `n`, field `n` of its split on the bar, or undefined out of range; with no key or an empty key, `""` for every field |
| CloudStore.GetKeyAfterSetKey | src/CloudStore.js:12-23 | after `setKey(k)`, `getKey()` returns `k` |
| CloudStore.GetKeyOfJoinedFields | src/CloudStore.js:18-21 | storing the bar-join of separator-free fields makes `getKey(i)` return field `i` |
| CloudStore.GetKeyFieldHasNoSeparator | src/CloudStore.js:19-20 | a field returned by `getKey(n)` never contains the bar separator |
| CloudStore.CanUpload | src/CloudStore.js:30-32 | the base store can never upload |
| CloudStore.Upload | src/CloudStore.js:39-41 | the base upload always rejects with `"Incorrect upload key"` |
| PostCSV.Escape | src/PostCSV.js:25 | doubling the quotes never shortens a string |
| PostCSV.EscapePlain | src/PostCSV.js:25 | a string without quotes is left as it is |
| PostCSV.StringsAlwaysQuoted | src/PostCSV.js:24-25 | every string field is wrapped in quotes whatever it contains, and a quote-free string is just wrapped |
| PostCSV.BuildCsv | src/PostCSV.js:21-27 | the loop accumulates one `,`-joined, `\n`-terminated line per row, in row order |
| PostCSV.ParseQuoted | src/PostCSV.js:25 | reading a quoted field always consumes input |
| PostCSV.ParseQuotedEscape | src/PostCSV.js:25 | reading back a quoted, quote-doubled field (RFC 4180) gives the original string and the text after it |
| PostCSV.ParseUnquotedPlain | src/PostCSV.js:26 | an unquoted number or boolean text reads back up to the next comma or line end |
| PostCSV.NumberAndBooleanTextIsPlain | src/PostCSV.js:26 | numbers and booleans are written unquoted, as text with no comma, quote or line break |
| PostCSV.ParseFieldQuoted | src/PostCSV.js:25 | a formatted string field reads back as that string |
| PostCSV.ParseFieldFormat | src/PostCSV.js:23-27 | every formatted field, of any type, reads back as the value's text |
| PostCSV.ParseRecordFields | src/PostCSV.js:23-27 | the `,`-join of a non-empty row's fields, ended by `\n`, reads back as the row's texts |
| PostCSV.ParseRecordLine | src/PostCSV.js:23-27 | each CSV line, including the empty line of an empty row, reads back as its row's texts and leaves the following lines alone |
| PostCSV.ParseCsvText | src/PostCSV.js:21-27 | the whole CSV text reads back as exactly one record per row, in order, so it has one line terminator outside quotes per row outside quotes |
| PostCSV.RunLengthFacts | src/PostCSV.js:31 | `[^:/]*` at a position takes the longest run of characters other than `:` and `/` |
| PostCSV.LastAt | src/PostCSV.js:31 | where greedy `[^:\/]*@` backtracks to: an `@` inside the stretch with no `@` after it, or none when the stretch holds no `@` |
| PostCSV.Exec | src/PostCSV.js:31 | `exec` finds the leftmost match of `([^:/]+:[^:/]*)@`: none starts earlier, and `None` means none starts anywhere |
| PostCSV.MatchShape | src/PostCSV.js:31 | a match is a non-empty user, `:`, a password and `@`, with no `:` or `/` in the parts, and its `@` is the last one before the next `:`, `/` or the end, so a password holding `@` stays in `m[1]` |
| PostCSV.OccurrenceMatches | src/PostCSV.js:31 | any occurrence of a match's text is itself a match |
| PostCSV.IndexOf | src/PostCSV.js:36 | the first occurrence of a string at or after a position, or -1 when there is none |
| PostCSV.Credentials | src/PostCSV.js:30-37 | with no match, the URL is used unchanged and no credentials are sent |
| PostCSV.FirstOccurrenceIsMatch | src/PostCSV.js:36 | the first occurrence of `m[0]`, the text `replace` looks for, is the match itself |
| PostCSV.CredentialsCutMatch | src/PostCSV.js:30-37 | with a match, the URL requested is the original with the leftmost `user:password@` cut out, and `m[1]` is that match without its `@` |
| PostCSV.RequestHeaders | src/PostCSV.js:32-35 | always `Content-type: text/csv; charset=UTF-8`; with credentials, also `Authorization: Basic` and their base64; `btoa` throws on non-Latin-1 credentials |
| PostCSV.RequestOfMatch | src/PostCSV.js:30-37 | with `user:password@` matched at `p..e`, the request exists exactly when `url[p..e]` is Latin-1, and it goes to the URL with the match cut out with `Authorization: Basic` of its base64 |
| PostCSV.RequestSent | src/PostCSV.js:21-42 | without inline credentials the stored URL with only the content-type header; with `user:password@` found, the URL with it cut out and `Authorization: Basic` of its base64, and the request exists exactly when that user info is Latin-1; the body parses back into the rows' cell texts |
| PostCSV.ResponseOutcome | src/PostCSV.js:43-46 | the upload resolves exactly on a 2xx status |
| PostCSV.Upload | src/PostCSV.js:18-47 | empty rows reject with `"Nothing to upload"` before any request; otherwise the request is sent unless building it throws, and the outcome is the response's |
| PostCSV.CanUpload | src/PostCSV.js:11-13 | truthy exactly when field 1 (the URL) of a stored non-empty key exists and is non-empty |
| DivePage.PageKeyInjective | src/Page.js:86 | different page ids are stored under different keys |
| DivePage.SameRow | src/Page.js:145-152 | a row reads the same from two tables that agree on that row's inputs |
| DivePage.ParseTime | src/Page.js:132-133 | a valid `HH:MM` time is a minute of the day, below 1440 |
| DivePage.ParseTimeText | src/Page.js:132-133 | every minute `m` of the day reads back from its `HH:MM` text as `m`, that is `60*HH + MM` |
| DivePage.TextOfParseTime | src/Page.js:132-133 | a text that parses is exactly the `HH:MM` text of the minute it parses as |
| DivePage.DiveMinutes | src/Page.js:134-135 | the dive time lies in [0, 1440) and is `out - in` modulo one day |
| DivePage.DiveTimeOfTimes | src/Page.js:131-137 | for times `HH:MM` of minutes `a` and `b`, the Dive time becomes `String((b - a) mod 1440)` |
| DivePage.DiveTimeOverMidnight | src/Page.js:131-137 | a dive from 23:50 to 00:10 lasts 20 minutes |
| DivePage.DiveTimeValueStable | src/Page.js:127-139 | recomputing a recomputed dive time changes nothing |
| DivePage.WithDiveTimesIdempotent | src/Page.js:127-139 | capturing the screen twice computes the same dive times as capturing it once |
| DivePage.DiveTimeCellStable | src/Page.js:127-139 | each cell of the table is the same after two recomputations as after one |
| DivePage.WithDiveTimesStep | src/Page.js:141-143 | `calculateDiveTime` on row `r` extends the recomputed rows by that row |
| DivePage.DiveTimesRowFinal | src/Page.js:141-145 | a row read right after its dive time is computed is the row as it stands at the end |
| DivePage.KeptStep | src/Page.js:153-154 | each table row is appended to the kept rows exactly when it names a diver |
| DivePage.KeptMembers | src/Page.js:153-154 | a row survives capture exactly when it is in the table and its first datum is not `""` |
| DivePage.KeptAll | src/Page.js:141-155 | capture keeps the table's order: when every row names a diver, it keeps them all as they are |
| DivePage.CapturedRowShape | src/Page.js:144-154 | every captured row has eleven entries, a boolean in the Led column and strings elsewhere, and names a diver |
| DivePage.UIRowShaped | src/Page.js:145-151 | a table row holds `.checked` for the checkbox and `.value` for every other column |
| DivePage.CellTextsStep | src/Page.js:186-188 | the input loop writes each row's cells right after those of the rows before it |
| DivePage.CellTextAt | src/Page.js:186-188 | cell `c` of row `r` lands in the input right after the cells of the rows before, plus `c` |
| DivePage.RowFollows | src/Page.js:186-188 | a row's cells follow those of the rows before it in the full cell list |
| DivePage.CellTextsPrefix | src/Page.js:186-188 | the cells of the first rows are a prefix of the full cell list |
| DivePage.Page.Blank | src/Page.js:52-62 | `new Page()`: empty rows, five empty metadata strings, and a date equal to the numeric id |
| DivePage.Page.FromRecord | src/Page.js:63-79 | `new Page(object)` takes the object's id, metadata and rows as they are |
| DivePage.Page.FromUI | src/Page.js:47-51 | `new Page(null)` stamps `#currentPage` with the time and captures and saves the screen under that id |
| DivePage.Page.Load | src/Page.js:43-79 | `new Page(n)`: the record stored under `"dive_page_" + n`, with nothing else changed; without one, `JSON.parse(null)` leads to the capture of `new Page(null)` |
| DivePage.Page.SaveToLocal | src/Page.js:85-87 | the page's record is stored under `"dive_page_" + id`, and no other entry changes |
| DivePage.Page.CalculateDiveTime | src/Page.js:127-139 | only the row's dive-time input changes, and only when both times are non-empty |
| DivePage.Page.ReadRow | src/Page.js:144-152 | the `.datum` loop reads the row's inputs in column order |
| DivePage.Page.UpdateFromUI | src/Page.js:124-171 | the page becomes the screen's capture (dive times recomputed, rows naming a diver kept in order, id from `#currentPage`, metadata from the inputs), the grid shows the new dive times, and the page is saved |
| DivePage.Page.LoadIntoUI | src/Page.js:176-192 | the screen shows the id and metadata, the inputs hold the cells' texts row by row and then blanks; it fails exactly when the cells outnumber the inputs |
| DivePage.Page.WriteCells | src/Page.js:184-191 | when they fit, the first inputs hold the cells' texts in row-major order and the rest are `""`; otherwise every input is written and the loop fails |
| DivePage.Page.UploadToDrive | src/Page.js:197-209 | one record more than there are rows: the header `[id, site, date, manager, boat, weather, comments]`, then `[id, ...row]` for each row in order; the page is rebuilt exactly from these records |
| DivePage.UploadRecordsRebuild | src/Page.js:197-209 | the upload records carry the whole page: it is rebuilt from them exactly |
| DivePage.RowsTagged | src/Page.js:206-207 | every record after the header starts with the page id |
| DivePage.RowsUntagged | src/Page.js:206-207 | dropping the id from each record after the header gives back the rows |
| DivePages.KeysDiffer | src/Pages.js:79 | a `page_` key is never a page's `dive_page_` key or the list key, and the two stored key kinds differ |
| DivePages.RecordsSnoc | src/Pages.js:61 | appending a page appends its record |
| DivePages.IndexOf | src/Pages.js:77 | `indexOf` is -1 exactly for an absent page, and otherwise the page's first index |
| DivePages.RemoveMember | src/Pages.js:76-78 | removing a listed page removes exactly that page and keeps the others in order |
| DivePages.RemoveNonMember | src/Pages.js:77 | removing an absent page removes the last page instead |
| DivePages.FindById | src/Pages.js:86-89 | the first page with the id, or none when no page has it |
| DivePages.RemovedKeysArePageUnderscore | src/Pages.js:79 | the keys `removePage` deletes are never the list key or a page's key |
| DivePages.UploadedRecordsSurvive | src/Pages.js:76-80 | after the removals, every stored page record is still in storage, unchanged |
| DivePages.NoRecordLeft | src/Pages.js:79 | deleting under `"dive_page_" + id`, the key `saveToLocal` writes, leaves no record of a removed page in storage; the list is saved and every other entry stays |
| DivePages.BatchAsWritten | src/Pages.js:133-137 | as written, the batch fails with a TypeError whenever there is a page |
| DivePages.BatchPrefix | src/Pages.js:133-137 | the batch of the first pages is a prefix of the whole batch |
| DivePages.BatchCarriesEveryPage | src/Pages.js:133-137 | each page is rebuilt exactly from its stretch of the batch, in list order |
| DivePages.AllLoadedSnoc | src/Pages.js:25-26 | each constructor pass extends the pages loaded so far by one more stored id |
| DivePages.LoadingLookup | src/Pages.js:25-26 | during the constructor's loop, a lookup by id finds the stored record, or the capture saved under the current time |
| DivePages.LoadStep | src/Pages.js:25-26 | one `new Page(id)` of the constructor yields the stored record or the screen's capture, and keeps storage and screen as the loop expects |
| DivePages.LoadingStoreList | src/Pages.js:26 | saving the list during the constructor's loop touches no page record |
| DivePages.CaptureAgain | src/Pages.js:25-29 | capturing a screen whose dive times are already computed gives the same record again |
| DivePages.Pages.constructor | src/Pages.js:13-30 | with a stored list, one page per stored id in order, each the stored record or the screen's capture, and only the list and the capture under the current time change in storage; with no list, one page captured from the screen, saved under the current time and listed alone, with its dive times filled in on screen; the list is saved |
| DivePages.Pages.LoadListed | src/Pages.js:23-26 | the constructor's loop creates one page per stored id, in order, saves their ids, and changes storage only in the list and the capture under the current time; the grid keeps its values or has its dive times filled in once |
| DivePages.Pages.LoadNext | src/Pages.js:26 | one pass appends a fresh page loaded for the id and saves the list |
| DivePages.Pages.SaveToLocal | src/Pages.js:51-54 | the page ids, in order, are stored under `"dive_pages"` |
| DivePages.Pages.AddPage | src/Pages.js:60-63 | the page is appended at the end, and the stored list then holds the ids of the pages in order |
| DivePages.Pages.NewPage | src/Pages.js:65-70 | a blank page stamped with the time is appended and shown on a cleared table |
| DivePages.Pages.RemovePage | src/Pages.js:76-80 | the page at `indexOf(page)`, or the last page when it is absent, is spliced out; the list is saved, and `"page_" + id` is removed |
| DivePages.Pages.UpdatePageFromUI | src/Pages.js:94-100 | the page whose id `#currentPage` shows becomes the screen's capture and is saved, the grid gets its dive times filled in, and no other page changes; with no such page nothing changes, where the source throws |
| DivePages.Pages.ShowFirst | src/Pages.js:31 | `pages[0]` is shown; it fails on an empty list or when its cells do not fit |
| DivePages.Pages.RetryUploads | src/Pages.js:129-157 | an empty list alerts "Nothing to upload." and sends nothing. Otherwise the batch of every page's records is sent. On failure nothing changes. On success the pages at odd positions remain (or one blank page when one page was uploaded), their `page_` keys go, and the first page is shown |
| DivePages.Pages.ClearUploaded | src/Pages.js:146-155 | after a successful upload: the pages at odd positions remain, or one blank page; the list is saved and the first page shown |
| DivePages.Pages.CollectUploads | src/Pages.js:133-137 | the batch is every page's upload records, page after page |
| DivePages.Pages.RemoveUploaded | src/Pages.js:147-148 | removing pages while iterating over the list leaves exactly the pages at odd positions, and deletes the `page_` keys of those at even positions |
| DivePages.UploadedPagesRemain | src/Pages.js:147-148 | with two or more pages, the page at position 1 is still listed after the removal loop as written, and half the pages (rounded down) remain |
| DivePages.Pages.RemovePageAndRecord | src/Pages.js:76-80 | `removePage` with the record key corrected: the same splice and list save, and the record under `"dive_page_" + id` is deleted |
| DivePages.Pages.RemoveAllUploaded | src/Pages.js:147-148 | the removal loop over a copy of the list: the list ends empty, and storage loses exactly the uploaded pages' records besides saving the empty list |
| DivePages.Pages.ClearAllUploaded | src/Pages.js:146-154 | the success branch as intended: no uploaded page remains, exactly one blank page stamped `now` is listed and shown, and no uploaded page's record is left in storage |
| DivePages.RemainingClosed | src/Pages.js:147-148 | after `i` passes of the loop, the list is the odd positions of its first `2i` pages followed by the untouched rest |
| DivePages.RemainingLength | src/Pages.js:147-148 | each pass of the loop shortens the list by one until it runs past the end |
| DivePages.RemainingDone | src/Pages.js:147-148 | the loop stops exactly when only the odd positions are left |
| DivePages.KeptAndRemoved | src/Pages.js:147-148 | the pages the removal loop keeps and those it removes together are the original list, none lost or counted twice |
| DivePages.RemovalStep | src/Pages.js:147-148 | pass `i` meets the page originally at position `2i`, and `indexOf` finds it at index `i` |
| DivePages.RemovalSplice | src/Pages.js:148 | splicing index `i` out of the list after `i` passes gives the list after `i + 1` passes |
| DivePages.RemainingDistinct | src/Pages.js:147-148 | the pages left are still distinct objects |
| DivePages.GoneNone | src/Pages.js:147-148 | before the loop, no key has been removed |
| DivePages.GoneNotList | src/Pages.js:147-148 | the loop never removes the list key |
| DivePages.GoneStep | src/Pages.js:147-148 | each pass removes the `page_` key of one more even position |
| DivePages.RemovedKeysSnoc | src/Pages.js:79 | one more removed page adds its `page_` key |
| DivePages.EvenPositionsSnoc | src/Pages.js:147-148 | each pass adds one more even position to those removed |
| DivePages.ListAfterRemoval | src/Pages.js:146-151 | saving the list after the removals is the same as saving it once before them |
| DivePages.RemovalStoreStep | src/Pages.js:147-148 | after pass `i + 1` the storage is the original with the list saved and the `page_` keys of `i + 1` even positions removed |
| DivePages.GoneFacts | src/Pages.js:147-148 | what one pass adds to the removed keys, and that the list key is never among them |
| DivePages.StoreStep | src/Pages.js:78-79 | saving the list and then removing a `page_` key commutes with the earlier removals |
| DivePages.Open | src/Pages.js:13-33 | the whole constructor: pages and storage as the constructor leaves them, then `pages[0]` is shown; it fails, leaving the grid as it was, when the list is empty (`[]` stored), and fails when the cells do not fit; any other stored state gives at least one page |

## Left out

- The DOM is a snapshot object. Building the table (`createRows`), the page list (`reloadList`), `alert` texts and `console` output are not modelled. `getUIPageId` and `getUIPage` are folded into `UpdatePageFromUI`, which reads `#currentPage` as the number `parseInt` gives.
- `Date.now()` is the parameter `now`. The network is also a parameter: `fetch`'s answer for `PostCSV.Upload`, and `appended` for the authentication and sheet append in `retryUploads`.
- `JSON.stringify` and `JSON.parse` are not modelled. Storage holds structured values.
- `src/DriveSheet.js`, `src/Google.js`, `src/PostCSVServer.js`, `src/DiveManager.js`, `src/ServiceWorker.js` and `build_ids.js` are not part of this model. They hold the OAuth flow, the sheet append, the server, event wiring, caching and a build script.
- Time inputs are `HH:MM` strings, read as minutes since midnight. JavaScript `Date` parsing, seconds and fractional minutes are not modelled. An unparsable time gives `NaN`, which a number input shows as `""`.
- Numbers in cells and records are integers. Floating point is not modelled.
- JavaScript strings can hold lone surrogates, but Dafny's `char` is a Unicode scalar value. UTF-8 encoding and decoding are modelled on scalar values only.
- DivePage.Page.Load: when the entry under a page key is not a page record, the model treats it like a missing entry and captures the screen. In the source, `JSON.parse` of such text gives a value that no constructor branch handles.
- DivePages.Pages.constructor: a listed id without a record makes its page capture the screen, and saves that capture under the current time. A later listed id equal to that time then reads the capture back. For such an id the contract allows the stored record or the capture, and does not say which.
- DivePages.Pages.constructor: the clock is read once, as `now`, for the whole constructor. In the source each `new Page(id)` that captures the screen calls `Date.now()` again, so two such pages could be stamped with different times; the model stamps them all with `now`.
- DivePages.Pages.LoadListed: it carries the constructor's two gaps above. The clock is read once, as `now`, for every capture. For a listed id equal to `now` whose record was captured earlier in the loop, the contract allows the stored record or the capture.
- DivePages.Open: it carries the constructor's two gaps above, the single `now` and the either-or for a listed id equal to `now`.
- DivePages.Pages.UpdatePageFromUI: when no page has the shown id, the source throws a TypeError. The model returns `ok == false` and changes nothing.
- DivePages.Pages.CollectUploads: it builds the batch with `uploadToDrive`, where the source calls the missing `prepareUpload` (see Findings).
- PostCSV.Upload: when `btoa` throws on non-Latin-1 credentials, the source throws synchronously, before any promise exists. The model gives a `Failure` outcome, the same value as a rejected promise. The repository's files define `upload` but contain no call to it, so no caller observes the difference.
- DivePage.Page.LoadIntoUI: when the cells outnumber the inputs, the source throws a TypeError after writing every input. The model returns `ok == false` with the same inputs written.
- DivePages.Pages.RetryUploads: the batch is built with `uploadToDrive`, because the `prepareUpload` that the source calls does not exist (see Findings). When showing the first page fails, the alert is `UploadFailed`, as the source's `catch` would report.

## Findings

| source | as written | input that shows it | evidently intended | confidence | as-written member | corrected member |
|---|---|---|---|---|---|---|
| src/Pages.js:135 | `page.prepareUpload()` is called on each page, but `Page` defines no `prepareUpload`, so it throws a TypeError | any non-empty page list, for example one blank page | each page's upload records (`uploadToDrive`), concatenated in page order | not executed | DivePages.BatchAsWritten | DivePages.BatchCarriesEveryPage |
| src/ED.js:22-23 | `D` decodes with `new TextDecoder()`, whose `ignoreBOM` is false, so a leading U+FEFF is consumed and `D(E(text, key), key)` drops it | the text `"\u{FEFF}a"` with any key gives back `"a"` | `D` inverts `E` for every text, as the commented-out `D(e, secret)` check in `build_ids.js:14` expects | not executed | ED.BomLost | ED.DecodeKeepingBomEncode |
| src/Pages.js:147-148 | `for (const page of this.pages) this.removePage(page)` splices the array it is walking, so each splice shifts the next page under the index already passed; only the pages at even positions are removed | two uploaded pages `[p0, p1]`: `p0` is removed, and `p1` stays listed | every uploaded page removed, and then one blank page listed | not executed | DivePages.UploadedPagesRemain | DivePages.Pages.ClearAllUploaded |
| src/Pages.js:79 | `removePage` deletes `"page_" + id`, but `saveToLocal` stores a page under `"dive_page_" + id` (src/Page.js:2, src/Page.js:86), so the record stays | any page with a saved record, for example id 5 stored under `dive_page_5`: `dive_page_5` is still present after `removePage` | the record of a removed page deleted from storage | not executed | DivePages.UploadedRecordsSurvive | DivePages.NoRecordLeft |
