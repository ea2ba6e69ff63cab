# investgo in Dafny

investgo is a small Go package that scrapes Investing.com. This project models its three pieces of sequential logic and proves properties of them:

- **The historical-data table extractor.** `getStockHistoricalData` exists in `historical.go` and in an older copy in `stocks.go`.
  - It skips HTML tokens up to the first token named `tbody`.
  - It then fills a six-slot row buffer, cell by cell, from the `data-real-value` attributes of `<td>` start tags.
  - In column 0 it turns epoch seconds into a `2006-01-02 15:04:05` timestamp.
  - At each `</tr>` it appends the buffer and starts a blank one.
  - It stops at `</table>` or at the end of the tokens.
  - A fixed header row always comes first.
- **The quote filter and identifier lookup of `search.go`.**
  - `searchQuotesAssetTypeCountry` filters the quotes of a search answer. It matches asset type and/or country case-insensitively, choosing one of four branches by which arguments are empty.
  - `symbolId` returns the `pairId` of the first quote matching both fields, or `-1`.
- **The older `symbolId` of `searchQuotes.go`.** It does an exact, case-sensitive first-match scan on symbol and country and returns `0` when nothing matches.

Modules:

- `Wrappers`: `Option` and `Result`.
- `GoLibrary`: the library calls the core makes.
  - `strings.TrimSpace`.
  - `strconv.ParseInt(s, 10, 64)`, with its inverse `FormatInt`.
  - `strings.EqualFold`, restricted to ASCII letters.
- `Timestamp`: `time.Unix(secs, 0).Format("2006-01-02 15:04:05")`, computed in UTC on the proleptic Gregorian calendar.
- `HtmlToken`: the tokens of `golang.org/x/net/html` as the extractor reads them. The end of the sequence stands for `io.EOF`.
- `TableExtractor`:
  - `Scan` and `Extract` state the token loops as functions.
  - `ExtractTable`, `AssembleRows` and `FillCellInPlace` are the loops themselves, written imperatively over an `array<string>` row buffer and proved equal to `Extract`.
  - The lemmas say what an extracted table looks like.
- `Historical` and `Stocks`: the two versions of `getStockHistoricalData`. They differ in their header labels and in how they fail. Their token loops are the same loop, so both call `ExtractTable`.
- `Quotes`: the decoded search answer (`Stock`, `Quote`, `Total`, `Filter`). The `Stock` of `searchQuotes.go` declares its parts as inline structs. Its quote fields carry the same JSON tags. Its outer fields `Quotes`, `Total` and `Filters` carry no tags, and `encoding/json` matches them to the keys `quotes`, `total` and `filters` by name, ignoring case. So it decodes the same data, and it is modelled by the same datatype.
- `Search`: the filter and `symbolId` of `search.go`. Each is a method with loops, proved against a specification function.
- `SearchQuotes`: `symbolId` of `searchQuotes.go`.

Panics, and `log.Fatalln` calls that end the process, are not return values in Go. Here they are outcomes:

- `Panic`: `BadEpoch`, or `CellIndexOutOfRange`.
- `Exited`: the process ended through `log.Fatalln`.

The HTTP round trip and the JSON decoding are inputs:

- `Fetch` is what the transport part of `getStockHistoricalData` delivered.
- `SearchResponse` (and, for `searchQuotes.go`, the decoded `Stock`) is what the search call returned.

Four behaviours of the code are worth stating outright, because a reader of the function names might expect otherwise:

- **Finding the table.** The row loop starts after the first token of any kind whose data is `tbody`: a start tag, an end tag or plain text. With no such token, the result is the header alone and a nil error (`TableExtractor.NoTbodyGivesHeaderOnly`, `TableExtractor.SkipsThroughFirstTbody`).
- **Failures.**
  - The extractor panics on an unparsable epoch in column 0 and on a seventh cell carrying `data-real-value`.
  - `stocks.go` calls `log.Fatalln`, ending the process, on every transport failure; `historical.go` does so only when gzip fails.
- **No filter.** `searchQuotesAssetTypeCountry` keeps every quote only when the symbol is non-empty and both other arguments are empty. With all three arguments empty it empties the list (`Search.FilterPolicy`).
- **Column order.** Both versions put the cells in the order of the `<td>` cells in the response (`Stocks.SameRowsAsHistorical`). The header of `historical.go` names that order Close, Open, High, Low; `stocks.go` labels the same cells Open, High, Low, Close. No code of the package reorders columns.

## Model

| member | source | states |
|---|---|---|
| GoLibrary.TrimSpace | historical.go:125 | the result is an infix of the input that neither starts nor ends with white space, and only white space is cut off on either side |
| GoLibrary.TrimSpaceOfPadded | historical.go:125 | trimming recovers any text without edge white space from any white-space padding (so trimming is idempotent) |
| GoLibrary.ParseInt | historical.go:127-130 | a value is returned exactly for an optionally signed, non-empty digit string whose value lies in the int64 range, and that value is the one returned |
| GoLibrary.ParseIntOfFormatInt | historical.go:127-130 | every int64 value, rendered in decimal, parses back to itself |
| GoLibrary.EqualFoldCharwise | search.go:24 | two strings are equal up to case exactly when they have the same length and each pair of characters is equal, or an ASCII capital and its small letter in either order |
| GoLibrary.EqualFoldEmpty | search.go:24 | only the empty string is equal up to case to the empty string |
| Timestamp.FromUnix | historical.go:131 | the civil date and time of an epoch second is a valid date whose epoch second is that second |
| Timestamp.FromUnixToUnix | historical.go:131 | every valid date and time has exactly one epoch second: converting it and back gives the same date |
| Timestamp.PadInt | historical.go:132 | a zero-padded rendering is all digits, reads back to the number, has exactly the width for numbers that fit, and has no leading zero when it is wider than the width |
| Timestamp.FormatRoundTrip | historical.go:132 | for four-digit years the rendering has the layout `dddd-dd-dd dd:dd:dd`, and reading its six fields back gives the date and time |
| Timestamp.FormatUnixExample | historical.go:131-132 | epoch second 1577836800 renders as `2020-01-01 00:00:00` |
| TableExtractor.FillCell | historical.go:122-136 | one `<td>` changes only slot k; that slot ends up holding the cell value of the last `data-real-value`, or is unchanged when the cell has none |
| TableExtractor.FillCellFails | historical.go:123-134 | a cell panics exactly when one of its `data-real-value` attributes has an unparsable epoch in column 0 or sits in a column past the sixth |
| TableExtractor.EpochCellValue | historical.go:125-133 | column 0 turns any 64-bit epoch written in decimal, with any white space around it, into that epoch's timestamp |
| TableExtractor.FillCellInPlace | historical.go:122-136 | the attribute loop writes the row buffer in place to exactly what `FillCell` yields, or reports the panic `FillCell` yields |
| TableExtractor.FirstTbody | historical.go:93-105 | the seek stops at the first token whose data is `tbody`, of any kind, or at the end of the tokens |
| TableExtractor.AssembleRows | historical.go:107-154 | the row-assembly loop, with the six-slot buffer updated in place, appends exactly the rows `Scan` gives from a blank buffer at column 0, or ends with its panic |
| TableExtractor.ExtractTable | historical.go:89-156 | the seek loop followed by the row-assembly loop returns exactly `Extract(header, tokens)`: the header, then the rows after the first `tbody` token |
| TableExtractor.ScanShape | historical.go:141-147 | the row loop appends exactly one row per `</tr>` before the first `</table>`, and every row has six slots |
| TableExtractor.ExtractShape | historical.go:143-156 | an extracted table starts with the header, has one row more than there are `</tr>` between the `tbody` token and `</table>`, and six cells in every data row |
| TableExtractor.NoTbodyGivesHeaderOnly | historical.go:93-113 | without a `tbody` token the result is the header alone and no error |
| TableExtractor.SkipsThroughFirstTbody | historical.go:93-105 | every token up to and including the first `tbody` token, whatever its kind, is ignored |
| TableExtractor.ScanClosesRow | historical.go:143-147 | a `</tr>` appends the row the tokens since the last boundary built, and the next row starts blank at column 0; rows appear in token order |
| TableExtractor.ScanDropsOpenRow | historical.go:107-156 | a row still open at `</table>` or at the end of the tokens is dropped, and nothing after `</table>` is read; a panic in it still aborts |
| TableExtractor.BuildRowCells | historical.go:118-139 | the i-th `<td>` of a row fills column k + i, and nothing else moves the cursor |
| TableExtractor.BuildRowFails | historical.go:123-134 | filling a row panics exactly when some cell has a `data-real-value` that is fatal in its column |
| TableExtractor.RowCells | historical.go:122-138 | in a data row, column 0 holds the rendered epoch and the other columns the trimmed values; cells without `data-real-value` and missing cells stay `""`; a seventh or later `<td>` carries no `data-real-value` |
| TableExtractor.ScanPrefix | historical.go:144-146 | rows are only ever appended: the rows read from a prefix of the tokens are a prefix of the rows read from the whole, and a panic in the prefix aborts the whole |
| Historical.GetStockHistoricalData | historical.go:28-156 | every return, the early error returns included, has the header `Date, Close, Open, High, Low, Vol.` first; without an error it holds one six-cell row per `</tr>`; a gzip failure ends the process |
| Stocks.GetStockHistoricalData | stocks.go:111-240 | the result starts with the header `Date, Open, High, Low, Close, Vol.`, has one six-cell row per `</tr>`, and every transport failure ends the process |
| Stocks.SameRowsAsHistorical | stocks.go:171-240 | on the same body both versions panic alike or return the same data rows; only the header labels differ |
| Search.SearchQuotesAssetTypeCountry | search.go:43-83 | the filter loops return exactly `Filtered`; a search error is passed back with the search's Stock; totals and filters never change |
| Search.SelectAll | search.go:76-78 | with both filters empty and a symbol given, the quotes come back unchanged |
| Search.SelectNone | search.go:76-80 | with every argument empty, the quote list becomes empty |
| Search.SelectMembers | search.go:50-75 | a quote is in the result exactly when it is in the search answer and passes the branch's case-insensitive test |
| Search.SelectCounts | search.go:50-75 | each passing quote occurs as often as in the answer, and each failing quote not at all |
| Search.SelectIsSubsequence | search.go:50-75 | the result is a subsequence of the answer: an increasing choice of positions picks out its quotes |
| Search.FilterPolicy | search.go:52-80 | the four-way policy, stated on the arguments: both filters, country only, asset type only, symbol only (unchanged), nothing (emptied) |
| Search.FirstFoldMatch | search.go:23-28 | the position of the first quote whose asset type and country match up to case; no earlier quote matches; none when no quote matches |
| Search.SymbolId | search.go:15-32 | the pairId of the first matching quote; -1 when none matches; -1 with the search's error when the search failed |
| Search.FirstMatchHeadsSelection | search.go:23-28 | with both filters given, symbolId picks the first quote the filter keeps, and picks none exactly when the filter keeps none |
| Search.EmptyFilterMatchesOnlyEmpty | search.go:24 | symbolId has no empty-argument shortcut: an empty asset type or country matches only an empty field |
| SearchQuotes.FirstExactMatch | searchQuotes.go:19-23 | the position of the first quote whose symbol and country are equal to the arguments; no earlier quote matches; none when no quote matches |
| SearchQuotes.SymbolId | searchQuotes.go:16-26 | the pairId of the first exact match, or 0 when there is none |
| SearchQuotes.OnlySymbolAndFlagMatter | searchQuotes.go:19-23 | quote lists that agree on symbol, country and pairId resolve to the same identifier, whatever their other fields |
| SearchQuotes.LaterQuotesIgnored | searchQuotes.go:19-23 | once a quote matches, quotes after it never change the answer |
| SearchQuotes.CaseSensitive | searchQuotes.go:20 | matching is case-sensitive: country `italy` does not find a quote listed under `Italy`, though the two are equal up to case |

## Left out

- The HTTP request, its form and headers, the timeout, `client.Do`, gzip and reading the body. These are network I/O. Their outcome is the input `Fetch` (or `SearchResponse`, or the decoded `Stock`).
- Writing the response to `logfile.html` and redirecting the log in `stocks.go`. This is file I/O; its failures are among the `Failed` fetches.
- JSON decoding in `searchQuotes` and `SearchQuotes`, and `asJSON`. These are library behaviour; the decoded `Stock` is an input.
- The HTML tokenizer of `golang.org/x/net/html`. Its output is the input token sequence.
  - Tokenizer errors other than `io.EOF` are not modelled.
  - Tag names are taken as the tokenizer delivers them, already lower-cased.
- `Timestamp.FromUnix`: computes in UTC, while Go's `time.Unix(...).Format` uses the machine's local time zone, which is not an input of the program. The int64 overflow of Go's internal time arithmetic for epochs near the ends of the int64 range is not modelled either.
- `GoLibrary.EqualFold`: folds ASCII letters only. Go's `strings.EqualFold` also folds non-ASCII letters under Unicode simple case folding.
- `GoLibrary.TrimSpace`: works on Unicode code points. Go's `strings.TrimSpace` works on UTF-8 bytes, so invalid UTF-8 in a body is not modelled.
- `fmt.Println` debugging output in `stocks.go`, `search.go` and `searchQuotes.go`. It does not affect results.
- `cmd/main.go` (flag parsing, reading symbol files, printing tables) and `investgo.go` (CSV writing, directory creation, thin wrappers). These are I/O glue.
- Relabelling or reordering columns. The header of `stocks.go` labels the cells Open, High, Low, Close although they arrive Close, Open, High, Low, as in `historical.go`; the model keeps both headers as written, because no code of the package corrects either.
- The sentinel identifiers `-1` (`search.go`) and `0` (`searchQuotes.go`) cannot be told apart from a quote whose `pairId` has that value. The model returns them exactly as the code does.
