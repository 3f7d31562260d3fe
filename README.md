# dd-logs-cli search handler, modelled in Dafny

`dd-logs-cli` runs one Datadog log search. It fetches the results page by page from the Logs API and streams them to a file or to standard output, as CSV or JSON. This project models the handler that does the work, `handlers/dd_handler.go`, and proves what it promises:

- the pages the fetcher produces, their order and numbering, and when it stops;
- the calls the drive loop makes on the writer;
- the text of the JSON writer;
- the rows of the CSV writer, including its frozen header.

Modules, one per file:

- `Wrappers` (`wrappers.dfy`): `Option` and sequence associativity.
- `Strings` (`strings.dfy`): the parts of Go's `strings.Join` and `sort.Strings` that the handler uses. `Split` is there only to state that the tags cell can be read back.
- `Logs` (`logs.dfy`): the log record and a custom-attribute value. Also the two expression-only helpers, `toDatadogTime` and `flattenValue`.
- `Writer` (`writer.dfy`): the `logWriter` interface (`Start`, `WriteLog`, `FlushPage`, `End`) as a datatype of calls. Each writer keeps the history of calls it received as ghost state, and its invariant states its output as a function of that history.
- `JsonOutput` (`json_writer.dfy`): `jsonWriter` as a class with the buffered text and the `count` field.
- `CsvOutput` (`csv_writer.dfy`): `csvWriter` as a class with `headers`, `attrSet`, `buffer`, `started`, and the rows handed to the CSV encoder.
- `Fetch` (`fetch.dfy`): the fetcher goroutine, as a method with the source's loop, together with the recursive function `Run` that specifies it. The remote is a sequence of answers; answer j replies to request j.
- `Pipeline` (`pipeline.dfy`): the drive loop and `Query`.
  - The goroutine and the channel are run one after the other: all pages are fetched, then handed to the writer in the order the channel would deliver them.
  - The format decides which writer is used (`"json"` for JSON, anything else for CSV).

Integers are unbounded. The one narrowing the source does, `int32(len(logs))` in the short-page test, is written out as a 32-bit two's-complement wrap. Strings are `seq<char>`. `sort.Strings` compares bytes; the model compares code points, which gives the same order for UTF-8 text.

What the code does at the edges, each stated by a lemma:

- When the fetch ends without error and found no records, the JSON output is `"[\n\n]\n"`: `Start` writes `"[\n"` and `End` writes `"\n]\n"` (`EmptyArray`).
- When the first request fails, `End` is never called and the JSON output is only `"[\n"`, the open array of no records (`FailedFirstRequestJson`).
- When the first request fails, `End` is never called and the CSV output is empty, with no header row (`CsvOutcome`).
- When a request fails after some pages, `End` is never called and the JSON array is left open, with no closing bracket (`JsonOutcome`).
- A query that ends without error and finds no records still writes the CSV header: `FlushPage` after the empty first page freezes it (`HeaderOnly`). The branch of the CSV writer's `End` for a writer that never froze (handlers/dd_handler.go:345-347) is never taken by `Query`: a fetch that ends without error has sent at least one page, so the header was written before `End` (`EndFindsHeaderWritten`).
- A custom attribute whose key is a fixed column name, such as `host`, gives a duplicate header column. Both columns show the record's own field (`ShadowedColumn`).

## Model

| member | source | states |
|---|---|---|
| Logs.ToDatadogTime | handlers/dd_handler.go:36-41 | "now" maps to "now" and nothing else does; any other value v becomes "now-" followed by v |
| Logs.ToDatadogTimeInjective | handlers/dd_handler.go:36-41 | different command-line values never give the same time marker |
| Logs.FlattenValue | handlers/dd_handler.go:351-365 | a string cell is the string itself; a bool is "true" exactly when true and "false" exactly when false; nil is "" |
| Fetch.Int32 | handlers/dd_handler.go:138 | Go's int32 conversion stays in the 32-bit range, is the identity on non-negative values that fit, and never grows a non-negative count |
| Fetch.NextCursor | handlers/dd_handler.go:126-141 | the fetcher continues only when the response has meta, meta.page and a non-empty after cursor, and the page held at least 1000 records; it then continues with that cursor; a page shorter than 1000 always stops it |
| Fetch.FirstHalt | handlers/dd_handler.go:126-141 | the first answer after which the fetcher stops: every earlier answer continues, it does not; it exists when the remote finishes |
| Fetch.Run | handlers/dd_handler.go:82-144 | the fetch loop as a recursive definition, which FetchPages is proved equal to: every page sent had its request, a run ending in error made exactly one request more than it sent pages, and there are never more requests than answers |
| Fetch.FetchPages | handlers/dd_handler.go:82-144 | the loop sends, requests and fails exactly as the run specification Run does; totalLogs counts the records sent and lastPage the pages |
| Fetch.RunCharacterized | handlers/dd_handler.go:82-144 | with k the first halting answer: pages are answers 0..k-1, plus answer k if it is a page, in order and numbered from the start page; a failed answer k sends no page and becomes the wrapped error; requests go out for answers 0..k, all with the filter and limit 1000, the first with the starting cursor and each later one with the cursor of the answer before it |
| Fetch.RunCounts | handlers/dd_handler.go:105-141 | how many pages and requests a run makes, and the error it ends with, in terms of the first halting answer |
| Fetch.RunPageAt | handlers/dd_handler.go:112-114 | page j of a run is answer j's records, numbered start page + j |
| Fetch.RunRequestAt | handlers/dd_handler.go:86-104 | request j carries the filter and page size 1000, with no cursor first and afterwards the previous answer's after cursor |
| Fetch.ShortPageIsLast | handlers/dd_handler.go:138-140 | after a page shorter than 1000 records no further request is made and the run ends without error |
| Fetch.ContinuedPagesAreFull | handlers/dd_handler.go:126-142 | every page but the last was full, and the next request carried its non-empty cursor |
| Fetch.RunEnds | handlers/dd_handler.go:105-141 | a finished run ends either cleanly right after a page that gave no way on (at least one page, one request per page), or with the wrapped error of a failed request for which no page was sent |
| Fetch.PagesNumberedFromOne | handlers/dd_handler.go:112-142 | the pages are numbered 1, 2, 3, ... in sending order |
| JsonOutput.Piece | handlers/dd_handler.go:226-248 | what one writer call appends: "[\n" for Start, ",\n" (only after an earlier record) and the indented entry for WriteLog, nothing for FlushPage, "\n]\n" for End |
| JsonOutput.JsonText | handlers/dd_handler.go:217-248 | the text in the buffered output after a call sequence, each call appending its piece with the count of records before it (its closed form is OpenArray and ClosedArray) |
| JsonOutput.Entries | handlers/dd_handler.go:234-239 | one entry per record, the record's JSON indented by two spaces |
| JsonOutput.JsonArray | handlers/dd_handler.go:226-248 | the JSON document for a list of records: "[\n", the entries joined by ",\n", and "\n]\n" when the writer was ended |
| JsonOutput.JsonWriter.constructor | handlers/dd_handler.go:222-224 | a new writer has written nothing and counted nothing |
| JsonOutput.JsonWriter.Start | handlers/dd_handler.go:226-228 | writes "[\n" |
| JsonOutput.JsonWriter.WriteLog | handlers/dd_handler.go:230-242 | writes ",\n" only when a record came before, then the indented entry; count grows by one and keeps equal to the number of records written |
| JsonOutput.JsonWriter.FlushPage | handlers/dd_handler.go:244 | writes nothing |
| JsonOutput.JsonWriter.End | handlers/dd_handler.go:246-248 | writes "\n]\n" |
| JsonOutput.ArrayGrows | handlers/dd_handler.go:230-242 | writing one more record extends the open array by exactly the separator (if any element came before) and the new entry |
| JsonOutput.OpenArray | handlers/dd_handler.go:226-244 | after Start and any WriteLog/FlushPage calls, the output is "[\n" then the written records' entries joined by ",\n" |
| JsonOutput.ClosedArray | handlers/dd_handler.go:226-248 | after End, the output is the complete array of the written records, closed by "\n]\n" |
| JsonOutput.EmptyArray | handlers/dd_handler.go:226-248 | with no records the document is "[\n\n]\n" |
| JsonOutput.SingleElementArray | handlers/dd_handler.go:230-248 | a single record has no separator and no trailing comma |
| Strings.Join | handlers/dd_handler.go:326 | strings.Join: the parts with the separator between each two (SplitJoin undoes it) |
| Strings.Less | handlers/dd_handler.go:289 | the string order sort.Strings uses: lexicographic, a proper prefix first (an order by LessIrreflexive, LessTransitive and LessTotal) |
| Strings.LessIrreflexive | handlers/dd_handler.go:289 | no key sorts before itself |
| Strings.LessTransitive | handlers/dd_handler.go:289 | the key order is transitive |
| Strings.LessTotal | handlers/dd_handler.go:289 | of two different keys one sorts before the other |
| Strings.Sort | handlers/dd_handler.go:289 | sorting distinct keys gives a strictly increasing list with the same members and length |
| Strings.SortedListingUnique | handlers/dd_handler.go:285-290 | the sorted attribute columns depend only on the set of keys, not on the map's iteration order |
| Strings.SplitJoin | handlers/dd_handler.go:326 | joining parts that contain no separator can be undone by splitting |
| CsvOutput.Cell | handlers/dd_handler.go:312-331 | the switch of writeRow: the six fixed columns read the record's fields (the timestamp text or "", the tags joined by ";"), any other column the flattened attribute of that name or "" (its properties are FixedCells, CustomCells and ShadowedColumn) |
| CsvOutput.Row | handlers/dd_handler.go:306-334 | a row has exactly one cell per header column (which cells, FixedCells and CustomCells state) |
| CsvOutput.IsHeader | handlers/dd_handler.go:284-290 | the frozen schema for a key set: the fixed columns, then each key once in sorted order |
| CsvOutput.Consistent | handlers/dd_handler.go:254-349 | the writer invariant: attrSet holds the keys of every record written; before the freeze every record is in the buffer and nothing is written; after it the header is the schema of the records up to the freeze and the rows are the header row then one row per record, in order |
| CsvOutput.TableRows | handlers/dd_handler.go:295-299 | one row per record, in record order, each laid out against the header |
| CsvOutput.AttrKeysMembers | handlers/dd_handler.go:272-275 | a key is collected exactly when some written record carries it |
| CsvOutput.HoldKeepsConsistent | handlers/dd_handler.go:277-279 | before the freeze a record is held in the buffer, its keys are collected and no row is written |
| CsvOutput.RowKeepsConsistent | handlers/dd_handler.go:271-282 | after the freeze a record gets its row at once, its keys are still collected, and the header is unchanged |
| CsvOutput.CsvWriter.constructor | handlers/dd_handler.go:262-267 | a new writer has no rows and an empty history |
| CsvOutput.CsvWriter.Start | handlers/dd_handler.go:269 | writes nothing and changes nothing |
| CsvOutput.CsvWriter.WriteLog | handlers/dd_handler.go:271-282 | adds the record's keys to attrSet; before the freeze holds the record in the buffer, after it writes the record's row under the unchanged header |
| CsvOutput.CsvWriter.AddKeys | handlers/dd_handler.go:273-275 | attrSet grows by exactly the record's attribute keys |
| CsvOutput.CsvWriter.SortedAttrColumns | handlers/dd_handler.go:285-289 | the attribute columns are the keys of attrSet, each once, in sorted order |
| CsvOutput.CsvWriter.FlushBuffer | handlers/dd_handler.go:284-304 | the header becomes the fixed columns followed by the sorted keys; the header row is written, then one row per held record in order; the buffer empties and started becomes true |
| CsvOutput.CsvWriter.WriteRow | handlers/dd_handler.go:306-334 | appends exactly the record's row under the current header |
| CsvOutput.CsvWriter.FlushPage | handlers/dd_handler.go:336-342 | the first call freezes the header and writes it and the held rows; later calls write nothing and keep the header |
| CsvOutput.CsvWriter.End | handlers/dd_handler.go:344-349 | a writer that never froze freezes now, so the header row is written even with no records; otherwise nothing changes |
| CsvOutput.FixedCells | handlers/dd_handler.go:313-326 | under a frozen header the first six cells are the timestamp text (or ""), host, service, status, message and the tags joined by ";" |
| CsvOutput.CustomCells | handlers/dd_handler.go:327-330 | a custom column names a collected key and holds the flattened attribute when the record has the key, "" otherwise |
| CsvOutput.RowIgnoresUnlistedKeys | handlers/dd_handler.go:306-334 | attributes under keys that are not header columns never affect a row |
| CsvOutput.HeaderUnique | handlers/dd_handler.go:285-290 | a key set has exactly one frozen header |
| CsvOutput.HeaderDistinct | handlers/dd_handler.go:290 | the header has no duplicate column exactly when no attribute key is a fixed column name |
| CsvOutput.ShadowedColumn | handlers/dd_handler.go:290-331 | an attribute key equal to a fixed column name appears twice in the header, once among the fixed columns and once among the custom ones, and both cells show the fixed column's cell, which does not depend on the attributes |
| CsvOutput.TagsCellRoundTrip | handlers/dd_handler.go:326 | when no tag contains ";" the tags can be read back from their cell |
| Pipeline.LogWriter.Start | handlers/dd_handler.go:208-213 | the chosen writer records one Start call and keeps its invariant |
| Pipeline.LogWriter.WriteLog | handlers/dd_handler.go:208-213 | the chosen writer records one WriteLog call and keeps its invariant |
| Pipeline.LogWriter.FlushPage | handlers/dd_handler.go:208-213 | the chosen writer records one FlushPage call and keeps its invariant |
| Pipeline.LogWriter.End | handlers/dd_handler.go:208-213 | the chosen writer records one End call and keeps its invariant |
| Pipeline.PageCalls | handlers/dd_handler.go:168-187 | the calls the drive loop makes for the pages: each page's records to WriteLog, and FlushPage once, after the first page (its closed form is ProtocolShape) |
| Pipeline.Protocol | handlers/dd_handler.go:166-194 | the whole call sequence of a drive: Start, the pages' calls, End only when the fetch ended without error |
| Pipeline.WritePage | handlers/dd_handler.go:170-174 | every record of the page goes to WriteLog, in order |
| Pipeline.DrivePage | handlers/dd_handler.go:170-182 | a page's records go to WriteLog, followed by FlushPage exactly when it is the first page |
| Pipeline.DrivePages | handlers/dd_handler.go:168-187 | the pages' calls are made in arrival order, with FlushPage only after the first page |
| Pipeline.Drive | handlers/dd_handler.go:166-194 | the writer receives Start, the pages' calls, and End only when there was no fetch error; the fetch error is returned |
| Pipeline.ProtocolShape | handlers/dd_handler.go:166-194 | with pages: Start, the first page's records, one FlushPage, all later records, and End only on success; without pages: Start, and End only on success |
| Pipeline.PageCallsWritten | handlers/dd_handler.go:169-174 | the drive loop hands every record of every page to WriteLog in page order |
| Pipeline.ProtocolWritesAll | handlers/dd_handler.go:166-194 | the writer sees exactly the records of all pages, in order |
| Pipeline.ProtocolFreezes | handlers/dd_handler.go:177-194 | the CSV header freezes exactly when a page arrived or the fetch succeeded, and then right after the first page's records |
| Pipeline.JsonOutcome | handlers/dd_handler.go:166-194 | the JSON output is the array of all records, closed only when the fetch succeeded |
| Pipeline.FailedFirstRequestJson | handlers/dd_handler.go:166-192 | when the first request fails, no page arrives and End is not called, so the JSON output is only "[\n" |
| Pipeline.CsvOutcome | handlers/dd_handler.go:166-194 | the CSV output is empty when the fetch failed before any page; otherwise the header frozen on the first page's keys, then one row per record of every page, in order |
| Pipeline.HeaderOnly | handlers/dd_handler.go:177-182 | when the result has pages but no records, FlushPage after the empty first page leaves the CSV output exactly one row, the fixed columns |
| Pipeline.EndFindsHeaderWritten | handlers/dd_handler.go:344-349 | in a query the CSV writer's End never has to freeze: a fetch that ends without error has sent a page, and the calls before End already froze the header |
| Pipeline.Query | handlers/dd_handler.go:49-205 | the error and the requests are those of the fetch run on the filter built from the query and the two time markers; the JSON output is the array of all fetched records, closed only on success; the CSV output is as in CsvOutcome |

## Left out

- The Datadog API client, authentication and server context, and the storage tier and sort order of each request (handlers/dd_handler.go:53-66, 87-103). The remote is a sequence of answers. A request records only its filter, limit and cursor.
- The printout of the HTTP response on failure (handlers/dd_handler.go:107). The error the API returns is kept as its message text.
- The goroutine, the channel of capacity 2 and the mutex (handlers/dd_handler.go:70-83, 117-123). The model fetches every page first and then drives the writer, in the same order. Interleaving and back-pressure are not modelled.
- The progress line and the final summary, which are built from the wall clock and float rates (handlers/dd_handler.go:119-122, 196-202). `FetchPages` keeps the `totalLogs` and `lastPage` counters.
- Creating the output file and its error, the `bufio` writer and its per-page flush and flush errors (handlers/dd_handler.go:147-158, 184-186). Output is the writer's text (JSON) or the rows passed to the CSV encoder (CSV).
- The quoting of `encoding/csv` and its `Flush`/`Error` calls (handlers/dd_handler.go:292, 302-303, 333, 340-341). A CSV row is a sequence of cells.
- Writer errors and the early returns they cause (handlers/dd_handler.go:171-180, 235-237, 292-298). The model's writers do not fail.
- `json.MarshalIndent` of a record, the `%g` formatting of numbers and `json.Marshal` of other attribute values (handlers/dd_handler.go:234, 355-356, 362-363). They are taken as given text (`Log.json`, `Value.Number`, `Value.Composite`).
- RFC 3339 formatting of the timestamp (handlers/dd_handler.go:315). The record carries the formatted text.
- Go's map iteration order when keys are collected (handlers/dd_handler.go:273, 286). The model picks keys in any order, which covers every order Go may use.
- `cmd/search.go` and `cmd/root.go` (flag wiring and environment variables) are not part of this model. `Query` takes no output-file argument.
- Fetch.FetchPages: requires that some answer stops the fetcher. Against a remote that always returns a full page with a fresh cursor, the Go loop never ends; that non-terminating case is not modelled.
- Pipeline.Query: requires the same finite remote as `FetchPages`, for the same reason.
