# DBCleaner's MySQL dumper, modelled in Dafny

This project models the core of the Piwik DBCleaner plugin's MySQL back end, `lib/DbMysql.php`. One run of the plugin does the following:

- It fetches a bounded chunk of visits from `log_visit`.
- It dumps and deletes the rows of the three dependent tables that belong to those visits. This is done in slices of forty ids, and the rows are paged with an adaptive page size.
- It dumps the visits, then deletes them in slices of fifty ids.
- Once no visit matches in website mode, it dumps and clears the site's `archive_` tables and four configuration tables.

Every dumped row becomes one `INSERT` statement of the dump file.

The database is an abstract store:

- the table listing, in `SHOW TABLES` order;
- a map from table name to rows, in store order.

Everything the plugin asks of the store or the file is recorded as a trace of `Fetch`, `Dump` and `Delete` events. The dump file's lines, the deletes issued and the rows dumped per table are all projections of that trace.

The memory guard is an abort oracle. It either never fires (`Unlimited`) or allows a fixed number of further checks (`Remaining(n)`). When it fires, the run ends and keeps what it has already done.

Modules, in dependency order:

| module | file | what it holds |
|---|---|---|
| `Wrappers` | `wrappers.dfy` | the `Option` type |
| `Text` | `text.dfy` | bytes, joining, splitting, prefixes |
| `Hex` | `hex.dfy` | `bin2hex` and its inverse |
| `Decimal` | `decimal.dfy` | PHP's decimal text of an int and a reader for it |
| `Quote` | `quote.dfy` | the quoted-literal writer and MySQL's reading of a quoted literal |
| `Rows` | `rows.dfy` | values, rows, the WHERE conditions, `SELECT` and `DELETE` on a row list |
| `Codec` | `codec.dfy` | the literal for one field and the INSERT statement for one row (`dump`) |
| `Selection` | `selection.dfy` | the configuration, `where()`, the page size, the id slices |
| `Store` | `store.dfy` | the database, the trace and its projections, the guard, the no-loss invariant |
| `SubTable` | `subtable.dfy` | `dumpSubTable` |
| `Extract` | `extract.dfy` | `executeDump` |
| `Cleanup` | `cleanup.dfy` | the website-mode cleanup inside `execute` |
| `Execution` | `execution.dfy` | `execute` |
| `Framing` | `framing.dfy` | `preamble` and `appendix` |
| `Replay` | `replay.dfy` | MySQL's reading of a dump line back into its table and row |

The central invariant is `Store.NoLoss`: no row has left a table without first being dumped for that table. It is proved for `dumpSubTable`, for `executeDump` and for the whole of `execute`. It holds whether the run completes or is aborted by the guard.

The model follows the code in these details, some of which a reader might not expect:

- **Guard placement.** The memory guard is checked before each page fetch of `dumpSubTable`, not after it (`lib/DbMysql.php:343`).
- **Page-size default.** The page-size computation falls back to a limit of 200, not the 500 that the visit fetch uses (`lib/DbMysql.php:340` against `lib/DbMysql.php:218`).
- **Binary columns win.** A binary column is hex-encoded even when its value is an int. In that case the hex digits are those of the int's decimal text (`lib/DbMysql.php:124-129`).
- **Lower-case `values`.** The statement is written with a lower-case `values` keyword (`lib/DbMysql.php:136`).
- **Negative site ids.** A negative `idsite` still reaches the website cleanup. This is because `$siteId == null` is false for it (`lib/DbMysql.php:171`), while `where()` treats it as retention mode (`lib/DbMysql.php:268`).

## Model

| member | source | states |
|---|---|---|
| Hex.ToHex | lib/DbMysql.php:127 | `bin2hex` writes exactly two characters per byte. |
| Hex.ToHexAt | lib/DbMysql.php:127 | Byte i becomes characters 2i and 2i+1: its high nibble's digit, then its low nibble's digit. |
| Hex.FromToHex | lib/DbMysql.php:127 | Reading the `bin2hex` text back, two digits per byte, gives exactly the original bytes. |
| Hex.ToHexDigits | lib/DbMysql.php:127 | Every character `bin2hex` writes is a lower-case hex digit. |
| Decimal.IntText | lib/DbMysql.php:128-129 | PHP's text of an int is non-empty and made only of a minus sign and decimal digits. |
| Decimal.ParseNatText | lib/DbMysql.php:128-129 | The digits written for a natural number read back as that number. |
| Decimal.ParseIntText | lib/DbMysql.php:128-129 | The bare decimal literal of any int, negative ones included, reads back as that int. |
| Quote.Escape | lib/DbMysql.php:133 | The escaped text never opens with a quote, and every quote in it follows a backslash. That backslash may itself be escaped when the value holds a backslash before the quote, so this is no guarantee that MySQL keeps the quote (`Quote.TrailingBackslashUnterminated`). |
| Quote.UnescapeEscape | lib/DbMysql.php:133 | Escaping loses nothing: reading the text left to right and turning each backslash-quote back into a quote gives the value back, for every value. |
| Quote.Quoted | lib/DbMysql.php:133 | A text literal opens and closes with a single quote. |
| Quote.EscapeLength | lib/DbMysql.php:133 | Escaping adds exactly one character per quote in the value, and quoting adds two more. |
| Quote.ScanEscape | lib/DbMysql.php:133 | MySQL reads the escaped text of a backslash-free value up to the closing quote: it recovers the bytes and leaves what follows. |
| Quote.ReadQuotedRoundTrip | lib/DbMysql.php:133 | A value without a backslash is stored back by MySQL exactly as it was. |
| Quote.TrailingBackslashUnterminated | lib/DbMysql.php:132-133 | A value ending in a backslash gives a literal whose closing quote is escaped away, so the literal never ends. |
| Quote.BackslashSequenceAltered | lib/DbMysql.php:132-133 | A value holding backslash-`n` is stored back as a newline: backslashes are not escaped. |
| Codec.HexLiteral | lib/DbMysql.php:127 | The binary literal is `0x` plus two digits per byte (length 2 + 2n), and its digits decode to the raw bytes. |
| Codec.Encode | lib/DbMysql.php:122-134 | The literal's leading characters show the form the precedence demands: `NULL` for null; then hex for `idvisitor`, `config_id`, `location_ip` and, in `archive_blob` tables, `value`, even for ints; then bare decimal for ints; then quoted. |
| Codec.DecodeEncode | lib/DbMysql.php:116-134 | Reading a field's literal back gives the value the database stores. Binary columns come back as their byte string, provided it is not empty. Other fields come back unchanged, provided quoted text has no backslash. |
| Codec.EmptyBinaryUnreadable | lib/DbMysql.php:124-127 | An empty value in a binary column is written as a bare `0x`, which does not read back as any value. |
| Codec.InsertOf | lib/DbMysql.php:119-135 | A row's statement names the dump's table and has exactly one column and one literal per field. |
| Codec.Render | lib/DbMysql.php:136-137 | Every statement starts with ``INSERT INTO `table` (`` and ends with `);`. The table name reads back from the statement when it holds no backtick. |
| Replay.ReadLiteralEncode | lib/DbMysql.php:122-134 | Read from inside the value list, the literal the dumper writes for a field that survives its literal (`Codec.Replayable`: quoted text without a backslash, binary text non-empty) yields the stored value and stops at the `,` or `)` after it. A quoted literal ends at its closing quote, and any other literal ends at the next `,` or `)`. |
| Replay.ReadNamesJoin | lib/DbMysql.php:121 | The comma-joined backticked column list reads back as the column names, in order, when no name holds a backtick. |
| Replay.ReadValuesRow | lib/DbMysql.php:122-137 | For a row whose fields all survive their literals (`Codec.Replayable`), the comma-joined value list of its statement reads back as the values the database stores, in field order. |
| Replay.ReadInsertLine | lib/DbMysql.php:118-137 | When the table and column names hold no backtick and every field survives its literal (`Codec.Replayable`), the line written for a row, read back from its own text, inserts into the dump's table the row as the database stores it: the i-th column name of the text pairs with the i-th value of the text. |
| Replay.ReplayDump | lib/DbMysql.php:114-141 | When the table and column names hold no backtick and every field survives its literal (`Codec.Replayable`), every line `dump` writes for a rowset reads back as its row's stored form, into the dump's table. |
| Codec.ColumnsRoundTrip | lib/DbMysql.php:120-121 | The comma-joined column list splits back into the backticked column names, in field order, when no name holds a comma. |
| Codec.InsertRoundTrip | lib/DbMysql.php:118-137 | In each statement the i-th column names the i-th field, and the i-th literal reads back as that field's stored value. |
| Codec.Dump | lib/DbMysql.php:114-141 | One statement per row, in rowset order. Its i-th line is the statement of the i-th row, so an empty rowset writes nothing. |
| Codec.DumpAppend | lib/DbMysql.php:118-139 | Dumping two rowsets one after the other writes what dumping their concatenation writes. |
| Selection.Where | lib/DbMysql.php:264-274 | Site mode (`idsite = n`) exactly when the site id is positive, with that id, so the `until` setting then plays no part. Otherwise the cutoff test with the configured cutoff. |
| Selection.WhereSelects | lib/DbMysql.php:264-274 | Row by row: site mode selects exactly the rows whose `idsite` holds the site id as a number. That includes an `idsite` typed as an int and one returned as its decimal text, and excludes a row with no `idsite`. Otherwise it selects exactly the rows last active before the cutoff. |
| Selection.FencedPageSize | lib/DbMysql.php:340 | The fenced page size is `clamp(limit div 10, 5, 200)` and lies in [5, 200]: the float division and `intVal` amount to integer division. |
| Selection.PageSize | lib/DbMysql.php:340 | The page size `dumpSubTable` uses, from the configured limit or 200, lies in [5, 200]. |
| Selection.SlicesCover | lib/DbMysql.php:233-235 | Read in order, the `array_slice` slices of the id list are exactly the id list. |
| Selection.SlicesSizes | lib/DbMysql.php:233-235 | Every slice holds between one and `size` ids, and every slice but the last holds exactly `size`. |
| Selection.SlicesCount | lib/DbMysql.php:233-235 | There are just enough slices to hold the list: `ceil(n / size)` of them. |
| Rows.Lookup | lib/DbMysql.php:229 | A column lookup finds a value exactly when some field has that name. |
| Rows.LookupFirst | lib/DbMysql.php:229 | The value found is that of the first field with the name. |
| Rows.KeyText | lib/DbMysql.php:202 | The decimal text a driver returns for an integer key holds that integer as its key number, so `idsite = n` matches it. |
| Rows.NumbersHas | lib/DbMysql.php:248-250 | A number is in the `IN (...)` list exactly when one of the listed ids holds it. |
| Rows.InBoth | lib/DbMysql.php:248-250 | A row matches the ids of two lists together exactly when it matches those of one of them. |
| Rows.SelectHas | lib/DbMysql.php:337-345 | A row is fetched by a conditional `SELECT` exactly when it is in the table and meets the condition. |
| Rows.RejectHas | lib/DbMysql.php:351 | A row survives a conditional `DELETE` exactly when it is in the table and does not meet the condition. |
| Rows.SelectRejectSplit | lib/DbMysql.php:345-351 | The rows a delete removes and the rows it keeps make up the table as it was, as a multiset. |
| Rows.RejectTwice | lib/DbMysql.php:248-252 | Deleting by one id slice and then by the next is deleting by both together. |
| Rows.SelectAfterReject | lib/DbMysql.php:234-241 | Selecting later ids among the rows that survived earlier deletes finds exactly the rows of all the ids not yet dumped: none twice, none lost. |
| Rows.RejectSettled | lib/DbMysql.php:200-202 | After a delete the same condition matches nothing: a second select finds nothing and a second delete changes nothing. |
| Store.DeleteWhere | lib/DbMysql.php:202 | A delete removes from its table exactly the matching rows. It keeps the others in order and touches no other table. |
| Store.Output | lib/DbMysql.php:136-138 | Every line `dump` writes to the file is an `INSERT INTO` statement. |
| Store.OutputQuiet | lib/DbMysql.php:136-138 | Fetches and deletes write nothing to the file. |
| Store.ChecksPass | lib/DbMysql.php:343 | Without a memory limit any number of checks in a row pass. With a limit of n checks, k checks in a row pass exactly when k is at most n, and they leave n - k. |
| Store.Window | lib/DbMysql.php:344 | `LIMIT offset, count` gives the contiguous run of rows that starts at `offset`, in store order. It holds `count` rows unless it reaches the last row, and it is empty past the end. |
| SubTable.Pages | lib/DbMysql.php:341-350 | The paging loop does not change the database, adds no delete and concerns only its table. With no memory limit it always completes. |
| SubTable.PagesCover | lib/DbMysql.php:341-350 | The pages of a completed loop, read together, are the matching rows from the starting offset on, each dumped once and in store order. |
| SubTable.PagesShape | lib/DbMysql.php:342-349 | Every page of a completed loop but the last is full and the last is short: the loop ends at the first short page. |
| SubTable.PagesOffsets | lib/DbMysql.php:344 | The j-th fetch asks for `size` rows at offset `(page + j) * size`. |
| SubTable.PagesCount | lib/DbMysql.php:342-349 | A completed loop fetches once per full page and once more for the short page that ends it. |
| SubTable.DumpSubTable | lib/DbMysql.php:332-353 | An empty id list does nothing. Otherwise a completed call dumps exactly the rows of the listed visits. It then issues one delete of those same rows as its last event and removes exactly them. An aborted call has deleted nothing. |
| SubTable.DumpSubTablePaging | lib/DbMysql.php:340-350 | A completed call fetches at offsets 0, P, 2P, …. Its dumped pages are full but for a short last one, and it makes `n div P + 1` fetches. |
| SubTable.DumpSubTableNoLoss | lib/DbMysql.php:341-351 | Completed or aborted, `dumpSubTable` never deletes a row it has not dumped. |
| Extract.Guarded | lib/DbMysql.php:237-241 | A resource check changes neither the store nor the trace. It passes an aborted run through, and never aborts without a memory limit. |
| Extract.SliceWork | lib/DbMysql.php:236-241 | A round of dependent work only extends the trace. Without a memory limit it completes. |
| Extract.SliceWorkEffect | lib/DbMysql.php:236-241 | A completed round removes from each dependent table exactly its rows for the slice, after dumping exactly those rows. Every other table is untouched, and the deletes come in the order link, conversion, item. |
| Extract.DependentLoop | lib/DbMysql.php:233-242 | The slice loop only extends the trace. Without a memory limit it completes. |
| Extract.DependentLoopDeletes | lib/DbMysql.php:233-242 | The loop deletes, slice by slice of forty ids, from the three dependent tables in their fixed order. |
| Extract.DependentLoopRows | lib/DbMysql.php:233-242 | The loop leaves each dependent table without any row of the listed visits and every other table as it was. |
| Extract.DependentLoopDumped | lib/DbMysql.php:233-242 | For each dependent table, the loop dumps every row of the listed visits exactly once (as a multiset), and nothing for any other table. |
| Extract.DeleteVisits | lib/DbMysql.php:247-253 | The visit deletes add only visit-table deletes and change no other table. |
| Extract.DeleteVisitsOrder | lib/DbMysql.php:247-253 | The visits are deleted slice by slice of fifty ids, in id-list order. |
| Extract.DeleteVisitsRows | lib/DbMysql.php:247-253 | After the deletes, the visit table holds exactly the visits whose id is not in the list. |
| Extract.Visits | lib/DbMysql.php:218-223 | The fetched visits are the first `limit` visits matching `where()`, in store order, or all of them if fewer. |
| Extract.ExecuteDump | lib/DbMysql.php:213-255 | The first event is the visit fetch, and without a memory limit the pass completes. The count returned is the number of visits fetched, at most `limit`. When no visit matches, the pass completes with 0 after the fetch alone, whatever the guard. |
| Extract.ExecuteDumpDeletes | lib/DbMysql.php:232-253 | The deletes of a productive pass are those of the dependent tables per forty-id slice, then those of the visits per fifty-id slice. |
| Extract.ExecuteDumpRows | lib/DbMysql.php:232-253 | A productive pass removes exactly the rows of the fetched visits from the visit table and the three dependent tables. It leaves every other table as it was. |
| Extract.ExecuteDumpDumped | lib/DbMysql.php:232-245 | A productive pass dumps the fetched visits once, in fetch order. For each dependent table it dumps every row of those visits exactly once, and nothing for any other table. |
| Extract.ExecuteDumpOrder | lib/DbMysql.php:243-253 | The visit dump comes after all dependent-table work and is followed only by the visit deletes. |
| Extract.VisitsFromTable | lib/DbMysql.php:220-223 | Every fetched visit is a row of the visit table. |
| Extract.DeletedVisitsWereFetched | lib/DbMysql.php:227-252 | With `idvisit` unique, a delete by the ids of rows taken from the visit table removes only those rows. So the visit deletes remove only fetched visits. |
| Extract.ExecuteDumpNoLoss | lib/DbMysql.php:213-255 | Completed or aborted, a pass never deletes a row it has not dumped for that table first. |
| Cleanup.ArchiveTables | lib/DbMysql.php:182-190 | The tables kept from the listing are exactly those whose name contains `archive_`. |
| Cleanup.ArchiveTablesAppend | lib/DbMysql.php:184-190 | The filter keeps listing order: filtering a concatenation is filtering each part in turn. |
| Cleanup.SiteTables | lib/DbMysql.php:181-196 | The cleanup list is the archive tables followed by `goal`, `site_url`, `access` and `site`. |
| Cleanup.SiteStep | lib/DbMysql.php:199-202 | One table's cleanup fetches the site's rows, dumps exactly them, then deletes them. It leaves that table without them and the others unchanged. |
| Cleanup.CleanSite | lib/DbMysql.php:198-203 | The cleanup loop only extends the trace and keeps the table listing. |
| Cleanup.CleanSiteDeletes | lib/DbMysql.php:198-203 | The cleanup deletes the site's rows once per listed table, in list order. |
| Cleanup.CleanSiteRows | lib/DbMysql.php:198-203 | The listed tables lose exactly the site's rows and no other table changes. |
| Cleanup.CleanSiteDumped | lib/DbMysql.php:198-203 | For each listed table the cleanup dumps exactly the site's rows, and nothing for any other table. |
| Cleanup.CleanSiteNoLoss | lib/DbMysql.php:198-203 | The cleanup never deletes a row it has not dumped for that table first. |
| Execution.Execute | lib/DbMysql.php:161-205 | A positive `executeDump` count is returned as the run itself. A zero count with no site id ends the run after the visit fetch, with no cleanup. |
| Execution.ExecuteCleanup | lib/DbMysql.php:171-204 | With no visit left and a non-zero site id, the run returns 0. A negative id is included, since it passes the `$siteId == null` test. The archive tables in listing order and then the four fixed tables are each dumped and cleared of the site's rows. Nothing else is deleted. |
| Execution.ExecuteNoLoss | lib/DbMysql.php:161-205 | A whole run, completed or aborted, never deletes a row it has not dumped for that table first. |
| Framing.Preamble | lib/DbMysql.php:70-89 | The preamble is sixteen lines, none of them a data line, whatever the time and version text. |
| Framing.Appendix | lib/DbMysql.php:96-107 | The appendix is eight lines, none of them a data line, whatever the time text. |
| Framing.DumpFileInserts | lib/DbMysql.php:70-141 | The framing adds no data line and loses none: the file's data lines are exactly the runs' statements, in order. |

## Left out

- `count()` (`lib/DbMysql.php:148-154`) is a bare SQL count with no logic of its own beyond `where()`.
- `getTablesToOptimize` and `optimizeTable` are maintenance helpers outside the extraction. The first repeats the archive filter that `Cleanup.ArchiveTables` models. The second passes a statement through.
- `reconnectDatabase` is a connection-timeout workaround with no effect on what is read or written.
- `date('c')` and `date('Y-m-d H:i:s', $until)` depend on the clock and time zone. The timestamps are opaque text parameters: `created` and `ended` for the file framing, and `cutoff` for `where()`. Cutoff comparison is byte-wise, which is the order of that fixed date format.
- `Common::prefixTable` is the identity: tables carry their logical names.
- The SQL text itself is not modelled, only its meaning. Fetches, dumps and deletes act on the abstract store. `LIMIT` without `ORDER BY` is read as "in store order". A table missing from the store's map of rows reads as empty, whatever the listing says. `SHOW TABLES` is the store's listing and is not recorded as an event.
- SQL errors are not modelled. In the source, a `SELECT` or `DELETE` on a table that does not exist, or on one without an `idsite` or `idvisit` column, raises an SQL error and ends the run. The model instead reads a missing table as empty and treats a row without the column as not matching, so the statement selects and deletes nothing.
- Driver typing is reduced to null, PHP int and byte string. Floats and booleans, which the dumper would quote as text, are not separate values.
- The integer key columns `idsite` and `idvisit` are compared as MySQL compares them with an integer. An int and its decimal text (an optional minus sign, then digits) both hold that number. Other text holds no number here, whereas MySQL would read a numeric prefix such as the `7` of `7abc`; text of that kind cannot come from an integer column.
- `FileDumper` is an append-only list of lines.
- `DbAbstract` is not part of this model. `DumpFile` assumes the file is the preamble, then the runs' statements, then the appendix.
- The memory guard (`InfoMemory::throwExceptionIfExceeds`) and `throwExceptionIfLackOfResources` (declared in `DbAbstract`) are one abort oracle. It allows a given number of checks, and when it fires the run ends with its effects kept. Actual memory use is not modelled.
- A negative `limit` would make the SQL invalid. The limit is a natural number.
- A visit row without an `idvisit`, or whose `idvisit` holds no key number, gives an id that matches no row. The source would instead write an empty or non-numeric item into the `IN (...)` list, which is an SQL error.
- Quote.ReadQuotedRoundTrip: the round trip is stated only for values without a backslash, because the dumper does not escape backslashes. `Quote.TrailingBackslashUnterminated` and `Quote.BackslashSequenceAltered` show how other values fail.
- Codec.DecodeEncode: for the same reason, this requires quoted text to be free of backslashes. It also requires a binary column's byte string to be non-empty: an empty one is written as a bare `0x`, which MySQL reads as a column name, so the replayed statement fails (`Codec.EmptyBinaryUnreadable`).
- Codec.InsertRoundTrip: requires the same of every field, for the same reasons.
- Extract.ExecuteDumpNoLoss: requires `idvisit` to be unique in the visit table, as the table's primary key guarantees. Without that, a delete by id could remove an unfetched visit that shares an id with a fetched one.
- Execution.ExecuteNoLoss: requires `idvisit` to be unique, for the same reason.
- A negative site id is modelled as the source behaves. `where()` treats it as retention mode, so the visit fetch uses the cutoff. It still passes the `$siteId == null` test, so once no visit matches, the cleanup deletes the rows whose `idsite` equals that negative id (`Execution.ExecuteCleanup` covers this case).
- Replay.ReadLiteralEncode: requires the field to be `Codec.Replayable`, for the reasons given for `Codec.DecodeEncode`. `Quote.BackslashSequenceAltered` and `Codec.EmptyBinaryUnreadable` show literals that do not read back.
- Replay.ReadValuesRow: requires every field to be `Codec.Replayable`, for the same reasons.
- Replay.ReplayDump: requires what `Replay.ReadInsertLine` requires, of every row of the rowset.
- Replay.ReadInsertLine: requires table and column names without a backtick, because the dumper does not escape backticks. It also requires every field to meet the conditions of `Codec.DecodeEncode`. The reader follows the dump's own layout only: the keywords as the dumper spells them, no comments and no extra whitespace.
