# DtSearch database indexer — a Dafny model

This project models the core of the DtSearch indexer utility. That utility
feeds rows of SQL Server tables to the dtSearch engine as documents.

- **`DbDataSource`** walks a catalog of databases (`DbInfo`) and their
  tables (`DbTableInfo`). It pages rows in with `GetMoreRecords`, in
  batches of at most `recordsPerRetrieval` rows. It hands the rows one by
  one to the engine through `GetNextDoc`, which fills in the document's
  identity (`db://[Db.Table]#Key=Value|…`), its display name, its
  tab-separated field blob and the `IndexedItems` ledger.
- **`CreateRemoveListForUpdateRequest`** builds the list of document
  identities to delete.
- **`GetDocByName`** parses an identity back into a table and a WHERE
  clause. **`GetDocId`** turns an identity into a dtSearch request.
- **`DtSearchIndexer`** sets up the run:
  - it derives the run mode from the catalog's switches;
  - it chooses between a remove-only job and an add job;
  - it logs the completion status;
  - it counts the progress reports.
- **`IndexStatusHandler`** answers the engine's abort question and
  forwards progress reports to the indexer.

Modules, in dependency order:

| module | file | contents |
|---|---|---|
| `Wrappers` | wrappers.dfy | `Option` |
| `Strings` | strings.dfy | the .NET string operations the source uses: `Trim`, `Split`, `Join`, `Replace`, `int.Parse` and integer text |
| `Catalog` | catalog.dfy | `DbInfo`, `DbTableInfo`, values, result blocks, what makes a catalog valid, `DateToString` |
| `Materializer` | materializer.dfy | what `GetNextDoc` builds from one row: identity, display name, field blob, ledger entries, file bytes |
| `Batching` | batching.dfy | `GetMoreRecords` as a pure function (`Refilled`/`Fill`), the rows still to come (`RestFrom`), and the read cursor over a batch (`Unread`) |
| `RemoveList` | removelist.dfy | the manual-list filter and the identities the remove-list loop collects (`Drain`) |
| `DataSource` | datasource.dfy | `class DbDataSource`, its methods proved against the functions above |
| `Lookup` | lookup.dfy | `GetDocId`'s request, `GetDocByName`'s guard, table parse and WHERE builder |
| `Indexer` | indexer.dfy | `class DtSearchIndexer`, `class IndexJob`, run mode, completion status, progress counter |
| `StatusHandler` | statushandler.dfy | `class IndexStatusHandler` |

The database is a `Backend` value:

- `store[i][j]` holds the rows of table `j` of database `i`, each row with
  its `NeedsIndexing` mark;
- `faults` holds the positions at which a query throws;
- `files` holds the answers for the `Image_Loc` file reads.

The query's WHERE mode becomes a row selection:

- `[NeedsIndexing] = 1` keeps the marked rows;
- `0 = 1` keeps none;
- otherwise all rows are kept.

`OFFSET … FETCH NEXT` becomes a window over the selected rows.

`ValidCatalog` states what `GetNextDoc` needs of the catalog before it
reaches the ledger:

- no `[Db.Table]` name is used twice, so the `.Single` lookups of a
  fetched table at lines 109 and 112 succeed;
- key columns are among the indexed fields;
- the indexed fields are distinct.

The same bare table name may appear in several databases, and table names
may hold `.` or `]`. The ledger's `.Single` lookup by bare name (line 139)
runs only at a `DocID` column; the model computes it (`SingleOwner`,
`LedgerIndex`) and lets its failure throw, as `int.Parse` does.

## Model

| member | source | states |
|---|---|---|
| Strings.TrimStart | DtSearchIndexer/DtSearchIndexer.IndexerUtility/DataSources/DbDataSource.cs:131 | trimming the front never lengthens the string |
| Strings.TrimStartSpec | DtSearchIndexer/DtSearchIndexer.IndexerUtility/DataSources/DbDataSource.cs:131 | `TrimStart` returns a suffix of its input that does not start with white space |
| Strings.TrimEnd | DtSearchIndexer/DtSearchIndexer.IndexerUtility/DataSources/DbDataSource.cs:131 | trimming the end never lengthens the string |
| Strings.TrimEndSpec | DtSearchIndexer/DtSearchIndexer.IndexerUtility/DataSources/DbDataSource.cs:131 | `TrimEnd` returns a prefix of its input that does not end with white space |
| Strings.TrimSpec | DtSearchIndexer/DtSearchIndexer.IndexerUtility/DataSources/DbDataSource.cs:101 | `Trim` returns a contiguous slice of its input; everything before the slice is white space |
| Strings.TrimParts | DtSearchIndexer/DtSearchIndexer.IndexerUtility/DataSources/DbDataSource.cs:114 | a prefix of an all-white-space-stripped suffix is a slice of the original |
| Strings.TrimEndAfterSolid | DtSearchIndexer/DtSearchIndexer.IndexerUtility/DataSources/DbDataSource.cs:114 | trimming the end of `a + b` keeps all of `a` when `a` ends in a non-white character |
| Strings.TrimAfterSolidPrefix | DtSearchIndexer/DtSearchIndexer.IndexerUtility/DataSources/DbDataSource.cs:114 | `Trim` of a key pair `Col=…` only trims the value's tail |
| Strings.SplitSpec | DtSearchIndexer/DtSearchIndexer.IndexerUtility/DataSources/DbDataSource.cs:393 | no part holds the separator, and the first part starts with the input's first character |
| Strings.SplitAtSeparator | DtSearchIndexer/DtSearchIndexer.IndexerUtility/DataSources/DbDataSource.cs:418 | a leading separator gives an empty first part |
| Strings.SplitAtOther | DtSearchIndexer/DtSearchIndexer.IndexerUtility/DataSources/DbDataSource.cs:418 | a leading non-separator joins the first part |
| Strings.SplitNoSeparator | DtSearchIndexer/DtSearchIndexer.IndexerUtility/DataSources/DbDataSource.cs:414 | a string without the separator splits into itself |
| Strings.SplitAround | DtSearchIndexer/DtSearchIndexer.IndexerUtility/DataSources/DbDataSource.cs:414 | splitting `a + c + b` on `c` concatenates the splits of `a` and of `b` |
| Strings.SplitHeads | DtSearchIndexer/DtSearchIndexer.IndexerUtility/DataSources/DbDataSource.cs:418 | two strings with the same head and related tails split alike |
| Strings.AfterLastOf | DtSearchIndexer/DtSearchIndexer.IndexerUtility/DataSources/DbDataSource.cs:415 | `Split(c).Last()` is the text after the last `c` |
| Strings.BeforeFirstOf | DtSearchIndexer/DtSearchIndexer.IndexerUtility/DataSources/DbDataSource.cs:416 | `Split(c).First()` is the text before the first `c` |
| Strings.BeforeFirstWhole | DtSearchIndexer/DtSearchIndexer.IndexerUtility/DataSources/DbDataSource.cs:414 | without the separator, `First` and `Last` both return the whole string |
| Strings.SplitJoin | DtSearchIndexer/DtSearchIndexer.IndexerUtility/DataSources/DbDataSource.cs:418 | splitting a separator-free list joined by that separator gives the list back |
| Strings.ReplaceCharRemoves | DtSearchIndexer/DtSearchIndexer.IndexerUtility/DataSources/DbDataSource.cs:131 | replacing a character by text that lacks it removes it entirely (tabs are gone from values) |
| Strings.ReplaceCharAbsent | DtSearchIndexer/DtSearchIndexer.IndexerUtility/DataSources/DbDataSource.cs:415 | replacing an absent character changes nothing |
| Strings.ReplaceCharAppend | DtSearchIndexer/DtSearchIndexer.IndexerUtility/DataSources/DbDataSource.cs:393 | a one-character replacement distributes over concatenation |
| Strings.LastSegmentSpec | DtSearchIndexer/DtSearchIndexer.IndexerUtility/DataSources/DbDataSource.cs:139 | the last path segment is a suffix free of `\` and `/` |
| Strings.PrefixOfConcat | DtSearchIndexer/DtSearchIndexer.IndexerUtility/DataSources/DbDataSource.cs:410 | `a + b` starts with `a`, and equals `a` only when `b` is empty |
| Strings.DigitChar | DtSearchIndexer/DtSearchIndexer.IndexerUtility/DataSources/DbDataSource.cs:423 | a digit's character has that digit's value |
| Strings.NatToString | DtSearchIndexer/DtSearchIndexer.IndexerUtility/DataSources/DbDataSource.cs:423 | a number's text is a non-empty string of decimal digits |
| Strings.DigitsOfNat | DtSearchIndexer/DtSearchIndexer.IndexerUtility/DataSources/DbDataSource.cs:423 | reading a number's text back gives the number |
| Strings.ParseInt32 | DtSearchIndexer/DtSearchIndexer.IndexerUtility/DataSources/DbDataSource.cs:140 | `int.Parse` succeeds only with a value in the 32-bit range |
| Strings.ParseIntToString | DtSearchIndexer/DtSearchIndexer.IndexerUtility/DataSources/DbDataSource.cs:140 | every 32-bit integer's text parses back to it |
| Strings.ParseDigits | DtSearchIndexer/DtSearchIndexer.IndexerUtility/DataSources/DbDataSource.cs:140 | an optionally signed digit string parses to its value, when in range |
| Strings.LeadingZerosValue | DtSearchIndexer/DtSearchIndexer.IndexerUtility/DataSources/DbDataSource.cs:380 | zeros put in front of a digit string leave its value unchanged |
| Strings.ShortNatToString | DtSearchIndexer/DtSearchIndexer.IndexerUtility/DataSources/DbDataSource.cs:380 | a number below 100 takes at most two digits |
| Catalog.PadDigits | DtSearchIndexer/DtSearchIndexer.IndexerUtility/DataSources/DbDataSource.cs:380 | a zero-padded date part is all digits, reads back as the number, and is exactly the width unless the number is longer |
| Catalog.TimeOfDayFields | DtSearchIndexer/DtSearchIndexer.IndexerUtility/DataSources/DbDataSource.cs:383 | the time part ` HH:mm:ss` is nine characters with colons at 3 and 6, and each two-digit field reads back as hour, minute and second |
| Catalog.DateToString | DtSearchIndexer/DtSearchIndexer.IndexerUtility/DataSources/DbDataSource.cs:378-384 | the short date is returned exactly when the time is midnight; either way the text starts with the short date |
| Catalog.QualifyInjective | DtSearchIndexer/DtSearchIndexer.IndexerUtility/DataSources/DbDataSource.cs:104 | one table name under two database names gives two `[Db.Table]` names |
| Catalog.QualifySplit | DtSearchIndexer/DtSearchIndexer.IndexerUtility/DataSources/DbDataSource.cs:139 | the text after the last `.` of `[Db.Table]` is `Table]` |
| Catalog.FindInDb | DtSearchIndexer/DtSearchIndexer.IndexerUtility/DataSources/DbDataSource.cs:99-109 | the table search within one database finds a match, or there is none |
| Catalog.FindTable | DtSearchIndexer/DtSearchIndexer.IndexerUtility/DataSources/DbDataSource.cs:99-112 | the catalog search for a `[Db.Table]` name finds a table with that name, or none has it |
| Catalog.FindOwnTable | DtSearchIndexer/DtSearchIndexer.IndexerUtility/DataSources/DbDataSource.cs:109-112 | the search finds every table of a valid catalog under its own qualified name, as `.Single` needs |
| Catalog.FindOwner | DtSearchIndexer/DtSearchIndexer.IndexerUtility/DataSources/DbDataSource.cs:139 | the owner search finds the first database owning the bare table name, or none does |
| Catalog.SingleOwner | DtSearchIndexer/DtSearchIndexer.IndexerUtility/DataSources/DbDataSource.cs:139 | `.Single` by bare name succeeds exactly when one database owns a table of that name, and then returns that database |
| Catalog.RawNameOfQualified | DtSearchIndexer/DtSearchIndexer.IndexerUtility/DataSources/DbDataSource.cs:139 | for a name without `.` or `]`, the bare name recovered from `[Db.Table]` is `Table` |
| Catalog.OwnerOfQualified | DtSearchIndexer/DtSearchIndexer.IndexerUtility/DataSources/DbDataSource.cs:139 | when no other database has a table of that name, and the name holds no `.` or `]`, the ledger's owner is the table's own database |
| Materializer.ColumnIndex | DtSearchIndexer/DtSearchIndexer.IndexerUtility/DataSources/DbDataSource.cs:114 | the first position of a column name |
| Materializer.ColumnIndexOfDistinct | DtSearchIndexer/DtSearchIndexer.IndexerUtility/DataSources/DbDataSource.cs:114 | with distinct names, the lookup returns a column's own position |
| Materializer.KeyPairsOf | DtSearchIndexer/DtSearchIndexer.IndexerUtility/DataSources/DbDataSource.cs:111-114 | one `Col=Value` pair per key column |
| Materializer.KeyPairsAt | DtSearchIndexer/DtSearchIndexer.IndexerUtility/DataSources/DbDataSource.cs:114 | the `i`-th pair belongs to the `i`-th key column |
| Materializer.KeyPairsOnlyKeys | DtSearchIndexer/DtSearchIndexer.IndexerUtility/DataSources/DbDataSource.cs:111-114 | the pairs depend only on the key columns' values |
| Materializer.DocNameOnlyKeys | DtSearchIndexer/DtSearchIndexer.IndexerUtility/DataSources/DbDataSource.cs:126 | two rows of one table with equal keys get the same identity |
| Materializer.CleanValue | DtSearchIndexer/DtSearchIndexer.IndexerUtility/DataSources/DbDataSource.cs:131 | a cleaned column value holds no tab |
| Materializer.LedgerOfOwnTable | DtSearchIndexer/DtSearchIndexer.IndexerUtility/DataSources/DbDataSource.cs:139 | for a table whose bare name resolves, the ledger's index name is the last path segment of its own database's index path |
| Materializer.SharedBareName | DtSearchIndexer/DtSearchIndexer.IndexerUtility/DataSources/DbDataSource.cs:99-139 | two databases with a table of the same bare name form a valid catalog, and the ledger lookup for either table throws |
| Materializer.CleanRow | DtSearchIndexer/DtSearchIndexer.IndexerUtility/DataSources/DbDataSource.cs:131 | one cleaned text per cell, none holding a tab |
| Materializer.StepFacts | DtSearchIndexer/DtSearchIndexer.IndexerUtility/DataSources/DbDataSource.cs:129-169 | one column appends `name\tvalue\t`, throws only at a `DocID` whose index lookup fails or whose text does not parse, adds a ledger entry only at any other `DocID`, and rewrites the display name only on `DB` |
| Materializer.FoldFields | DtSearchIndexer/DtSearchIndexer.IndexerUtility/DataSources/DbDataSource.cs:129-132 | after `n` columns without a throw the blob holds exactly those columns' text; after a throw it ends with the `DocID` column |
| Materializer.FoldStep | DtSearchIndexer/DtSearchIndexer.IndexerUtility/DataSources/DbDataSource.cs:129-170 | a thrown state is kept; otherwise only a `DocID` column can throw |
| Materializer.FieldTextSplits | DtSearchIndexer/DtSearchIndexer.IndexerUtility/DataSources/DbDataSource.cs:132 | splitting the blob on tabs gives the names and values back, alternating |
| Materializer.FieldSplitStep | DtSearchIndexer/DtSearchIndexer.IndexerUtility/DataSources/DbDataSource.cs:132 | one more `name\tvalue\t` adds the name and the value to the split |
| Materializer.RowFieldsSplit | DtSearchIndexer/DtSearchIndexer.IndexerUtility/DataSources/DbDataSource.cs:131-132 | the blob of a whole row splits into its names and cleaned values |
| Materializer.ReachedStep | DtSearchIndexer/DtSearchIndexer.IndexerUtility/DataSources/DbDataSource.cs:137 | the `DocID` column is reached at exactly one step |
| Materializer.FoldStaysThrown | DtSearchIndexer/DtSearchIndexer.IndexerUtility/DataSources/DbDataSource.cs:140 | after a throw, later columns change nothing |
| Materializer.FoldThrows | DtSearchIndexer/DtSearchIndexer.IndexerUtility/DataSources/DbDataSource.cs:137-141 | the row throws exactly when its `DocID` column is reached and either no index name was found or the text does not parse as a 32-bit integer |
| Materializer.FoldItems | DtSearchIndexer/DtSearchIndexer.IndexerUtility/DataSources/DbDataSource.cs:138-141 | without a throw, the ledger gains exactly one `(index, DocID)` entry when a `DocID` column has been reached, else none |
| Materializer.FoldPlainRow | DtSearchIndexer/DtSearchIndexer.IndexerUtility/DataSources/DbDataSource.cs:135-169 | without `DB` and `Image_Loc` columns, neither the display name nor the document bytes change |
| Materializer.FoldRow | DtSearchIndexer/DtSearchIndexer.IndexerUtility/DataSources/DbDataSource.cs:129-170 | the whole-row outcome: blob, throw condition and ledger entries |
| Materializer.MaterializeRow | DtSearchIndexer/DtSearchIndexer.IndexerUtility/DataSources/DbDataSource.cs:117-170 | the same outcome for a catalog row, under the index name the ledger lookup finds; the owner's when the bare name resolves |
| Materializer.MaterializePlainRow | DtSearchIndexer/DtSearchIndexer.IndexerUtility/DataSources/DbDataSource.cs:121-127 | for a plain row, the document keeps its initial display name and has no bytes |
| Batching.Marked | DtSearchIndexer/DtSearchIndexer.IndexerUtility/DataSources/DbDataSource.cs:330-331 | the `NeedsIndexing = 1` selection has no more rows than the table |
| Batching.MarkedMembers | DtSearchIndexer/DtSearchIndexer.IndexerUtility/DataSources/DbDataSource.cs:330-331 | a row's values are selected exactly when some row marked `NeedsIndexing` carries them |
| Batching.MarkedAppend | DtSearchIndexer/DtSearchIndexer.IndexerUtility/DataSources/DbDataSource.cs:330-331 | the selection keeps the rows' order: a later marked row is selected after the earlier ones |
| Batching.MarkedWidth | DtSearchIndexer/DtSearchIndexer.IndexerUtility/DataSources/DbDataSource.cs:329-331 | the selected rows keep the table's width |
| Batching.AllValues | DtSearchIndexer/DtSearchIndexer.IndexerUtility/DataSources/DbDataSource.cs:329 | without a WHERE, every row is selected |
| Batching.AllValuesWidth | DtSearchIndexer/DtSearchIndexer.IndexerUtility/DataSources/DbDataSource.cs:329 | and keeps its width |
| Batching.SelectedWidth | DtSearchIndexer/DtSearchIndexer.IndexerUtility/DataSources/DbDataSource.cs:329-334 | every selected row has one value per indexed field |
| Batching.Drop | DtSearchIndexer/DtSearchIndexer.IndexerUtility/DataSources/DbDataSource.cs:335 | `OFFSET` leaves the rows after the offset |
| Batching.Window | DtSearchIndexer/DtSearchIndexer.IndexerUtility/DataSources/DbDataSource.cs:335 | `FETCH NEXT limit` returns a prefix of the rows after the offset, of at most `limit` rows, and all of them when fewer |
| Batching.WindowFull | DtSearchIndexer/DtSearchIndexer.IndexerUtility/DataSources/DbDataSource.cs:350 | a full window advances the offset |
| Batching.WindowThenDrop | DtSearchIndexer/DtSearchIndexer.IndexerUtility/DataSources/DbDataSource.cs:350 | the window followed by the rows after it is everything after the offset |
| Batching.EntriesAppend | DtSearchIndexer/DtSearchIndexer.IndexerUtility/DataSources/DbDataSource.cs:347 | row entries distribute over concatenation |
| Batching.FlattenAppend | DtSearchIndexer/DtSearchIndexer.IndexerUtility/DataSources/DbDataSource.cs:348 | adding a table to the batch appends its rows |
| Batching.TotalRowsAppend | DtSearchIndexer/DtSearchIndexer.IndexerUtility/DataSources/DbDataSource.cs:349 | adding a table adds its row count |
| Batching.RestFromTable | DtSearchIndexer/DtSearchIndexer.IndexerUtility/DataSources/DbDataSource.cs:310-368 | the rows still to come from a table position are that table's remaining rows, then those of the later tables |
| Batching.WorkAtTable | DtSearchIndexer/DtSearchIndexer.IndexerUtility/DataSources/DbDataSource.cs:322 | the work measure at a table counts its remaining rows plus one |
| Batching.WorkWithinTable | DtSearchIndexer/DtSearchIndexer.IndexerUtility/DataSources/DbDataSource.cs:350 | moving the offset forward inside a table reduces the work |
| Batching.FetchFacts | DtSearchIndexer/DtSearchIndexer.IndexerUtility/DataSources/DbDataSource.cs:323-354 | one fetch stays within the budget and moves to the next table only when the budget is not used up |
| Batching.SplitRest | DtSearchIndexer/DtSearchIndexer.IndexerUtility/DataSources/DbDataSource.cs:350 | the fetched rows followed by the rest from the new offset are the rest from the old one |
| Batching.JoinEntries | DtSearchIndexer/DtSearchIndexer.IndexerUtility/DataSources/DbDataSource.cs:347-348 | entries of two row runs concatenate |
| Batching.FetchCovers | DtSearchIndexer/DtSearchIndexer.IndexerUtility/DataSources/DbDataSource.cs:345-354 | the fetched block followed by the rows after the new position is exactly the rows after the old position |
| Batching.FillBudget | DtSearchIndexer/DtSearchIndexer.IndexerUtility/DataSources/DbDataSource.cs:310-323 | a batch holds at most `recordsPerRetrieval` rows |
| Batching.RefillBudget | DtSearchIndexer/DtSearchIndexer.IndexerUtility/DataSources/DbDataSource.cs:303-370 | a fresh batch holds at most `recordsPerRetrieval` rows |
| Batching.FillFetchStep | DtSearchIndexer/DtSearchIndexer.IndexerUtility/DataSources/DbDataSource.cs:322-354 | a fetch that does not throw adds its block and continues from the new position |
| Batching.FetchStep | DtSearchIndexer/DtSearchIndexer.IndexerUtility/DataSources/DbDataSource.cs:345-354 | a fetch returns the block, the next position and the new count, with the work decreased |
| Batching.FillCovers | DtSearchIndexer/DtSearchIndexer.IndexerUtility/DataSources/DbDataSource.cs:310-368 | filling loses and repeats no row: batch rows plus the rest after the batch equal the rest before it |
| Batching.FillCoversStep | DtSearchIndexer/DtSearchIndexer.IndexerUtility/DataSources/DbDataSource.cs:322-354 | the same for a fill that starts with a successful fetch |
| Batching.FillCoversFetch | DtSearchIndexer/DtSearchIndexer.IndexerUtility/DataSources/DbDataSource.cs:345-354 | the same, given the fill after the fetch |
| Batching.CoverFetchCombine | DtSearchIndexer/DtSearchIndexer.IndexerUtility/DataSources/DbDataSource.cs:348 | composing the fetch's cover with the rest's cover |
| Batching.FillStops | DtSearchIndexer/DtSearchIndexer.IndexerUtility/DataSources/DbDataSource.cs:310 | a fill that does not throw stops only with the budget used up or the catalog exhausted |
| Batching.FillProgress | DtSearchIndexer/DtSearchIndexer.IndexerUtility/DataSources/DbDataSource.cs:310-368 | each block a fill returns costs at least one unit of work |
| Batching.PastTables | DtSearchIndexer/DtSearchIndexer.IndexerUtility/DataSources/DbDataSource.cs:312-316 | past a database's last table, the fill moves on to the next database |
| Batching.RestFromEnd | DtSearchIndexer/DtSearchIndexer.IndexerUtility/DataSources/DbDataSource.cs:310 | past the last database, nothing is left |
| Batching.RefillCovers | DtSearchIndexer/DtSearchIndexer.IndexerUtility/DataSources/DbDataSource.cs:303-370 | `GetMoreRecords` returns the next rows in catalog order: batch rows plus the rest afterwards equal the rest before |
| Batching.RefillProgress | DtSearchIndexer/DtSearchIndexer.IndexerUtility/DataSources/DbDataSource.cs:303-370 | a non-empty batch always moves the position forward |
| Batching.RefillEnds | DtSearchIndexer/DtSearchIndexer.IndexerUtility/DataSources/DbDataSource.cs:369 | an empty batch without a fault means no rows are left, or the budget is not positive |
| Batching.FillKeepsPos | DtSearchIndexer/DtSearchIndexer.IndexerUtility/DataSources/DbDataSource.cs:310-368 | the position stays within the catalog |
| Batching.ShapedEntry | DtSearchIndexer/DtSearchIndexer.IndexerUtility/DataSources/DbDataSource.cs:94-95 | each row of a well-formed block is a well-formed catalog row |
| Batching.TableBlockShaped | DtSearchIndexer/DtSearchIndexer.IndexerUtility/DataSources/DbDataSource.cs:346 | a fetched table is named `[Db.Table]` and has the indexed fields as columns |
| Batching.FetchWidth | DtSearchIndexer/DtSearchIndexer.IndexerUtility/DataSources/DbDataSource.cs:329 | fetched rows have one value per indexed field |
| Batching.FillShaped | DtSearchIndexer/DtSearchIndexer.IndexerUtility/DataSources/DbDataSource.cs:346-348 | every block of a batch is well formed |
| Batching.UnreadAll | DtSearchIndexer/DtSearchIndexer.IndexerUtility/DataSources/DbDataSource.cs:82-83 | from the batch start, every row of the batch is unread |
| Batching.UnreadSkip | DtSearchIndexer/DtSearchIndexer.IndexerUtility/DataSources/DbDataSource.cs:86-87 | skipping an empty table loses no row |
| Batching.UnreadTake | DtSearchIndexer/DtSearchIndexer.IndexerUtility/DataSources/DbDataSource.cs:95 | the row under the cursor is the next unread row |
| Batching.UnreadNext | DtSearchIndexer/DtSearchIndexer.IndexerUtility/DataSources/DbDataSource.cs:175-178 | moving past an exhausted table loses no row |
| Batching.RefillDiscardsNothing | DtSearchIndexer/DtSearchIndexer.IndexerUtility/DataSources/DbDataSource.cs:78 | with the corrected refill test, a refill happens only when no row of the batch is left unread |
| Batching.NoRefillOnRow | DtSearchIndexer/DtSearchIndexer.IndexerUtility/DataSources/DbDataSource.cs:78-92 | without a refill, the cursor is on a row or on an empty table that the skip loop passes |
| Batching.AdvanceKeepsCursor | DtSearchIndexer/DtSearchIndexer.IndexerUtility/DataSources/DbDataSource.cs:172-178 | after a row is emitted, the cursor stays well formed and the unread rows lose exactly that row |
| Batching.EmitKeepsOrder | DtSearchIndexer/DtSearchIndexer.IndexerUtility/DataSources/DbDataSource.cs:95-172 | the emitted row is the first of the rows still to come |
| Batching.RefillAsWrittenDiscardsRows | DtSearchIndexer/DtSearchIndexer.IndexerUtility/DataSources/DbDataSource.cs:78 | with the refill test as written, tables A (1 row), B (0 rows), C (1 row): after A's row the refill fires with C's row unread |
| Batching.AppendError | DtSearchIndexer/DtSearchIndexer.IndexerUtility/DataSources/DbDataSource.cs:356 | an error message is appended to the old one and leaves `WasError` true |
| RemoveList.DbTableNames | DtSearchIndexer/DtSearchIndexer.IndexerUtility/DataSources/DbDataSource.cs:185-187 | one qualified name per table of a database |
| RemoveList.MentionsAnySpec | DtSearchIndexer/DtSearchIndexer.IndexerUtility/DataSources/DbDataSource.cs:189 | an entry is kept exactly when some index table's name occurs in it; `Distinct` does not change `Any` |
| RemoveList.KeepMentioningCounts | DtSearchIndexer/DtSearchIndexer.IndexerUtility/DataSources/DbDataSource.cs:189 | the filter keeps every copy of a mentioning entry and no copy of another |
| RemoveList.KeepMentioningOrder | DtSearchIndexer/DtSearchIndexer.IndexerUtility/DataSources/DbDataSource.cs:189 | the filter never lengthens the list, and keeps it whole exactly when every entry mentions a table |
| RemoveList.Repeat | DtSearchIndexer/DtSearchIndexer.IndexerUtility/DataSources/DbDataSource.cs:193-194 | `n` copies have length `n` |
| RemoveList.RepeatAt | DtSearchIndexer/DtSearchIndexer.IndexerUtility/DataSources/DbDataSource.cs:193-194 | every copy is the repeated name |
| RemoveList.NamesFollowAppend | DtSearchIndexer/DtSearchIndexer.IndexerUtility/DataSources/DbDataSource.cs:210 | names that follow their rows still follow them after concatenation |
| RemoveList.EntriesTables | DtSearchIndexer/DtSearchIndexer.IndexerUtility/DataSources/DbDataSource.cs:192-193 | every entry of a table's rows carries the table's name |
| RemoveList.EntriesLength | DtSearchIndexer/DtSearchIndexer.IndexerUtility/DataSources/DbDataSource.cs:193 | one entry per row |
| RemoveList.BlockNamesFollow | DtSearchIndexer/DtSearchIndexer.IndexerUtility/DataSources/DbDataSource.cs:191-211 | a table contributes one name per row, each with that table's `db://[Db.Table]#` prefix |
| RemoveList.BlockNamesQuirk | DtSearchIndexer/DtSearchIndexer.IndexerUtility/DataSources/DbDataSource.cs:194 | every name of a table is the identity of row `curRowIndex`, not of row `j` |
| RemoveList.ShapedTail | DtSearchIndexer/DtSearchIndexer.IndexerUtility/DataSources/DbDataSource.cs:191 | the head and tail of a well-formed batch are well formed |
| RemoveList.AnyShortSpec | DtSearchIndexer/DtSearchIndexer.IndexerUtility/DataSources/DbDataSource.cs:194 | some table is short exactly when some non-empty table has no row `curRowIndex` |
| RemoveList.BlocksNamesShort | DtSearchIndexer/DtSearchIndexer.IndexerUtility/DataSources/DbDataSource.cs:191-212 | the batch loop throws exactly when some table is short |
| RemoveList.BlocksNamesThrow | DtSearchIndexer/DtSearchIndexer.IndexerUtility/DataSources/DbDataSource.cs:194 | the same, stated with an index |
| RemoveList.BlocksNamesFollow | DtSearchIndexer/DtSearchIndexer.IndexerUtility/DataSources/DbDataSource.cs:191-212 | without a throw, the batch gives one name per row, each prefixed by its row's table |
| RemoveList.PrependNothing | DtSearchIndexer/DtSearchIndexer.IndexerUtility/DataSources/DbDataSource.cs:190 | prepending no names changes nothing |
| RemoveList.PrependTwice | DtSearchIndexer/DtSearchIndexer.IndexerUtility/DataSources/DbDataSource.cs:190 | prepending twice prepends the concatenation |
| RemoveList.DrainNamesAll | DtSearchIndexer/DtSearchIndexer.IndexerUtility/DataSources/DbDataSource.cs:190-213 | a loop that ends without a throw or a fault names every remaining row, in order, each under its own table |
| RemoveList.DrainFromFirstRow | DtSearchIndexer/DtSearchIndexer.IndexerUtility/DataSources/DbDataSource.cs:190-213 | from `curRowIndex` 0 the loop never throws |
| RemoveList.BlocksNamesAppend | DtSearchIndexer/DtSearchIndexer.IndexerUtility/DataSources/DbDataSource.cs:191 | the names of two runs of tables concatenate, and a throw in either is a throw |
| RemoveList.CollectNames | DtSearchIndexer/DtSearchIndexer.IndexerUtility/DataSources/DbDataSource.cs:191-212 | the loop over a batch's tables computes the batch's names, or the throw |
| RemoveList.CollectStep | DtSearchIndexer/DtSearchIndexer.IndexerUtility/DataSources/DbDataSource.cs:191-192 | one more table extends the names or makes the whole batch throw |
| RemoveList.CollectThrows | DtSearchIndexer/DtSearchIndexer.IndexerUtility/DataSources/DbDataSource.cs:194 | a throwing table makes the batch throw |
| RemoveList.CollectAppends | DtSearchIndexer/DtSearchIndexer.IndexerUtility/DataSources/DbDataSource.cs:210 | a non-throwing table appends its names |
| RemoveList.NameRows | DtSearchIndexer/DtSearchIndexer.IndexerUtility/DataSources/DbDataSource.cs:193-211 | the loop over a table's rows computes its names, or the throw |
| DataSource.FetchBatch | DtSearchIndexer/DtSearchIndexer.IndexerUtility/DataSources/DbDataSource.cs:309-368 | the fetch loops compute the batch, the next position and the fault of `Refilled` |
| DataSource.ReadColumns | DtSearchIndexer/DtSearchIndexer.IndexerUtility/DataSources/DbDataSource.cs:129-170 | the column loop computes `FoldColumns` |
| DataSource.BuildDocument | DtSearchIndexer/DtSearchIndexer.IndexerUtility/DataSources/DbDataSource.cs:94-170 | a row's identity is `DocName` and its document is `Materialize` |
| DataSource.DrainRefills | DtSearchIndexer/DtSearchIndexer.IndexerUtility/DataSources/DbDataSource.cs:190-213 | the remove-list loop computes `Drain` and leaves the last batch it fetched |
| DataSource.DbDataSource.constructor | DtSearchIndexer/DtSearchIndexer.IndexerUtility/DataSources/DbDataSource.cs:21-24 | a new source over a catalog with distinct `[Db.Table]` names (bare names may repeat across databases) is at its start, with no data set, no failure, an empty ledger, and every catalog row still to come |
| DataSource.DbDataSource.Single | DtSearchIndexer/DtSearchIndexer.IndexerUtility/DataSources/DbDataSource.cs:16-19 | the same over a one-database catalog |
| DataSource.DbDataSource.GetMoreRecords | DtSearchIndexer/DtSearchIndexer.IndexerUtility/DataSources/DbDataSource.cs:303-370 | the buffer becomes the next batch and the position moves on; a fault sets the failure flag and appends to the error message; the result is true exactly when a batch without a fault holds a table |
| DataSource.DbDataSource.GetNextDoc | DtSearchIndexer/DtSearchIndexer.IndexerUtility/DataSources/DbDataSource.cs:66-181 | after a failure, nothing; otherwise the document of the next remaining row, in catalog order; a `DocID` that does not parse, or whose bare table name no single database owns, throws with that row still first; a `false` comes only with a failure, a non-positive budget, or no rows left, and leaves the document fields as they were; a produced or thrown document leaves the source unfailed with its error message unchanged (refill test of line 78 as corrected, first row of "## Findings") |
| DataSource.DbDataSource.EmitNext | DtSearchIndexer/DtSearchIndexer.IndexerUtility/DataSources/DbDataSource.cs:94-181 | the row under the read position becomes the document; an emitted row leaves the front of the rows still to read, a thrown one stays there |
| DataSource.DbDataSource.MoveToRow | DtSearchIndexer/DtSearchIndexer.IndexerUtility/DataSources/DbDataSource.cs:67-92 | the cursor reaches a row without losing any, or reports why not (refill test of line 78 as corrected, first row of "## Findings") |
| DataSource.DbDataSource.StartReading | DtSearchIndexer/DtSearchIndexer.IndexerUtility/DataSources/DbDataSource.cs:71-75 | the first call rewinds; the rows to come are kept |
| DataSource.DbDataSource.SeekRow | DtSearchIndexer/DtSearchIndexer.IndexerUtility/DataSources/DbDataSource.cs:77-92 | the corrected refill test and the skip loop reach a row without losing any (line 78 as corrected, first row of "## Findings") |
| DataSource.DbDataSource.SkipEmptyBlocks | DtSearchIndexer/DtSearchIndexer.IndexerUtility/DataSources/DbDataSource.cs:86-92 | the skip loop passes empty tables without losing a row |
| DataSource.DbDataSource.PassEmptyBlock | DtSearchIndexer/DtSearchIndexer.IndexerUtility/DataSources/DbDataSource.cs:87-91 | one empty table is passed, refilling past the batch's end, with progress |
| DataSource.DbDataSource.RefillBuffer | DtSearchIndexer/DtSearchIndexer.IndexerUtility/DataSources/DbDataSource.cs:78-84 | a refill with nothing unread loses no row and moves the position forward |
| DataSource.DbDataSource.EmitRow | DtSearchIndexer/DtSearchIndexer.IndexerUtility/DataSources/DbDataSource.cs:94-178 | the row under the cursor becomes the current document; the cursor advances unless it throws |
| DataSource.DbDataSource.LoadDocument | DtSearchIndexer/DtSearchIndexer.IndexerUtility/DataSources/DbDataSource.cs:117-170 | the document fields, the display name and the ledger are those `Materialize` gives the row |
| DataSource.DbDataSource.AdvanceRead | DtSearchIndexer/DtSearchIndexer.IndexerUtility/DataSources/DbDataSource.cs:172-178 | the cursor moves to the next row, or to the next table at a table's end unless it is the last |
| DataSource.DbDataSource.CreateRemoveListForUpdateRequest | DtSearchIndexer/DtSearchIndexer.IndexerUtility/DataSources/DbDataSource.cs:183-226 | the list is the filtered manual list followed by the identities the loop collects (`Drain`), or a throw; the source is left at the batch that ended the loop |
| DataSource.DbDataSource.Reset | DtSearchIndexer/DtSearchIndexer.IndexerUtility/DataSources/DbDataSource.cs:258-260 | the position and cursor go back to zero; the buffer is left as it was |
| DataSource.DbDataSource.Rewind | DtSearchIndexer/DtSearchIndexer.IndexerUtility/DataSources/DbDataSource.cs:228-256 | after a failure or with no databases, false and nothing changes; otherwise the first batch is loaded and every catalog row is still to come |
| Lookup.QuotePlain | DtSearchIndexer/DtSearchIndexer.IndexerUtility/DataSources/DbDataSource.cs:372-376 | a name without `]` is quoted by bracketing it |
| Lookup.ReplaceCharKeepsOut | DtSearchIndexer/DtSearchIndexer.IndexerUtility/DataSources/DbDataSource.cs:393 | a replacement does not introduce a character absent from both texts |
| Lookup.JoinKeepsOut | DtSearchIndexer/DtSearchIndexer.IndexerUtility/DataSources/DbDataSource.cs:393 | joining does not introduce a character absent from parts and separator |
| Lookup.SearchTerms | DtSearchIndexer/DtSearchIndexer.IndexerUtility/DataSources/DbDataSource.cs:393 | one search term per key pair |
| Lookup.FieldValsOfIdentity | DtSearchIndexer/DtSearchIndexer.IndexerUtility/DataSources/DbDataSource.cs:418 | the key pairs come back out of an identity one by one |
| Lookup.SearchTermsJoin | DtSearchIndexer/DtSearchIndexer.IndexerUtility/DataSources/DbDataSource.cs:393 | replacing `=` by `::` over the joined pairs is replacing it in each pair |
| Lookup.SearchRequestOfIdentity | DtSearchIndexer/DtSearchIndexer.IndexerUtility/DataSources/DbDataSource.cs:393 | the request is the identity's key pairs as `Col::Val` conditions joined by ` AND ` |
| Lookup.SearchRequestOfDocName | DtSearchIndexer/DtSearchIndexer.IndexerUtility/DataSources/DbDataSource.cs:126 | the same for every identity `GetNextDoc` builds |
| Lookup.DocNameAccepted | DtSearchIndexer/DtSearchIndexer.IndexerUtility/DataSources/DbDataSource.cs:410 | every identity `GetNextDoc` builds passes the guard |
| Lookup.IdentityAccepted | DtSearchIndexer/DtSearchIndexer.IndexerUtility/DataSources/DbDataSource.cs:410-412 | a `db://…#…` name passes the guard |
| Lookup.TargetOfIdentity | DtSearchIndexer/DtSearchIndexer.IndexerUtility/DataSources/DbDataSource.cs:414 | the corrected parse returns the qualified table of any identity |
| Lookup.TargetAsWrittenWithoutSlash | DtSearchIndexer/DtSearchIndexer.IndexerUtility/DataSources/DbDataSource.cs:414 | the parse as written is right when no `/` follows the prefix |
| Lookup.TargetAsWrittenAfterSlash | DtSearchIndexer/DtSearchIndexer.IndexerUtility/DataSources/DbDataSource.cs:414 | the parse as written returns whatever follows the last `/` |
| Lookup.TargetAsWrittenMisparses | DtSearchIndexer/DtSearchIndexer.IndexerUtility/DataSources/DbDataSource.cs:414 | a key value holding `/` makes the parse as written differ from the table |
| Lookup.TargetAsWrittenMisparsesDate | DtSearchIndexer/DtSearchIndexer.IndexerUtility/DataSources/DbDataSource.cs:414 | `db://[D.T]#Day=01/02/2020` is parsed as table `2020` |
| Lookup.QuoteQualified | DtSearchIndexer/DtSearchIndexer.IndexerUtility/DataSources/DbDataSource.cs:414 | escaping `[Db.Table]` doubles its closing bracket only |
| Lookup.ParseQualifiedTable | DtSearchIndexer/DtSearchIndexer.IndexerUtility/DataSources/DbDataSource.cs:415 | the table recovered from `[Db.Table]` is `[Table]` |
| Lookup.ParseQualifiedDb | DtSearchIndexer/DtSearchIndexer.IndexerUtility/DataSources/DbDataSource.cs:416 | the database recovered from `[Db.Table]` is `[Db]` |
| Lookup.WhereTerms | DtSearchIndexer/DtSearchIndexer.IndexerUtility/DataSources/DbDataSource.cs:422-424 | one condition per key pair |
| Lookup.BuildWhere | DtSearchIndexer/DtSearchIndexer.IndexerUtility/DataSources/DbDataSource.cs:420-424 | the loop joins the `[Col] = @pi` conditions with ` AND `, without a leading separator |
| Lookup.WhereTermsOfPairs | DtSearchIndexer/DtSearchIndexer.IndexerUtility/DataSources/DbDataSource.cs:423 | the `i`-th condition compares the `i`-th key column with parameter `@pi` |
| Lookup.DocByNameQuery | DtSearchIndexer/DtSearchIndexer.IndexerUtility/DataSources/DbDataSource.cs:409-432 | no query exactly when the guard refuses the name; otherwise the escaped database and `SELECT * FROM [Table] WHERE …` built from the name, with the table taken by the corrected parse of line 414 (second row of "## Findings") |
| Lookup.ContainsChar | DtSearchIndexer/DtSearchIndexer.IndexerUtility/DataSources/DbDataSource.cs:410 | the character test is `Contains` of a one-character string |
| Lookup.DocByNameOfIdentity | DtSearchIndexer/DtSearchIndexer.IndexerUtility/DataSources/DbDataSource.cs:409-432 | for an identity built from a table and its key pairs, the lookup recovers the table, the database and one condition per key column, in order |
| Indexer.AnySetSpec | DtSearchIndexer/DtSearchIndexer.IndexerUtility/DtSearchIndexer.cs:55-58 | an aggregate switch is on exactly when some database has it on |
| Indexer.RemoveOnlySpec | DtSearchIndexer/DtSearchIndexer.IndexerUtility/DtSearchIndexer.cs:55-59 | remove-only mode holds exactly when some database asks for a remove list and no database asks for an update |
| Indexer.RemoveOnlyAnyList | DtSearchIndexer/DtSearchIndexer.IndexerUtility/DtSearchIndexer.cs:59 | the per-database test holds for some database exactly when one has the list switch and both update aggregates are off |
| Indexer.CompletionOf | DtSearchIndexer/DtSearchIndexer.IndexerUtility/DtSearchIndexer.cs:144-153 | not updated exactly on an immediate abort; partly updated exactly on a stop without it; complete otherwise |
| Indexer.SinceDone | DtSearchIndexer/DtSearchIndexer.IndexerUtility/DtSearchIndexer.cs:190-194 | the reports after the last `Done` hold no `Done` |
| Indexer.CountSinceDone | DtSearchIndexer/DtSearchIndexer.IndexerUtility/DtSearchIndexer.cs:190-216 | `recCount` is the number of reading and storing reports since the last `Done`, on top of its start value when no `Done` came |
| Indexer.LoggedEveryHundred | DtSearchIndexer/DtSearchIndexer.IndexerUtility/DtSearchIndexer.cs:204-216 | from a `Done`, the `k`-th reading or storing report is logged exactly when `k` is 1 more than a multiple of 100 |
| Indexer.IndexJob.constructor | DtSearchIndexer/DtSearchIndexer.IndexerUtility/DtSearchIndexer.cs:54 | a new job has no path, no stored fields, no actions and no remove list |
| Indexer.DtSearchIndexer.constructor | DtSearchIndexer/DtSearchIndexer.IndexerUtility/DtSearchIndexer.cs:18-20 | the parameterless indexer has no logger and a retrieval size of 0 |
| Indexer.DtSearchIndexer.WithLogger | DtSearchIndexer/DtSearchIndexer.IndexerUtility/DtSearchIndexer.cs:20-28 | the indexer keeps the logger it is given, null included, and its retrieval size |
| Indexer.DtSearchIndexer.IndexDatabase | DtSearchIndexer/DtSearchIndexer.IndexerUtility/DtSearchIndexer.cs:53-122 | the switches are the catalog's aggregates; remove-only mode runs exactly one job, which the engine sees with only `ActionRemoveListed` set and the full remove list, and leaves the ledger alone; otherwise it runs exactly one add job, with no remove list, whose create and remove-deleted actions follow the switches and whose pulled items join the ledger; the job ends complete and not indexing |
| Indexer.DtSearchIndexer.RunJob | DtSearchIndexer/DtSearchIndexer.IndexerUtility/DtSearchIndexer.cs:65-120 | the job of the mode, on a fresh data source reset to its start, executed once with the flags and list of that mode |
| Indexer.DtSearchIndexer.OpenDataSource | DtSearchIndexer/DtSearchIndexer.IndexerUtility/DtSearchIndexer.cs:65-84 | a new data source over the catalog, at its start |
| Indexer.DtSearchIndexer.RemoveListedJob | DtSearchIndexer/DtSearchIndexer.IndexerUtility/DtSearchIndexer.cs:105-112 | the remove-only job: executed once with `ActionAdd` clear, `ActionRemoveListed` set and the remove list built from the first row; afterwards `ActionRemoveListed` is cleared, the ledger emptied and the source reset |
| Indexer.DtSearchIndexer.AddJob | DtSearchIndexer/DtSearchIndexer.IndexerUtility/DtSearchIndexer.cs:114-120 | the add job: executed once with `ActionAdd` set, create and remove-deleted following the switches; the engine's reads join the source's ledger |
| Indexer.DtSearchIndexer.SetRunMode | DtSearchIndexer/DtSearchIndexer.IndexerUtility/DtSearchIndexer.cs:55-63 | the four aggregates, the remove-only mode, the manual list, and the cleared stop flags |
| Indexer.DtSearchIndexer.IndexOneDatabase | DtSearchIndexer/DtSearchIndexer.IndexerUtility/DtSearchIndexer.cs:49-51 | one database's own switches, index path and stored fields decide the job, which is executed once |
| Indexer.DtSearchIndexer.ExecuteIndexJob | DtSearchIndexer/DtSearchIndexer.IndexerUtility/DtSearchIndexer.cs:125-165 | the job is handed to the engine as it stands; the source is read only when the job adds; the logged status follows the precedence; `Indexing` ends false |
| Indexer.DtSearchIndexer.HandleProgressChange | DtSearchIndexer/DtSearchIndexer.IndexerUtility/DtSearchIndexer.cs:167-251 | `Done` resets the count; reading and storing count one and log every hundredth from the first; an unknown step without a logger throws before anything changes; every other report is passed on once |
| StatusHandler.IndexStatusHandler.constructor | DtSearchIndexer/DtSearchIndexer.IndexerUtility/Handlers/IndexStatusHandler.cs:7-9 | the handler holds its indexer |
| StatusHandler.IndexStatusHandler.CheckForAbort | DtSearchIndexer/DtSearchIndexer.IndexerUtility/Handlers/IndexStatusHandler.cs:11-14 | continue without a stop; cancel on a stop; cancel immediately on a stop with an immediate abort |
| StatusHandler.IndexStatusHandler.OnProgressUpdate | DtSearchIndexer/DtSearchIndexer.IndexerUtility/Handlers/IndexStatusHandler.cs:16-18 | the report reaches the indexer's progress handler exactly once |
| StatusHandler.CheckForAbortReadsFlags | DtSearchIndexer/DtSearchIndexer.IndexerUtility/Handlers/IndexStatusHandler.cs:11-14 | the decision depends only on the two flags |
| StatusHandler.CompletionMatchesAbort | DtSearchIndexer/DtSearchIndexer.IndexerUtility/DtSearchIndexer.cs:144-153 | unless an immediate abort comes without a stop, the logged status matches the engine's abort value in both directions; an immediate abort without a stop is logged as not updated while the engine was told to continue |

## Left out

- Database access is replaced by the `Backend` value. This covers the
  connection, `ExecuteReader`, `DataTable.Load`, command timeouts and
  `GC.Collect`. A query that throws is a fault at its position.
- `ValidQuery` always succeeds in the source. The model has no path for a
  refused query.
- `GetEscapedValue` stands for `SqlCommandBuilder.QuoteIdentifier`. It is
  modelled as SQL Server documents it: bracket the name and double `]`.
- `Image_Loc` file reads become the `files` map, keyed by the column
  value. Path rooting, `BaseImageDir` and the test fallback are not
  modelled, nor is the logging of a failed read.
- The `DeleteList.txt` file is not modelled, for the same reason. In
  `CreateRemoveListForUpdateRequest` and `Rewind`, the deletion and the
  write are left out. The remove list is returned as the list of names
  rather than as the file's name.
- DataSource.DbDataSource.GetNextDoc does not model `DocModifiedDate`,
  `DocCreatedDate` or the `Date_Entered` parse. These depend on the clock
  and on culture-dependent parsing. `DocTypeId` is a constant and is not
  modelled either.
- DataSource.DbDataSource.GetNextDoc, DataSource.DbDataSource.MoveToRow
  and DataSource.DbDataSource.SeekRow use the corrected refill test of
  line 78 (`NeedsRefill`), not the test as written
  (`NeedsRefillAsWritten`). As written, the rows after an empty table
  reached at row 0 are dropped; the first row of "## Findings" shows this.
- Lookup.DocByNameQuery uses the corrected table parse of line 414
  (`Target`), not the parse as written (`TargetAsWritten`), which takes the
  text after the last `/` of the whole identity; the second row of
  "## Findings" shows this.
- DataSource.DbDataSource.constructor requires `ValidCatalog`, and so
  excludes catalogs that `GetNextDoc` handles in ways the model does not
  track:
  - a repeated `[Db.Table]` name makes the lookups at lines 109-112 throw;
  - a key column that matches no selected field, even ignoring case, makes
    line 114 throw;
  - a key column that differs from a selected field only in letter case is
    accepted by the source: `DataColumnCollection[name]` and
    `DataRow[name]` fall back to a case-insensitive match, and the pair is
    written with the field's own spelling. `TableOk` compares names exactly
    and refuses such a catalog, because the model has no case folding;
  - a field selected twice gives the loaded table a renamed column.
- Catalog.DateToString uses the invariant culture's formats. Culture
  settings are outside the model.
- `GetDocByName`:
  - the model stops at the query it would run (`DocByNameQuery`);
  - the lookup `dbInfos.SingleOrDefault(dbi => dbi.DbName == dbName)`
    compares the escaped `[Db]` with the raw name, so it finds no database
    for any plain name. The null dereference that follows lands in the
    catch, which clears `bDatabaseFailed` and returns false;
  - the parameters are created but never attached to the command;
  - none of the above is modelled.
- `GetDocId` runs a dtSearch search. Only its request string is modelled
  (`SearchRequest`).
- `RetrieveDataFromDbSets` is not called from the core.
- The dtSearch engine's run of an `IndexJob` is not modelled. The
  parameter `pulled` stands for the ledger entries the engine's reads add
  to the data source during an add job.
- Indexer.DtSearchIndexer.IndexDatabase does not model the log lines. It
  does not state the ledger in the remove-only branch beyond leaving it
  unchanged.
- `ILogger` text is not modelled, and neither is the `ProgressInfo` copy
  handed to `OnProgressChanged`. Only whether a line is logged (`Report`)
  and the step passed on (`notified`) are kept.
- Indexer.DtSearchIndexer.WithLogger has no default argument: the C#
  default retrieval size of 150000 is the constant
  `DefaultRecsPerRetrieval`, which a caller passes explicitly. The two C#
  constructors differ only in the logger's static type and are one
  constructor here.
- Indexer.DtSearchIndexer.HandleProgressChange does not model the `long`
  wrap-around of `recCount`. It would need 2^63 reports.
- `StopPressed` and `AbortImmediately` are only ever cleared in the
  indexer. Nothing in the core sets them, so `IndexDatabase` always ends
  `Complete`.
- Concurrency and `async` are not modelled: `CreateRemoveListForUpdateRequest`
  is awaited at once, and the handler runs on the engine's thread.

## Findings

| source | as written | input that shows it | evidently intended | confidence | as-written member | corrected member |
|---|---|---|---|---|---|---|
| DtSearchIndexer/DtSearchIndexer.IndexerUtility/DataSources/DbDataSource.cs:78 | the refill test `curRowIndex >= Rows.Count` also fires on an empty table reached at row 0 after the previous table was finished, so the rest of the batch is discarded | one database whose tables A, B, C hold 1, 0 and 1 rows, budget 10: after A's row the cursor is on B at row 0, the refill fires and C's row is never emitted | refill only past the last table or past the rows of a non-empty table; empty tables are passed by the skip loop at lines 86-92 | not executed | Batching.RefillAsWrittenDiscardsRows | Batching.RefillDiscardsNothing |
| DtSearchIndexer/DtSearchIndexer.IndexerUtility/DataSources/DbDataSource.cs:414 | `name.Split('/').Last()` takes the text after the last `/` of the whole identity, so a key value with a `/` (a short date) replaces the table | `db://[D.T]#Day=01/02/2020` gives table `2020` | the text between `db://` and the first `#` | not executed | Lookup.TargetAsWrittenMisparsesDate | Lookup.TargetOfIdentity |
