# Verified model of the Amazon books ETL harvest and upsert

This project models the two pieces of sequential logic in the Airflow DAG
`dags/amazon_books_etl_v2.py`:

- **The harvest session** of `get_amazon_data_books`. Search-result pages are
  requested in order from page 1, at most `max_pages` (10) of them. Each
  page's result containers are scanned in order. A title is read from a
  primary locator, or from a secondary one when the primary element is
  absent. A record is rejected when its title is shorter than three
  characters or was already seen in this session. Missing author, price and
  rating get the defaults "Unknown", "N/A" and "No rating". The loop stops
  when the requested number of records is reached (also in the middle of a
  page), after the last page, on a page without containers, on a page that
  adds nothing, or on a failed request. Records already accepted are kept.
  Only a session with no records at all is an error.
- **The batch upsert** of `insert_book_data_into_postgres`:
  `INSERT INTO books ... ON CONFLICT (title) DO UPDATE`. It is modelled as an
  update of a table keyed by title, with the SERIAL id sequence, the worker's
  clock (`datetime.now()`) and the database clock (`CURRENT_TIMESTAMP`) as
  explicit values.

HTML and HTTP are abstracted. A page is `FetchFailed` or
`Content(containers)`. A container carries the stripped text each locator
found, as `Option<string>`, and a `malformed` flag for a block whose parsing
raises. The site is a function from page numbers to pages.

Modules (one file each):

- `wrappers.dfy`: `Option`, `Result`.
- `books.dfy`: the scraped record, title sets, distinct titles, and
  `drop_duplicates(subset="title")`.
- `extraction.dfy`: the per-container locator fallbacks, the title check and
  the defaults.
- `session.dfy`: the session loop. It has a recursive specification (`Step`,
  `ScanPage`, `Run`, `Harvest`) and an independent description (`Fresh`: the
  candidates whose titles are new, in order). Lemmas relate the two and state
  how the loop ends. The method `RunSession` is the source's `while` loop
  and `ScanContainers` its inner `for` loop, both proved equal to the
  specification. `GetAmazonDataBooks` adds the
  empty-result error and the de-duplication.
- `upsert.dfy`: the table, the `values` tuples, the per-tuple upsert, the
  batch with its failure cases, and lemmas on the committed table. The class
  `BooksTable` applies the tuples in place and commits or rolls back.
- `pipeline.dfy`: a successful harvest always persists without error.

The model follows the code at these points, where a quick reading could
mislead:

- The secondary locator is used only when the primary element is **absent**.
  A present primary element with empty or short text is not replaced.
  Python's `a or b` on `find` results behaves this way, because a found tag
  is always truthy.
- The writer itself rejects a missing or empty batch (lines 190-191). The
  model returns the error `NoBookData`.
- A failed request keeps the records accepted so far (lines 163-168). The
  session fails only when nothing at all was accepted (lines 170-171).
- `updated_at` is the database's `CURRENT_TIMESTAMP`, and `created_at` is the
  worker's `datetime.now()`. Nothing in the code forces either to advance, so
  both are parameters.
- `execute_values` sends the tuples in statements of 100 rows. PostgreSQL
  rejects an `ON CONFLICT DO UPDATE` statement that would update the same row
  twice, and the transaction then rolls back. The model reports this as
  `CardinalityViolation` with the table unchanged. The harvest's distinct
  titles rule it out (`Pipeline.HarvestThenUpsert`).
- Each tuple draws a value from the id sequence, including a tuple that ends
  in an update. A new row's id is therefore at least the sequence's old
  value, but ids need not be consecutive.

## Model

| member | source | states |
|---|---|---|
| Books.DropDuplicates | dags/amazon_books_etl_v2.py:175 | the result keeps exactly the first record of each title: every kept record is, unchanged, the first input record with its title; kept records appear in the order of those first occurrences; every input title is kept; titles are distinct; no more records than the input |
| Books.DropDuplicatesNoOp | dags/amazon_books_etl_v2.py:175 | on records whose titles are already distinct, dropping duplicates returns the records unchanged |
| Extraction.MakeBook | dags/amazon_books_etl_v2.py:138-143 | author and price come from the primary locator if present, else the secondary one, else "Unknown"/"N/A"; rating comes from its only locator, else "No rating" |
| Extraction.Candidate | dags/amazon_books_etl_v2.py:121-153 | a container yields a record iff it is not malformed and its title element (primary if present, else secondary) has at least 3 characters; a short primary title is not replaced by the secondary one; the record's fields follow MakeBook |
| Session.FreshDistinct | dags/amazon_books_etl_v2.py:133-136 | the records of an unbounded scan have pairwise distinct titles, none of them among the titles seen before |
| Session.FreshFromCandidates | dags/amazon_books_etl_v2.py:121-145 | every record of an unbounded scan is the candidate record of one of the scanned containers |
| Session.FreshTitleLength | dags/amazon_books_etl_v2.py:133 | every record of an unbounded scan has a title of at least 3 characters |
| Session.ScanPageTakesFresh | dags/amazon_books_etl_v2.py:119-149 | scanning a page appends exactly the first (target minus current count) fresh records of the page, in container order, and adds exactly their titles to the seen set |
| Session.ScanPageStopsAtTarget | dags/amazon_books_etl_v2.py:148-149 | once a page's records reach the target, the containers after that point are not examined: appending more containers to the page changes nothing |
| Session.RunPages | dags/amazon_books_etl_v2.py:95-100 | from page p a run requests no page beyond MaxPages; it requests page p exactly when fewer records than the target are held and p is at most MaxPages |
| Session.RunTakesFresh | dags/amazon_books_etl_v2.py:100-161 | the records a run accepts from page p on are the first fresh records over the containers of the pages it requests, in page order then container order, cut off at the target |
| Session.RunStops | dags/amazon_books_etl_v2.py:100-168 | a run stops with TargetReached iff the records reach the target; with PageBound only after page 10; otherwise the last requested page failed, had no containers, or had only rejected or already seen containers |
| Session.RunPagesBeforeLast | dags/amazon_books_etl_v2.py:100-161 | every page a run requested before its last one was fetched, had containers, added at least one record (the fresh count over the pages up to it grows), and left the run below the target |
| Session.RunLastPage | dags/amazon_books_etl_v2.py:100-168 | the last requested page explains the stop, both ways: RequestFailed iff that page failed; NoContainers iff it had no containers; NoNewRecords iff it had containers but no fresh record; TargetReached or PageBound only after it added records |
| Session.RunReadsRequestedPages | dags/amazon_books_etl_v2.py:100-161 | two sites that agree on the pages a run requests give the same outcome: no page after the stopping page is looked at |
| Session.HarvestTakesFresh | dags/amazon_books_etl_v2.py:93-168 | a session's records are the first num_books fresh records over the containers of pages 1 to the last one requested, and its seen set is exactly their titles |
| Session.HarvestAccepts | dags/amazon_books_etl_v2.py:93-168 | accepted titles have at least 3 characters and are distinct; the seen set holds only accepted titles, so a short title never blocks a later one; each record comes from a requested page's container; at most num_books records, none when num_books <= 0 |
| Session.HarvestStops | dags/amazon_books_etl_v2.py:95-168 | a session requests between 0 and 10 pages, none exactly when num_books <= 0; it ends with TargetReached iff the records reach num_books, and with PageBound only after page 10 below num_books; every page before the last was fetched, had containers, added a record and left the count below num_books; the last page failed iff the stop is RequestFailed, had no containers iff NoContainers, added nothing iff NoNewRecords, and added records when the target or the bound stopped the session |
| Session.HarvestReadsRequestedPages | dags/amazon_books_etl_v2.py:100-161 | the outcome of a session depends only on the pages it requested |
| Session.ScanContainers | dags/amazon_books_etl_v2.py:119-151 | the `for` loop over one page's containers leaves exactly the records and titles of the specified page scan, and reports how many records the page added |
| Session.RunSession | dags/amazon_books_etl_v2.py:93-168 | the source's while/for loop returns the records and stop reason of the specified session; the pages it requests are 1, 2, 3, ... in order, none skipped or repeated, at most 10 |
| Session.GetAmazonDataBooks | dags/amazon_books_etl_v2.py:170-175 | fails iff the session accepted no record; otherwise returns the session's records unchanged by the title de-duplication, between 1 and num_books of them with distinct titles |
| Upsert.Values | dags/amazon_books_etl_v2.py:210-214 | one tuple per record, in order, carrying the record's title, author, price and rating and the single current_time |
| Upsert.UpsertBatch | dags/amazon_books_etl_v2.py:190-216 | fails with NoBookData iff the batch is missing or empty; fails with CardinalityViolation iff some 100-row statement carries a title twice; otherwise commits all tuples in order |
| Upsert.ApplyValuesKeys | dags/amazon_books_etl_v2.py:200-208 | after the tuples the table's titles are the old titles plus the batch's, and each tuple consumed one sequence value |
| Upsert.ApplyValuesUntouched | dags/amazon_books_etl_v2.py:200-208 | a row whose title is not in the batch is left exactly as it was |
| Upsert.ApplyValuesKeepsIdentity | dags/amazon_books_etl_v2.py:203-207 | a row that existed keeps its id and created_at, since neither is in the SET clause |
| Upsert.ApplyValuesNewRows | dags/amazon_books_etl_v2.py:201-212 | a row created by the batch has created_at equal to the batch's current_time and an id drawn from the sequence during the batch |
| Upsert.ApplyValuesLastWins | dags/amazon_books_etl_v2.py:203-207 | the row of a title holds the authors, price and rating of the last tuple with that title, and updated_at equal to the database time |
| Upsert.ApplyValuesTouched | dags/amazon_books_etl_v2.py:207 | every batch title's row has updated_at equal to the database time |
| Upsert.ApplyValuesValid | dags/amazon_books_etl_v2.py:56 | ids stay below the sequence's next value and pairwise distinct |
| Upsert.ApplyValuesSameFields | dags/amazon_books_etl_v2.py:203-206 | the authors, price and rating a batch leaves on its titles depend only on the batch, not on the starting table or on either clock |
| Upsert.ReapplySameRows | dags/amazon_books_etl_v2.py:200-216 | re-applying a batch changes only updated_at of the batch's titles |
| Upsert.UpsertBatchRows | dags/amazon_books_etl_v2.py:200-216 | after a commit the titles are the old ones plus the batch's; rows outside the batch are unchanged; the row count grows by exactly the number of new titles |
| Upsert.UpsertBatchFields | dags/amazon_books_etl_v2.py:200-216 | after a commit every record's title maps to a row with its authors, price and rating (the last record if a title repeats) and the database time as updated_at; existing rows keep id and created_at; new rows get created_at = current_time and a fresh id; ids stay distinct |
| Upsert.UpsertBatchTwice | dags/amazon_books_etl_v2.py:200-216 | re-running the same batch commits again and yields the same rows except that each batch title's updated_at becomes the new database time; the row count and every created_at are unchanged |
| Upsert.DistinctNeverTouchesTwice | dags/amazon_books_etl_v2.py:216 | a batch with distinct titles never makes a statement update a row twice |
| Upsert.BooksTable.constructor | dags/amazon_books_etl_v2.py:55-63 | a freshly created table is empty, its sequence starts at 1, and it satisfies the id invariant |
| Upsert.BooksTable.InsertBookData | dags/amazon_books_etl_v2.py:183-222 | either the whole batch is applied and committed (returning the number of tuples) or the table is left as it was with the error; the id invariant is preserved |
| Pipeline.HarvestThenUpsert | dags/amazon_books_etl_v2.py:170-216 | a non-empty harvest always persists: every harvested record's title maps to a row with its author, price and rating, and the row count grows by the number of new titles |

## Left out

- HTTP fetching, request headers, the 10-second timeout and `raise_for_status` (lines 16-23, 107-108) are network I/O. Each page's outcome is an input value, and any request or unexpected page-level error is `FetchFailed`.
- The random 1-3 second sleep before each request (line 105) is wall-clock delay. It happens once per requested page, and `requested` in `Session.RunSession` lists those pages.
- BeautifulSoup parsing and the CSS selectors (lines 110-113, 124-127) belong to a foreign library. Containers and locator results are abstract optional strings that are already stripped.
- Extraction.Container: a parsing error anywhere in a block is the `malformed` flag, and the block is skipped with no state change. An error raised after the title was added to `seen_titles` (line 136) is not distinguished.
- An unexpected error raised after a page's containers began to be scanned (lines 166-168) would keep that page's records so far. The model raises page-level errors only before scanning, as `FetchFailed`. Every statement after the scan is logging or arithmetic.
- Logging (lines 98, 116, 152, 155, 158, 164, 167, 177, 193, 218, 221) has no effect on the data and is left out.
- The PostgreSQL connection and its hard-coded fallback credentials (lines 25-46), and cursor, close and re-raise plumbing (lines 195-227), are I/O. Only the commit-or-roll-back effect is modelled. Connection and driver failures other than a row updated twice are not modelled.
- Upsert.BooksTable.InsertBookData: on a rolled-back batch the model leaves the id sequence where it was. PostgreSQL sequences are not transactional, so the real sequence may have advanced.
- The `CREATE TABLE`/`CREATE INDEX` DDL (lines 48-80) is static SQL. Its unique title becomes the map key, and its empty start becomes `BooksTable`'s constructor.
- The XCom push and pull (lines 180, 188) and the pandas DataFrame (line 174) are framework transport. The records are passed directly, and a missing XCom value is `None` in `UpsertBatch`.
- The DAG, `default_args`, the operators and the task order (lines 230-273) are orchestration configuration.
- Timestamps are abstract integers. Time zones and the precision of `datetime` versus `TIMESTAMP` are not modelled.
