# bookrecords: a Dafny model

The program is a small tkinter application that keeps a MySQL table `books`. Each row
holds an ISBN (the primary key), a name, a writer and a genre. It has two screens:
- an entry screen, which inserts one record;
- a monitor screen, which searches by any of the four fields or lists the first 500 rows.

This project models the logic behind those screens. It leaves out the widgets and the
MySQL driver.

- `strings.dfy` (module `Strings`): `Join`, the model of Python's `sep.join(parts)`, with
  lemmas on how a join grows and how long it is.
- `booksdto.dfy` (module `BookRecord`): the `BookDTO` record.
  - It is a class whose fields are updated in place.
  - It has its `store_flag` values, `get_as_list` (`AsList`) and `__str__` (`ToString`).
- `sqlhandler.dfy` (module `SqlHandler`): the data-access class `SQLHandler`.
  - The table exists or does not (`tableExists`), and its rows are a map keyed by ISBN (`table`).
  - `Valid()` says that each row sits under its own ISBN, that it fits the declared VARCHAR
    widths (20 for the ISBN, 100 for the others), and that a missing table is empty.
  - Insert is modelled as MySQL answers it:
    - an error outside the model (`fault`) comes first;
    - then each value is cut to its column's width when only spaces lie beyond it, as MySQL does in every SQL mode;
    - then a value still too wide for its column (errno 1406, strict mode);
    - then a duplicate primary key (errno 1062);
    - otherwise the row is added.
  - Whether `CREATE TABLE IF NOT EXISTS` fails is the parameter `createFails`.
  - Reads return lists of records: the header record of column names comes first, then one
    record per row. What the store decides on its own is a parameter:
    - `scan` is the order in which a `SELECT` visits the rows;
    - `selects` says which rows a `WHERE` statement keeps;
    - `readError` is a statement failure outside the model.
  - The search statement is built text for text as the program builds it. The ISBN is
    spliced in unquoted, the other three values inside double quotes, and the clauses are
    joined by " AND ".
- `bookmanagement.dfy` (module `BookManagement`): the two screens without widgets.
  - The text fields are plain string fields.
  - The entry screen's message label is a string field.
  - The monitor's result table is `headings` plus `shown` rows.
  - Both `validate_entry` checks are modelled.
  - The flag-to-message dispatch of `save_book_record` is modelled, including which
    outcome clears the fields.
  - The headings/rows split of the two display handlers is modelled.

The model follows the code where its behaviour differs from what a reader might expect:
- The search concatenates the values into the SQL text. It does not bind them as
  parameters, and the ISBN is left unquoted.
- A failed read returns an empty list rather than raising an error.
- The flags are the strings `"insert failed"` and `"create failed"`.
- An empty table still yields the header record.
- The record does no validation of its own.

## Model

| member | source | states |
|---|---|---|
| Strings.Join | booksdto.py:26 | Python's `sep.join(parts)`: the parts with the separator between neighbours; its properties are stated by `JoinAppend` and `JoinLength` |
| Strings.JoinAppend | sqlhandler.py:165-178 | appending a part to a join adds one separator (none to an empty join) and then the part, as each search step does |
| Strings.JoinLength | sqlhandler.py:157-179 | a join of n > 0 parts is the parts plus exactly n - 1 separators long |
| Strings.JoinExtend | sqlhandler.py:165-178 | one search step appends " AND " only when a clause is already there, then the new clause, and so keeps the statement equal to the prefix plus the join of the clauses so far |
| BookRecord.BookDTO.constructor | booksdto.py:5-13 | a new record has the four fields empty and the flag `"new"` |
| BookRecord.BookDTO.AsList | booksdto.py:15-20 | the record's four fields in the order ISBN, name, writer, genre; `str` of the ISBN, already a string, is the ISBN itself |
| BookRecord.BookDTO.ToString | booksdto.py:22-26 | the printed form is ISBN, name, writer, genre separated by ", ", six characters longer than the fields together |
| SqlHandler.RowListRoundTrip | sqlhandler.py:129-135 | the row built from four bound values gives back those values, and a row's values build that row |
| SqlHandler.RowOf | sqlhandler.py:66-78 | the inserted row takes each field of the record into its own column, in `get_as_list` order |
| SqlHandler.Cut | sqlhandler.py:38-43 | the value a VARCHAR column receives is the bound value with only trailing spaces removed, and it fits the width exactly when the value did or only spaces lay beyond the width; a non-empty value stays non-empty |
| SqlHandler.StoredRow | sqlhandler.py:38-43 | the row the store writes is the bound row with each value cut to its column's width, and a row that fits is written as it is |
| SqlHandler.InsertStatement | sqlhandler.py:38-43 | the insert runs only without a store fault, with the cut values within the column widths and with the cut ISBN not yet stored; a value still too wide fails with 1406; otherwise it runs exactly when the key is new |
| SqlHandler.InsertFlag | sqlhandler.py:72-103 | the flag is `"create failed"` exactly when creation fails; `"inserted"` exactly when the cut row fits, its key is new and nothing else fails; `"duplicate"` exactly when the cut row fits and its key is present; otherwise `"insert failed"` |
| SqlHandler.InsertChangesOnlyNewKey | sqlhandler.py:76-100 | a failed insert leaves the table as it was; a successful one adds exactly the cut row under its new key and changes no other row |
| SqlHandler.InsertKeepsWellFormed | sqlhandler.py:38-43 | every insert outcome keeps rows under their own ISBN and within their column widths |
| SqlHandler.SecondInsertIsDuplicate | sqlhandler.py:84-93 | a second record whose cut ISBN is stored is reported as a duplicate, and the stored row keeps the first record's (cut) values |
| SqlHandler.TrailingSpaceCut | sqlhandler.py:76-81 | an ISBN one trailing space over 20 characters is inserted and stored as its first 20 characters, while one extra digit makes the insert fail |
| SqlHandler.InsertFlagKnown | sqlhandler.py:61-105 | the insert only ever sets one of the known flags |
| SqlHandler.ScanLength | sqlhandler.py:118-122 | a scan that visits every key exactly once is as long as the table |
| SqlHandler.AllBooksResult | sqlhandler.py:107-142 | the lists `get_all_books` turns into records: none exactly when the table is missing or the read fails, and every list has four values |
| SqlHandler.AllBooksShape | sqlhandler.py:107-142 | the read is empty exactly when its statement fails; otherwise it is the header followed by exactly min(500, rows stored) rows |
| SqlHandler.ScannedListsStored | sqlhandler.py:118-122 | the rows a duplicate-free scan of stored keys fetches are each the stored row under its own ISBN, and none comes twice |
| SqlHandler.AllBooksRowsStored | sqlhandler.py:118-136 | every row of a successful read after the header is a stored row's four columns under its own ISBN, and no row comes twice |
| SqlHandler.StoredRowIsListed | sqlhandler.py:112 | with at most 500 rows stored, every stored row is among those read |
| SqlHandler.Select | sqlhandler.py:185-189 | the kept rows are exactly the scanned rows that the store selects for the statement |
| SqlHandler.ScanRowsDistinct | sqlhandler.py:185-189 | a scan that visits each key once fetches no row twice |
| SqlHandler.SelectKeepsDistinct | sqlhandler.py:185-189 | the store's selection keeps a duplicate-free sequence of rows duplicate-free |
| SqlHandler.KeptRowsStored | sqlhandler.py:185-189 | every row the store keeps is the stored row under its own ISBN, and every stored row it selects is kept |
| SqlHandler.KeptIsbns | sqlhandler.py:185-189 | the ISBNs of the kept rows come once each and are exactly the stored ISBNs whose rows the store selects |
| SqlHandler.SelectedKeyCount | sqlhandler.py:185-189 | the store keeps exactly as many rows as there are stored ISBNs whose rows it selects |
| SqlHandler.OptionalClause | sqlhandler.py:162-178 | a field contributes one clause when it is non-empty and none otherwise |
| SqlHandler.ClauseCount | sqlhandler.py:157-179 | there are as many clauses as non-empty fields, and with none the statement ends at "WHERE " |
| SqlHandler.ClausesOfCriteria | sqlhandler.py:162-178 | the clauses come in the fixed order ISBN, name, writer, genre, one per non-empty field |
| SqlHandler.SearchStatementLength | sqlhandler.py:159-179 | with n > 0 clauses the statement is the prefix, the clauses and n - 1 separators " AND " long |
| SqlHandler.SearchStatementExample | sqlhandler.py:162-178 | for ISBN 123456 and genre Fiction the statement compares the ISBN bare and the genre in double quotes |
| SqlHandler.BuildSearchQuery | sqlhandler.py:155-179 | the statement builder's text is the prefix plus the clauses of the non-empty fields joined by " AND ", and `criteria_count` is the number of non-empty fields |
| SqlHandler.SearchResult | sqlhandler.py:180-209 | the lists `search_book_on_db` turns into records; every list, header and rows alike, has four values |
| SqlHandler.SearchShape | sqlhandler.py:180-209 | a search is empty exactly when no field is given, the table is missing or the read fails; otherwise the header, then no more rows than are stored |
| SqlHandler.SearchRowsSelected | sqlhandler.py:185-203 | every row a search returns is the stored row under its own ISBN and one the store selects, every selected stored row is returned, and no row comes twice |
| SqlHandler.KeptListsSelected | sqlhandler.py:185-203 | the lists of the kept rows are each a selected stored row under its own ISBN, include every selected stored row, and hold none twice |
| SqlHandler.SearchRowCount | sqlhandler.py:185-203 | a successful search returns exactly one row per stored ISBN whose row the store selects |
| SqlHandler.ToBooks | sqlhandler.py:129-136 | one new record flagged `"new"` per list, its fields that list's four values in order |
| SqlHandler.SQLHandler.constructor | sqlhandler.py:9-25 | a handler over a consistent store |
| SqlHandler.SQLHandler.CreateBookTable | sqlhandler.py:27-55 | the result is true exactly when the store accepts the statement, after which the table exists; the rows never change, so on an existing table nothing changes |
| SqlHandler.SQLHandler.InsertBookToDb | sqlhandler.py:57-105 | a record not flagged `"new"` is returned untouched and the table is unchanged; otherwise the flag and the new table are those of `InsertFlag`, the record's fields are kept and the same record is returned |
| SqlHandler.SQLHandler.GetAllBooks | sqlhandler.py:107-142 | the records describe, one by one, the lists of `AllBooksShape` and are each new and flagged `"new"` |
| SqlHandler.SQLHandler.SearchBookOnDb | sqlhandler.py:151-209 | the records describe, one by one, the search result for the record's four fields (see `SearchShape`, `SearchRowsSelected`) |
| BookManagement.EntryValid | bookmanagement.py:82-93 | the entry form is accepted exactly when all four fields are non-empty |
| BookManagement.MonitorValid | bookmanagement.py:225-236 | the search form is accepted exactly when some field is non-empty, that is exactly when the statement gets at least one clause |
| BookManagement.EntryAcceptedByMonitor | bookmanagement.py:85-93 | every form the entry screen accepts, the search screen accepts too |
| BookManagement.OutcomeMessage | bookmanagement.py:117-136 | each flag outcome (inserted, duplicate, anything else) shows its own message, and none is the "provide all details" message |
| BookManagement.ShowResults | bookmanagement.py:263-280 | the table's headings are the first record's values and its rows the later records' values, in order, one per record |
| BookManagement.BookEntry.constructor | bookmanagement.py:26-80 | the entry screen starts with empty fields and the prompt message |
| BookManagement.BookEntry.SaveBookRecord | bookmanagement.py:95-148 | an incomplete form only sets the "provide all details" message. A complete one is inserted: the table changes as `InsertFlag` says, the message is that flag's, and the fields are cleared exactly when the record was stored. Every newly stored row has four non-empty fields |
| BookManagement.BookMonitor.constructor | bookmanagement.py:163-223 | the monitor screen starts with empty fields and no result table |
| BookManagement.BookMonitor.SearchBookRecord | bookmanagement.py:238-306 | with no field given nothing is searched and the display is unchanged; otherwise the display shows the search result's headings and rows, or an empty frame when the search returns nothing; with the table present and the read succeeding, the headings are the column names and no more rows are shown than are stored |
| BookManagement.BookMonitor.ShowBookRecords | bookmanagement.py:308-366 | the display shows the read's headings and rows, or an empty frame when the read returns nothing; with the table present and the read succeeding, the headings are the column names and exactly min(500, rows stored) rows are shown |

## Left out

- All tkinter code is left out because it is UI: widget creation and placement, screen resets, `mainloop`, scrollbars, and the `item_selected`/`showinfo` row handler.
- Connection setup and its credentials are left out; they are I/O into the MySQL driver.
- Also left out, as driver I/O: the `is_connected` reconnect path, `close_connection`, opening and closing cursors, and `commit`.
- The logging `print` calls and the `__main__` demonstration blocks are left out; they produce output only.
- How MySQL evaluates a search statement is left out because it is foreign code. This includes the numeric coercion of the unquoted ISBN comparison and the injection surface. The store's choice of rows is the parameter `selects`.
- Row order is left out because the store decides it. It is the parameter `scan`, and `cursor.description` is the fixed column list.
- Key comparison is exact string equality. MySQL's collation, which ignores case (and, under a PAD SPACE collation, trailing spaces), is outside the model.
- The column widths assume strict SQL mode. In non-strict mode MySQL truncates any too-wide value instead of rejecting it (errno 1406); the cut of trailing spaces, which MySQL makes in every mode, is modelled.
- Store failures other than a duplicate key are parameters (`createFails`, `fault`, `readError`). Connection loss, lock timeouts and missing privileges are therefore not told apart. The values spliced into the search statement can also make it fail, for example the unquoted ISBN `abc` names an unknown column (errno 1054) and a name `a"b` breaks the syntax (errno 1064); such failures too are drawn from `readError`, which does not depend on the statement's text. Other values run: a hyphenated ISBN such as `978-3-16-148410-0` is compared as an arithmetic expression, and a name such as `x" OR "1"="1` injects a condition; which rows those statements pick is what `selects` stands for.
- SqlHandler.SQLHandler.InsertBookToDb: `fault` may not be 1062. A store error outside the model cannot be mistaken for a duplicate key.
- SqlHandler.SQLHandler.CreateBookTable: the model does not promise `true` for an existing table. A failure outside the model (`createFails`) can still reject the statement; the rows are unchanged either way.
- BookManagement.BookMonitor.SearchBookRecord: a read that returns no records raises an uncaught `IndexError` on `books[0]`. By then a new, empty "Records found" frame already covers any earlier table. The model shows that frame as no headings and no rows and ends the handler there; it does not model exceptions. ShowResults itself requires at least one record.
- BookManagement.BookMonitor.ShowBookRecords: the same empty-frame treatment applies to its empty read.
- `str()` of the ISBN in `get_as_list` is the identity because every field is a string. No other field type is modelled.
- `get_as_list` and `__str__` are functions that only read the record. They cannot change it, so no separate lemma says so.
