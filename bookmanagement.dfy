/**
 * The entry and monitor screens (bookmanagement.py) without their widgets: what the four
 * text fields hold, the checks made on them, the message shown after a save, and the
 * headings and rows a result table shows.
 */
module BookManagement {
  import opened BookRecord
  import opened SqlHandler

  /** Texts of the entry screen's message label. */
  const EntryPrompt := "Enter new book details and click Submit to save."
  const SavedMessage := "Entry saved!\nEnter new book details and click Submit to save."
  const DuplicateMessage := "Entry failed! This ISBN already exists.\nEnter new book details and click Submit to save."
  const FailedMessage := "Entry failed! Please contact tech support.\nOr try to enter new book details and click Submit again to save."
  const IncompleteMessage := "Please provide all details.\nEnter new book details and click Submit to save."

  /** `BookEntry.validate_entry`: false as soon as one field is blank. */
  function EntryValid(isbn: string, name: string, writer: string, genre: string): (ok: bool)
    ensures ok <==> NonEmptyCount(isbn, name, writer, genre) == 4
  {
    !(isbn == "" || name == "" || writer == "" || genre == "")
  }

  /** `BookMonitor.validate_entry`: false only when every field is blank. */
  function MonitorValid(isbn: string, name: string, writer: string, genre: string): (ok: bool)
    ensures ok <==> NonEmptyCount(isbn, name, writer, genre) > 0
    ensures ok <==> Clauses(Criteria(isbn, name, writer, genre)) != []
  {
    ClauseCount(isbn, name, writer, genre);
    !(isbn == "" && name == "" && writer == "" && genre == "")
  }

  /** Whatever the entry screen accepts, the monitor screen accepts too. */
  lemma EntryAcceptedByMonitor(isbn: string, name: string, writer: string, genre: string)
    requires EntryValid(isbn, name, writer, genre)
    ensures MonitorValid(isbn, name, writer, genre)
  {
  }

  /** The message `save_book_record` shows for the flag the insert returned; each outcome has its own. */
  function OutcomeMessage(flag: string): (m: string)
    ensures m == SavedMessage <==> flag == Inserted
    ensures m == DuplicateMessage <==> flag == Duplicate
    ensures m == FailedMessage <==> flag != Inserted && flag != Duplicate
    ensures m != IncompleteMessage
  {
    if flag == Inserted then SavedMessage
    else if flag == Duplicate then DuplicateMessage
    else FailedMessage
  }

  /**
   * The result table of `search_book_record` and `show_book_records`, for records that
   * describe `lists`: the first record's values as headings, then one row per later record,
   * in order.
   */
  method ShowResults(books: seq<BookDTO>, ghost lists: seq<seq<string>>) returns (headings: seq<string>, rows: seq<seq<string>>)
    requires |books| >= 1 && Describes(books, lists)
    ensures headings == lists[0] && rows == lists[1..]
  {
    headings := books[0].AsList();
    rows := [];
    for i := 1 to |books|
      invariant rows == lists[1..i]
    {
      rows := rows + [books[i].AsList()];
    }
  }

  /** The entry screen: the four text fields and the message label. */
  class BookEntry {
    var isbn: string
    var name: string
    var writer: string
    var genre: string
    var message: string

    /** The screen as first shown: empty fields and the prompt. */
    constructor ()
      ensures isbn == "" && name == "" && writer == "" && genre == "" && message == EntryPrompt
    {
      isbn, name, writer, genre := "", "", "", "";
      message := EntryPrompt;
    }

    /**
     * `save_book_record`. An incomplete form only sets the "provide all details" message.
     * A complete one is inserted as a new record; the returned flag picks the message, and
     * only a stored record clears the fields.
     */
    method SaveBookRecord(db: SQLHandler, createFails: bool, fault: Option<int>)
      requires db.Valid() && fault != Some(ErrDupEntry)
      modifies this, db
      ensures db.Valid()
      ensures !EntryValid(old(isbn), old(name), old(writer), old(genre)) ==>
                message == IncompleteMessage &&
                isbn == old(isbn) && name == old(name) && writer == old(writer) && genre == old(genre) &&
                db.table == old(db.table) && db.tableExists == old(db.tableExists)
      ensures EntryValid(old(isbn), old(name), old(writer), old(genre)) ==>
                var row := Row(old(isbn), old(name), old(writer), old(genre));
                var flag := InsertFlag(old(db.table), row, createFails, fault);
                db.table == TableAfterInsert(old(db.table), row, flag) &&
                db.tableExists == (old(db.tableExists) || !createFails) &&
                message == OutcomeMessage(flag) &&
                (flag == Inserted ==> isbn == "" && name == "" && writer == "" && genre == "") &&
                (flag != Inserted ==> isbn == old(isbn) && name == old(name) && writer == old(writer) && genre == old(genre))
      ensures forall k :: k in db.table && k !in old(db.table) ==>
                db.table[k].isbn != "" && db.table[k].name != "" && db.table[k].writer != "" && db.table[k].genre != ""
    {
      if EntryValid(isbn, name, writer, genre) {
        var book := new BookDTO();
        book.isbn := isbn;
        book.name := name;
        book.writer := writer;
        book.genre := genre;
        book := db.InsertBookToDb(book, createFails, fault);
        if book.storeFlag == Inserted {
          isbn, name, writer, genre := "", "", "", "";
          message := SavedMessage;
        } else if book.storeFlag == Duplicate {
          message := DuplicateMessage;
        } else {
          message := FailedMessage;
        }
      } else {
        message := IncompleteMessage;
      }
    }
  }

  /** The monitor screen: the four criteria fields and the result table's headings and rows. */
  class BookMonitor {
    var isbn: string
    var name: string
    var writer: string
    var genre: string
    var headings: seq<string>
    var shown: seq<seq<string>>

    /** The screen as first shown: empty fields and no result table. */
    constructor ()
      ensures isbn == "" && name == "" && writer == "" && genre == ""
      ensures headings == [] && shown == []
    {
      isbn, name, writer, genre := "", "", "", "";
      headings, shown := [], [];
    }

    /**
     * `search_book_record`: with at least one criterion, searches and shows the result. A
     * new, empty "Records found" frame covers any earlier table before the headings are read,
     * so when the search returns no records the screen shows neither headings nor rows (the
     * `IndexError` on the first record then ends the handler).
     */
    method SearchBookRecord(db: SQLHandler, scan: seq<string>, selects: (string, Row) -> bool, readError: bool)
      requires db.Valid() && IsScanOrder(scan, db.table)
      modifies this`headings, this`shown
      ensures !MonitorValid(isbn, name, writer, genre) ==> headings == old(headings) && shown == old(shown)
      ensures MonitorValid(isbn, name, writer, genre) ==>
                var r := SearchResult(db.tableExists, db.table, scan, Criteria(isbn, name, writer, genre), selects, readError);
                (r == [] ==> headings == [] && shown == []) &&
                (r != [] ==> headings == r[0] && shown == r[1..])
      ensures MonitorValid(isbn, name, writer, genre) && db.tableExists && !readError ==>
                headings == Header && |shown| <= |db.table|
    {
      if MonitorValid(isbn, name, writer, genre) {
        ghost var cs := Criteria(isbn, name, writer, genre);
        var criteria := new BookDTO();
        criteria.isbn := isbn;
        criteria.name := name;
        criteria.writer := writer;
        criteria.genre := genre;
        assert Criteria(criteria.isbn, criteria.name, criteria.writer, criteria.genre) == cs;
        var books := db.SearchBookOnDb(criteria, scan, selects, readError);
        assert Criteria(criteria.isbn, criteria.name, criteria.writer, criteria.genre) == cs;
        ghost var r := SearchResult(db.tableExists, db.table, scan, cs, selects, readError);
        SearchShape(db.tableExists, db.table, scan, cs, selects, readError);
        if |books| > 0 {
          headings, shown := ShowResults(books, r);
        } else {
          headings, shown := [], [];
        }
      }
    }

    /**
     * `show_book_records`: reads the first 500 rows and shows them; a failed read leaves an
     * empty frame, as in `SearchBookRecord`.
     */
    method ShowBookRecords(db: SQLHandler, scan: seq<string>, readError: bool)
      requires db.Valid() && IsScanOrder(scan, db.table)
      modifies this`headings, this`shown
      ensures var r := AllBooksResult(db.tableExists, db.table, scan, readError);
              (r == [] ==> headings == [] && shown == []) &&
              (r != [] ==> headings == r[0] && shown == r[1..])
      ensures db.tableExists && !readError ==> headings == Header && |shown| == Min(ReadLimit, |db.table|)
    {
      var books := db.GetAllBooks(scan, readError);
      ghost var r := AllBooksResult(db.tableExists, db.table, scan, readError);
      AllBooksShape(db.tableExists, db.table, scan, readError);
      if |books| > 0 {
        headings, shown := ShowResults(books, r);
      } else {
        headings, shown := [], [];
      }
    }
  }
}
