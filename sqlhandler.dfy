/**
 * The data-access layer (sqlhandler.py) over an abstract `books` table.
 *
 * The MySQL table is a map from primary key (`book_ISBN`) to row, together with
 * whether the table exists. What the store does that the program cannot see is an
 * oracle parameter: whether a statement fails for reasons outside the model, the
 * order in which a `SELECT` scans the table, and which rows a `WHERE` keeps.
 */
module SqlHandler {
  import opened Strings
  import opened BookRecord

  datatype Option<T> = None | Some(value: T)

  /** One stored row, columns in declaration order. */
  datatype Row = Row(isbn: string, name: string, writer: string, genre: string)

  /** Column names of the `books` table; `SELECT *` reports them, and they become the header record. */
  const IsbnColumn := "book_ISBN"
  const NameColumn := "book_name"
  const WriterColumn := "book_writer"
  const GenreColumn := "book_genre"
  const Header: seq<string> := [IsbnColumn, NameColumn, WriterColumn, GenreColumn]

  /** Declared widths: `book_ISBN VARCHAR(20)`, the other three `VARCHAR(100)`. */
  const IsbnWidth := 20
  const TextWidth := 100

  /** `LIMIT 0,500` of the read-all statement. */
  const ReadLimit := 500

  /** MySQL error numbers: duplicate primary key, and a value wider than its column even after trailing spaces are cut (strict mode). */
  const ErrDupEntry := 1062
  const ErrDataTooLong := 1406

  /** The fixed start of every search statement. */
  const SearchPrefix := "SELECT * FROM books WHERE "

  function Min(a: int, b: int): int
  {
    if a <= b then a else b
  }

  // ---------------------------------------------------------------- rows and the table

  predicate FitsColumns(r: Row)
  {
    |r.isbn| <= IsbnWidth && |r.name| <= TextWidth && |r.writer| <= TextWidth && |r.genre| <= TextWidth
  }

  /** Every row sits under its own primary key and fits its declared columns. */
  ghost predicate WellFormed(table: map<string, Row>)
  {
    forall k :: k in table ==> table[k].isbn == k && FitsColumns(table[k])
  }

  /** Only spaces follow position `width` of `v`. */
  predicate SpacesFrom(v: string, width: nat)
  {
    forall i :: width <= i < |v| ==> v[i] == ' '
  }

  /**
   * The value a `VARCHAR(width)` column receives. In every SQL mode MySQL cuts trailing spaces
   * beyond the width with a note, not an error; any other excess is left for the width test.
   */
  function Cut(v: string, width: nat): (r: string)
    ensures r <= v && SpacesFrom(v, |r|)
    ensures r == v || |r| == width
    ensures |r| <= width <==> |v| <= width || SpacesFrom(v, width)
    ensures |v| > 0 && width > 0 ==> |r| > 0
  {
    if |v| > width && SpacesFrom(v, width) then v[..width] else v
  }

  /** The row the store writes for four bound values: each cut to its column's width. */
  function StoredRow(row: Row): (s: Row)
    ensures s.isbn == Cut(row.isbn, IsbnWidth) && s.name == Cut(row.name, TextWidth)
    ensures s.writer == Cut(row.writer, TextWidth) && s.genre == Cut(row.genre, TextWidth)
    ensures FitsColumns(row) ==> s == row
  {
    Row(Cut(row.isbn, IsbnWidth), Cut(row.name, TextWidth), Cut(row.writer, TextWidth), Cut(row.genre, TextWidth))
  }

  /** A row as the driver hands it back: the four column values in order. */
  function RowToList(r: Row): seq<string>
  {
    [r.isbn, r.name, r.writer, r.genre]
  }

  /** The row that `VALUES (%s, %s, %s, %s)` builds from four bound parameters. */
  function RowFromParams(params: seq<string>): Row
    requires |params| == 4
  {
    Row(params[0], params[1], params[2], params[3])
  }

  lemma RowListRoundTrip(r: Row, params: seq<string>)
    requires |params| == 4
    ensures RowFromParams(RowToList(r)) == r
    ensures RowToList(RowFromParams(params)) == params
  {
  }

  /** The row inserted for a record: its `get_as_list` bound in column order, so each field lands in its own column. */
  function RowOf(b: BookDTO): (r: Row)
    reads b
    ensures r.isbn == b.isbn && r.name == b.name && r.writer == b.writer && r.genre == b.genre
    ensures RowToList(r) == b.AsList()
  {
    RowFromParams(b.AsList())
  }

  function RowLists(rows: seq<Row>): (r: seq<seq<string>>)
    ensures |r| == |rows| && forall i :: 0 <= i < |r| ==> |r[i]| == 4 && r[i] == RowToList(rows[i])
  {
    seq(|rows|, i requires 0 <= i < |rows| => RowToList(rows[i]))
  }

  // ---------------------------------------------------------------- insert

  /** What the `INSERT` statement does: run, or fail with a MySQL error number. */
  datatype Status = Executed | Failed(errno: int)

  /**
   * The store's answer to the insert. `fault` is an error the store raises for reasons
   * outside the model (lost connection, lock timeout, ...). Otherwise the values are cut
   * (`StoredRow`); one still wider than its column is refused, and then a key already present
   * is refused as a duplicate.
   */
  function InsertStatement(table: map<string, Row>, row: Row, fault: Option<int>): (s: Status)
    ensures s == Executed ==> fault == None && FitsColumns(StoredRow(row)) && StoredRow(row).isbn !in table
    ensures fault == None && !FitsColumns(StoredRow(row)) ==> s == Failed(ErrDataTooLong)
    ensures fault == None && FitsColumns(StoredRow(row)) ==> (s == Executed <==> StoredRow(row).isbn !in table)
  {
    var stored := StoredRow(row);
    if fault.Some? then Failed(fault.value)
    else if !FitsColumns(stored) then Failed(ErrDataTooLong)
    else if stored.isbn in table then Failed(ErrDupEntry)
    else Executed
  }

  /** The flag `insert_book_to_db` leaves on a record whose flag was `New`. */
  function InsertFlag(table: map<string, Row>, row: Row, createFails: bool, fault: Option<int>): (flag: string)
    requires fault != Some(ErrDupEntry)
    ensures flag == Inserted || flag == Duplicate || flag == InsertFailed || flag == CreateFailed
    ensures flag == CreateFailed <==> createFails
    ensures flag == Inserted <==>
              !createFails && fault == None && FitsColumns(StoredRow(row)) && StoredRow(row).isbn !in table
    ensures flag == Duplicate <==>
              !createFails && fault == None && FitsColumns(StoredRow(row)) && StoredRow(row).isbn in table
  {
    if createFails then CreateFailed
    else match InsertStatement(table, row, fault)
      case Executed => Inserted
      case Failed(errno) => if errno == ErrDupEntry then Duplicate else InsertFailed
  }

  /** The table after an insert attempt that ended with `flag`. */
  function TableAfterInsert(table: map<string, Row>, row: Row, flag: string): map<string, Row>
  {
    if flag == Inserted then table[StoredRow(row).isbn := StoredRow(row)] else table
  }

  /** Only a successful insert changes the table; it adds exactly the new (cut) row and leaves every other row as it was. */
  lemma InsertChangesOnlyNewKey(table: map<string, Row>, row: Row, createFails: bool, fault: Option<int>)
    requires fault != Some(ErrDupEntry)
    ensures var flag := InsertFlag(table, row, createFails, fault);
            var after := TableAfterInsert(table, row, flag);
            (flag != Inserted ==> after == table) &&
            (flag == Inserted ==>
               var stored := StoredRow(row);
               stored.isbn !in table && after.Keys == table.Keys + {stored.isbn} && after[stored.isbn] == stored &&
               |after| == |table| + 1 &&
               forall k :: k in table ==> after[k] == table[k])
  {
  }

  /** Every insert outcome keeps the table keyed by ISBN and within its column widths. */
  lemma InsertKeepsWellFormed(table: map<string, Row>, row: Row, createFails: bool, fault: Option<int>)
    requires fault != Some(ErrDupEntry)
    requires WellFormed(table)
    ensures WellFormed(TableAfterInsert(table, row, InsertFlag(table, row, createFails, fault)))
  {
  }

  /**
   * Inserting a second record under an ISBN that the first insert stored reports a
   * duplicate, and the stored row keeps the first record's values.
   */
  lemma SecondInsertIsDuplicate(table: map<string, Row>, first: Row, second: Row)
    requires InsertFlag(table, first, false, None) == Inserted
    requires StoredRow(second).isbn == StoredRow(first).isbn && FitsColumns(StoredRow(second))
    ensures var t1 := TableAfterInsert(table, first, Inserted);
            InsertFlag(t1, second, false, None) == Duplicate &&
            TableAfterInsert(t1, second, Duplicate) == t1 && t1[StoredRow(first).isbn] == StoredRow(first)
  {
  }

  /**
   * An ISBN one trailing space over its width is stored cut to its 20 characters; one extra
   * character of any other kind makes the insert fail.
   */
  lemma TrailingSpaceCut()
    ensures var spaced := Row("12345678901234567890 ", "n", "w", "g");
            InsertFlag(map[], spaced, false, None) == Inserted &&
            TableAfterInsert(map[], spaced, Inserted) == map["12345678901234567890" := Row("12345678901234567890", "n", "w", "g")]
    ensures InsertFlag(map[], Row("123456789012345678901", "n", "w", "g"), false, None) == InsertFailed
  {
    var v := "12345678901234567890 ";
    assert SpacesFrom(v, IsbnWidth) && v[..IsbnWidth] == "12345678901234567890";
    assert !SpacesFrom("123456789012345678901", IsbnWidth) by {
      assert "123456789012345678901"[20] == '1';
    }
  }

  /** Flags outside the five known ones never arise from a known one. */
  lemma InsertFlagKnown(table: map<string, Row>, row: Row, createFails: bool, fault: Option<int>)
    requires fault != Some(ErrDupEntry)
    ensures KnownFlag(InsertFlag(table, row, createFails, fault))
  {
  }

  // ---------------------------------------------------------------- reads

  /** `scan` is the order in which the store visits the table: every key exactly once. */
  ghost predicate IsScanOrder(scan: seq<string>, table: map<string, Row>)
  {
    (forall i, j :: 0 <= i < j < |scan| ==> scan[i] != scan[j]) &&
    (forall i :: 0 <= i < |scan| ==> scan[i] in table) &&
    (forall k :: k in table ==> k in scan)
  }

  lemma {:induction false} ScanLength(scan: seq<string>, table: map<string, Row>)
    requires IsScanOrder(scan, table)
    ensures |scan| == |table|
  {
    if scan == [] {
      assert table == map[];
    } else {
      var rest := table - {scan[0]};
      assert IsScanOrder(scan[1..], rest) by {
        forall k | k in rest ensures k in scan[1..] {
          assert k in scan && k != scan[0];
        }
      }
      ScanLength(scan[1..], rest);
      assert table.Keys == rest.Keys + {scan[0]};
    }
  }

  function ScanRows(scan: seq<string>, table: map<string, Row>): (rows: seq<Row>)
    requires forall i :: 0 <= i < |scan| ==> scan[i] in table
    ensures |rows| == |scan| && forall i :: 0 <= i < |rows| ==> rows[i] == table[scan[i]]
  {
    seq(|scan|, i requires 0 <= i < |scan| => table[scan[i]])
  }

  /** The rows of `rows` that the store keeps for statement `query`, in their order. */
  function Select(rows: seq<Row>, query: string, selects: (string, Row) -> bool): (r: seq<Row>)
    ensures |r| <= |rows|
    ensures forall x :: x in r ==> x in rows && selects(query, x)
    ensures forall x :: x in rows && selects(query, x) ==> x in r
  {
    if rows == [] then []
    else (if selects(query, rows[0]) then [rows[0]] else []) + Select(rows[1..], query, selects)
  }

  /** The lists of the records `get_all_books` returns: none when the statement fails, else the header and the first 500 rows of the scan. */
  function AllBooksResult(tableExists: bool, table: map<string, Row>, scan: seq<string>, readError: bool): (r: seq<seq<string>>)
    requires IsScanOrder(scan, table)
    ensures r == [] <==> !tableExists || readError
    ensures forall i :: 0 <= i < |r| ==> |r[i]| == 4
  {
    if !tableExists || readError then []
    else [Header] + RowLists(ScanRows(scan[..Min(ReadLimit, |scan|)], table))
  }

  /** The lists of the rows a duplicate-free scan visits: each the stored row under its own ISBN, none twice. */
  lemma ScannedListsStored(visited: seq<string>, table: map<string, Row>)
    requires WellFormed(table) && Distinct(visited) && forall i :: 0 <= i < |visited| ==> visited[i] in table
    ensures var ls := RowLists(ScanRows(visited, table));
            (forall l :: l in ls ==> l[0] in table && l == RowToList(table[l[0]])) && Distinct(ls)
  {
    var rows := ScanRows(visited, table);
    var ls := RowLists(rows);
    forall l | l in ls ensures l[0] in table && l == RowToList(table[l[0]]) {
      var i :| 0 <= i < |ls| && ls[i] == l;
      assert ls[i] == RowToList(rows[i]) && rows[i] == table[visited[i]];
    }
    forall i, j | 0 <= i < j < |ls| ensures ls[i] != ls[j] {
      assert ls[i][0] == visited[i] && ls[j][0] == visited[j];
    }
  }

  /**
   * `get_all_books` yields the empty list exactly when the statement fails; otherwise the
   * header followed by min(500, number of stored rows) rows.
   */
  lemma AllBooksShape(tableExists: bool, table: map<string, Row>, scan: seq<string>, readError: bool)
    requires WellFormed(table) && IsScanOrder(scan, table)
    ensures var r := AllBooksResult(tableExists, table, scan, readError);
            (r == [] <==> !tableExists || readError) &&
            (r != [] ==> r[0] == Header && |r| - 1 == Min(ReadLimit, |table|))
  {
    ScanLength(scan, table);
  }

  /** Each row `get_all_books` returns after the header is a stored row's four columns, and none comes twice. */
  lemma AllBooksRowsStored(tableExists: bool, table: map<string, Row>, scan: seq<string>, readError: bool)
    requires WellFormed(table) && IsScanOrder(scan, table)
    ensures var r := AllBooksResult(tableExists, table, scan, readError);
            r != [] ==>
              (forall l :: l in r[1..] ==> l[0] in table && l == RowToList(table[l[0]])) && Distinct(r[1..])
  {
    var r := AllBooksResult(tableExists, table, scan, readError);
    if r != [] {
      var visited := scan[..Min(ReadLimit, |scan|)];
      assert Distinct(visited) && forall i :: 0 <= i < |visited| ==> visited[i] in table by {
        forall i | 0 <= i < |visited| ensures visited[i] == scan[i] && visited[i] in table {}
      }
      ScannedListsStored(visited, table);
      assert r[1..] == RowLists(ScanRows(visited, table));
    }
  }

  /** A row of a table of at most 500 rows is among those `get_all_books` returns. */
  lemma StoredRowIsListed(table: map<string, Row>, scan: seq<string>, k: string)
    requires WellFormed(table) && IsScanOrder(scan, table)
    requires k in table && |table| <= ReadLimit
    ensures RowToList(table[k]) in AllBooksResult(true, table, scan, false)[1..]
  {
    ScanLength(scan, table);
    var j :| 0 <= j < |scan| && scan[j] == k;
    var r := AllBooksResult(true, table, scan, false);
    assert r[1..][j] == RowToList(table[k]);
  }

  // ---------------------------------------------------------------- search

  /** One search field: its column, the value typed, and whether the builder quotes it. */
  datatype Criterion = Criterion(column: string, value: string, quoted: bool)

  /** The four fields in the fixed order ISBN, name, writer, genre; only the ISBN goes unquoted. */
  function Criteria(isbn: string, name: string, writer: string, genre: string): seq<Criterion>
  {
    [Criterion(IsbnColumn, isbn, false), Criterion(NameColumn, name, true),
     Criterion(WriterColumn, writer, true), Criterion(GenreColumn, genre, true)]
  }

  /** The `column = value` comparison of one criterion, with the value spliced into the text. */
  function Clause(c: Criterion): string
  {
    if c.quoted then c.column + " = \"" + c.value + "\"" else c.column + " = " + c.value
  }

  /** The clause of a criterion, or none when its value is empty. */
  function OptionalClause(c: Criterion): (r: seq<string>)
    ensures |r| == (if c.value != "" then 1 else 0)
  {
    if c.value != "" then [Clause(c)] else []
  }

  /** One clause per criterion with a non-empty value, in the criteria's order. */
  function Clauses(cs: seq<Criterion>): seq<string>
  {
    if cs == [] then [] else Clauses(cs[..|cs| - 1]) + OptionalClause(cs[|cs| - 1])
  }

  /** How many of the four search fields are non-empty. */
  function NonEmptyCount(isbn: string, name: string, writer: string, genre: string): nat
  {
    (if isbn != "" then 1 else 0) + (if name != "" then 1 else 0) +
    (if writer != "" then 1 else 0) + (if genre != "" then 1 else 0)
  }

  /** The search statement: the prefix, then one clause per given field joined by " AND ". */
  function SearchStatement(cs: seq<Criterion>): string
  {
    SearchPrefix + Join(Clauses(cs), " AND ")
  }

  /** One clause per non-empty field, so `criteria_count` clauses; with none given, the statement ends at "WHERE ". */
  lemma ClauseCount(isbn: string, name: string, writer: string, genre: string)
    ensures |Clauses(Criteria(isbn, name, writer, genre))| == NonEmptyCount(isbn, name, writer, genre)
    ensures NonEmptyCount(isbn, name, writer, genre) == 0 ==> SearchStatement(Criteria(isbn, name, writer, genre)) == SearchPrefix
  {
    ClausesOfCriteria(isbn, name, writer, genre);
  }

  /** With n > 0 clauses the statement is the prefix, the clauses and n - 1 separators " AND ". */
  lemma SearchStatementLength(cs: seq<Criterion>)
    requires Clauses(cs) != []
    ensures |SearchStatement(cs)| == |SearchPrefix| + TotalLength(Clauses(cs)) + (|Clauses(cs)| - 1) * |" AND "|
  {
    JoinLength(Clauses(cs), " AND ");
  }

  /** The statement built for ISBN "123456" and genre "Fiction": the ISBN bare, the genre in double quotes. */
  lemma SearchStatementExample()
    ensures SearchStatement(Criteria("123456", "", "", "Fiction")) ==
            "SELECT * FROM books WHERE " + "book_ISBN = 123456" + " AND " + "book_genre = \"Fiction\""
  {
    var cs := Criteria("123456", "", "", "Fiction");
    ClausesOfCriteria("123456", "", "", "Fiction");
    assert Clause(cs[0]) == "book_ISBN = 123456";
    assert Clause(cs[3]) == "book_genre = \"Fiction\"";
    var parts := [Clause(cs[0]), Clause(cs[3])];
    assert Clauses(cs) == parts;
    assert parts[1..] == [Clause(cs[3])];
    assert Join(parts, " AND ") == "book_ISBN = 123456" + " AND " + "book_genre = \"Fiction\"";
  }

  /**
   * The search statement as `search_book_on_db` grows it: a clause per non-empty field in the
   * order ISBN, name, writer, genre, " AND " before every clause but the first, and
   * `criteriaCount` counting the clauses.
   */
  method BuildSearchQuery(criteria: BookDTO) returns (query: string, criteriaCount: nat)
    ensures query == SearchStatement(Criteria(criteria.isbn, criteria.name, criteria.writer, criteria.genre))
    ensures criteriaCount == NonEmptyCount(criteria.isbn, criteria.name, criteria.writer, criteria.genre)
  {
    var isbn, name, writer, genre := criteria.isbn, criteria.name, criteria.writer, criteria.genre;
    ghost var cs := Criteria(isbn, name, writer, genre);
    assert Clause(cs[0]) == IsbnColumn + " = " + isbn;
    assert Clause(cs[1]) == NameColumn + " = \"" + name + "\"";
    assert Clause(cs[2]) == WriterColumn + " = \"" + writer + "\"";
    assert Clause(cs[3]) == GenreColumn + " = \"" + genre + "\"";
    ghost var clauses: seq<string> := [];
    criteriaCount := 0;
    query := SearchPrefix;
    if isbn != "" {
      JoinExtend(SearchPrefix, clauses, " AND ", Clause(cs[0]));
      query := query + (IsbnColumn + " = " + isbn);
      clauses := clauses + [Clause(cs[0])];
      criteriaCount := criteriaCount + 1;
    }
    ghost var step := OptionalClause(cs[0]);
    assert query == SearchPrefix + Join(clauses, " AND ") && criteriaCount == |clauses| && clauses == step;
    if name != "" {
      JoinExtend(SearchPrefix, clauses, " AND ", Clause(cs[1]));
      if criteriaCount > 0 {
        query := query + " AND ";
      }
      query := query + (NameColumn + " = \"" + name + "\"");
      clauses := clauses + [Clause(cs[1])];
      criteriaCount := criteriaCount + 1;
    }
    step := step + OptionalClause(cs[1]);
    assert query == SearchPrefix + Join(clauses, " AND ") && criteriaCount == |clauses| && clauses == step;
    if writer != "" {
      JoinExtend(SearchPrefix, clauses, " AND ", Clause(cs[2]));
      if criteriaCount > 0 {
        query := query + " AND ";
      }
      query := query + (WriterColumn + " = \"" + writer + "\"");
      clauses := clauses + [Clause(cs[2])];
      criteriaCount := criteriaCount + 1;
    }
    step := step + OptionalClause(cs[2]);
    assert query == SearchPrefix + Join(clauses, " AND ") && criteriaCount == |clauses| && clauses == step;
    if genre != "" {
      JoinExtend(SearchPrefix, clauses, " AND ", Clause(cs[3]));
      if criteriaCount > 0 {
        query := query + " AND ";
      }
      query := query + (GenreColumn + " = \"" + genre + "\"");
      clauses := clauses + [Clause(cs[3])];
      criteriaCount := criteriaCount + 1;
    }
    step := step + OptionalClause(cs[3]);
    assert query == SearchPrefix + Join(clauses, " AND ") && criteriaCount == |clauses| && clauses == step;
    ClausesOfCriteria(isbn, name, writer, genre);
    ClauseCount(isbn, name, writer, genre);
  }

  /** The clauses of the four criteria are their optional clauses in order. */
  lemma ClausesOfCriteria(isbn: string, name: string, writer: string, genre: string)
    ensures var cs := Criteria(isbn, name, writer, genre);
            Clauses(cs) == OptionalClause(cs[0]) + OptionalClause(cs[1]) + OptionalClause(cs[2]) + OptionalClause(cs[3])
  {
    var cs := Criteria(isbn, name, writer, genre);
    var c3, c2, c1 := cs[..3], cs[..2], cs[..1];
    assert c3[..2] == c2 && c2[..1] == c1 && c1[..0] == [];
    assert c3[2] == cs[2] && c2[1] == cs[1] && c1[0] == cs[0];
    assert Clauses(c1) == OptionalClause(cs[0]);
    assert Clauses(c2) == Clauses(c1) + OptionalClause(cs[1]);
    assert Clauses(c3) == Clauses(c2) + OptionalClause(cs[2]);
  }

  /**
   * The lists of the records `search_book_on_db` returns. The statement fails when no field is
   * given (it ends at "WHERE "), when the table is missing, or for an error outside the model;
   * otherwise the header and, in scan order, every row the store keeps for this statement.
   */
  function SearchResult(tableExists: bool, table: map<string, Row>, scan: seq<string>, cs: seq<Criterion>,
                        selects: (string, Row) -> bool, readError: bool): (r: seq<seq<string>>)
    requires IsScanOrder(scan, table)
    ensures forall i :: 0 <= i < |r| ==> |r[i]| == 4
  {
    var query := SearchStatement(cs);
    if Clauses(cs) == [] || !tableExists || readError then []
    else [Header] + RowLists(Select(ScanRows(scan, table), query, selects))
  }

  /**
   * A search yields the empty list exactly when its statement fails; otherwise the header
   * followed by no more rows than the table holds.
   */
  lemma SearchShape(tableExists: bool, table: map<string, Row>, scan: seq<string>, cs: seq<Criterion>,
                    selects: (string, Row) -> bool, readError: bool)
    requires IsScanOrder(scan, table)
    ensures var r := SearchResult(tableExists, table, scan, cs, selects, readError);
            (r == [] <==> Clauses(cs) == [] || !tableExists || readError) &&
            (r != [] ==> r[0] == Header && |r| - 1 <= |table|)
  {
    ScanLength(scan, table);
  }

  /**
   * Each row a search returns is the stored row under its own ISBN and one the store keeps for
   * the built statement; every stored row the store keeps is returned; and no row comes twice.
   */
  lemma SearchRowsSelected(tableExists: bool, table: map<string, Row>, scan: seq<string>, cs: seq<Criterion>,
                           selects: (string, Row) -> bool, readError: bool)
    requires WellFormed(table) && IsScanOrder(scan, table)
    ensures var r := SearchResult(tableExists, table, scan, cs, selects, readError);
            r != [] ==>
              (forall l :: l in r[1..] ==>
                 l[0] in table && l == RowToList(table[l[0]]) && selects(SearchStatement(cs), table[l[0]])) &&
              (forall k :: k in table && selects(SearchStatement(cs), table[k]) ==> RowToList(table[k]) in r[1..]) &&
              Distinct(r[1..])
  {
    var r := SearchResult(tableExists, table, scan, cs, selects, readError);
    if r != [] {
      var query := SearchStatement(cs);
      assert r[1..] == RowLists(Select(ScanRows(scan, table), query, selects));
      KeptListsSelected(table, scan, query, selects);
    }
  }

  /** The lists of the rows the store keeps: each a selected stored row under its own ISBN, every selected one, none twice. */
  lemma KeptListsSelected(table: map<string, Row>, scan: seq<string>, query: string, selects: (string, Row) -> bool)
    requires WellFormed(table) && IsScanOrder(scan, table)
    ensures var ls := RowLists(Select(ScanRows(scan, table), query, selects));
            (forall l :: l in ls ==> l[0] in table && l == RowToList(table[l[0]]) && selects(query, table[l[0]])) &&
            (forall k :: k in table && selects(query, table[k]) ==> RowToList(table[k]) in ls) &&
            Distinct(ls)
  {
    var rows := ScanRows(scan, table);
    var kept := Select(rows, query, selects);
    var ls := RowLists(kept);
    KeptRowsStored(table, scan, query, selects);
    ScanRowsDistinct(scan, table);
    SelectKeepsDistinct(rows, query, selects);
    forall l | l in ls ensures l[0] in table && l == RowToList(table[l[0]]) && selects(query, table[l[0]]) {
      var i :| 0 <= i < |kept| && RowToList(kept[i]) == l;
      assert kept[i] in kept;
    }
    forall k | k in table && selects(query, table[k]) ensures RowToList(table[k]) in ls {
      var m :| 0 <= m < |kept| && kept[m] == table[k];
      assert ls[m] == RowToList(table[k]);
    }
    forall i, j | 0 <= i < j < |ls| ensures ls[i] != ls[j] {
      assert ls[i] == RowToList(kept[i]) && ls[j] == RowToList(kept[j]);
    }
  }

  /** A scan visits each key once and rows sit under their own ISBN, so the scanned rows are distinct. */
  lemma ScanRowsDistinct(scan: seq<string>, table: map<string, Row>)
    requires WellFormed(table) && IsScanOrder(scan, table)
    ensures Distinct(ScanRows(scan, table))
  {
    var rows := ScanRows(scan, table);
    forall i, j | 0 <= i < j < |rows| ensures rows[i] != rows[j] {
      assert rows[i].isbn == scan[i] && rows[j].isbn == scan[j];
    }
  }

  /** No element occurs twice. */
  predicate Distinct<T(==)>(xs: seq<T>)
  {
    forall i, j :: 0 <= i < j < |xs| ==> xs[i] != xs[j]
  }

  /** Keeping some rows of a duplicate-free sequence leaves it duplicate-free. */
  lemma {:induction false} SelectKeepsDistinct(rows: seq<Row>, query: string, selects: (string, Row) -> bool)
    requires Distinct(rows)
    ensures Distinct(Select(rows, query, selects))
  {
    if rows != [] {
      var rest := Select(rows[1..], query, selects);
      SelectKeepsDistinct(rows[1..], query, selects);
      assert rows[0] !in rows[1..];
      var r := Select(rows, query, selects);
      if selects(query, rows[0]) {
        assert r == [rows[0]] + rest;
        forall i, j | 0 <= i < j < |r| ensures r[i] != r[j] {
          if i == 0 {
            assert r[j] == rest[j - 1] && rest[j - 1] in rest;
          } else {
            assert r[i] == rest[i - 1] && r[j] == rest[j - 1];
          }
        }
      } else {
        assert r == rest;
      }
    }
  }

  /** A duplicate-free sequence has as many distinct elements as it is long. */
  lemma {:induction false} DistinctCount<T>(xs: seq<T>)
    requires Distinct(xs)
    ensures |set x | x in xs| == |xs|
  {
    if xs != [] {
      DistinctCount(xs[1..]);
      assert (set x | x in xs) == (set x | x in xs[1..]) + {xs[0]};
      assert xs[0] !in xs[1..];
    }
  }

  /** Every row the store keeps is the stored row under its own ISBN, and every selected stored row is kept. */
  lemma KeptRowsStored(table: map<string, Row>, scan: seq<string>, query: string, selects: (string, Row) -> bool)
    requires WellFormed(table) && IsScanOrder(scan, table)
    ensures var kept := Select(ScanRows(scan, table), query, selects);
            (forall i :: 0 <= i < |kept| ==> kept[i].isbn in table && table[kept[i].isbn] == kept[i]) &&
            (forall k :: k in table && selects(query, table[k]) ==> table[k] in kept)
  {
    var rows := ScanRows(scan, table);
    var kept := Select(rows, query, selects);
    forall i | 0 <= i < |kept| ensures kept[i].isbn in table && table[kept[i].isbn] == kept[i] {
      assert kept[i] in rows;
      var j :| 0 <= j < |rows| && rows[j] == kept[i];
      assert rows[j] == table[scan[j]];
    }
    forall k | k in table && selects(query, table[k]) ensures table[k] in kept {
      var j :| 0 <= j < |scan| && scan[j] == k;
      assert rows[j] == table[k];
    }
  }

  /** The ISBNs of some rows, in order. */
  function Isbns(rows: seq<Row>): (ks: seq<string>)
    ensures |ks| == |rows| && forall i :: 0 <= i < |rows| ==> ks[i] == rows[i].isbn
  {
    seq(|rows|, i requires 0 <= i < |rows| => rows[i].isbn)
  }

  /** The ISBNs of the kept rows are duplicate-free, and they are exactly the stored ISBNs whose rows the store selects. */
  lemma KeptIsbns(table: map<string, Row>, scan: seq<string>, query: string, selects: (string, Row) -> bool)
    requires WellFormed(table) && IsScanOrder(scan, table)
    ensures var keys := Isbns(Select(ScanRows(scan, table), query, selects));
            Distinct(keys) && (set x | x in keys) == (set k | k in table && selects(query, table[k]))
  {
    var rows := ScanRows(scan, table);
    var kept := Select(rows, query, selects);
    ScanRowsDistinct(scan, table);
    SelectKeepsDistinct(rows, query, selects);
    KeptRowsStored(table, scan, query, selects);
    var keys := Isbns(kept);
    forall i, j | 0 <= i < j < |keys| ensures keys[i] != keys[j] {
      assert table[keys[i]] == kept[i] && table[keys[j]] == kept[j];
    }
    var matching := set k | k in table && selects(query, table[k]);
    forall k | k in matching ensures k in keys {
      var m :| 0 <= m < |kept| && kept[m] == table[k];
      assert keys[m] == k;
    }
    forall k | k in keys ensures k in matching {
      var m :| 0 <= m < |keys| && keys[m] == k;
      assert table[k] == kept[m] && kept[m] in kept;
    }
  }

  /** The store keeps one scanned row per stored ISBN whose row it selects. */
  lemma SelectedKeyCount(table: map<string, Row>, scan: seq<string>, query: string, selects: (string, Row) -> bool)
    requires WellFormed(table) && IsScanOrder(scan, table)
    ensures |Select(ScanRows(scan, table), query, selects)| == |set k | k in table && selects(query, table[k])|
  {
    KeptIsbns(table, scan, query, selects);
    DistinctCount(Isbns(Select(ScanRows(scan, table), query, selects)));
  }

  /** A search returns exactly one row for each stored ISBN whose row the store selects. */
  lemma SearchRowCount(tableExists: bool, table: map<string, Row>, scan: seq<string>, cs: seq<Criterion>,
                       selects: (string, Row) -> bool, readError: bool)
    requires WellFormed(table) && IsScanOrder(scan, table)
    ensures var r := SearchResult(tableExists, table, scan, cs, selects, readError);
            r != [] ==> |r| - 1 == |set k | k in table && selects(SearchStatement(cs), table[k])|
  {
    SelectedKeyCount(table, scan, SearchStatement(cs), selects);
  }

  // ---------------------------------------------------------------- records from rows

  /** The loop both read methods run: one fresh record per list, fields taken by position. */
  method ToBooks(records: seq<seq<string>>) returns (books: seq<BookDTO>)
    requires forall i :: 0 <= i < |records| ==> |records[i]| == 4
    ensures Describes(books, records)
    ensures forall i :: 0 <= i < |books| ==> fresh(books[i]) && books[i].storeFlag == New
  {
    books := [];
    for i := 0 to |records|
      invariant Describes(books, records[..i])
      invariant forall j :: 0 <= j < |books| ==> fresh(books[j]) && books[j].storeFlag == New
    {
      var row := records[i];
      var book := new BookDTO();
      book.isbn, book.name, book.writer, book.genre := row[0], row[1], row[2], row[3];
      assert book.AsList() == row;
      books := books + [book];
    }
  }

  // ---------------------------------------------------------------- the handler

  /** The database behind one connection: whether `books` exists, and its rows. */
  class SQLHandler {
    var tableExists: bool
    var table: map<string, Row>

    ghost predicate Valid()
      reads this
    {
      (!tableExists ==> table == map[]) && WellFormed(table)
    }

    constructor (tableExists: bool, table: map<string, Row>)
      requires !tableExists ==> table == map[]
      requires WellFormed(table)
      ensures Valid() && this.tableExists == tableExists && this.table == table
    {
      this.tableExists := tableExists;
      this.table := table;
    }

    /**
     * `create_book_table`: `CREATE TABLE IF NOT EXISTS`. It succeeds unless the store rejects
     * the statement, and never touches the rows, so on an existing table it changes nothing.
     */
    method CreateBookTable(createFails: bool) returns (ok: bool)
      requires Valid()
      modifies this`tableExists
      ensures Valid()
      ensures ok == !createFails
      ensures tableExists == (old(tableExists) || ok)
      ensures table == old(table)
    {
      if createFails {
        ok := false;
      } else {
        tableExists := true;
        ok := true;
      }
    }

    /**
     * `insert_book_to_db`: acts only on a record flagged `New`. It ensures the table, runs the
     * insert and maps the store's answer to the flag; the record is updated in place and returned.
     */
    method InsertBookToDb(book: BookDTO, createFails: bool, fault: Option<int>) returns (r: BookDTO)
      requires Valid()
      requires fault != Some(ErrDupEntry)
      modifies this, book
      ensures Valid() && r == book
      ensures book.isbn == old(book.isbn) && book.name == old(book.name)
      ensures book.writer == old(book.writer) && book.genre == old(book.genre)
      ensures KnownFlag(old(book.storeFlag)) ==> KnownFlag(book.storeFlag)
      ensures old(book.storeFlag) != New ==>
                book.storeFlag == old(book.storeFlag) && table == old(table) && tableExists == old(tableExists)
      ensures old(book.storeFlag) == New ==>
                book.storeFlag == InsertFlag(old(table), RowOf(book), createFails, fault) &&
                table == TableAfterInsert(old(table), RowOf(book), book.storeFlag) &&
                tableExists == (old(tableExists) || !createFails)
    {
      if book.storeFlag == New {
        var created := CreateBookTable(createFails);
        if created {
          var row := RowFromParams(book.AsList());
          match InsertStatement(table, row, fault)
          case Executed =>
            var stored := StoredRow(row);
            table := table[stored.isbn := stored];
            book.storeFlag := Inserted;
          case Failed(errno) =>
            if errno == ErrDupEntry {
              book.storeFlag := Duplicate;
            } else {
              book.storeFlag := InsertFailed;
            }
        } else {
          book.storeFlag := CreateFailed;
        }
      }
      r := book;
    }

    /** `get_all_books`: `SELECT * FROM books LIMIT 0,500`, the header record first. */
    method GetAllBooks(scan: seq<string>, readError: bool) returns (books: seq<BookDTO>)
      requires Valid() && IsScanOrder(scan, table)
      ensures Describes(books, AllBooksResult(tableExists, table, scan, readError))
      ensures forall i :: 0 <= i < |books| ==> fresh(books[i]) && books[i].storeFlag == New
    {
      if !tableExists || readError {
        return [];
      }
      var records := [Header] + RowLists(ScanRows(scan[..Min(ReadLimit, |scan|)], table));
      books := ToBooks(records);
    }

    /** `search_book_on_db`: builds the statement from `criteria`, runs it, the header record first. */
    method SearchBookOnDb(criteria: BookDTO, scan: seq<string>, selects: (string, Row) -> bool, readError: bool)
      returns (books: seq<BookDTO>)
      requires Valid() && IsScanOrder(scan, table)
      ensures Describes(books, SearchResult(tableExists, table, scan,
                                            Criteria(criteria.isbn, criteria.name, criteria.writer, criteria.genre),
                                            selects, readError))
      ensures forall i :: 0 <= i < |books| ==> fresh(books[i]) && books[i].storeFlag == New
    {
      var cs := Criteria(criteria.isbn, criteria.name, criteria.writer, criteria.genre);
      var query, criteriaCount := BuildSearchQuery(criteria);
      ClauseCount(criteria.isbn, criteria.name, criteria.writer, criteria.genre);
      if criteriaCount == 0 || !tableExists || readError {
        return [];
      }
      var records := [Header] + RowLists(Select(ScanRows(scan, table), query, selects));
      books := ToBooks(records);
    }
  }
}
