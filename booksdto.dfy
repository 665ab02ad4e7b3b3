/** The record that carries one book between the screens and the store (booksdto.py). */
module BookRecord {
  import opened Strings

  /** Values of `store_flag`. A fresh record is `New`; the insert sets one of the other four. */
  const New := "new"
  const Inserted := "inserted"
  const Duplicate := "duplicate"
  const InsertFailed := "insert failed"
  const CreateFailed := "create failed"

  /** The five flags the program itself ever sets. */
  predicate KnownFlag(flag: string)
  {
    flag == New || flag == Inserted || flag == Duplicate || flag == InsertFailed || flag == CreateFailed
  }

  class BookDTO {
    var isbn: string
    var name: string
    var writer: string
    var genre: string
    /** Outcome of the last store attempt; callers overwrite it in place. */
    var storeFlag: string

    constructor ()
      ensures isbn == "" && name == "" && writer == "" && genre == ""
      ensures storeFlag == New
    {
      isbn, name, writer, genre := "", "", "", "";
      storeFlag := New;
    }

    /** `get_as_list`: the four fields in column order. `str` of a string is the string itself. */
    function AsList(): (l: seq<string>)
      reads this
      ensures |l| == 4 && l[0] == isbn && l[1] == name && l[2] == writer && l[3] == genre
    {
      [isbn, name, writer, genre]
    }

    /** `__str__`: the `AsList` elements joined by ", ". */
    function ToString(): (s: string)
      reads this
      ensures s == isbn + ", " + name + ", " + writer + ", " + genre
      ensures |s| == |isbn| + |name| + |writer| + |genre| + 6
    {
      var parts := AsList();
      assert Join(parts[1..][1..][1..], ", ") == genre;
      assert Join(parts[1..][1..], ", ") == writer + ", " + genre;
      assert Join(parts[1..], ", ") == name + ", " + writer + ", " + genre;
      Join(parts, ", ")
    }
  }

  /** The records in `books` show, one by one, exactly the four-string lists in `lists`. */
  ghost predicate Describes(books: seq<BookDTO>, lists: seq<seq<string>>)
    reads books
  {
    |books| == |lists| && forall i :: 0 <= i < |books| ==> books[i].AsList() == lists[i]
  }
}
