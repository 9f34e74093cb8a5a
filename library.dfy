/**
 * The in-memory catalog: the union of the two variants of the Library class.
 * The list of books and the transaction log are changed in place; each
 * method is specified by the CatalogSpec function it implements on the
 * catalog's snapshot, and says what happens to the log.
 */
module LibraryCatalog {
  import opened Wrappers
  import opened JavaText
  import opened Books
  import opened Transactions
  import opened CatalogSpec
  import opened BookLines

  /** The books every new catalog starts with, all on the shelf. */
  const SampleBooks: seq<BookDetails> := [
    BookDetails("The Great Gatsby", "F. Scott Fitzgerald", "Fiction", true),
    BookDetails("1984", "George Orwell", "Dystopian", true),
    BookDetails("Moby Dick", "Herman Melville", "Adventure", true)]

  /** Some string is longer than every string of a finite set: fresh identifiers never run out. */
  lemma {:induction false} LongerThanAll(used: set<string>) returns (w: string)
    ensures forall s :: s in used ==> |s| < |w|
  {
    if used == {} {
      w := "";
    } else {
      var x :| x in used;
      var shorter := LongerThanAll(used - {x});
      w := if |x| < |shorter| then shorter else x + "0";
    }
  }

  // Sequence facts, proved here in a small context so that the methods below need not.

  lemma AppendAssoc<T>(a: seq<T>, b: seq<T>, c: seq<T>)
    ensures a + b + c == a + (b + c)
  {
  }

  lemma TakeSnoc<T>(s: seq<T>, i: nat)
    requires i < |s|
    ensures s[..i + 1] == s[..i] + [s[i]]
  {
  }

  lemma TakeAll<T>(s: seq<T>)
    ensures s[..|s|] == s
  {
  }

  /** The states of a list of book objects, in list order. */
  function StatesOf(bs: seq<Book>): (r: Catalog)
    reads bs
    ensures |r| == |bs|
  {
    seq(|bs|, i reads bs requires 0 <= i < |bs| => bs[i].State())
  }

  lemma StatesOfAt(bs: seq<Book>, i: nat)
    requires i < |bs|
    ensures StatesOf(bs)[i] == bs[i].State()
  {
  }

  lemma StatesOfEach(bs: seq<Book>)
    ensures forall j :: 0 <= j < |bs| ==> StatesOf(bs)[j] == bs[j].State()
  {
  }

  /** The states of a list are determined position by position. */
  lemma StatesOfPointwise(bs: seq<Book>, cat: Catalog)
    requires |cat| == |bs|
    requires forall j :: 0 <= j < |bs| ==> cat[j] == bs[j].State()
    ensures StatesOf(bs) == cat
  {
  }

  class Library {
    var books: seq<Book>
    var transactions: seq<Transaction>
    /** Every identifier handed out so far, to books and to transactions. */
    var issued: set<string>

    /** getBooks, as a copy: the state of every book in catalog order. */
    function Snapshot(): Catalog
      reads this`books, books
    {
      StatesOf(books)
    }

    ghost predicate Valid()
      reads this, books
    {
      && UniqueIds(Snapshot())
      && (forall b :: b in books ==> b.bookID in issued)
      && (forall t :: t in transactions ==> t.transactionID in issued && IsCatalogKind(t.transactionType))
    }

    /** UUID.randomUUID: an identifier never handed out before. */
    method NewId() returns (id: string)
      modifies this`issued
      ensures id !in old(issued) && issued == old(issued) + {id}
    {
      ghost var longer := LongerThanAll(issued);
      assert longer !in issued;
      id :| id !in issued;
      issued := issued + {id};
    }

    /** The three sample books, all on the shelf, and an empty log. */
    constructor ()
      ensures Valid()
      ensures DetailsOf(Snapshot()) == SampleBooks
      ensures transactions == []
      ensures forall i :: 0 <= i < |books| ==> fresh(books[i])
    {
      books := [];
      transactions := [];
      issued := {};
      new;
      ghost var id0, id1, id2;
      id0 := AddBook("The Great Gatsby", "F. Scott Fitzgerald", "Fiction", true);
      id1 := AddBook("1984", "George Orwell", "Dystopian", true);
      id2 := AddBook("Moby Dick", "Herman Melville", "Adventure", true);
      DetailsOfThree(Snapshot());
    }

    /** Appends one new book with a fresh identifier. */
    method AddBook(title: string, author: string, genre: string, availability: bool) returns (ghost id: string)
      requires Valid()
      modifies this
      ensures Valid()
      ensures Snapshot() == old(Snapshot()) + [BookState(id, title, author, genre, availability)]
      ensures id !in old(issued) && issued == old(issued) + {id}
      ensures transactions == old(transactions)
      ensures |books| == |old(books)| + 1 && books[..|old(books)|] == old(books) && fresh(books[|old(books)|])
    {
      StatesOfEach(books);
      ghost var before := Snapshot();
      var bookID := NewId();
      id := bookID;
      var book := new Book(bookID, title, author, genre, availability);
      books := books + [book];
      assert books[..|old(books)|] == old(books);
      StatesOfPointwise(books, before + [book.State()]);
      forall i | 0 <= i < |before| ensures before[i].bookID != id {
        assert books[i] in old(books);
      }
    }

    /** The first book whose identifier equals `bookId` exactly, or null. */
    method GetBookByID(bookId: string) returns (book: Book?)
      ensures book == null <==> IndexOfId(Snapshot(), bookId).None?
      ensures book != null ==>
        IndexOfId(Snapshot(), bookId).value < |books| && book == books[IndexOfId(Snapshot(), bookId).value]
    {
      for i := 0 to |books|
        invariant forall j :: 0 <= j < i ==> Snapshot()[j].bookID != bookId
      {
        StatesOfAt(books, i);
        if books[i].bookID == bookId {
          return books[i];
        }
      }
      return null;
    }

    /** The first book whose title equals `title` ignoring case, or null. */
    method SearchBookByTitle(title: string) returns (book: Book?)
      ensures book == null <==> IndexOfTitle(Snapshot(), title).None?
      ensures book != null ==>
        IndexOfTitle(Snapshot(), title).value < |books| && book == books[IndexOfTitle(Snapshot(), title).value]
    {
      for i := 0 to |books|
        invariant forall j :: 0 <= j < i ==> !EqualsIgnoreCase(Snapshot()[j].title, title)
      {
        StatesOfAt(books, i);
        if EqualsIgnoreCase(books[i].title, title) {
          return books[i];
        }
      }
      return null;
    }

    /** The books that match the criterion, in catalog order; an unknown criterion matches nothing. */
    method SearchBooks(criteria: string, value: string) returns (results: seq<Book>)
      ensures StatesOf(results) == Search(Snapshot(), criteria, value)
      ensures forall b :: b in results ==> b in books
    {
      ghost var cat := Snapshot();
      StatesOfEach(books);
      ghost var found: Catalog := [];
      results := [];
      for i := 0 to |books|
        invariant found == Search(cat[..i], criteria, value)
        invariant |results| == |found|
        invariant forall j :: 0 <= j < |results| ==> results[j].State() == found[j]
        invariant forall b :: b in results ==> b in books
      {
        var book := books[i];
        var matches := false;
        if criteria == "title" {
          matches := Contains(ToLower(book.title), ToLower(value));
        } else if criteria == "author" {
          matches := Contains(ToLower(book.author), ToLower(value));
        } else if criteria == "genre" {
          matches := ToLower(book.genre) == ToLower(value);
        }
        TakeSnoc(cat, i);
        SearchSnoc(cat[..i], cat[i], criteria, value);
        if matches {
          results := results + [book];
          found := found + [cat[i]];
        }
      }
      TakeAll(cat);
      StatesOfPointwise(results, found);
    }

    /** The books removeIf keeps when deleting by title: those whose title differs ignoring case. */
    method KeptByTitle(title: string) returns (kept: seq<Book>)
      ensures StatesOf(kept) == WithoutTitle(Snapshot(), title)
      ensures forall b :: b in kept ==> b in books
    {
      ghost var cat := Snapshot();
      StatesOfEach(books);
      ghost var remaining: Catalog := [];
      kept := [];
      for i := 0 to |books|
        invariant remaining == WithoutTitle(cat[..i], title)
        invariant |kept| == |remaining|
        invariant forall j :: 0 <= j < |kept| ==> kept[j].State() == remaining[j]
        invariant forall b :: b in kept ==> b in books
      {
        var book := books[i];
        TakeSnoc(cat, i);
        WithoutTitleSnoc(cat[..i], cat[i], title);
        if !EqualsIgnoreCase(book.title, title) {
          kept := kept + [book];
          remaining := remaining + [cat[i]];
        }
      }
      TakeAll(cat);
      StatesOfPointwise(kept, remaining);
    }

    /** Removes every book whose title equals `title` ignoring case. */
    method DeleteBook(title: string)
      requires Valid()
      modifies this`books
      ensures Valid()
      ensures Snapshot() == WithoutTitle(old(Snapshot()), title)
      ensures transactions == old(transactions)
    {
      var kept := KeptByTitle(title);
      WithoutTitleKeepsUniqueIds(Snapshot(), title);
      books := kept;
    }

    /** The books removeIf keeps when deleting by identifier: those whose identifier differs. */
    method KeptById(bookID: string) returns (kept: seq<Book>)
      ensures StatesOf(kept) == WithoutId(Snapshot(), bookID)
      ensures forall b :: b in kept ==> b in books
    {
      ghost var cat := Snapshot();
      StatesOfEach(books);
      ghost var remaining: Catalog := [];
      kept := [];
      for i := 0 to |books|
        invariant remaining == WithoutId(cat[..i], bookID)
        invariant |kept| == |remaining|
        invariant forall j :: 0 <= j < |kept| ==> kept[j].State() == remaining[j]
        invariant forall b :: b in kept ==> b in books
      {
        var book := books[i];
        TakeSnoc(cat, i);
        WithoutIdSnoc(cat[..i], cat[i], bookID);
        if book.bookID != bookID {
          kept := kept + [book];
          remaining := remaining + [cat[i]];
        }
      }
      TakeAll(cat);
      StatesOfPointwise(kept, remaining);
    }

    /** Removes every book whose identifier equals `bookID` exactly. */
    method DeleteBookByID(bookID: string)
      requires Valid()
      modifies this`books
      ensures Valid()
      ensures Snapshot() == WithoutId(old(Snapshot()), bookID)
      ensures transactions == old(transactions)
    {
      var kept := KeptById(bookID);
      WithoutIdKeepsUniqueIds(Snapshot(), bookID);
      books := kept;
    }

    /** Distinct identifiers make distinct objects: changing one book changes no other entry. */
    lemma OthersAreDistinct(k: nat)
      requires Valid() && k < |books|
      ensures forall j :: 0 <= j < |books| && j != k ==> books[j] != books[k]
    {
      forall j | 0 <= j < |books| && j != k ensures books[j] != books[k] {
        StatesOfAt(books, j);
        StatesOfAt(books, k);
      }
    }

    /** The setters updateBook calls on the matching book, in the order it calls them. */
    static method SetDetails(book: Book, newDetails: map<string, string>)
      modifies book
      ensures book.State() == ApplyDetails(old(book.State()), newDetails)
    {
      if "title" in newDetails {
        book.SetTitle(newDetails["title"]);
      }
      if "author" in newDetails {
        book.SetAuthor(newDetails["author"]);
      }
      if "genre" in newDetails {
        book.SetGenre(newDetails["genre"]);
      }
      if "availability" in newDetails {
        book.SetAvailable(ParseBoolean(newDetails["availability"]));
      }
    }

    /** Applies the recognised keys of `newDetails` to the first book with the identifier, if any. */
    method UpdateBook(bookId: string, newDetails: map<string, string>)
      requires Valid()
      modifies books
      ensures Valid()
      ensures Snapshot() == UpdatedCatalog(old(Snapshot()), bookId, newDetails)
      ensures books == old(books) && transactions == old(transactions)
    {
      var book := GetBookByID(bookId);
      if book == null {
        return;
      }
      ghost var k := IndexOfId(Snapshot(), bookId).value;
      forall j | 0 <= j < |books| ensures Snapshot()[j] == books[j].State() {
        StatesOfAt(books, j);
      }
      OthersAreDistinct(k);
      SetDetails(book, newDetails);
      ghost var target := UpdatedCatalog(old(Snapshot()), bookId, newDetails);
      assert target == old(Snapshot())[k := ApplyDetails(old(Snapshot())[k], newDetails)];
      forall j | 0 <= j < |books| ensures target[j] == books[j].State() {
        if j != k {
          assert books[j] != book;
          assert unchanged(books[j]);
        }
      }
      StatesOfPointwise(books, target);
      UpdateTouchesOnlyFirstMatch(old(Snapshot()), bookId, newDetails);
    }

    /** setAvailable on the book getBookByID returned: the catalog changes as WithAvailability says. */
    method MarkAvailable(book: Book, bookId: string, available: bool)
      requires Valid() && IndexOfId(Snapshot(), bookId).Some?
      requires book == books[IndexOfId(Snapshot(), bookId).value]
      modifies book
      ensures Valid()
      ensures Snapshot() == WithAvailability(old(Snapshot()), bookId, available)
    {
      ghost var k := IndexOfId(Snapshot(), bookId).value;
      forall j | 0 <= j < |books| ensures Snapshot()[j] == books[j].State() {
        StatesOfAt(books, j);
      }
      OthersAreDistinct(k);
      book.SetAvailable(available);
      ghost var target := WithAvailability(old(Snapshot()), bookId, available);
      forall j | 0 <= j < |books| ensures target[j] == books[j].State() {
        if j != k {
          assert books[j] != book;
        }
      }
      StatesOfPointwise(books, target);
    }

    /** borrowBook: succeeds exactly when the book is on the shelf; logs a "borrow" entry and lends the book. */
    method BorrowBook(userId: string, bookId: string, now: Timestamp) returns (ok: bool)
      requires Valid()
      modifies this, books
      ensures Valid() && books == old(books)
      ensures ok <==> OnShelf(old(Snapshot()), bookId)
      ensures Snapshot() == if ok then WithAvailability(old(Snapshot()), bookId, false) else old(Snapshot())
      ensures ok ==> AppendedOne(old(transactions), transactions, userId, bookId, "borrow", now)
      ensures ok ==> transactions[|old(transactions)|].transactionID !in old(issued)
      ensures ok ==> issued == old(issued) + {transactions[|old(transactions)|].transactionID}
      ensures !ok ==> issued == old(issued)
      ensures !ok ==> transactions == old(transactions)
    {
      var book := GetBookByID(bookId);
      if book != null && book.available {
        StatesOfAt(books, IndexOfId(Snapshot(), bookId).value);
        var tid := NewId();
        transactions := transactions + [Transaction(tid, userId, bookId, "borrow", now)];
        MarkAvailable(book, bookId, false);
        return true;
      }
      if book != null {
        StatesOfAt(books, IndexOfId(Snapshot(), bookId).value);
      }
      return false;
    }

    /** returnBook: succeeds exactly when the book is lent out; logs a "return" entry and shelves the book. */
    method ReturnBook(userId: string, bookId: string, now: Timestamp) returns (ok: bool)
      requires Valid()
      modifies this, books
      ensures Valid() && books == old(books)
      ensures ok <==> OnLoan(old(Snapshot()), bookId)
      ensures Snapshot() == if ok then WithAvailability(old(Snapshot()), bookId, true) else old(Snapshot())
      ensures ok ==> AppendedOne(old(transactions), transactions, userId, bookId, "return", now)
      ensures ok ==> transactions[|old(transactions)|].transactionID !in old(issued)
      ensures ok ==> issued == old(issued) + {transactions[|old(transactions)|].transactionID}
      ensures !ok ==> issued == old(issued)
      ensures !ok ==> transactions == old(transactions)
    {
      var book := GetBookByID(bookId);
      if book != null && !book.available {
        StatesOfAt(books, IndexOfId(Snapshot(), bookId).value);
        var tid := NewId();
        transactions := transactions + [Transaction(tid, userId, bookId, "return", now)];
        MarkAvailable(book, bookId, true);
        return true;
      }
      if book != null {
        StatesOfAt(books, IndexOfId(Snapshot(), bookId).value);
      }
      return false;
    }

    /** renewBook: succeeds exactly when the book is lent out; logs a "renew" entry and changes no book. */
    method RenewBook(userId: string, bookId: string, now: Timestamp) returns (ok: bool)
      requires Valid()
      modifies this
      ensures Valid() && books == old(books) && Snapshot() == old(Snapshot())
      ensures ok <==> OnLoan(old(Snapshot()), bookId)
      ensures ok ==> AppendedOne(old(transactions), transactions, userId, bookId, "renew", now)
      ensures ok ==> transactions[|old(transactions)|].transactionID !in old(issued)
      ensures ok ==> issued == old(issued) + {transactions[|old(transactions)|].transactionID}
      ensures !ok ==> issued == old(issued)
      ensures !ok ==> transactions == old(transactions)
    {
      var book := GetBookByID(bookId);
      if book != null {
        StatesOfAt(books, IndexOfId(Snapshot(), bookId).value);
      }
      if book != null && !book.available {
        var tid := NewId();
        transactions := transactions + [Transaction(tid, userId, bookId, "renew", now)];
        return true;
      }
      return false;
    }

    /** The transaction log in order, one line per entry: its kind and its date. */
    method GenerateReport() returns (report: seq<ReportLine>)
      ensures |report| == |transactions|
      ensures forall i :: 0 <= i < |report| ==> report[i] == Line(transactions[i])
    {
      report := [];
      for i := 0 to |transactions|
        invariant |report| == i
        invariant forall j :: 0 <= j < i ==> report[j] == Line(transactions[j])
      {
        report := report + [Line(transactions[i])];
      }
    }

    /** The body of the read loop for one line: a book when the line has four fields, a warning otherwise. */
    method LoadLine(line: string) returns (warnings: seq<string>, ghost added: Catalog)
      requires Valid()
      modifies this
      ensures Valid()
      ensures Snapshot() == old(Snapshot()) + added
      ensures DetailsOf(added) == LineBooks(line)
      ensures transactions == old(transactions)
      ensures old(issued) <= issued
      ensures warnings == LineWarnings(line)
    {
      match ParseLine(line) {
        case Some(d) =>
          ghost var id := AddBook(d.title, d.author, d.genre, d.available);
          added := [BookState(id, d.title, d.author, d.genre, d.available)];
          DetailsOfOne(added[0]);
          warnings := [];
        case None =>
          added := [];
          warnings := ["Invalid book data: " + line];
      }
    }

    /**
     * loadBooksFromFile, given the lines read before the end of the file or
     * the read error: every four-field line appends a book, every other line
     * adds a warning, and a closing message follows.
     */
    method LoadBooksFromFile(lines: seq<string>, readError: Option<string>)
      returns (output: seq<string>, ghost added: Catalog)
      requires Valid()
      modifies this
      ensures Valid()
      ensures Snapshot() == old(Snapshot()) + added
      ensures DetailsOf(added) == LoadedBooks(lines)
      ensures transactions == old(transactions)
      ensures old(issued) <= issued
      ensures output == RejectionMessages(lines) + [ClosingMessage(readError)]
    {
      ghost var start := Snapshot();
      output, added := [], [];
      for i := 0 to |lines|
        invariant Valid()
        invariant Snapshot() == start + added
        invariant DetailsOf(added) == LoadedBooks(lines[..i])
        invariant transactions == old(transactions)
        invariant old(issued) <= issued
        invariant output == RejectionMessages(lines[..i])
      {
        LoadOneMore(lines, i);
        var warnings, more := LoadLine(lines[i]);
        output := output + warnings;
        AppendAssoc(start, added, more);
        DetailsOfConcat(added, more);
        added := added + more;
      }
      TakeAll(lines);
      assert start == old(Snapshot());
      output := output + [ClosingMessage(readError)];
    }
  }
}
