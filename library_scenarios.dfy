/**
 * The behaviour the catalog's unit tests check, derived from the method
 * contracts alone: each scenario starts from a freshly built catalog, and
 * the two delete helpers work on any valid catalog.
 */
module LibraryScenarios {
  import opened Wrappers
  import opened JavaText
  import opened Books
  import opened Transactions
  import opened CatalogSpec
  import opened LibraryCatalog

  /** A new catalog holds three books: the first one on the shelf and its identifier found by lookup. */
  method NewCatalog() returns (size: nat, first: Book, found: Book?)
    ensures size == 3
    ensures first.available && first.title == "The Great Gatsby"
    ensures found == first
  {
    var lib := new Library();
    DetailsOfThree(lib.Snapshot());
    size := |lib.books|;
    first := lib.books[0];
    StatesOfAt(lib.books, 0);
    found := lib.GetBookByID(first.bookID);
  }

  /** Borrow the first book twice, then return it twice: only the first of each succeeds. */
  method BorrowAndReturn(now: Timestamp)
    returns (borrowed: bool, borrowedAgain: bool, lentOut: bool, returned: bool, returnedAgain: bool, shelved: bool)
    ensures borrowed && !borrowedAgain && lentOut
    ensures returned && !returnedAgain && shelved
  {
    var lib := new Library();
    DetailsOfThree(lib.Snapshot());
    var book := lib.books[0];
    var id := book.bookID;
    StatesOfAt(lib.books, 0);
    assert IndexOfId(lib.Snapshot(), id) == Some(0);
    ghost var start := lib.Snapshot();
    borrowed := lib.BorrowBook("user1", id, now);
    StatesOfAt(lib.books, 0);
    lentOut := !book.available;
    BorrowTwiceFails(start, id);
    borrowedAgain := lib.BorrowBook("user2", id, now);
    returned := lib.ReturnBook("user1", id, now);
    StatesOfAt(lib.books, 0);
    BorrowThenReturnRestores(start, id);
    shelved := book.available;
    returnedAgain := lib.ReturnBook("user1", id, now);
  }

  /** deleteBookByID followed by getBookByID with the same identifier, on any catalog. */
  method DeleteAndLookUp(lib: Library, id: string) returns (found: Book?)
    requires lib.Valid()
    modifies lib`books
    ensures found == null
  {
    ghost var before := lib.Snapshot();
    lib.DeleteBookByID(id);
    ghost var after := lib.Snapshot();
    DeleteByIdSpec(before, id);
    assert IndexOfId(after, id).None?;
    found := lib.GetBookByID(id);
    assert lib.Snapshot() == after;
  }

  /** Deleting the first book by its identifier makes the lookup of that identifier fail. */
  method DeleteFirstById() returns (found: Book?)
    ensures found == null
  {
    var lib := new Library();
    DetailsOfThree(lib.Snapshot());
    found := DeleteAndLookUp(lib, lib.books[0].bookID);
  }

  /** Updating the title and the availability of the first book shows through the lookup. */
  method UpdateFirst() returns (updated: Book?)
    ensures updated != null && updated.title == "Updated Title" && !updated.available
  {
    var lib := new Library();
    DetailsOfThree(lib.Snapshot());
    var id := lib.books[0].bookID;
    StatesOfAt(lib.books, 0);
    ghost var start := lib.Snapshot();
    assert IndexOfId(start, id) == Some(0);
    lib.UpdateBook(id, map["title" := "Updated Title", "availability" := "false"]);
    UpdateTitleAndAvailability(start, id);
    UpdateTouchesOnlyFirstMatch(start, id, map["title" := "Updated Title", "availability" := "false"]);
    IndexOfIdSameIds(start, lib.Snapshot(), id);
    updated := lib.GetBookByID(id);
    StatesOfAt(lib.books, 0);
  }

  /** A file that cannot be opened adds no book and prints only the error. */
  method UnreadableFile(message: string) returns (size: nat, output: seq<string>)
    ensures size == 3
    ensures output == ["Error reading the file: " + message]
  {
    var lib := new Library();
    DetailsOfThree(lib.Snapshot());
    ghost var added;
    output, added := lib.LoadBooksFromFile([], Some(message));
    size := |lib.books|;
  }

  /** The sample books and any book added on the shelf are all available. */
  lemma SamplesAndAddedOnShelf(cat: Catalog, b: BookState)
    requires DetailsOf(cat) == SampleBooks && b.available
    ensures forall i :: 0 <= i < |cat + [b]| ==> (cat + [b])[i].available
  {
    DetailsOfThree(cat);
    forall i | 0 <= i < |cat| ensures cat[i].available {
      assert Details(cat[i]) == SampleBooks[i];
    }
  }

  /** After a book is added, the title search finds a book under its title. */
  method AddThenFind(title: string, author: string, genre: string) returns (found: Book?)
    ensures found != null && EqualsIgnoreCase(found.title, title) && found.available
  {
    var lib := new Library();
    ghost var start := lib.Snapshot();
    ghost var id := lib.AddBook(title, author, genre, true);
    ghost var cat := lib.Snapshot();
    SamplesAndAddedOnShelf(start, BookState(id, title, author, genre, true));
    assert cat[|cat| - 1].title == title;
    found := lib.SearchBookByTitle(title);
    StatesOfAt(lib.books, IndexOfTitle(cat, title).value);
  }

  /** deleteBook followed by searchBookByTitle with the same title, on any catalog. */
  method DeleteAndSearch(lib: Library, title: string) returns (found: Book?)
    requires lib.Valid()
    modifies lib`books
    ensures found == null
  {
    ghost var before := lib.Snapshot();
    lib.DeleteBook(title);
    ghost var after := lib.Snapshot();
    DeleteByTitleSpec(before, title);
    assert IndexOfTitle(after, title).None?;
    found := lib.SearchBookByTitle(title);
    assert lib.Snapshot() == after;
  }

  /** After a delete by title, the title search finds nothing under that title. */
  method DeleteThenFind(title: string) returns (found: Book?)
    ensures found == null
  {
    var lib := new Library();
    found := DeleteAndSearch(lib, title);
  }

  /** The title search finds the first sample book under its own title. */
  method FindGatsby() returns (found: Book?)
    ensures found != null && found.author == "F. Scott Fitzgerald"
  {
    var lib := new Library();
    DetailsOfThree(lib.Snapshot());
    StatesOfAt(lib.books, 0);
    found := lib.SearchBookByTitle("The Great Gatsby");
  }
}
