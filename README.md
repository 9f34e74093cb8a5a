# Library catalog model

A Dafny model of the in-memory catalog of a small library management system. The repository holds two near-duplicate `Library` classes. One catalog class, `LibraryCatalog.Library`, covers the union of their operations:

- from `Library.java`: add, delete by title, update, borrow, return, renew, search by criterion, lookup by identifier and the transaction report;
- from `src/Library.java`: the bulk load from a comma-separated file, delete by identifier and the title lookup.

The model also covers the `Book` object with its setters, the immutable `Transaction` record, and the `User` authentication and authorization checks (both copies of `User` behave identically).

How the model is laid out:

- The catalog keeps its books as a `seq<Book>` of heap objects and its log as a `seq<Transaction>`. Both are changed in place by class methods, as in the source.
- Each catalog method is proved against a specification function over the catalog's snapshot, `Snapshot()`, which holds the state of every book in list order. These functions live in `CatalogSpec`: `WithoutTitle`, `WithoutId`, `UpdatedCatalog`, `WithAvailability`, `Search`, `IndexOfId` and `IndexOfTitle`.
- The promises of the source are proved as lemmas about those functions.
- The loop methods carry the invariants that tie the partial result to the specification of the prefix scanned so far.
- The class invariant `Valid()` states three things: book identifiers are distinct; every identifier in use was handed out by the identifier supply; every log entry is a "borrow", "return" or "renew".

Supporting modules:

- `JavaText`: the `String` operations the code relies on, namely `toLowerCase`, `equalsIgnoreCase`, `contains`, `trim`, `split(",")` and `Boolean.parseBoolean`.
- `BookLines`: the per-line parse of the bulk load and its fold over the lines of a file.
- `LibraryScenarios`: the situations the repository's unit tests exercise (`src/LibraryTest.java`), derived from the method contracts alone, on a freshly built catalog or, for the two delete helpers, on any valid one.

## Model

| member | source | states |
|---|---|---|
| Books.Book.constructor | Book.java:8-14 | every getter reports the value passed to the constructor |
| Books.Book.State | Book.java:17-39 | the getters, together: identifier, title, author, genre and availability as the object holds them |
| Books.Book.SetTitle | Book.java:25-27 | only the title changes; identifier, author, genre and availability keep their values |
| Books.Book.SetAuthor | Library.java:35-37 | the setter updateBook calls: only the author changes |
| Books.Book.SetGenre | Library.java:38-40 | the setter updateBook calls: only the genre changes |
| Books.Book.SetAvailable | Book.java:41-43 | only the availability flag changes |
| JavaText.EqualsIgnoreCase | Library.java:26 | equalsIgnoreCase: both strings agree after the ASCII fold; `ParseBooleanIsEqualsIgnoreCase` relates it to parseBoolean |
| JavaText.ToLower | Library.java:85 | the ASCII fold keeps the length of the string |
| JavaText.ToLowerAt | Library.java:85 | toLowerCase folds each character in place |
| JavaText.Contains | Library.java:85 | contains: the second string occurs in the first at some position, the empty string everywhere; `ContainsSpec` is its partner |
| JavaText.ContainsSpec | Library.java:85 | contains holds exactly when the value occurs in the field at some position |
| JavaText.Trim | src/Library.java:38-41 | trim: the blank prefix, then the blank suffix are removed; `TrimStartSpec`, `TrimEndSpec` and `TrimOfTrimmed` state what remains |
| JavaText.TrimStartSpec | src/Library.java:38-41 | trim removes exactly the longest prefix of characters up to the space |
| JavaText.TrimEndSpec | src/Library.java:38-41 | trim removes exactly the longest suffix of characters up to the space |
| JavaText.TrimOfTrimmed | src/Library.java:38-41 | a field without surrounding blanks is left as it is by trim |
| JavaText.SplitAll | src/Library.java:36 | the pieces between commas, empty ones included; there is always at least one |
| JavaText.DropTrailingEmpty | src/Library.java:36 | split never produces more pieces than there are |
| JavaText.DropTrailingEmptySpec | src/Library.java:36 | split drops exactly the empty pieces at the end and keeps every piece before the last non-empty one |
| JavaText.Split | src/Library.java:36 | split(","): a comma-free line is one piece; otherwise the pieces between commas with the empty pieces at the end dropped; `SplitFourFields` is its round trip |
| JavaText.SplitAllNoComma | src/Library.java:36 | a line without a comma splits into itself |
| JavaText.SplitAllCons | src/Library.java:36 | a comma-free first field comes off the front of the split unchanged |
| JavaText.ParseBoolean | src/Library.java:41 | parseBoolean: true exactly for the text "true" in any case, false for everything else including "" |
| JavaText.ParseBooleanIsEqualsIgnoreCase | src/Library.java:41 | parseBoolean is true exactly when the text equals "true" ignoring case |
| JavaText.ParseBooleanExamples | src/Library.java:41 | "true", "TRUE" and "True" parse to true; "false", "yes" and "" parse to false |
| BookLines.ParseLine | src/Library.java:36-45 | a line is a book exactly when it splits into four pieces: the trimmed title, author and genre and the parsed availability; any other count is rejected; `ParseFourFields` and `ParseFormatRoundTrip` are its partners |
| BookLines.ClosingMessage | src/Library.java:47-49 | the load ends with "Books loaded successfully." or with "Error reading the file: " and the failure message; `UnreadableFile` uses it |
| BookLines.SplitFourFields | src/Library.java:36-37 | four comma-free fields joined by commas split back into exactly those four fields |
| BookLines.ParseFourFields | src/Library.java:36-42 | a four-field line is accepted and yields the trimmed title, author and genre and the parsed availability |
| BookLines.ParseRejectsEmptyLastField | src/Library.java:36-44 | a line whose last field is empty has three fields after the split and is rejected |
| BookLines.ParseFormatRoundTrip | src/Library.java:36-42 | a book with comma-free, trimmed fields, written as a line and parsed back, is the same book |
| BookLines.ParseKeepsEmptyMiddleField | src/Library.java:36-42 | "a,b,,true" keeps its empty middle field and loads a book |
| BookLines.ParseRejectsTrailingComma | src/Library.java:36-44 | "a,b,c," is rejected |
| BookLines.ParseOtherTextIsFalse | src/Library.java:36-42 | for any four comma-free fields whose last is not empty and does not parse as true, the line is accepted with the trimmed fields and availability false, not rejected |
| BookLines.ParseYesIsFalse | src/Library.java:41-42 | "A,B,C,yes" loads book A, B, C as not available |
| BookLines.ParseRejectsSingleField | src/Library.java:43-44 | a line without a comma is rejected |
| BookLines.AcceptedLine | src/Library.java:37-42 | a well-formed line contributes its book and no warning |
| BookLines.RejectedLine | src/Library.java:43-44 | a comma-free line contributes no book and one warning that echoes the line |
| BookLines.FlatMapConcat | src/Library.java:35-46 | what a sequence of lines contributes is the concatenation of what its parts contribute |
| BookLines.LoadConcat | src/Library.java:35-46 | lines are loaded independently: books and warnings of a file are those of its parts, in order |
| BookLines.LoadSingle | src/Library.java:35-46 | a one-line file loads exactly what that line gives |
| BookLines.LoadThree | src/Library.java:35-46 | a three-line file loads the lines' books and warnings in file order |
| BookLines.LoadTwoOfThree | src/Library.java:35-46 | a bad line between two good ones: both good books load, in order, and one warning is printed; loading continues past the bad line |
| CatalogSpec.DetailsOf | src/Library.java:113-115 | the attribute view of a catalog has one entry per book |
| CatalogSpec.DetailsOfConcat | src/Library.java:52-54 | the attribute view of appended books is appended to the view of the catalog |
| CatalogSpec.DetailsOfOne | src/Library.java:52-54 | one added book shows as its own attributes |
| CatalogSpec.DetailsOfThree | src/Library.java:23-30 | the attribute view of a three-book catalog, position by position |
| CatalogSpec.OnShelf | Library.java:51-52 | borrowBook may proceed: a book has the identifier and the first one is available |
| CatalogSpec.OnLoan | Library.java:61-62 | returnBook and renewBook may proceed: a book has the identifier and the first one is lent out; `ShelfAndLoanExclusive` relates the two |
| CatalogSpec.WithAvailability | Library.java:54 | setAvailable on the first book with the identifier and on no other; an unknown identifier changes nothing; `WithAvailabilityKeepsIds` and `BorrowThenReturnRestores` are its partners |
| CatalogSpec.IndexOfId | Library.java:101-108 | getBookByID finds the first book whose identifier is equal, and finds none exactly when no book has it |
| CatalogSpec.IndexOfTitle | src/Library.java:117-124 | searchBookByTitle finds the first book whose title is equal ignoring case, and finds none exactly when no title is |
| CatalogSpec.IndexOfIdSameIds | Library.java:101-108 | the lookup by identifier depends on the identifiers alone, so flag and field changes do not move it |
| CatalogSpec.Filter | Library.java:25-27 | removeIf keeps at most as many books as there were |
| CatalogSpec.FilterMembers | Library.java:25-27 | a book is kept exactly when it was in the list and is not removed |
| CatalogSpec.FilterIsSubsequence | Library.java:25-27 | the kept books keep their relative order |
| CatalogSpec.FilterKeepsNone | Library.java:80-98 | when nothing qualifies the result is empty |
| CatalogSpec.FilterKeepsAll | Library.java:25-27 | when nothing is removed the list is unchanged |
| CatalogSpec.FilterKeepsUniqueIds | src/Library.java:56-62 | removing books keeps identifiers distinct |
| CatalogSpec.WithAvailabilityKeepsIds | Library.java:50-68 | borrowing and returning change no identifier and no position |
| CatalogSpec.BorrowThenReturnRestores | src/Library.java:64-82 | after a successful borrow the book is lent out, and returning it restores the catalog exactly |
| CatalogSpec.BorrowTwiceFails | src/Library.java:64-72 | a second borrow of a lent book fails, while a renewal of it succeeds |
| CatalogSpec.ReturnTwiceFails | src/Library.java:74-82 | after a return the book is on the shelf, so a second return fails |
| CatalogSpec.ShelfAndLoanExclusive | Library.java:50-77 | borrow and return never both succeed; one of them succeeds exactly when the book exists |
| CatalogSpec.ApplyDetails | Library.java:32-43 | the setter calls in key order: title, author and genre take the map's text, availability its parseBoolean; `ApplyDetailsFields` is its partner |
| CatalogSpec.UpdatedCatalog | Library.java:29-47 | updateBook changes only the first book with the identifier, as `ApplyDetails` says, and nothing for an unknown one; `UpdateTouchesOnlyFirstMatch` is its partner |
| CatalogSpec.ApplyDetailsFields | Library.java:29-47 | each field is replaced exactly when its key is present; availability goes through parseBoolean; the identifier never changes |
| CatalogSpec.ApplyDetailsIgnoresOtherKeys | Library.java:29-47 | keys other than title, author, genre and availability change nothing |
| CatalogSpec.UpdateTouchesOnlyFirstMatch | Library.java:29-47 | updateBook touches only the first book with the identifier, keeps every identifier, and changes nothing for an unknown identifier |
| CatalogSpec.UpdateWithNoDetailsIsNoOp | Library.java:29-47 | an empty map changes nothing |
| CatalogSpec.UpdateTitleAndAvailability | src/Library.java:84-102 | title "Updated Title" and availability "false" set that title and clear the flag, leaving author and genre as they were |
| CatalogSpec.WithoutTitle | Library.java:25-27 | deleteBook as removeIf: keeps the books whose title differs ignoring case; `DeleteByTitleSpec` is its partner |
| CatalogSpec.WithoutId | src/Library.java:60-62 | deleteBookByID as removeIf: keeps the books whose identifier differs; `DeleteByIdSpec` is its partner |
| CatalogSpec.WithoutTitleKeepsUniqueIds | Library.java:25-27 | deleting by title keeps identifiers distinct |
| CatalogSpec.WithoutIdKeepsUniqueIds | src/Library.java:60-62 | deleting by identifier keeps identifiers distinct |
| CatalogSpec.DeleteByTitleSpec | Library.java:25-27 | deleteBook keeps exactly the books whose title differs ignoring case, in their order; afterwards no title matches; nothing changes when nothing matches |
| CatalogSpec.DeleteByIdSpec | src/Library.java:60-62 | deleteBookByID keeps exactly the books with another identifier, in their order; afterwards the lookup finds nothing; nothing changes when nothing matches |
| CatalogSpec.Matches | Library.java:83-95 | the switch: title and author match by lower-cased substring, genre by lower-cased equality, any other criterion never |
| CatalogSpec.Search | Library.java:80-98 | searchBooks keeps, in order, the books `Matches` selects; `SearchSpec` is its partner |
| CatalogSpec.SearchSpec | Library.java:80-98 | searchBooks returns, in catalog order, exactly the books that match; an unknown criterion returns nothing |
| CatalogSpec.SearchTitleIsSubstring | Library.java:84-85 | every book whose lower-cased title contains the lower-cased value is found by a title search |
| CatalogSpec.FictionMatchesFiction | Library.java:90-91 | genre "Fiction" matches the value "fiction" |
| CatalogSpec.DystopianMissesFiction | Library.java:90-91 | genre "Dystopian" does not match the value "fiction" |
| CatalogSpec.SearchGenreIgnoresCase | Library.java:90-91 | a genre search for "fiction" over Fiction, Dystopian, Fiction returns the first and the third, in order |
| Transactions.Line | Library.java:113-116 | a report line holds the entry's kind and date |
| LibraryCatalog.LongerThanAll | Library.java:22 | some identifier is always unused: randomUUID never runs out |
| LibraryCatalog.Library.Snapshot | Library.java:120-122 | getBooks seen as values: the state of each book in list order |
| LibraryCatalog.StatesOf | Library.java:120-122 | getBooks seen as values: one state per book object |
| LibraryCatalog.Library.NewId | Library.java:22 | randomUUID returns an identifier never handed out before, and records it |
| LibraryCatalog.Library.constructor | src/Library.java:23-30 | a new catalog holds the three sample books, all available, under distinct identifiers, and an empty log |
| LibraryCatalog.Library.AddBook | Library.java:21-23 | appends exactly one book with the given attributes and a fresh identifier; existing books keep their states and order; the log is unchanged |
| LibraryCatalog.Library.GetBookByID | src/Library.java:104-111 | returns the first book whose identifier is equal, or null exactly when there is none |
| LibraryCatalog.Library.SearchBookByTitle | src/Library.java:117-124 | returns the first book whose title is equal ignoring case, or null exactly when there is none |
| LibraryCatalog.Library.SearchBooks | Library.java:80-98 | the books returned are, in catalog order, exactly those `Search` selects |
| LibraryCatalog.Library.KeptByTitle | Library.java:26 | the books removeIf keeps are those whose title differs ignoring case, in order |
| LibraryCatalog.Library.DeleteBook | Library.java:25-27 | the catalog becomes `WithoutTitle` of what it was; identifiers stay distinct; the log is untouched |
| LibraryCatalog.Library.KeptById | src/Library.java:61 | the books removeIf keeps are those whose identifier differs, in order |
| LibraryCatalog.Library.DeleteBookByID | src/Library.java:60-62 | the catalog becomes `WithoutId` of what it was; identifiers stay distinct; the log is untouched |
| LibraryCatalog.Library.OthersAreDistinct | Library.java:30-31 | distinct identifiers make distinct objects, so a setter on one book changes no other |
| LibraryCatalog.Library.SetDetails | Library.java:32-43 | the setter calls leave the book as `ApplyDetails` says |
| LibraryCatalog.Library.UpdateBook | Library.java:29-47 | the catalog becomes `UpdatedCatalog` of what it was; the list and the log are untouched |
| LibraryCatalog.Library.MarkAvailable | Library.java:54 | setAvailable on the book found by identifier changes the catalog as `WithAvailability` says |
| LibraryCatalog.Library.BorrowBook | Library.java:50-58 | succeeds exactly when the book exists and is available; then the book is lent out and exactly one "borrow" entry with a fresh identifier is appended; otherwise nothing changes |
| LibraryCatalog.Library.ReturnBook | Library.java:60-68 | succeeds exactly when the book exists and is lent out; then the book is available again and exactly one "return" entry is appended; otherwise nothing changes |
| LibraryCatalog.Library.RenewBook | Library.java:70-77 | succeeds exactly when the book exists and is lent out; then exactly one "renew" entry is appended; no book ever changes |
| LibraryCatalog.Library.GenerateReport | Library.java:111-117 | one report line per log entry, in log order, with its kind and date; nothing changes |
| LibraryCatalog.Library.LoadLine | src/Library.java:36-45 | one line adds the book `LineBooks` gives, or prints the warning `LineWarnings` gives |
| LibraryCatalog.Library.LoadBooksFromFile | src/Library.java:32-51 | the books the good lines describe are appended in file order; the bad lines' warnings follow in order, then the success message or the read error; books already read stay after a read error; the log is untouched |
| LibraryScenarios.NewCatalog | src/LibraryTest.java:106-117 | a new catalog has three books; the first is available and found by its own identifier |
| LibraryScenarios.BorrowAndReturn | src/LibraryTest.java:45-75 | first borrow succeeds and clears the flag, a second borrow fails, the return succeeds and sets the flag, a second return fails |
| LibraryScenarios.DeleteAndLookUp | src/Library.java:60-62 | on any catalog, after deleteBookByID(id) getBookByID(id) returns null |
| LibraryScenarios.DeleteFirstById | src/LibraryTest.java:37-43 | after deleting the first book by its identifier the lookup returns null |
| LibraryScenarios.UpdateFirst | src/LibraryTest.java:77-91 | after the update the lookup returns the book with title "Updated Title", not available |
| LibraryScenarios.UnreadableFile | src/LibraryTest.java:93-97 | an unreadable file leaves three books and prints only the error |
| LibraryScenarios.AddThenFind | src/LibraryTest.java:21-28 | after adding an available book the title search finds an available book under that title |
| LibraryScenarios.DeleteAndSearch | src/Library.java:56-58 | on any catalog, after deleteBook(t) the title search for t returns null |
| LibraryScenarios.DeleteThenFind | src/LibraryTest.java:30-35 | on a new catalog, after deleting by a title the title search returns null |
| LibraryScenarios.FindGatsby | src/LibraryTest.java:99-104 | searching "The Great Gatsby" in a new catalog finds the book by F. Scott Fitzgerald |
| Users.AuthenticateUser | User.java:36-38 | authentication holds exactly when both name and password are equal, case-sensitively |
| Users.AuthorizeUser | User.java:41-46 | authorized exactly when the role is "admin", or the role is "librarian" and the task is not "deleteUser" |
| Users.AuthenticateIgnoresIdAndRole | src/User.java:27-29 | the identifier and the role play no part in authentication |
| Users.AdminMayDoAnything | User.java:42 | role "admin" is authorized for every task |
| Users.LibrarianDeniedOnlyDeleteUser | src/User.java:33 | role "librarian" is authorized for every task except exactly "deleteUser" |
| Users.OtherRolesDenied | User.java:42-45 | any other role is denied every task |
| Users.CaseMatters | User.java:36-45 | "Admin" is denied, "DeleteUser" is allowed to a librarian, and the name comparison is case-sensitive |

## Left out

- File reading: `LoadBooksFromFile` takes the lines read before the end of the file or the failure, plus the failure message if there was one. Opening and reading the file is outside the model.
- Printing: the warnings and the closing message of the load are returned as a sequence of strings. The report is returned as a sequence of lines. The "Generating Report..." header and the text layout of the lines are not modelled.
- `UUID.randomUUID`: modelled as a choice of a string that was never handed out before (`NewId`). Randomness is not modelled.
- `LocalDateTime.now`: the date of a transaction is a `now` parameter of borrow, return and renew. The `Transaction` datatype is immutable, so the date, like every other field, never changes after construction. The getters are the datatype's fields.
- Case folding and trimming are ASCII-only: `toLowerCase` and `equalsIgnoreCase` fold `A`-`Z` alone, not the full Unicode case mapping. `trim` removes every character up to the space.
- `String.split` is modelled only for the literal comma separator that the load uses, not for general regular expressions.
- `getBooks` returns the live list in the source. The model exposes it as the value snapshot `Snapshot()`, so aliasing through the returned list is not modelled.
- `Book.java` has no `setAuthor` or `setGenre`, although both `updateBook` variants call them. The model adds both with the same "only this field changes" contract as `setTitle`.
- `src/Library.java` imports `java.awt.print.Book`. The model uses the repository's own `Book` class instead.
- LibraryCatalog.Library.AddBook: the fresh identifier is reported as a ghost result, since `addBook` returns nothing.
- LibraryCatalog.Library.KeptByTitle, KeptById, SetDetails, MarkAvailable and LoadLine are pieces of `deleteBook`, `deleteBookByID`, `updateBook`, borrow/return and the load loop, cut out as separate methods. Each piece does what the corresponding lines do.
- LibraryScenarios.DeleteThenFind: the unit test adds the book "Delete Me" before deleting it; the scenario deletes from the new catalog directly, and `DeleteAndSearch` covers any catalog, one with that book included.
- LibraryScenarios.AddThenFind: does not state that the book found has the author given. A sample book whose title equals the new one ignoring case would be found first, so that needs the new title to differ from the three sample titles, which the model does not prove here.
- The rule "available exactly when an unreturned borrow exists" is not an invariant of the model, because the code does not keep it. `addBook`, `updateBook` and the load all set the flag without a log entry.
- `LibraryGUI.java`, `Main.java`, `src/com/example/Main.java`, `DatabaseConnector.java` and `TestDBConnection.java` are not part of this model. They are user interface, console menus and database plumbing.
