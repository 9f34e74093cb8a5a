/**
 * The catalog as a value: the list of books in catalog order, as their
 * getters report them. Every operation of the Library class is specified
 * here as a function of this list, and its promises are proved as lemmas.
 */
module CatalogSpec {
  import opened Wrappers
  import opened JavaText
  import opened Books

  type Catalog = seq<BookState>

  /** The attributes of every book, in catalog order. */
  function DetailsOf(cat: Catalog): (r: seq<BookDetails>)
    ensures |r| == |cat|
  {
    if cat == [] then [] else DetailsOf(cat[..|cat| - 1]) + [Details(cat[|cat| - 1])]
  }

  lemma {:induction false} DetailsOfConcat(a: Catalog, b: Catalog)
    ensures DetailsOf(a + b) == DetailsOf(a) + DetailsOf(b)
  {
    if b == [] {
      assert a + b == a;
    } else {
      DetailsOfConcat(a, b[..|b| - 1]);
      assert (a + b)[..|a + b| - 1] == a + b[..|b| - 1];
    }
  }

  lemma DetailsOfOne(b: BookState)
    ensures DetailsOf([b]) == [Details(b)]
  {
    assert [b][..0] == [];
  }

  lemma DetailsOfThree(cat: Catalog)
    requires |cat| == 3
    ensures DetailsOf(cat) == [Details(cat[0]), Details(cat[1]), Details(cat[2])]
  {
    assert cat[..2][..1] == cat[..1] && cat[..1][..0] == [];
    assert DetailsOf(cat[..1]) == [Details(cat[0])];
    assert DetailsOf(cat[..2]) == [Details(cat[0]), Details(cat[1])];
  }

  /** No two books share an identifier. */
  ghost predicate UniqueIds(cat: Catalog) {
    forall i, j :: 0 <= i < j < |cat| ==> cat[i].bookID != cat[j].bookID
  }

  /** The same identifiers at the same positions. */
  ghost predicate SameIds(a: Catalog, b: Catalog) {
    |a| == |b| && forall i :: 0 <= i < |a| ==> a[i].bookID == b[i].bookID
  }

  // ---------------------------------------------------------------- lookup

  /** getBookByID: the position of the first book whose identifier equals `id` exactly. */
  function IndexOfId(cat: Catalog, id: string): (r: Option<nat>)
    ensures r.Some? ==> r.value < |cat| && cat[r.value].bookID == id
    ensures r.Some? ==> forall j :: 0 <= j < r.value ==> cat[j].bookID != id
    ensures r.None? <==> forall j :: 0 <= j < |cat| ==> cat[j].bookID != id
  {
    if cat == [] then None
    else if cat[0].bookID == id then Some(0)
    else match IndexOfId(cat[1..], id)
      case None => None
      case Some(k) => Some(k + 1)
  }

  /** searchBookByTitle: the position of the first book whose title equals `title` ignoring case. */
  function IndexOfTitle(cat: Catalog, title: string): (r: Option<nat>)
    ensures r.Some? ==> r.value < |cat| && EqualsIgnoreCase(cat[r.value].title, title)
    ensures r.Some? ==> forall j :: 0 <= j < r.value ==> !EqualsIgnoreCase(cat[j].title, title)
    ensures r.None? <==> forall j :: 0 <= j < |cat| ==> !EqualsIgnoreCase(cat[j].title, title)
  {
    if cat == [] then None
    else if EqualsIgnoreCase(cat[0].title, title) then Some(0)
    else match IndexOfTitle(cat[1..], title)
      case None => None
      case Some(k) => Some(k + 1)
  }

  /** Lookup by identifier sees only the identifiers. */
  lemma {:induction false} IndexOfIdSameIds(a: Catalog, b: Catalog, id: string)
    requires SameIds(a, b)
    ensures IndexOfId(a, id) == IndexOfId(b, id)
  {
    if a != [] {
      IndexOfIdSameIds(a[1..], b[1..], id);
    }
  }

  // ------------------------------------------------------------ filtering

  /** The elements of `s` that `keep` accepts, in their order in `s` (ArrayList.removeIf keeps the complement). */
  function Filter<T>(s: seq<T>, keep: T -> bool): (r: seq<T>)
    ensures |r| <= |s|
  {
    if s == [] then []
    else Filter(s[..|s| - 1], keep) + (if keep(s[|s| - 1]) then [s[|s| - 1]] else [])
  }

  /** What the filter keeps is exactly the accepted elements. */
  lemma {:induction false} FilterMembers<T>(s: seq<T>, keep: T -> bool, x: T)
    ensures x in Filter(s, keep) <==> x in s && keep(x)
  {
    if s != [] {
      FilterMembers(s[..|s| - 1], keep, x);
      assert s == s[..|s| - 1] + [s[|s| - 1]];
    }
  }

  /** `r` is obtained from `s` by leaving elements out, without reordering. */
  ghost predicate IsSubsequence<T>(r: seq<T>, s: seq<T>)
    decreases |s|
  {
    if s == [] then r == []
    else
      || IsSubsequence(r, s[..|s| - 1])
      || (r != [] && r[|r| - 1] == s[|s| - 1] && IsSubsequence(r[..|r| - 1], s[..|s| - 1]))
  }

  lemma {:induction false} FilterIsSubsequence<T>(s: seq<T>, keep: T -> bool)
    ensures IsSubsequence(Filter(s, keep), s)
  {
    if s != [] {
      var init := s[..|s| - 1];
      FilterIsSubsequence(init, keep);
      var r := Filter(s, keep);
      if keep(s[|s| - 1]) {
        assert r == Filter(init, keep) + [s[|s| - 1]];
        assert r[..|r| - 1] == Filter(init, keep);
        assert r != [] && r[|r| - 1] == s[|s| - 1];
      } else {
        assert r == Filter(init, keep);
      }
    }
  }

  /** Filtering a list extended by one element extends the result by that element when it is kept. */
  lemma FilterSnoc<T>(s: seq<T>, x: T, keep: T -> bool)
    ensures Filter(s + [x], keep) == Filter(s, keep) + (if keep(x) then [x] else [])
  {
    assert (s + [x])[..|s + [x]| - 1] == s;
  }

  /** Filtering keeps nothing when no element is kept. */
  lemma {:induction false} FilterKeepsNone<T>(s: seq<T>, keep: T -> bool)
    requires forall x :: x in s ==> !keep(x)
    ensures Filter(s, keep) == []
  {
    if s != [] {
      FilterKeepsNone(s[..|s| - 1], keep);
    }
  }

  /** Filtering drops nothing when every element is kept. */
  lemma {:induction false} FilterKeepsAll<T>(s: seq<T>, keep: T -> bool)
    requires forall x :: x in s ==> keep(x)
    ensures Filter(s, keep) == s
  {
    if s != [] {
      var init, last := s[..|s| - 1], s[|s| - 1];
      assert s == init + [last];
      assert keep(last);
      FilterKeepsAll(init, keep);
      assert Filter(s, keep) == Filter(init, keep) + [last];
    }
  }

  lemma {:induction false} FilterKeepsUniqueIds(cat: Catalog, keep: BookState -> bool)
    requires UniqueIds(cat)
    ensures UniqueIds(Filter(cat, keep))
  {
    if cat != [] {
      var init := cat[..|cat| - 1];
      FilterKeepsUniqueIds(init, keep);
      var last := cat[|cat| - 1];
      forall b | b in Filter(init, keep) ensures b.bookID != last.bookID {
        FilterMembers(init, keep, b);
        var i :| 0 <= i < |init| && init[i] == b;
      }
    }
  }

  // ---------------------------------------------------------- availability

  /** The book is in the catalog and on the shelf: borrowBook succeeds. */
  predicate OnShelf(cat: Catalog, id: string) {
    match IndexOfId(cat, id)
    case None => false
    case Some(k) => cat[k].available
  }

  /** The book is in the catalog and lent out: returnBook and renewBook succeed. */
  predicate OnLoan(cat: Catalog, id: string) {
    match IndexOfId(cat, id)
    case None => false
    case Some(k) => !cat[k].available
  }

  /** setAvailable on the book getBookByID finds; no change when it finds none. */
  function WithAvailability(cat: Catalog, id: string, available: bool): Catalog {
    match IndexOfId(cat, id)
    case None => cat
    case Some(k) => cat[k := cat[k].(available := available)]
  }

  lemma WithAvailabilityKeepsIds(cat: Catalog, id: string, available: bool)
    ensures SameIds(cat, WithAvailability(cat, id, available))
  {
  }

  /** A borrowed book can be returned, and the return restores the catalog exactly. */
  lemma BorrowThenReturnRestores(cat: Catalog, id: string)
    requires OnShelf(cat, id)
    ensures OnLoan(WithAvailability(cat, id, false), id)
    ensures WithAvailability(WithAvailability(cat, id, false), id, true) == cat
  {
    var lent := WithAvailability(cat, id, false);
    IndexOfIdSameIds(cat, lent, id);
  }

  /** A second borrow of the same book fails; a renewal of it succeeds. */
  lemma BorrowTwiceFails(cat: Catalog, id: string)
    requires OnShelf(cat, id)
    ensures !OnShelf(WithAvailability(cat, id, false), id)
    ensures OnLoan(WithAvailability(cat, id, false), id)
  {
    IndexOfIdSameIds(cat, WithAvailability(cat, id, false), id);
  }

  /** After a return the book is on the shelf, so a second return fails. */
  lemma ReturnTwiceFails(cat: Catalog, id: string)
    requires OnLoan(cat, id)
    ensures OnShelf(WithAvailability(cat, id, true), id)
    ensures !OnLoan(WithAvailability(cat, id, true), id)
  {
    IndexOfIdSameIds(cat, WithAvailability(cat, id, true), id);
  }

  /** Borrow needs the book on the shelf and return needs it lent out: never both. */
  lemma ShelfAndLoanExclusive(cat: Catalog, id: string)
    ensures !(OnShelf(cat, id) && OnLoan(cat, id))
    ensures OnShelf(cat, id) || OnLoan(cat, id) <==> IndexOfId(cat, id).Some?
  {
  }

  // ---------------------------------------------------------------- update

  /** The setters updateBook calls for the keys present in `details`; "availability" goes through parseBoolean. */
  function ApplyDetails(b: BookState, details: map<string, string>): BookState {
    var b1 := if "title" in details then b.(title := details["title"]) else b;
    var b2 := if "author" in details then b1.(author := details["author"]) else b1;
    var b3 := if "genre" in details then b2.(genre := details["genre"]) else b2;
    if "availability" in details then b3.(available := ParseBoolean(details["availability"])) else b3
  }

  /** updateBook: only the first book with the identifier is touched. */
  function UpdatedCatalog(cat: Catalog, id: string, details: map<string, string>): Catalog {
    match IndexOfId(cat, id)
    case None => cat
    case Some(k) => cat[k := ApplyDetails(cat[k], details)]
  }

  /** Each field is replaced exactly when its key is present; the identifier never is. */
  lemma ApplyDetailsFields(b: BookState, details: map<string, string>)
    ensures ApplyDetails(b, details).bookID == b.bookID
    ensures ApplyDetails(b, details).title == if "title" in details then details["title"] else b.title
    ensures ApplyDetails(b, details).author == if "author" in details then details["author"] else b.author
    ensures ApplyDetails(b, details).genre == if "genre" in details then details["genre"] else b.genre
    ensures ApplyDetails(b, details).available
         == if "availability" in details then ParseBoolean(details["availability"]) else b.available
  {
  }

  /** Keys other than the four recognised ones are ignored. */
  lemma ApplyDetailsIgnoresOtherKeys(b: BookState, details: map<string, string>)
    requires forall key :: key in details ==> key !in {"title", "author", "genre", "availability"}
    ensures ApplyDetails(b, details) == b
  {
  }

  /** Every book other than the first one with the identifier keeps its state. */
  lemma UpdateTouchesOnlyFirstMatch(cat: Catalog, id: string, details: map<string, string>)
    ensures |UpdatedCatalog(cat, id, details)| == |cat|
    ensures SameIds(cat, UpdatedCatalog(cat, id, details))
    ensures forall j :: 0 <= j < |cat| && Some(j) != IndexOfId(cat, id) ==> UpdatedCatalog(cat, id, details)[j] == cat[j]
    ensures IndexOfId(cat, id).None? ==> UpdatedCatalog(cat, id, details) == cat
  {
  }

  lemma UpdateWithNoDetailsIsNoOp(cat: Catalog, id: string)
    ensures UpdatedCatalog(cat, id, map[]) == cat
  {
    match IndexOfId(cat, id)
    case None =>
    case Some(k) =>
      assert ApplyDetails(cat[k], map[]) == cat[k];
  }

  /** An update of the title and of the availability to "false" leaves author and genre as they were. */
  lemma UpdateTitleAndAvailability(cat: Catalog, id: string)
    requires IndexOfId(cat, id).Some?
    ensures var k := IndexOfId(cat, id).value;
            var r := UpdatedCatalog(cat, id, map["title" := "Updated Title", "availability" := "false"]);
            r[k] == cat[k].(title := "Updated Title", available := false)
  {
    ParseBooleanExamples();
  }

  // -------------------------------------------------------------- deletion

  /** deleteBook: the books whose title differs from `title` ignoring case. */
  function WithoutTitle(cat: Catalog, title: string): Catalog {
    Filter(cat, (b: BookState) => !EqualsIgnoreCase(b.title, title))
  }

  /** deleteBookByID: the books whose identifier differs from `id`. */
  function WithoutId(cat: Catalog, id: string): Catalog {
    Filter(cat, (b: BookState) => b.bookID != id)
  }

  /** One more book at the end is kept by deleteBook exactly when its title differs. */
  lemma WithoutTitleSnoc(cat: Catalog, b: BookState, title: string)
    ensures WithoutTitle(cat + [b], title)
         == WithoutTitle(cat, title) + (if !EqualsIgnoreCase(b.title, title) then [b] else [])
  {
    FilterSnoc(cat, b, (b: BookState) => !EqualsIgnoreCase(b.title, title));
  }

  /** One more book at the end is kept by deleteBookByID exactly when its identifier differs. */
  lemma WithoutIdSnoc(cat: Catalog, b: BookState, id: string)
    ensures WithoutId(cat + [b], id) == WithoutId(cat, id) + (if b.bookID != id then [b] else [])
  {
    FilterSnoc(cat, b, (b: BookState) => b.bookID != id);
  }

  /** Deleting books keeps the remaining identifiers distinct. */
  lemma WithoutTitleKeepsUniqueIds(cat: Catalog, title: string)
    requires UniqueIds(cat)
    ensures UniqueIds(WithoutTitle(cat, title))
  {
    FilterKeepsUniqueIds(cat, (b: BookState) => !EqualsIgnoreCase(b.title, title));
  }

  lemma WithoutIdKeepsUniqueIds(cat: Catalog, id: string)
    requires UniqueIds(cat)
    ensures UniqueIds(WithoutId(cat, id))
  {
    FilterKeepsUniqueIds(cat, (b: BookState) => b.bookID != id);
  }

  /** deleteBook removes every match, keeps every other book in order, and is a no-op without a match. */
  lemma DeleteByTitleSpec(cat: Catalog, title: string)
    ensures forall b :: b in WithoutTitle(cat, title) <==> b in cat && !EqualsIgnoreCase(b.title, title)
    ensures IsSubsequence(WithoutTitle(cat, title), cat)
    ensures IndexOfTitle(WithoutTitle(cat, title), title).None?
    ensures IndexOfTitle(cat, title).None? ==> WithoutTitle(cat, title) == cat
  {
    var keep := (b: BookState) => !EqualsIgnoreCase(b.title, title);
    FilterIsSubsequence(cat, keep);
    forall b ensures b in WithoutTitle(cat, title) <==> b in cat && keep(b) {
      FilterMembers(cat, keep, b);
    }
    if IndexOfTitle(cat, title).None? {
      FilterKeepsAll(cat, keep);
    }
  }

  /** deleteBookByID removes the book, keeps the others in order, and getBookByID then finds nothing. */
  lemma DeleteByIdSpec(cat: Catalog, id: string)
    ensures forall b :: b in WithoutId(cat, id) <==> b in cat && b.bookID != id
    ensures IsSubsequence(WithoutId(cat, id), cat)
    ensures IndexOfId(WithoutId(cat, id), id).None?
    ensures IndexOfId(cat, id).None? ==> WithoutId(cat, id) == cat
  {
    var keep := (b: BookState) => b.bookID != id;
    FilterIsSubsequence(cat, keep);
    forall b ensures b in WithoutId(cat, id) <==> b in cat && keep(b) {
      FilterMembers(cat, keep, b);
    }
    if IndexOfId(cat, id).None? {
      FilterKeepsAll(cat, keep);
    }
  }

  // ---------------------------------------------------------------- search

  /** The test searchBooks applies for one criterion; unknown criteria match nothing. */
  predicate Matches(b: BookState, criteria: string, value: string) {
    if criteria == "title" then Contains(ToLower(b.title), ToLower(value))
    else if criteria == "author" then Contains(ToLower(b.author), ToLower(value))
    else if criteria == "genre" then ToLower(b.genre) == ToLower(value)
    else false
  }

  /** One more book at the end is found by searchBooks exactly when it matches. */
  lemma SearchSnoc(cat: Catalog, b: BookState, criteria: string, value: string)
    ensures Search(cat + [b], criteria, value)
         == Search(cat, criteria, value) + (if Matches(b, criteria, value) then [b] else [])
  {
    FilterSnoc(cat, b, (b: BookState) => Matches(b, criteria, value));
  }

  /** searchBooks: the matching books in catalog order. */
  function Search(cat: Catalog, criteria: string, value: string): Catalog {
    Filter(cat, (b: BookState) => Matches(b, criteria, value))
  }

  lemma SearchSpec(cat: Catalog, criteria: string, value: string)
    ensures IsSubsequence(Search(cat, criteria, value), cat)
    ensures forall b :: b in Search(cat, criteria, value) <==> b in cat && Matches(b, criteria, value)
    ensures criteria !in {"title", "author", "genre"} ==> Search(cat, criteria, value) == []
  {
    var keep := (b: BookState) => Matches(b, criteria, value);
    FilterIsSubsequence(cat, keep);
    forall b ensures b in Search(cat, criteria, value) <==> b in cat && keep(b) {
      FilterMembers(cat, keep, b);
    }
    if criteria !in {"title", "author", "genre"} {
      FilterKeepsNone(cat, keep);
    }
  }

  /** A title search finds every book whose lower-cased title contains the lower-cased value. */
  lemma SearchTitleIsSubstring(cat: Catalog, value: string, b: BookState)
    requires b in cat
    ensures b in Search(cat, "title", value)
        <==> exists i :: OccursAt(ToLower(b.title), ToLower(value), i)
  {
    SearchSpec(cat, "title", value);
    assert Matches(b, "title", value) == Contains(ToLower(b.title), ToLower(value));
    ContainsSpec(ToLower(b.title), ToLower(value));
  }

  lemma FictionMatchesFiction(b: BookState)
    requires b.genre == "Fiction"
    ensures Matches(b, "genre", "fiction")
  {
    LowerFiction();
  }

  lemma DystopianMissesFiction(b: BookState)
    requires b.genre == "Dystopian"
    ensures !Matches(b, "genre", "fiction")
  {
    assert |ToLower("Dystopian")| == 9;
  }

  lemma SeqOfThree<T>(s: seq<T>)
    requires |s| == 3
    ensures s == [s[0], s[1]] + [s[2]]
  {
  }

  /** Genre search is an exact comparison ignoring case. */
  lemma SearchGenreIgnoresCase(cat: Catalog)
    requires |cat| == 3
    requires cat[0].genre == "Fiction" && cat[1].genre == "Dystopian" && cat[2].genre == "Fiction"
    ensures Search(cat, "genre", "fiction") == [cat[0], cat[2]]
  {
    var keep := (b: BookState) => Matches(b, "genre", "fiction");
    FictionMatchesFiction(cat[0]);
    DystopianMissesFiction(cat[1]);
    FictionMatchesFiction(cat[2]);
    FilterSnoc([], cat[0], keep);
    FilterSnoc([cat[0]], cat[1], keep);
    FilterSnoc([cat[0], cat[1]], cat[2], keep);
    SeqOfThree(cat);
  }
}
