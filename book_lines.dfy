/**
 * The line format of the bulk load: title, author, genre and availability
 * separated by commas. A line is split with String.split(","), which drops
 * empty trailing fields, and accepted only when exactly four fields remain.
 */
module BookLines {
  import opened Wrappers
  import opened JavaText
  import opened Books

  /** One line of the file: four fields make a book from the trimmed fields; any other count is rejected. */
  function ParseLine(line: string): Option<BookDetails> {
    var fields := Split(line);
    if |fields| == 4 then
      Some(BookDetails(Trim(fields[0]), Trim(fields[1]), Trim(fields[2]), ParseBoolean(Trim(fields[3]))))
    else None
  }

  /** The book one line contributes: one when it is accepted, none otherwise. */
  function LineBooks(line: string): seq<BookDetails> {
    match ParseLine(line)
    case Some(d) => [d]
    case None => []
  }

  /** The warning one line contributes: one when it is rejected, none otherwise. */
  function LineWarnings(line: string): seq<string> {
    if ParseLine(line).None? then ["Invalid book data: " + line] else []
  }

  /** What each line contributes, concatenated in file order. */
  function FlatMap<T, U>(s: seq<T>, f: T -> seq<U>): seq<U> {
    if s == [] then [] else FlatMap(s[..|s| - 1], f) + f(s[|s| - 1])
  }

  lemma {:induction false} FlatMapConcat<T, U>(a: seq<T>, b: seq<T>, f: T -> seq<U>)
    ensures FlatMap(a + b, f) == FlatMap(a, f) + FlatMap(b, f)
  {
    if b == [] {
      assert a + b == a;
    } else {
      FlatMapConcat(a, b[..|b| - 1], f);
      assert (a + b)[..|a + b| - 1] == a + b[..|b| - 1];
    }
  }

  /** The books the accepted lines describe, in file order. */
  function LoadedBooks(lines: seq<string>): seq<BookDetails> {
    FlatMap(lines, LineBooks)
  }

  /** The warnings for the rejected lines, in file order. */
  function RejectionMessages(lines: seq<string>): seq<string> {
    FlatMap(lines, LineWarnings)
  }

  /** The closing message: success once the file is read to its end, or the read error. */
  function ClosingMessage(readError: Option<string>): string {
    match readError
    case None => "Books loaded successfully."
    case Some(message) => "Error reading the file: " + message
  }

  /** A line made of four fields. */
  function JoinFields(f0: string, f1: string, f2: string, f3: string): string {
    f0 + "," + f1 + "," + f2 + "," + f3
  }

  /** The fields of a line that contain no comma are exactly its pieces between commas. */
  lemma SplitFourFields(f0: string, f1: string, f2: string, f3: string)
    requires ',' !in f0 && ',' !in f1 && ',' !in f2 && ',' !in f3
    ensures SplitAll(JoinFields(f0, f1, f2, f3)) == [f0, f1, f2, f3]
    ensures ',' in JoinFields(f0, f1, f2, f3)
  {
    var line := JoinFields(f0, f1, f2, f3);
    assert line == f0 + "," + (f1 + "," + (f2 + "," + f3));
    assert line[|f0|] == ',';
    SplitAllCons(f0, f1 + "," + (f2 + "," + f3));
    SplitAllCons(f1, f2 + "," + f3);
    SplitAllCons(f2, f3);
    SplitAllNoComma(f3);
  }

  /** Four comma-free fields, the last one non-empty, give one book built from the trimmed fields. */
  lemma ParseFourFields(f0: string, f1: string, f2: string, f3: string)
    requires ',' !in f0 && ',' !in f1 && ',' !in f2 && ',' !in f3
    requires f3 != ""
    ensures ParseLine(JoinFields(f0, f1, f2, f3))
         == Some(BookDetails(Trim(f0), Trim(f1), Trim(f2), ParseBoolean(Trim(f3))))
  {
    SplitFourFields(f0, f1, f2, f3);
  }

  /** An empty last field is dropped by the split, so the line has three fields and is rejected. */
  lemma ParseRejectsEmptyLastField(f0: string, f1: string, f2: string)
    requires ',' !in f0 && ',' !in f1 && ',' !in f2 && f2 != ""
    ensures ParseLine(JoinFields(f0, f1, f2, "")).None?
  {
    SplitFourFields(f0, f1, f2, "");
    assert DropTrailingEmpty([f0, f1, f2, ""]) == DropTrailingEmpty([f0, f1, f2]);
  }

  /** The line a record source writes for a book. */
  function FormatLine(d: BookDetails): string {
    JoinFields(d.title, d.author, d.genre, if d.available then "true" else "false")
  }

  /** A book whose fields hold no comma and no surrounding blanks survives being written and read back. */
  lemma ParseFormatRoundTrip(d: BookDetails)
    requires ',' !in d.title && ',' !in d.author && ',' !in d.genre
    requires IsTrimmed(d.title) && IsTrimmed(d.author) && IsTrimmed(d.genre)
    ensures ParseLine(FormatLine(d)) == Some(d)
  {
    var f3 := if d.available then "true" else "false";
    ParseFourFields(d.title, d.author, d.genre, f3);
    TrimOfTrimmed(d.title);
    TrimOfTrimmed(d.author);
    TrimOfTrimmed(d.genre);
    TrimOfTrimmed(f3);
    ParseBooleanExamples();
  }

  /** "a,b,,true": an empty field in the middle is kept, so the line still has four fields. */
  lemma ParseKeepsEmptyMiddleField()
    ensures ParseLine(JoinFields("a", "b", "", "true")) == Some(BookDetails("a", "b", "", true))
  {
    ParseFourFields("a", "b", "", "true");
    assert Trim("a") == "a" by { TrimOfTrimmed("a"); }
    assert Trim("b") == "b" by { TrimOfTrimmed("b"); }
    assert Trim("") == "";
    assert Trim("true") == "true" by { TrimOfTrimmed("true"); }
    assert ParseBoolean("true") by { ParseBooleanExamples(); }
  }

  /** "a,b,c,": the split drops the empty last field, three fields remain and the line is rejected. */
  lemma ParseRejectsTrailingComma()
    ensures ParseLine(JoinFields("a", "b", "c", "")).None?
  {
    ParseRejectsEmptyLastField("a", "b", "c");
  }

  /** Availability text that does not parse as "true" still loads the book, as not available: the line is not rejected. */
  lemma ParseOtherTextIsFalse(f0: string, f1: string, f2: string, f3: string)
    requires ',' !in f0 && ',' !in f1 && ',' !in f2 && ',' !in f3
    requires f3 != "" && !ParseBoolean(Trim(f3))
    ensures ParseLine(JoinFields(f0, f1, f2, f3)) == Some(BookDetails(Trim(f0), Trim(f1), Trim(f2), false))
  {
    ParseFourFields(f0, f1, f2, f3);
  }

  /** "A,B,C,yes" is such a line. */
  lemma ParseYesIsFalse()
    ensures ParseLine(JoinFields("A", "B", "C", "yes")) == Some(BookDetails("A", "B", "C", false))
  {
    assert Trim("yes") == "yes" by { TrimOfTrimmed("yes"); }
    assert !ParseBoolean("yes") by { ParseBooleanExamples(); }
    ParseOtherTextIsFalse("A", "B", "C", "yes");
    assert Trim("A") == "A" by { TrimOfTrimmed("A"); }
    assert Trim("B") == "B" by { TrimOfTrimmed("B"); }
    assert Trim("C") == "C" by { TrimOfTrimmed("C"); }
  }

  /** A line without a comma is a single field and is rejected. */
  lemma ParseRejectsSingleField(line: string)
    requires ',' !in line
    ensures ParseLine(line).None?
  {
  }

  /** Reading one more line adds what that line gives, after what the earlier lines gave. */
  lemma LoadOneMore(lines: seq<string>, i: nat)
    requires i < |lines|
    ensures LoadedBooks(lines[..i + 1]) == LoadedBooks(lines[..i]) + LineBooks(lines[i])
    ensures RejectionMessages(lines[..i + 1]) == RejectionMessages(lines[..i]) + LineWarnings(lines[i])
  {
    assert lines[..i + 1][..i] == lines[..i];
  }

  /** Lines are loaded independently of each other: a file is the sum of its parts. */
  lemma LoadConcat(a: seq<string>, b: seq<string>)
    ensures LoadedBooks(a + b) == LoadedBooks(a) + LoadedBooks(b)
    ensures RejectionMessages(a + b) == RejectionMessages(a) + RejectionMessages(b)
  {
    FlatMapConcat(a, b, LineBooks);
    FlatMapConcat(a, b, LineWarnings);
  }

  /** A file of one line loads what that line gives. */
  lemma LoadSingle(line: string)
    ensures LoadedBooks([line]) == LineBooks(line)
    ensures RejectionMessages([line]) == LineWarnings(line)
  {
    assert [line][..0] == [];
    assert LoadedBooks([line]) == FlatMap([], LineBooks) + LineBooks(line);
    assert RejectionMessages([line]) == FlatMap([], LineWarnings) + LineWarnings(line);
  }

  lemma LoadThree(l0: string, l1: string, l2: string)
    ensures LoadedBooks([l0, l1, l2]) == LineBooks(l0) + LineBooks(l1) + LineBooks(l2)
    ensures RejectionMessages([l0, l1, l2]) == LineWarnings(l0) + LineWarnings(l1) + LineWarnings(l2)
  {
    LoadSingle(l0);
    LoadSingle(l1);
    LoadSingle(l2);
    LoadConcat([l0], [l1]);
    LoadConcat([l0, l1], [l2]);
    assert [l0] + [l1] == [l0, l1];
    assert [l0, l1] + [l2] == [l0, l1, l2];
  }

  /** A line written for a book with comma-free, trimmed fields loads that book and warns about nothing. */
  lemma AcceptedLine(d: BookDetails)
    requires ',' !in d.title && ',' !in d.author && ',' !in d.genre
    requires IsTrimmed(d.title) && IsTrimmed(d.author) && IsTrimmed(d.genre)
    ensures LineBooks(FormatLine(d)) == [d] && LineWarnings(FormatLine(d)) == []
  {
    ParseFormatRoundTrip(d);
  }

  /** A line without a comma loads nothing and is echoed in one warning. */
  lemma RejectedLine(line: string)
    requires ',' !in line
    ensures LineBooks(line) == [] && LineWarnings(line) == ["Invalid book data: " + line]
  {
    ParseRejectsSingleField(line);
  }

  /** "A,B,C,true", a line without a comma such as "bad-line", "D,E,F,false": two books load and one warning is printed. */
  lemma LoadTwoOfThree(d0: BookDetails, bad: string, d2: BookDetails)
    requires d0 == BookDetails("A", "B", "C", true) && d2 == BookDetails("D", "E", "F", false)
    requires ',' !in bad
    ensures LoadedBooks([FormatLine(d0), bad, FormatLine(d2)]) == [d0, d2]
    ensures RejectionMessages([FormatLine(d0), bad, FormatLine(d2)]) == ["Invalid book data: " + bad]
  {
    AcceptedLine(d0);
    AcceptedLine(d2);
    RejectedLine(bad);
    LoadThree(FormatLine(d0), bad, FormatLine(d2));
  }
}
