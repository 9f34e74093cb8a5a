/**
 * The ledger entry written by a borrow, a return or a renewal. Every field,
 * the date included, is set once by the constructor and only read afterwards.
 */
module Transactions {

  /** A reading of the wall clock, taken when the entry is created. */
  type Timestamp = nat

  datatype Transaction = Transaction(
    transactionID: string,
    userID: string,
    bookID: string,
    transactionType: string,
    date: Timestamp)

  /** The three kinds of entry the catalog writes. */
  predicate IsCatalogKind(kind: string) {
    kind == "borrow" || kind == "return" || kind == "renew"
  }

  /** `after` is `before` with exactly one entry appended, recording `kind` for this user and book at `now`. */
  ghost predicate AppendedOne(before: seq<Transaction>, after: seq<Transaction>,
                              userID: string, bookID: string, kind: string, now: Timestamp)
  {
    |after| == |before| + 1 && after[..|before|] == before &&
    after[|before|].userID == userID && after[|before|].bookID == bookID &&
    after[|before|].transactionType == kind && after[|before|].date == now
  }

  /** One line of the report: the kind of the entry and its date. */
  datatype ReportLine = ReportLine(transactionType: string, date: Timestamp)

  function Line(t: Transaction): ReportLine {
    ReportLine(t.transactionType, t.date)
  }
}
