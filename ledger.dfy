/** The rows of the two data frames the application passes around. */
module Ledger {

  /** A row of a loaded statement. `date` is the calendar day as the number
      YYYYMMDD, whose integer order is chronological order; `amount` is in
      cents, purchases positive and refunds or credits negative. */
  datatype Transaction = Transaction(date: int, title: string, amount: int)

  /** A row of the categorised frame: the statement row, unchanged, plus the
      `category` column. */
  datatype CategorizedTransaction = CategorizedTransaction(txn: Transaction, category: string)

  function CategoryOf(r: CategorizedTransaction): string { r.category }

  function DateOf(r: CategorizedTransaction): int { r.txn.date }

  function AmountOf(r: CategorizedTransaction): int { r.txn.amount }

  /** Sort key that puts larger amounts first. */
  function AmountDescending(r: CategorizedTransaction): int { -r.txn.amount }

  /** The categorised frame with its `category` column dropped. */
  function Untag(rows: seq<CategorizedTransaction>): (txns: seq<Transaction>)
    ensures |txns| == |rows|
    ensures forall i :: 0 <= i < |rows| ==> txns[i] == rows[i].txn
  {
    seq(|rows|, i requires 0 <= i < |rows| => rows[i].txn)
  }
}
