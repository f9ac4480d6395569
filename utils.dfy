/** The row filter of the utilities module. */
module Utils {
  import opened Seqs
  import opened Ledger

  predicate NonNegative(t: Transaction) { t.amount >= 0 }

  /** `transactions[transactions['amount'] >= 0]`. */
  function FilterNegative(rows: seq<Transaction>): seq<Transaction>
  {
    Keep(rows, NonNegative)
  }

  /** The filter keeps exactly the rows whose amount is not negative, unchanged
      and in their original order. */
  lemma FilterNegativeSpec(rows: seq<Transaction>)
    ensures forall t :: t in FilterNegative(rows) ==> t.amount >= 0
    ensures forall t :: t in rows && t.amount >= 0 ==> t in FilterNegative(rows)
    ensures forall t :: multiset(FilterNegative(rows))[t] == if t.amount >= 0 then multiset(rows)[t] else 0
    ensures IsSubsequence(FilterNegative(rows), rows)
    ensures |FilterNegative(rows)| <= |rows|
  {
    KeepCount(rows, NonNegative);
    KeepIsSubsequence(rows, NonNegative);
    forall t | t in rows && t.amount >= 0 ensures t in FilterNegative(rows) {
      assert multiset(FilterNegative(rows))[t] == multiset(rows)[t] > 0;
    }
  }

  /** Filtering twice is filtering once. */
  lemma FilterNegativeIdempotent(rows: seq<Transaction>)
    ensures FilterNegative(FilterNegative(rows)) == FilterNegative(rows)
  {
    KeepIdempotent(rows, NonNegative);
  }

  /** Amounts 10 and -5 leave only the first row. */
  lemma FilterNegativeExample()
    ensures var a, b := Transaction(20250101, "A", 10), Transaction(20250102, "B", -5);
            FilterNegative([a, b]) == [a]
  {
    var a, b := Transaction(20250101, "A", 10), Transaction(20250102, "B", -5);
    assert [a, b][1..] == [b] && [b][1..] == [];
    assert Keep([b], NonNegative) == [];
    assert Keep([a, b], NonNegative) == [a] + Keep([b], NonNegative);
  }
}
