/** The data computations of the desktop window, lifted out of the widget code:
    the category summary, the per-category detail list, the per-day buckets
    behind the trend chart, and the category filter of the PDF export. */
module AppUi {
  import opened Seqs
  import opened Ledger
  import opened Categorizer

  datatype Option<T> = None | Some(value: T)

  /** One row of a `groupby(...)['amount'].sum()` result. */
  datatype Bucket<K> = Bucket(key: K, total: int)

  function KeyOf<K>(b: Bucket<K>): K { b.key }

  function TotalOf<K>(b: Bucket<K>): int { b.total }

  /** Sort key that puts larger totals first. */
  function TotalDescending<K>(b: Bucket<K>): int { -b.total }

  function Day(b: Bucket<int>): int { b.key }

  ghost function KeySet<K>(buckets: seq<Bucket<K>>): set<K>
  {
    set b | b in buckets :: b.key
  }

  ghost function RowKeys<K>(rows: seq<CategorizedTransaction>, key: CategorizedTransaction -> K): set<K>
  {
    set r | r in rows :: key(r)
  }

  /** Reference definition: the sum of the amounts of the rows whose key is `k`. */
  ghost function KeySum<K>(rows: seq<CategorizedTransaction>, key: CategorizedTransaction -> K, k: K): int
  {
    if rows == [] then 0
    else (if key(rows[0]) == k then rows[0].txn.amount else 0) + KeySum(rows[1..], key, k)
  }

  /** The sum of the totals of the buckets whose key is `k`. */
  ghost function BucketSum<K>(buckets: seq<Bucket<K>>, k: K): int
  {
    if buckets == [] then 0
    else (if buckets[0].key == k then buckets[0].total else 0) + BucketSum(buckets[1..], k)
  }

  /** Adds `amount` to the bucket of `k`, opening a new bucket at the end when
      there is none yet. */
  function AddTo<K(==)>(buckets: seq<Bucket<K>>, k: K, amount: int): seq<Bucket<K>>
  {
    if buckets == [] then [Bucket(k, amount)]
    else if buckets[0].key == k then [Bucket(k, buckets[0].total + amount)] + buckets[1..]
    else [buckets[0]] + AddTo(buckets[1..], k, amount)
  }

  /** Groups the rows by `key` and sums their amounts. The fold runs from the
      last row to the first, so buckets come in reverse order of last
      appearance. */
  function GroupSum<K(==)>(rows: seq<CategorizedTransaction>, key: CategorizedTransaction -> K): seq<Bucket<K>>
  {
    if rows == [] then []
    else AddTo(GroupSum(rows[1..], key), key(rows[0]), rows[0].txn.amount)
  }

  lemma {:induction false} AddToSums<K>(buckets: seq<Bucket<K>>, k: K, amount: int)
    ensures forall k' :: BucketSum(AddTo(buckets, k, amount), k') == BucketSum(buckets, k') + (if k' == k then amount else 0)
    ensures SumOf(AddTo(buckets, k, amount), TotalOf) == SumOf(buckets, TotalOf) + amount
  {
    if buckets != [] && buckets[0].key != k {
      AddToSums(buckets[1..], k, amount);
    }
  }

  lemma {:induction false} AddToKeys<K>(buckets: seq<Bucket<K>>, k: K, amount: int)
    ensures KeySet(AddTo(buckets, k, amount)) == KeySet(buckets) + {k}
  {
    var r := AddTo(buckets, k, amount);
    if buckets == [] {
      assert KeySet(r) == {k};
    } else {
      var b := buckets[0];
      assert buckets == [b] + buckets[1..];
      assert KeySet(buckets) == {b.key} + KeySet(buckets[1..]);
      if b.key == k {
        assert r == [Bucket(k, b.total + amount)] + buckets[1..];
        assert KeySet(r) == {k} + KeySet(buckets[1..]);
      } else {
        AddToKeys(buckets[1..], k, amount);
        assert r == [b] + AddTo(buckets[1..], k, amount);
        assert KeySet(r) == {b.key} + KeySet(AddTo(buckets[1..], k, amount));
      }
    }
  }

  lemma DistinctTail<K>(buckets: seq<Bucket<K>>)
    requires buckets != [] && DistinctBy(buckets, KeyOf)
    ensures DistinctBy(buckets[1..], KeyOf)
    ensures forall b :: b in buckets[1..] ==> b.key != buckets[0].key
  {
    forall i, j | 0 <= i < j < |buckets[1..]| ensures KeyOf(buckets[1..][i]) != KeyOf(buckets[1..][j]) {
      assert buckets[1..][i] == buckets[i + 1] && buckets[1..][j] == buckets[j + 1];
    }
    forall b | b in buckets[1..] ensures b.key != buckets[0].key {
      var m :| 0 <= m < |buckets[1..]| && buckets[1..][m] == b;
      assert buckets[m + 1] == b;
      assert KeyOf(buckets[0]) != KeyOf(buckets[m + 1]);
    }
  }

  lemma {:induction false} AddToDistinct<K>(buckets: seq<Bucket<K>>, k: K, amount: int)
    requires DistinctBy(buckets, KeyOf)
    ensures DistinctBy(AddTo(buckets, k, amount), KeyOf)
  {
    if buckets != [] {
      var b := buckets[0];
      DistinctTail(buckets);
      if b.key == k {
        DistinctByCons(Bucket(k, b.total + amount), buckets[1..], KeyOf);
      } else {
        var tail := AddTo(buckets[1..], k, amount);
        AddToDistinct(buckets[1..], k, amount);
        AddToKeys(buckets[1..], k, amount);
        forall y | y in tail ensures KeyOf(y) != KeyOf(b) {
          assert y.key in KeySet(tail);
        }
        DistinctByCons(b, tail, KeyOf);
      }
    }
  }

  /** Grouping yields one bucket per distinct key, holding the sum of the
      amounts of that key's rows, and the totals add up to the sum of all
      amounts. */
  lemma {:induction false} GroupSumSpec<K>(rows: seq<CategorizedTransaction>, key: CategorizedTransaction -> K)
    ensures DistinctBy(GroupSum(rows, key), KeyOf)
    ensures KeySet(GroupSum(rows, key)) == RowKeys(rows, key)
    ensures forall k :: BucketSum(GroupSum(rows, key), k) == KeySum(rows, key, k)
    ensures SumOf(GroupSum(rows, key), TotalOf) == SumOf(rows, AmountOf)
  {
    if rows != [] {
      var groups := GroupSum(rows[1..], key);
      GroupSumSpec(rows[1..], key);
      AddToSums(groups, key(rows[0]), rows[0].txn.amount);
      AddToKeys(groups, key(rows[0]), rows[0].txn.amount);
      AddToDistinct(groups, key(rows[0]), rows[0].txn.amount);
      assert rows == [rows[0]] + rows[1..];
      assert RowKeys(rows, key) == {key(rows[0])} + RowKeys(rows[1..], key);
    }
  }

  /** With distinct keys, the bucket of a key holds all of that key's total. */
  lemma {:induction false} BucketSumOfDistinct<K>(buckets: seq<Bucket<K>>, b: Bucket<K>)
    requires DistinctBy(buckets, KeyOf)
    requires b in buckets
    ensures BucketSum(buckets, b.key) == b.total
  {
    var c := buckets[0];
    if c != b {
      assert b in buckets[1..];
      var m :| 0 <= m < |buckets[1..]| && buckets[1..][m] == b;
      assert buckets[m + 1] == b;
      assert c.key != b.key;
      assert DistinctBy(buckets[1..], KeyOf) by {
        forall i, j | 0 <= i < j < |buckets[1..]| ensures KeyOf(buckets[1..][i]) != KeyOf(buckets[1..][j]) {
          assert buckets[1..][i] == buckets[i + 1] && buckets[1..][j] == buckets[j + 1];
        }
      }
      BucketSumOfDistinct(buckets[1..], b);
    } else {
      BucketSumAbsent(buckets[1..], b.key);
    }
  }

  lemma {:induction false} BucketSumAbsent<K>(buckets: seq<Bucket<K>>, k: K)
    requires forall b :: b in buckets ==> b.key != k
    ensures BucketSum(buckets, k) == 0
  {
    if buckets != [] {
      assert buckets[0] in buckets;
      BucketSumAbsent(buckets[1..], k);
    }
  }

  /** `groupby(key)['amount'].sum()` followed by a sort that puts larger totals
      first: one bucket per distinct key, each holding the sum of that key's
      amounts, in non-increasing order of total. */
  function SumsDescending<K(==)>(rows: seq<CategorizedTransaction>, key: CategorizedTransaction -> K): (s: seq<Bucket<K>>)
    ensures DistinctBy(s, KeyOf)
    ensures KeySet(s) == RowKeys(rows, key)
    ensures forall b :: b in s ==> b.total == KeySum(rows, key, b.key)
    ensures forall i, j :: 0 <= i < j < |s| ==> s[i].total >= s[j].total
    ensures SumOf(s, TotalOf) == SumOf(rows, AmountOf)
  {
    SortedGroupsSpec(rows, key, TotalDescending);
    SortBy(GroupSum(rows, key), TotalDescending)
  }

  /** Sorting the buckets of a grouping keeps them one per key, each with the
      sum of its key's amounts. */
  lemma SortedGroupsSpec<K>(rows: seq<CategorizedTransaction>, key: CategorizedTransaction -> K, order: Bucket<K> -> int)
    ensures var s := SortBy(GroupSum(rows, key), order);
      && SortedBy(s, order)
      && DistinctBy(s, KeyOf)
      && KeySet(s) == RowKeys(rows, key)
      && (forall b :: b in s ==> b.total == KeySum(rows, key, b.key))
      && SumOf(s, TotalOf) == SumOf(rows, AmountOf)
  {
    var groups := GroupSum(rows, key);
    GroupSumSpec(rows, key);
    var s := SortBy(groups, order);
    SortByDistinct(groups, order, KeyOf);
    SortBySum(groups, order, TotalOf);
    SortByMembers(groups, order);
    assert KeySet(s) == KeySet(groups);
    forall b | b in s ensures b.total == KeySum(rows, key, b.key) {
      BucketSumOfDistinct(groups, b);
    }
  }

  /** The category summary of the summary tab: one row per category with the
      sum of its amounts, larger sums first. */
  function CategorySummary(rows: seq<CategorizedTransaction>): seq<Bucket<string>>
  {
    SumsDescending(rows, CategoryOf)
  }

  /** `summary['amount'].sum()`. */
  function GrandTotal(summary: seq<Bucket<string>>): int
  {
    SumOf(summary, TotalOf)
  }

  /** The summary has exactly one row per category present in the rows, each
      holding the sum of that category's amounts, in non-increasing order. */
  lemma CategorySummarySpec(rows: seq<CategorizedTransaction>)
    ensures var summary := CategorySummary(rows);
      && DistinctBy(summary, KeyOf)
      && KeySet(summary) == (set r | r in rows :: r.category)
      && (forall b :: b in summary ==> b.total == KeySum(rows, CategoryOf, b.key))
      && (forall i, j :: 0 <= i < j < |summary| ==> summary[i].total >= summary[j].total)
  {
    var summary := CategorySummary(rows);
    assert RowKeys(rows, CategoryOf) == (set r | r in rows :: r.category);
  }

  /** The grand total is the sum of all amounts, and it is never negative for
      the output of the categoriser. */
  lemma GrandTotalSpec(table: KeywordTable, txns: seq<Transaction>)
    ensures forall rows :: GrandTotal(CategorySummary(rows)) == SumOf(rows, AmountOf)
    ensures GrandTotal(CategorySummary(CategorizeTransactions(table, txns))) >= 0
  {
    var rows := CategorizeTransactions(table, txns);
    CategorizeTransactionsSpec(table, txns);
    SumOfNonNegative(rows, AmountOf);
  }

  function InCategory(c: string): CategorizedTransaction -> bool
  {
    (r: CategorizedTransaction) => r.category == c
  }

  /** The transaction list of a category's detail tab: the rows of that
      category, larger amounts first. */
  function CategoryDetails(rows: seq<CategorizedTransaction>, c: string): (details: seq<CategorizedTransaction>)
    ensures forall r :: multiset(details)[r] == if r.category == c then multiset(rows)[r] else 0
    ensures forall i, j :: 0 <= i < j < |details| ==> details[i].txn.amount >= details[j].txn.amount
  {
    KeepCount(rows, InCategory(c));
    SortBy(Keep(rows, InCategory(c)), AmountDescending)
  }

  lemma {:induction false} KeySumIsCategoryTotal(rows: seq<CategorizedTransaction>, c: string)
    ensures SumOf(Keep(rows, InCategory(c)), AmountOf) == KeySum(rows, CategoryOf, c)
  {
    if rows != [] {
      KeySumIsCategoryTotal(rows[1..], c);
    }
  }

  /** The detail list of a category adds up to that category's summary row. */
  lemma CategoryDetailsTotal(rows: seq<CategorizedTransaction>, c: string)
    ensures SumOf(CategoryDetails(rows, c), AmountOf) == KeySum(rows, CategoryOf, c)
  {
    SortBySum(Keep(rows, InCategory(c)), AmountDescending, AmountOf);
    KeySumIsCategoryTotal(rows, c);
  }

  /** The bars of a category's trend chart: `groupby('date')['amount'].sum()`
      sorted by date, one bucket per distinct date in strictly increasing date
      order, each holding the sum of that date's amounts. */
  function DateBuckets(rows: seq<CategorizedTransaction>): (buckets: seq<Bucket<int>>)
    ensures KeySet(buckets) == RowKeys(rows, DateOf)
    ensures forall b :: b in buckets ==> b.total == KeySum(rows, DateOf, b.key)
    ensures forall i, j :: 0 <= i < j < |buckets| ==> buckets[i].key < buckets[j].key
    ensures SumOf(buckets, TotalOf) == SumOf(rows, AmountOf)
  {
    SortedGroupsSpec(rows, DateOf, Day);
    StrictlyIncreasingDays(SortBy(GroupSum(rows, DateOf), Day));
    SortBy(GroupSum(rows, DateOf), Day)
  }

  lemma StrictlyIncreasingDays(buckets: seq<Bucket<int>>)
    requires SortedBy(buckets, Day) && DistinctBy(buckets, KeyOf)
    ensures forall i, j :: 0 <= i < j < |buckets| ==> buckets[i].key < buckets[j].key
  {
    forall i, j | 0 <= i < j < |buckets| ensures buckets[i].key < buckets[j].key {
      assert Day(buckets[i]) <= Day(buckets[j]);
      assert KeyOf(buckets[i]) != KeyOf(buckets[j]);
    }
  }

  /** The day buckets of a category's detail tab add up to the category's row
      in the summary. */
  lemma DateBucketsAddUpToSummary(rows: seq<CategorizedTransaction>, b: Bucket<string>)
    requires b in CategorySummary(rows)
    ensures SumOf(DateBuckets(CategoryDetails(rows, b.key)), TotalOf) == b.total
  {
    CategoryDetailsTotal(rows, b.key);
  }

  /** One tab of the details notebook: its category, its transaction table
      and the bars of its trend chart (drawn only when the table is not empty). */
  datatype DetailTab = DetailTab(category: string, rows: seq<CategorizedTransaction>, days: seq<Bucket<int>>)

  /** The details notebook: one tab per summary row, in summary order. */
  function DetailTabs(rows: seq<CategorizedTransaction>): (tabs: seq<DetailTab>)
    ensures |tabs| == |CategorySummary(rows)|
  {
    var summary := CategorySummary(rows);
    seq(|summary|, i requires 0 <= i < |summary| =>
      var details := CategoryDetails(rows, summary[i].key);
      DetailTab(summary[i].key, details, if details == [] then [] else DateBuckets(details)))
  }

  /** Every tab's table is non-empty, so its chart is always drawn, and the bars
      of the chart add up to the tab's row in the summary. */
  lemma DetailTabsSpec(rows: seq<CategorizedTransaction>)
    ensures var summary, tabs := CategorySummary(rows), DetailTabs(rows);
      forall i :: 0 <= i < |tabs| ==>
        && tabs[i].category == summary[i].key
        && tabs[i].rows != []
        && (forall r :: multiset(tabs[i].rows)[r] == if r.category == summary[i].key then multiset(rows)[r] else 0)
        && SumOf(tabs[i].days, TotalOf) == summary[i].total
  {
    var summary, tabs := CategorySummary(rows), DetailTabs(rows);
    forall i | 0 <= i < |tabs|
      ensures tabs[i].rows != []
      ensures SumOf(tabs[i].days, TotalOf) == summary[i].total
    {
      var c := summary[i].key;
      assert summary[i] in summary;
      CategorySummarySpec(rows);
      assert c in KeySet(summary);
      var r :| r in rows && r.category == c;
      assert multiset(tabs[i].rows)[r] == multiset(rows)[r] > 0;
      DateBucketsAddUpToSummary(rows, summary[i]);
    }
  }

  /** What the export dialog returns: cancelled, "All", or the ticked categories. */
  datatype ExportChoice = Cancelled | AllCategories | Selected(categories: seq<string>)

  function InSelection(categories: seq<string>): CategorizedTransaction -> bool
  {
    (r: CategorizedTransaction) => r.category in categories
  }

  /** The rows handed to the PDF export: nothing when the dialog was cancelled
      or nothing was ticked, every row for "All", and otherwise the rows whose
      category was ticked, in their original order. */
  function ExportRows(rows: seq<CategorizedTransaction>, choice: ExportChoice): (out: Option<seq<CategorizedTransaction>>)
    ensures out.None? <==> choice.Cancelled? || choice == Selected([])
    ensures choice.AllCategories? ==> out == Some(rows)
    ensures choice.Selected? && out.Some? ==>
      && IsSubsequence(out.value, rows)
      && forall r :: multiset(out.value)[r] == if r.category in choice.categories then multiset(rows)[r] else 0
  {
    match choice
    case Cancelled => None
    case AllCategories => Some(rows)
    case Selected(categories) =>
      if categories == [] then None
      else
        KeepIsSubsequence(rows, InSelection(categories));
        KeepCount(rows, InSelection(categories));
        Some(Keep(rows, InSelection(categories)))
  }
}
