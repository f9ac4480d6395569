/** The keyword categoriser: an ordered table of (category, keywords) rules,
    first match wins, titles that match nothing fall into "others". */
module Categorizer {
  import opened Seqs
  import opened Text
  import opened Ledger
  import opened Utils

  /** One entry of the keyword table. */
  datatype Rule = Rule(category: string, keywords: seq<string>)

  /** The keyword table, in declaration order; that order decides ties. */
  type KeywordTable = seq<Rule>

  const Others: string := "others"

  /** The table the categoriser is built with. */
  function DefaultTable(): KeywordTable
  {
    [ Rule("market", ["benedete", "imperio", "market", "delta", "assai", "lojao", "americanas"]),
      Rule("health", ["drogal", "remedio", "saude", "raia", "drogasil", "pague menos"]),
      Rule("online services", ["netflix", "youtube premium", "google one", "ifood", "microsoft", "office", "apple", "melimais"]),
      Rule("restaurants", ["restaurante", "burger", "mcdonalds", "kissburgers", "lanchonete", "esfirraria", "churros"]),
      Rule("automotive", ["posto", "nutag", "abastece", "abasteceai", "estacionamento", "f park"]),
      Rule("taxes", ["pagamento recebido", "txentregvisto"]) ]
  }

  /** The category names of a table are distinct (they are the keys of a
      dictionary) and none is the fallback name. */
  ghost predicate WellFormed(table: KeywordTable)
  {
    && (forall i, j :: 0 <= i < j < |table| ==> table[i].category != table[j].category)
    && (forall i :: 0 <= i < |table| ==> table[i].category != Others)
  }

  /** Some keyword of `rule` is a substring of `t`. */
  ghost predicate Matches(rule: Rule, t: string)
  {
    exists j :: 0 <= j < |rule.keywords| && Occurs(rule.keywords[j], t)
  }

  /** Rule `i` is the first rule of the table that matches `t`. */
  ghost predicate IsFirstMatch(table: KeywordTable, t: string, i: int)
  {
    && 0 <= i < |table|
    && Matches(table[i], t)
    && forall j :: 0 <= j < i ==> !Matches(table[j], t)
  }

  ghost predicate NoMatch(table: KeywordTable, t: string)
  {
    forall i :: 0 <= i < |table| ==> !Matches(table[i], t)
  }

  /** The inner loop: scans the keywords of one rule in list order. */
  function AnyKeywordIn(keywords: seq<string>, t: string): bool
  {
    |keywords| > 0 && (Contains(t, keywords[0]) || AnyKeywordIn(keywords[1..], t))
  }

  /** The outer loop: scans the rules in table order and returns the first
      category with a matching keyword. */
  function FirstMatch(table: KeywordTable, t: string): string
  {
    if table == [] then Others
    else if AnyKeywordIn(table[0].keywords, t) then table[0].category
    else FirstMatch(table[1..], t)
  }

  /** `categorize_title`. */
  function CategorizeTitle(table: KeywordTable, title: string): string
  {
    FirstMatch(table, Lower(title))
  }

  lemma {:induction false} AnyKeywordInSpec(keywords: seq<string>, t: string)
    ensures AnyKeywordIn(keywords, t) <==> Matches(Rule("", keywords), t)
  {
    if keywords != [] {
      AnyKeywordInSpec(keywords[1..], t);
      ContainsIffOccurs(t, keywords[0]);
      if Matches(Rule("", keywords[1..]), t) {
        var j :| 0 <= j < |keywords[1..]| && Occurs(keywords[1..][j], t);
        assert keywords[j + 1] == keywords[1..][j];
      }
      if Matches(Rule("", keywords), t) && !Contains(t, keywords[0]) {
        var j :| 0 <= j < |keywords| && Occurs(keywords[j], t);
        assert j != 0 && keywords[1..][j - 1] == keywords[j];
      }
    }
  }

  lemma {:induction false} FirstMatchSpec(table: KeywordTable, t: string)
    ensures NoMatch(table, t) ==> FirstMatch(table, t) == Others
    ensures forall i :: IsFirstMatch(table, t, i) ==> FirstMatch(table, t) == table[i].category
    ensures NoMatch(table, t) || exists i :: IsFirstMatch(table, t, i)
  {
    if table != [] {
      FirstMatchSpec(table[1..], t);
      AnyKeywordInSpec(table[0].keywords, t);
      assert Matches(table[0], t) <==> Matches(Rule("", table[0].keywords), t);
      if !Matches(table[0], t) {
        forall i | IsFirstMatch(table, t, i) ensures IsFirstMatch(table[1..], t, i - 1) {
          assert i != 0;
          forall j | 0 <= j < i - 1 ensures !Matches(table[1..][j], t) {
            assert table[1..][j] == table[j + 1];
          }
        }
        if NoMatch(table[1..], t) {
          forall i | 0 <= i < |table| ensures !Matches(table[i], t) {
            if i > 0 {
              assert table[i] == table[1..][i - 1];
            }
          }
        } else {
          var i :| IsFirstMatch(table[1..], t, i);
          assert table[i + 1] == table[1..][i];
          forall j | 0 <= j < i + 1 ensures !Matches(table[j], t) {
            if j > 0 {
              assert table[j] == table[1..][j - 1];
            }
          }
          assert IsFirstMatch(table, t, i + 1);
        }
      } else {
        assert IsFirstMatch(table, t, 0);
      }
    }
  }

  /** A title is given the category of the first rule, in table order, that has
      a keyword occurring in the lower-cased title, and "others" when no rule
      has one. */
  lemma CategorizeTitleSpec(table: KeywordTable, title: string)
    ensures NoMatch(table, Lower(title)) ==> CategorizeTitle(table, title) == Others
    ensures forall i :: IsFirstMatch(table, Lower(title), i) ==> CategorizeTitle(table, title) == table[i].category
  {
    FirstMatchSpec(table, Lower(title));
  }

  /** The result is one of the table's category names or "others". */
  lemma CategorizeTitleInRange(table: KeywordTable, title: string)
    ensures var c := CategorizeTitle(table, title);
            c == Others || exists i :: 0 <= i < |table| && c == table[i].category
  {
    FirstMatchSpec(table, Lower(title));
  }

  /** For a table whose names are not "others", a title falls into "others"
      exactly when no keyword of any rule occurs in the lower-cased title. */
  lemma OthersIffNoMatch(table: KeywordTable, title: string)
    requires WellFormed(table)
    ensures CategorizeTitle(table, title) == Others <==> NoMatch(table, Lower(title))
  {
    FirstMatchSpec(table, Lower(title));
  }

  /** Tie-break: when the title matches two rules, the later one never wins. */
  lemma EarlierRuleWins(table: KeywordTable, title: string, i: int, j: int)
    requires WellFormed(table)
    requires 0 <= i < j < |table|
    requires Matches(table[i], Lower(title)) && Matches(table[j], Lower(title))
    ensures CategorizeTitle(table, title) != table[j].category
  {
    FirstMatchSpec(table, Lower(title));
    var k :| IsFirstMatch(table, Lower(title), k);
    assert k <= i;
  }

  /** Titles that differ only in letter case get the same category. */
  lemma CaseInsensitive(table: KeywordTable, title: string)
    ensures CategorizeTitle(table, Lower(title)) == CategorizeTitle(table, title)
  {
    LowerIsLower(title);
  }

  /** Keywords are not lower-cased, so a rule whose keyword has a capital letter
      is never matched through that keyword. */
  lemma CapitalKeywordNeverMatches(table: KeywordTable, title: string, i: int, k: int, j: int)
    requires 0 <= i < |table| && 0 <= k < |table[i].keywords|
    requires 0 <= j < |table[i].keywords[k]| && 'A' <= table[i].keywords[k][j] <= 'Z'
    ensures !Occurs(table[i].keywords[k], Lower(title))
  {
    CapitalNeverOccursInLower(table[i].keywords[k], title, j);
  }

  lemma {:induction false} NoKeywordIn(keywords: seq<string>, t: string)
    requires forall j :: 0 <= j < |keywords| ==> !Contains(t, keywords[j])
    ensures !AnyKeywordIn(keywords, t)
  {
    if keywords != [] {
      NoKeywordIn(keywords[1..], t);
    }
  }

  /** Rules none of whose keywords occur are passed over. */
  lemma {:induction false} FirstMatchSkips(table: KeywordTable, t: string, k: nat)
    requires k <= |table|
    requires forall j :: 0 <= j < k ==> !AnyKeywordIn(table[j].keywords, t)
    ensures FirstMatch(table, t) == FirstMatch(table[k..], t)
  {
    if k > 0 {
      FirstMatchSkips(table[1..], t, k - 1);
      assert table[1..][k - 1..] == table[k..];
    }
  }

  lemma DefaultTableWellFormed()
    ensures WellFormed(DefaultTable())
  {
  }

  /** `categorize_transactions`: drops the rows with a negative amount and
      gives every kept row the category of its title. */
  function CategorizeTransactions(table: KeywordTable, rows: seq<Transaction>): seq<CategorizedTransaction>
  {
    var kept := FilterNegative(rows);
    seq(|kept|, i requires 0 <= i < |kept| => CategorizedTransaction(kept[i], CategorizeTitle(table, kept[i].title)))
  }

  /** The output holds exactly the input rows whose amount is not negative,
      unchanged and in their original order, each with the category of its
      title, which is a table name or "others". */
  lemma CategorizeTransactionsSpec(table: KeywordTable, rows: seq<Transaction>)
    ensures var out := CategorizeTransactions(table, rows);
      && Untag(out) == FilterNegative(rows)
      && IsSubsequence(Untag(out), rows)
      && (forall t :: multiset(Untag(out))[t] == if t.amount >= 0 then multiset(rows)[t] else 0)
      && (forall r :: r in out ==> r.txn.amount >= 0 && r.category == CategorizeTitle(table, r.txn.title))
      && (forall r :: r in out ==> r.category == Others || exists i :: 0 <= i < |table| && r.category == table[i].category)
  {
    var out := CategorizeTransactions(table, rows);
    FilterNegativeSpec(rows);
    assert Untag(out) == FilterNegative(rows);
    forall r | r in out
      ensures r.txn.amount >= 0 && r.category == CategorizeTitle(table, r.txn.title)
      ensures r.category == Others || exists i :: 0 <= i < |table| && r.category == table[i].category
    {
      var k :| 0 <= k < |out| && out[k] == r;
      assert r.txn == FilterNegative(rows)[k];
      CategorizeTitleInRange(table, r.txn.title);
    }
  }

  /** Running the categoriser again on its own output, with the old category
      column ignored, reproduces that output. */
  lemma CategorizeTransactionsIdempotent(table: KeywordTable, rows: seq<Transaction>)
    ensures var out := CategorizeTransactions(table, rows);
            CategorizeTransactions(table, Untag(out)) == out
  {
    var out := CategorizeTransactions(table, rows);
    assert Untag(out) == FilterNegative(rows);
    FilterNegativeIdempotent(rows);
  }
}

/** The cases of the categoriser's unit tests. A keyword that does not occur
    in a title is ruled out by one of its letters that the title lacks. */
module CategorizerExamples {
  import opened Seqs
  import opened Text
  import opened Ledger
  import opened Utils
  import opened Categorizer

  lemma NoMarketKeyword(t: string)
    requires 'a' !in t && 'd' !in t && 'l' !in t && 'm' !in t
    ensures !AnyKeywordIn(DefaultTable()[0].keywords, t)
  {
    MissingCharNotContained(t, "benedete", 'd');
    MissingCharNotContained(t, "imperio", 'm');
    MissingCharNotContained(t, "market", 'm');
    MissingCharNotContained(t, "delta", 'd');
    MissingCharNotContained(t, "assai", 'a');
    MissingCharNotContained(t, "lojao", 'l');
    MissingCharNotContained(t, "americanas", 'a');
    NoKeywordIn(DefaultTable()[0].keywords, t);
  }

  lemma NoHealthKeyword(t: string)
    requires 'a' !in t && 'd' !in t
    ensures !AnyKeywordIn(DefaultTable()[1].keywords, t)
  {
    MissingCharNotContained(t, "drogal", 'd');
    MissingCharNotContained(t, "remedio", 'd');
    MissingCharNotContained(t, "saude", 'd');
    MissingCharNotContained(t, "raia", 'a');
    MissingCharNotContained(t, "drogasil", 'd');
    MissingCharNotContained(t, "pague menos", 'a');
    NoKeywordIn(DefaultTable()[1].keywords, t);
  }

  lemma NoOnlineServicesKeyword(t: string)
    requires 'a' !in t && 'f' !in t && 'l' !in t && 'y' !in t
    ensures !AnyKeywordIn(DefaultTable()[2].keywords, t)
  {
    MissingCharNotContained(t, "netflix", 'f');
    MissingCharNotContained(t, "youtube premium", 'y');
    MissingCharNotContained(t, "google one", 'l');
    MissingCharNotContained(t, "ifood", 'f');
    MissingCharNotContained(t, "microsoft", 'f');
    MissingCharNotContained(t, "office", 'f');
    MissingCharNotContained(t, "apple", 'a');
    MissingCharNotContained(t, "melimais", 'a');
    NoKeywordIn(DefaultTable()[2].keywords, t);
  }

  lemma NoRestaurantsKeyword(t: string)
    requires 'a' !in t && 'b' !in t && 'c' !in t
    ensures !AnyKeywordIn(DefaultTable()[3].keywords, t)
  {
    MissingCharNotContained(t, "restaurante", 'a');
    MissingCharNotContained(t, "burger", 'b');
    MissingCharNotContained(t, "mcdonalds", 'a');
    MissingCharNotContained(t, "kissburgers", 'b');
    MissingCharNotContained(t, "lanchonete", 'a');
    MissingCharNotContained(t, "esfirraria", 'a');
    MissingCharNotContained(t, "churros", 'c');
    NoKeywordIn(DefaultTable()[3].keywords, t);
  }

  lemma NoAutomotiveKeyword(t: string)
    requires 'a' !in t && 'p' !in t
    ensures !AnyKeywordIn(DefaultTable()[4].keywords, t)
  {
    MissingCharNotContained(t, "posto", 'p');
    MissingCharNotContained(t, "nutag", 'a');
    MissingCharNotContained(t, "abastece", 'a');
    MissingCharNotContained(t, "abasteceai", 'a');
    MissingCharNotContained(t, "estacionamento", 'a');
    MissingCharNotContained(t, "f park", 'a');
    NoKeywordIn(DefaultTable()[4].keywords, t);
  }

  lemma NoTaxesKeyword(t: string)
    requires 'a' !in t && 'v' !in t
    ensures !AnyKeywordIn(DefaultTable()[5].keywords, t)
  {
    MissingCharNotContained(t, "pagamento recebido", 'a');
    MissingCharNotContained(t, "txentregvisto", 'v');
    NoKeywordIn(DefaultTable()[5].keywords, t);
  }

  /** A lower-cased title that contains "burger" but lacks the letters that
      rule out every keyword of the first three rules is a restaurant:
      "burger" is a keyword of the fourth rule. */
  lemma BurgerTitleIsRestaurant(t: string)
    requires 'a' !in t && 'd' !in t && 'f' !in t && 'l' !in t && 'm' !in t && 'y' !in t
    requires Contains(t, "burger")
    ensures FirstMatch(DefaultTable(), t) == "restaurants"
  {
    NoMarketKeyword(t);
    NoHealthKeyword(t);
    NoOnlineServicesKeyword(t);
    var table := DefaultTable();
    assert table[3].keywords[1..][0] == "burger";
    assert AnyKeywordIn(table[3].keywords, t);
    FirstMatchSkips(table, t, 3);
    assert table[3..][0] == table[3];
  }

  /** A lower-cased title lacking these ten letters matches no rule. */
  lemma LetterlessTitleIsOthers(t: string)
    requires 'a' !in t && 'b' !in t && 'c' !in t && 'd' !in t && 'f' !in t
    requires 'l' !in t && 'm' !in t && 'p' !in t && 'v' !in t && 'y' !in t
    ensures FirstMatch(DefaultTable(), t) == Others
  {
    NoMarketKeyword(t);
    NoHealthKeyword(t);
    NoOnlineServicesKeyword(t);
    NoRestaurantsKeyword(t);
    NoAutomotiveKeyword(t);
    NoTaxesKeyword(t);
    FirstMatchSkips(DefaultTable(), t, 6);
  }

  /** "Burger King" is a restaurant: "burger" is the first keyword hit, in the
      fourth rule. */
  lemma BurgerKingIsRestaurant()
    ensures CategorizeTitle(DefaultTable(), "Burger King") == "restaurants"
  {
    var t := Lower("Burger King");
    assert t == "burger king";
    PrefixContained(t, "burger");
    BurgerTitleIsRestaurant(t);
  }

  /** "Geraldo Benedete e Cia" is a market: "benedete" occurs inside the title. */
  lemma BenedeteIsMarket()
    ensures CategorizeTitle(DefaultTable(), "Geraldo Benedete e Cia") == "market"
  {
    var t := Lower("Geraldo Benedete e Cia");
    assert t == "geraldo benedete e cia";
    assert OccursAt("benedete", t, 8);
    ContainsIffOccurs(t, "benedete");
    assert AnyKeywordIn(DefaultTable()[0].keywords, t);
  }

  /** "unknown store" lacks a letter of every keyword of the default table. */
  lemma UnknownStoreLacksLetters()
    ensures var t := "unknown store";
            'a' !in t && 'b' !in t && 'c' !in t && 'd' !in t && 'f' !in t &&
            'l' !in t && 'm' !in t && 'p' !in t && 'v' !in t && 'y' !in t
  {
  }

  /** "Unknown Store" matches no rule and falls into "others". */
  lemma UnknownStoreIsOthers()
    ensures CategorizeTitle(DefaultTable(), "Unknown Store") == Others
  {
    var t := Lower("Unknown Store");
    assert t == "unknown store";
    UnknownStoreLacksLetters();
    LetterlessTitleIsOthers(t);
  }

  /** Of a purchase of 50 and a refund of 10 at Burger King only the purchase
      is kept, as a restaurant expense. */
  lemma CategorizeTransactionsExample()
    ensures var out := CategorizeTransactions(DefaultTable(), [Transaction(20250101, "Burger King", 50), Transaction(20250102, "Burger King", -10)]);
            out == [CategorizedTransaction(Transaction(20250101, "Burger King", 50), "restaurants")]
  {
    var a, b := Transaction(20250101, "Burger King", 50), Transaction(20250102, "Burger King", -10);
    assert [a, b][1..] == [b] && [b][1..] == [];
    assert Keep([b], NonNegative) == [];
    assert FilterNegative([a, b]) == [a] + Keep([b], NonNegative);
    BurgerKingIsRestaurant();
  }
}
