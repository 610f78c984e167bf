/** Model of analysis_utils.py: the keyword tables and `extract_problems_and_pluses`, which
    counts, per category, the keywords that occur in the lower-cased review texts. */
module AnalysisUtils {

  /** `NEGATIVE`: keyword -> problem category, in the dictionary's order. */
  const Negative: seq<(string, string)> := [
    ("баг", "Баги"),
    ("ошиб", "Ошибки"),
    ("вылет", "Краши"),
    ("не работает", "Не работает"),
    ("медлен", "Производительность"),
    ("лага", "Производительность"),
    ("реклама", "Реклама"),
    ("подпис", "Подписка")
  ]

  /** `POSITIVE`: keyword -> strength category, in the dictionary's order. */
  const Positive: seq<(string, string)> := [
    ("удоб", "Удобство"),
    ("отлич", "Качество"),
    ("класс", "Качество"),
    ("полез", "Польза"),
    ("быстро", "Скорость")
  ]

  /** The distinct categories of each table. */
  const ProblemCategories: seq<string> := ["Баги", "Ошибки", "Краши", "Не работает", "Производительность", "Реклама", "Подписка"]
  const PlusCategories: seq<string> := ["Удобство", "Качество", "Польза", "Скорость"]

  // ---------------------------------------------------------------------------
  // Substring test

  predicate OccursAt(keyword: string, text: string, i: int) {
    0 <= i && i + |keyword| <= |text| && text[i..i + |keyword|] == keyword
  }

  /** `keyword in text`: true exactly when `keyword` occurs in `text` at some position. */
  function Contains(text: string, keyword: string): (found: bool)
    ensures found <==> exists i :: OccursAt(keyword, text, i)
    decreases |text|
  {
    if |keyword| > |text| then false
    else if text[..|keyword|] == keyword then (assert OccursAt(keyword, text, 0); true)
    else
      var rest := Contains(text[1..], keyword);
      assert forall i :: OccursAt(keyword, text[1..], i) <==> OccursAt(keyword, text, i + 1) by {
        forall i ensures OccursAt(keyword, text[1..], i) <==> OccursAt(keyword, text, i + 1) {
          if 0 <= i && i + |keyword| <= |text[1..]| {
            assert text[1..][i..i + |keyword|] == text[i + 1..i + 1 + |keyword|];
          }
        }
      }
      assert !OccursAt(keyword, text, 0);
      assert forall i :: OccursAt(keyword, text, i) ==> i == 0 || OccursAt(keyword, text[1..], i - 1);
      rest
  }

  // ---------------------------------------------------------------------------
  // What the counters hold

  /** The number of entries of `table` in `category` whose keyword occurs in `low`:
      what one text adds to that category's counter. */
  function Hits(low: string, table: seq<(string, string)>, category: string): (h: nat)
    ensures h <= Matched(low, table)
    decreases |table|
  {
    if table == [] then 0
    else
      var (keyword, cat) := table[|table| - 1];
      Hits(low, table[..|table| - 1], category) + if cat == category && Contains(low, keyword) then 1 else 0
  }

  /** The number of pairs (text, keyword) with the keyword in `category` occurring in the
      lower-cased text. */
  function Count(texts: seq<string>, lower: string -> string, table: seq<(string, string)>, category: string): (n: nat)
    ensures n <= |texts| * |table|
    decreases |texts|
  {
    if texts == [] then 0
    else
      var earlier := Count(texts[..|texts| - 1], lower, table, category);
      var last := Hits(lower(texts[|texts| - 1]), table, category);
      assert (|texts| - 1) * |table| + |table| == |texts| * |table|;
      earlier + last
  }

  /** A Counter's value: 0 for a missing key. */
  function Get(counter: map<string, nat>, key: string): nat {
    if key in counter then counter[key] else 0
  }

  /** The categories a table maps to. */
  function Categories(table: seq<(string, string)>): set<string> {
    set j | 0 <= j < |table| :: table[j].1
  }

  // ---------------------------------------------------------------------------
  // The loop

  /** `extract_problems_and_pluses(texts)`, with `str.lower` given as `lower`. Each
      counter holds, for each category, the number of (text, keyword) hits, and has a key
      exactly for the categories hit at least once. */
  method ExtractProblemsAndPluses(texts: seq<string>, lower: string -> string)
    returns (problems: map<string, nat>, pluses: map<string, nat>)
    ensures forall c :: Get(problems, c) == Count(texts, lower, Negative, c)
    ensures forall c :: c in problems <==> Count(texts, lower, Negative, c) > 0
    ensures forall c :: Get(pluses, c) == Count(texts, lower, Positive, c)
    ensures forall c :: c in pluses <==> Count(texts, lower, Positive, c) > 0
    ensures problems.Keys <= Categories(Negative) && pluses.Keys <= Categories(Positive)
    ensures texts == [] ==> problems == map[] && pluses == map[]
  {
    problems := map[];
    pluses := map[];
    for i := 0 to |texts|
      invariant forall c :: Get(problems, c) == Count(texts[..i], lower, Negative, c)
      invariant forall c :: c in problems <==> Count(texts[..i], lower, Negative, c) > 0
      invariant forall c :: Get(pluses, c) == Count(texts[..i], lower, Positive, c)
      invariant forall c :: c in pluses <==> Count(texts[..i], lower, Positive, c) > 0
    {
      var low := lower(texts[i]);
      assert texts[..i + 1][..i] == texts[..i];
      problems := Increment(problems, low, Negative);
      pluses := Increment(pluses, low, Positive);
    }
    assert texts[..|texts|] == texts;
    forall c | c in problems ensures c in Categories(Negative) {
      CountedCategoryListed(texts, lower, Negative, c);
    }
    forall c | c in pluses ensures c in Categories(Positive) {
      CountedCategoryListed(texts, lower, Positive, c);
    }
  }

  /** The inner `for k, v in TABLE.items(): if k in low: counter[v] += 1` for one text. */
  method Increment(counter: map<string, nat>, low: string, table: seq<(string, string)>)
    returns (counter': map<string, nat>)
    ensures forall c :: Get(counter', c) == Get(counter, c) + Hits(low, table, c)
    ensures forall c :: c in counter' <==> c in counter || Hits(low, table, c) > 0
  {
    counter' := counter;
    for j := 0 to |table|
      invariant forall c :: Get(counter', c) == Get(counter, c) + Hits(low, table[..j], c)
      invariant forall c :: c in counter' <==> c in counter || Hits(low, table[..j], c) > 0
    {
      var (keyword, category) := table[j];
      assert table[..j + 1][..j] == table[..j];
      if Contains(low, keyword) {
        counter' := counter'[category := Get(counter', category) + 1];
      }
    }
    assert table[..|table|] == table;
  }

  // ---------------------------------------------------------------------------
  // Properties

  /** A category is counted only if the table maps some keyword to it. */
  lemma {:induction false} HitCategoryListed(low: string, table: seq<(string, string)>, category: string)
    requires Hits(low, table, category) > 0
    ensures category in Categories(table)
    decreases |table|
  {
    var n := |table| - 1;
    if table[n].1 == category && Contains(low, table[n].0) {
      assert table[n].1 in Categories(table);
    } else {
      HitCategoryListed(low, table[..n], category);
      var j :| 0 <= j < n && table[..n][j].1 == category;
      assert table[j].1 == category;
    }
  }

  /** Every key of `problems` is a value of `NEGATIVE`, every key of `pluses` one of `POSITIVE`. */
  lemma {:induction false} CountedCategoryListed(texts: seq<string>, lower: string -> string, table: seq<(string, string)>, category: string)
    requires Count(texts, lower, table, category) > 0
    ensures category in Categories(table)
    decreases |texts|
  {
    var n := |texts| - 1;
    if Hits(lower(texts[n]), table, category) > 0 {
      HitCategoryListed(lower(texts[n]), table, category);
    } else {
      CountedCategoryListed(texts[..n], lower, table, category);
    }
  }

  /** One more text adds its hits to each count, so no count ever decreases. */
  lemma CountOneMore(texts: seq<string>, text: string, lower: string -> string, table: seq<(string, string)>, category: string)
    ensures Count(texts + [text], lower, table, category) == Count(texts, lower, table, category) + Hits(lower(text), table, category)
    ensures Count(texts + [text], lower, table, category) >= Count(texts, lower, table, category)
  {
    assert (texts + [text])[..|texts|] == texts;
  }

  /** A text whose lower-cased form has both "медлен" and "лага" adds 2 to "Производительность". */
  lemma SlowAndLaggy(text: string, lower: string -> string)
    requires Contains(lower(text), "медлен") && Contains(lower(text), "лага")
    ensures Count([text], lower, Negative, "Производительность") == 2
  {
    var low := lower(text);
    var slow := "Производительность";
    assert Negative[4] == ("медлен", slow) && Negative[5] == ("лага", slow);
    assert [text][..0] == [];
    assert Count([text], lower, Negative, slow) == Hits(low, Negative, slow);
    assert Hits(low, Negative[..0], slow) == 0;
    assert Hits(low, Negative[..1], slow) == 0 by { assert Negative[..1][..0] == Negative[..0]; }
    assert Hits(low, Negative[..2], slow) == 0 by { assert Negative[..2][..1] == Negative[..1]; }
    assert Hits(low, Negative[..3], slow) == 0 by { assert Negative[..3][..2] == Negative[..2]; }
    assert Hits(low, Negative[..4], slow) == 0 by { assert Negative[..4][..3] == Negative[..3]; }
    assert Hits(low, Negative[..5], slow) == 1 by {
      assert Negative[..5][..4] == Negative[..4];
      assert Negative[..5][4] == ("медлен", slow);
      assert Contains(low, "медлен");
    }
    assert Hits(low, Negative[..6], slow) == 2 by {
      assert Negative[..6][..5] == Negative[..5];
      assert Negative[..6][5] == ("лага", slow);
      assert Contains(low, "лага");
    }
    assert Hits(low, Negative[..7], slow) == 2 by { assert Negative[..7][..6] == Negative[..6]; }
    assert Hits(low, Negative[..8], slow) == 2 by { assert Negative[..8][..7] == Negative[..7]; }
    assert Negative[..8] == Negative;
  }

  // ---------------------------------------------------------------------------
  // Per-text bound on the counter totals

  /** The number of entries of `table` whose keyword occurs in `low`. */
  function Matched(low: string, table: seq<(string, string)>): (n: nat)
    ensures n <= |table|
    decreases |table|
  {
    if table == [] then 0
    else Matched(low, table[..|table| - 1]) + if Contains(low, table[|table| - 1].0) then 1 else 0
  }

  /** The hits of one text summed over a list of categories. */
  function SumHits(low: string, table: seq<(string, string)>, categories: seq<string>): nat
    decreases |categories|
  {
    if categories == [] then 0 else Hits(low, table, categories[0]) + SumHits(low, table, categories[1..])
  }

  /** A counter total: the counts summed over a list of categories. */
  function Total(texts: seq<string>, lower: string -> string, table: seq<(string, string)>, categories: seq<string>): nat
    decreases |categories|
  {
    if categories == [] then 0
    else Count(texts, lower, table, categories[0]) + Total(texts, lower, table, categories[1..])
  }

  predicate Distinct(categories: seq<string>) {
    forall i, j :: 0 <= i < j < |categories| ==> categories[i] != categories[j]
  }

  /** How many of `categories` equal `category`: at most one when they are distinct. */
  function Occurrences(categories: seq<string>, category: string): nat
    decreases |categories|
  {
    if categories == [] then 0
    else (if categories[0] == category then 1 else 0) + Occurrences(categories[1..], category)
  }

  lemma {:induction false} OccurrencesAtMostOne(categories: seq<string>, category: string)
    requires Distinct(categories)
    ensures Occurrences(categories, category) <= 1
    ensures category !in categories ==> Occurrences(categories, category) == 0
    decreases |categories|
  {
    if categories != [] {
      OccurrencesAtMostOne(categories[1..], category);
      if categories[0] == category {
        assert category !in categories[1..];
      }
    }
  }

  /** Removing the last table entry takes off one hit for each listed copy of its category. */
  lemma {:induction false} SumHitsLastEntry(low: string, table: seq<(string, string)>, categories: seq<string>)
    requires table != []
    ensures var (keyword, cat) := table[|table| - 1];
      SumHits(low, table, categories)
        == SumHits(low, table[..|table| - 1], categories) + if Contains(low, keyword) then Occurrences(categories, cat) else 0
    decreases |categories|
  {
    if categories != [] {
      SumHitsLastEntry(low, table, categories[1..]);
    }
  }

  /** Over distinct categories, one text's hits add up to at most the number of
      keywords it contains, hence at most the size of the table. */
  lemma {:induction false} SumHitsBound(low: string, table: seq<(string, string)>, categories: seq<string>)
    requires Distinct(categories)
    ensures SumHits(low, table, categories) <= Matched(low, table) <= |table|
    decreases |table|
  {
    if table == [] {
      SumHitsEmptyTable(low, categories);
    } else {
      SumHitsLastEntry(low, table, categories);
      OccurrencesAtMostOne(categories, table[|table| - 1].1);
      SumHitsBound(low, table[..|table| - 1], categories);
    }
  }

  lemma {:induction false} SumHitsEmptyTable(low: string, categories: seq<string>)
    ensures SumHits(low, [], categories) == 0
    decreases |categories|
  {
    if categories != [] {
      SumHitsEmptyTable(low, categories[1..]);
    }
  }

  /** One more text raises a counter total by exactly its summed hits. */
  lemma {:induction false} TotalOneMore(texts: seq<string>, text: string, lower: string -> string, table: seq<(string, string)>, categories: seq<string>)
    ensures Total(texts + [text], lower, table, categories) == Total(texts, lower, table, categories) + SumHits(lower(text), table, categories)
    decreases |categories|
  {
    if categories != [] {
      CountOneMore(texts, text, lower, table, categories[0]);
      TotalOneMore(texts, text, lower, table, categories[1..]);
    }
  }

  /** Over distinct categories, each text raises the counter total by at most the size of the table. */
  lemma TotalOneMoreBound(texts: seq<string>, text: string, lower: string -> string, table: seq<(string, string)>, categories: seq<string>)
    requires Distinct(categories)
    ensures Total(texts + [text], lower, table, categories) <= Total(texts, lower, table, categories) + |table|
  {
    TotalOneMore(texts, text, lower, table, categories);
    SumHitsBound(lower(text), table, categories);
  }

  /** Each text adds at most |NEGATIVE| = 8 to the sum of `problems` and at most
      |POSITIVE| = 5 to the sum of `pluses`. */
  lemma OneTextBound(texts: seq<string>, text: string, lower: string -> string)
    ensures Total(texts + [text], lower, Negative, ProblemCategories) <= Total(texts, lower, Negative, ProblemCategories) + 8
    ensures Total(texts + [text], lower, Positive, PlusCategories) <= Total(texts, lower, Positive, PlusCategories) + 5
  {
    CategoryListsComplete();
    TotalOneMoreBound(texts, text, lower, Negative, ProblemCategories);
    TotalOneMoreBound(texts, text, lower, Positive, PlusCategories);
  }

  /** The category lists are the tables' categories, each listed once, so a total over
      them is the sum of all of a counter's values. */
  lemma CategoryListsComplete()
    ensures Distinct(ProblemCategories) && Distinct(PlusCategories)
    ensures Categories(Negative) == set c | c in ProblemCategories
    ensures Categories(Positive) == set c | c in PlusCategories
  {
    assert Categories(Negative) == set c | c in ProblemCategories by {
      forall c | c in ProblemCategories ensures c in Categories(Negative) {
        var j :| 0 <= j < |ProblemCategories| && ProblemCategories[j] == c;
        var k := [0, 1, 2, 3, 4, 6, 7][j];
        assert Negative[k].1 == c;
      }
    }
    assert Categories(Positive) == set c | c in PlusCategories by {
      forall c | c in PlusCategories ensures c in Categories(Positive) {
        var j :| 0 <= j < |PlusCategories| && PlusCategories[j] == c;
        var k := [0, 1, 3, 4][j];
        assert Positive[k].1 == c;
      }
    }
  }
}
