/**
 * The aggregations of services/analytics.py over a snapshot of ledger rows
 * (a DataFrame is a sequence of rows here). All sums are exact integers.
 */
module Analytics {
  import Storage
  import Transaction

  type Row = Storage.Row

  /** Rows counted by the month summary: income and expense rows. */
  predicate IsTracked(kind: string) {
    kind == Transaction.Income || kind == Transaction.Expense
  }

  /** `df[df["date"].str.startswith(year_month)]`: the rows of the month, in their order. */
  function InMonth(rows: seq<Row>, yearMonth: string): (r: seq<Row>)
    ensures |r| <= |rows|
    ensures forall x :: x in r <==> x in rows && yearMonth <= x.date
  {
    if rows == [] then []
    else (if yearMonth <= rows[0].date then [rows[0]] else []) + InMonth(rows[1..], yearMonth)
  }

  /** The mask keeps every matching row as often as it occurs and drops every other row. */
  lemma {:induction false} InMonthCounts(rows: seq<Row>, yearMonth: string)
    ensures forall x :: multiset(InMonth(rows, yearMonth))[x] == if yearMonth <= x.date then multiset(rows)[x] else 0
  {
    if rows != [] {
      InMonthCounts(rows[1..], yearMonth);
      assert rows == [rows[0]] + rows[1..];
    }
  }

  // ---------------------------------------------------------------------------
  // month_summary

  /** One output row: `category`, `수입` (income), `지출` (expense), `순합` (net). */
  datatype SummaryRow = SummaryRow(category: string, income: int, expense: int, net: int)

  /** Sum of the amounts of the rows of one category and one type (0 when there are none). */
  function SumKind(rows: seq<Row>, category: string, kind: string): int {
    if rows == [] then 0
    else
      (if rows[0].category == category && rows[0].kind == kind then rows[0].amount else 0)
      + SumKind(rows[1..], category, kind)
  }

  /** `category` has at least one income or expense row. */
  ghost predicate HasEntry(rows: seq<Row>, category: string) {
    exists k | 0 <= k < |rows| :: rows[k].category == category && IsTracked(rows[k].kind)
  }

  lemma HasEntryCons(rows: seq<Row>, category: string)
    requires rows != []
    ensures HasEntry(rows, category) <==>
      (rows[0].category == category && IsTracked(rows[0].kind)) || HasEntry(rows[1..], category)
  {
    if HasEntry(rows[1..], category) {
      var k :| 0 <= k < |rows[1..]| && rows[1..][k].category == category && IsTracked(rows[1..][k].kind);
      assert rows[k + 1] == rows[1..][k];
    }
    if HasEntry(rows, category) {
      var k :| 0 <= k < |rows| && rows[k].category == category && IsTracked(rows[k].kind);
      if k > 0 {
        assert rows[1..][k - 1] == rows[k];
      }
    }
  }

  /** The groupby keys: each category with an income or expense row, once. */
  function GroupKeys(rows: seq<Row>): (keys: seq<string>)
    ensures forall c :: c in keys <==> HasEntry(rows, c)
    ensures forall i, j | 0 <= i < j < |keys| :: keys[i] != keys[j]
  {
    if rows == [] then []
    else
      var rest := GroupKeys(rows[1..]);
      HasEntryOfCons(rows, rest);
      if IsTracked(rows[0].kind) && rows[0].category !in rest then [rows[0].category] + rest else rest
  }

  lemma HasEntryOfCons(rows: seq<Row>, rest: seq<string>)
    requires rows != []
    requires forall c :: c in rest <==> HasEntry(rows[1..], c)
    ensures forall c :: HasEntry(rows, c) <==> (rows[0].category == c && IsTracked(rows[0].kind)) || c in rest
  {
    forall c {
      HasEntryCons(rows, c);
    }
  }

  /** The output row of one category: both sums (a missing side is 0) and their difference. */
  function Summarize(rows: seq<Row>, category: string): SummaryRow {
    var income := SumKind(rows, category, Transaction.Income);
    var expense := SumKind(rows, category, Transaction.Expense);
    SummaryRow(category, income, expense, income - expense)
  }

  /** The grouped rows, before sorting. */
  function Groups(rows: seq<Row>): (g: seq<SummaryRow>)
    ensures |g| == |GroupKeys(rows)|
    ensures forall i | 0 <= i < |g| :: g[i] == Summarize(rows, GroupKeys(rows)[i])
  {
    var keys := GroupKeys(rows);
    seq(|keys|, i requires 0 <= i < |keys| => Summarize(rows, keys[i]))
  }

  predicate NetSorted(s: seq<SummaryRow>) {
    forall i, j | 0 <= i < j < |s| :: s[i].net >= s[j].net
  }

  predicate DistinctCategories(s: seq<SummaryRow>) {
    forall i, j | 0 <= i < j < |s| :: s[i].category != s[j].category
  }

  function CategoriesIn(s: seq<SummaryRow>): set<string> {
    set x | x in s :: x.category
  }

  /** Insert `x` into rows already ordered by net, highest first. */
  function InsertByNet(x: SummaryRow, s: seq<SummaryRow>): (r: seq<SummaryRow>)
    requires NetSorted(s)
    ensures NetSorted(r)
    ensures multiset(r) == multiset(s) + multiset{x}
    ensures DistinctCategories(s) && x.category !in CategoriesIn(s) ==> DistinctCategories(r)
  {
    if s == [] then [x]
    else if x.net >= s[0].net then [x] + s
    else
      var rest := InsertByNet(x, s[1..]);
      InsertBehind(x, s, rest);
      [s[0]] + rest
  }

  /** Keeping the head in front of the insertion into the tail keeps order and distinctness. */
  lemma InsertBehind(x: SummaryRow, s: seq<SummaryRow>, rest: seq<SummaryRow>)
    requires NetSorted(s) && s != [] && x.net < s[0].net
    requires NetSorted(rest)
    requires multiset(rest) == multiset(s[1..]) + multiset{x}
    requires DistinctCategories(s) && x.category !in CategoriesIn(s) ==> DistinctCategories(rest)
    ensures NetSorted([s[0]] + rest)
    ensures multiset([s[0]] + rest) == multiset(s) + multiset{x}
    ensures DistinctCategories(s) && x.category !in CategoriesIn(s) ==> DistinctCategories([s[0]] + rest)
  {
    assert s == [s[0]] + s[1..];
    var r := [s[0]] + rest;
    forall j | 0 < j < |r| ensures r[j] == x || exists k | 1 <= k < |s| :: r[j] == s[k] {
      assert r[j] in multiset(rest);
      if r[j] != x {
        assert r[j] in s[1..];
        var k :| 0 <= k < |s[1..]| && s[1..][k] == r[j];
        assert s[k + 1] == r[j];
      }
    }
    if DistinctCategories(s) && x.category !in CategoriesIn(s) {
      assert s[0] in s;
      forall j | 0 < j < |r| ensures r[0].category != r[j].category {
        if r[j] != x {
          var k :| 1 <= k < |s| && r[j] == s[k];
        }
      }
    }
  }

  /** `sort_values("순합", ascending=False)`: a reordering with nets non-increasing. */
  function SortByNet(s: seq<SummaryRow>): (r: seq<SummaryRow>)
    ensures NetSorted(r)
    ensures multiset(r) == multiset(s)
    ensures DistinctCategories(s) ==> DistinctCategories(r)
  {
    if s == [] then []
    else
      var rest := SortByNet(s[1..]);
      HeadOutsideSortedTail(s, rest);
      InsertByNet(s[0], rest)
  }

  /** The head of a list with distinct categories shares its category with no reordering of the tail. */
  lemma HeadOutsideSortedTail(s: seq<SummaryRow>, rest: seq<SummaryRow>)
    requires s != [] && multiset(rest) == multiset(s[1..])
    ensures multiset(s) == multiset(rest) + multiset{s[0]}
    ensures DistinctCategories(s) ==> DistinctCategories(s[1..]) && s[0].category !in CategoriesIn(rest)
  {
    assert s == [s[0]] + s[1..];
    if DistinctCategories(s) {
      forall y | y in rest ensures y.category != s[0].category {
        assert y in multiset(rest);
        var k :| 0 <= k < |s[1..]| && s[1..][k] == y;
        assert s[k + 1] == y;
      }
    }
  }

  /**
   * `month_summary(df, year_month)`: one row per category that has an income
   * or expense row in the month, with its income and expense sums and their
   * difference, ordered by net, highest first (the order of equal nets is
   * left open).
   */
  function MonthSummary(rows: seq<Row>, yearMonth: string): (r: seq<SummaryRow>)
    ensures InMonth(rows, yearMonth) == [] ==> r == []
    ensures NetSorted(r)
    ensures DistinctCategories(r)
    ensures forall c :: c in CategoriesIn(r) <==> HasEntry(InMonth(rows, yearMonth), c)
    ensures forall i | 0 <= i < |r| ::
      && r[i].income == SumKind(InMonth(rows, yearMonth), r[i].category, Transaction.Income)
      && r[i].expense == SumKind(InMonth(rows, yearMonth), r[i].category, Transaction.Expense)
      && r[i].net == r[i].income - r[i].expense
  {
    if rows == [] then []
    else
      var month := InMonth(rows, yearMonth);
      if month == [] then []
      else
        var g := Groups(month);
        var r := SortByNet(g);
        SortedGroupsFacts(month, g, r);
        r
  }

  lemma SortedGroupsFacts(month: seq<Row>, g: seq<SummaryRow>, r: seq<SummaryRow>)
    requires g == Groups(month)
    requires multiset(r) == multiset(g)
    ensures DistinctCategories(g)
    ensures forall c :: c in CategoriesIn(r) <==> HasEntry(month, c)
    ensures forall i | 0 <= i < |r| :: r[i] == Summarize(month, r[i].category)
  {
    var keys := GroupKeys(month);
    forall x | x in r ensures x in g {
      assert x in multiset(r);
    }
    forall x | x in g ensures x in r {
      assert x in multiset(g);
    }
    forall i | 0 <= i < |r| ensures r[i] == Summarize(month, r[i].category) {
      assert r[i] in g;
    }
    forall c ensures c in CategoriesIn(r) <==> HasEntry(month, c) {
      if c in CategoriesIn(r) {
        var x :| x in r && x.category == c;
        var i :| 0 <= i < |g| && g[i] == x;
        assert keys[i] == c;
      }
      if HasEntry(month, c) {
        var i :| 0 <= i < |keys| && keys[i] == c;
        assert g[i] in r;
      }
    }
  }

  /** A category with no row of one type has 0 on that side. */
  lemma {:induction false} MissingSideIsZero(rows: seq<Row>, category: string, kind: string)
    requires forall k | 0 <= k < |rows| :: !(rows[k].category == category && rows[k].kind == kind)
    ensures SumKind(rows, category, kind) == 0
  {
    if rows != [] {
      assert forall k | 0 <= k < |rows[1..]| :: rows[1..][k] == rows[k + 1];
      MissingSideIsZero(rows[1..], category, kind);
    }
  }

  // ---------------------------------------------------------------------------
  // daily_net_series

  /** `sign_amt`: the amount for an income row, its negation for a row of any other type. */
  function Signed(r: Row): (v: int)
    ensures r.kind == Transaction.Income ==> v == r.amount
    ensures r.kind != Transaction.Income ==> v == -r.amount
  {
    if r.kind == Transaction.Income then r.amount else -r.amount
  }

  /** The signed sum of the rows dated exactly `date`. */
  function NetOn(rows: seq<Row>, date: string): int {
    if rows == [] then 0
    else (if rows[0].date == date then Signed(rows[0]) else 0) + NetOn(rows[1..], date)
  }

  /** Python's string order: by code point; a proper prefix sorts first. */
  predicate LexLess(a: string, b: string)
    decreases |a|
  {
    if a == [] then b != []
    else if b == [] then false
    else if a[0] != b[0] then a[0] < b[0]
    else LexLess(a[1..], b[1..])
  }

  /** A proper prefix sorts before the text it begins. */
  lemma {:induction false} LexPrefixFirst(a: string, b: string)
    requires a < b
    ensures LexLess(a, b)
    decreases |a|
  {
    if a != [] {
      assert a[1..] < b[1..];
      LexPrefixFirst(a[1..], b[1..]);
    }
  }

  lemma {:induction false} LexIrreflexive(a: string)
    ensures !LexLess(a, a)
    decreases |a|
  {
    if a != [] {
      LexIrreflexive(a[1..]);
    }
  }

  lemma {:induction false} LexTransitive(a: string, b: string, c: string)
    requires LexLess(a, b) && LexLess(b, c)
    ensures LexLess(a, c)
    decreases |a|
  {
    if a != [] && b != [] && c != [] && a[0] == b[0] && b[0] == c[0] {
      LexTransitive(a[1..], b[1..], c[1..]);
    }
  }

  lemma {:induction false} LexTotal(a: string, b: string)
    requires a != b
    ensures LexLess(a, b) || LexLess(b, a)
    decreases |a|
  {
    if a != [] && b != [] && a[0] == b[0] {
      assert a == [a[0]] + a[1..] && b == [b[0]] + b[1..];
      LexTotal(a[1..], b[1..]);
    }
  }

  predicate StrictlyAscending(s: seq<(string, int)>) {
    forall i, j | 0 <= i < j < |s| :: LexLess(s[i].0, s[j].0)
  }

  function Dates(s: seq<(string, int)>): set<string> {
    set p | p in s :: p.0
  }

  /** The value recorded for `date` (0 if none). */
  function Lookup(s: seq<(string, int)>, date: string): (v: int)
    ensures date !in Dates(s) ==> v == 0
  {
    if s == [] then 0
    else if s[0].0 == date then s[0].1
    else
      assert Dates(s) == {s[0].0} + Dates(s[1..]);
      Lookup(s[1..], date)
  }

  /** Add `v` to the entry of `date`, inserting it in order when it is new. */
  function AddAt(s: seq<(string, int)>, date: string, v: int): (r: seq<(string, int)>)
    requires StrictlyAscending(s)
    ensures StrictlyAscending(r)
    ensures Dates(r) == Dates(s) + {date}
    ensures forall d :: Lookup(r, d) == Lookup(s, d) + (if d == date then v else 0)
  {
    if s == [] then [(date, v)]
    else
      assert Dates(s) == {s[0].0} + Dates(s[1..]);
      if s[0].0 == date then
        var r := [(date, s[0].1 + v)] + s[1..];
        assert Dates(r) == {date} + Dates(s[1..]);
        r
      else if LexLess(date, s[0].0) then
        LexAllAbove(s, date);
        var r := [(date, v)] + s;
        assert Dates(r) == {date} + Dates(s);
        r
      else
        LexTotal(date, s[0].0);
        var rest := AddAt(s[1..], date, v);
        AddBehind(s, date, v, rest);
        [s[0]] + rest
  }

  /** Keeping the first entry in front of the addition into the rest keeps the series ordered. */
  lemma AddBehind(s: seq<(string, int)>, date: string, v: int, rest: seq<(string, int)>)
    requires StrictlyAscending(s) && s != [] && LexLess(s[0].0, date) && s[0].0 != date
    requires StrictlyAscending(rest) && Dates(rest) == Dates(s[1..]) + {date}
    requires forall d :: Lookup(rest, d) == Lookup(s[1..], d) + (if d == date then v else 0)
    ensures StrictlyAscending([s[0]] + rest)
    ensures Dates([s[0]] + rest) == Dates(s) + {date}
    ensures forall d :: Lookup([s[0]] + rest, d) == Lookup(s, d) + (if d == date then v else 0)
  {
    var r := [s[0]] + rest;
    assert Dates(s) == {s[0].0} + Dates(s[1..]);
    assert Dates(r) == {s[0].0} + Dates(rest);
    AddBehindOrdered(s, date, rest);
    forall d ensures Lookup(r, d) == Lookup(s, d) + (if d == date then v else 0) {
      assert r[1..] == rest;
      if d != s[0].0 {
        assert Lookup(r, d) == Lookup(rest, d);
        assert Lookup(s, d) == Lookup(s[1..], d);
      }
    }
  }

  /** The first entry is below every date of the rest, old or new. */
  lemma AddBehindOrdered(s: seq<(string, int)>, date: string, rest: seq<(string, int)>)
    requires StrictlyAscending(s) && s != [] && LexLess(s[0].0, date)
    requires StrictlyAscending(rest) && Dates(rest) == Dates(s[1..]) + {date}
    ensures StrictlyAscending([s[0]] + rest)
  {
    var r := [s[0]] + rest;
    forall j | 0 < j < |r| ensures LexLess(r[0].0, r[j].0) {
      assert r[j] == rest[j - 1];
      assert r[j].0 in Dates(rest);
      if r[j].0 != date {
        var k :| 0 <= k < |s[1..]| && s[1..][k].0 == r[j].0;
        assert s[k + 1] == s[1..][k];
      }
    }
  }

  /** A date below the first of an ascending series is below all of them, so it is new. */
  lemma LexAllAbove(s: seq<(string, int)>, date: string)
    requires StrictlyAscending(s) && s != [] && LexLess(date, s[0].0)
    ensures forall j | 0 <= j < |s| :: LexLess(date, s[j].0)
    ensures date !in Dates(s)
  {
    forall j | 0 < j < |s| ensures LexLess(date, s[j].0) {
      LexTransitive(date, s[0].0, s[j].0);
    }
    if date in Dates(s) {
      var j :| 0 <= j < |s| && s[j].0 == date;
      LexIrreflexive(date);
    }
  }

  /** The per-date sums of `rows`, ascending by date. */
  function DailyTotals(rows: seq<Row>): (r: seq<(string, int)>)
    ensures StrictlyAscending(r)
    ensures Dates(r) == set x | x in rows :: x.date
    ensures forall d :: Lookup(r, d) == NetOn(rows, d)
  {
    if rows == [] then []
    else
      var rest := DailyTotals(rows[1..]);
      assert (set x | x in rows :: x.date) == {rows[0].date} + (set x | x in rows[1..] :: x.date) by {
        assert rows == [rows[0]] + rows[1..];
      }
      AddAt(rest, rows[0].date, Signed(rows[0]))
  }

  /** In an ascending series each date's entry is the one `Lookup` finds. */
  lemma {:induction false} LookupAt(s: seq<(string, int)>, i: nat)
    requires StrictlyAscending(s) && i < |s|
    ensures Lookup(s, s[i].0) == s[i].1
  {
    if i > 0 {
      assert s[0].0 != s[i].0 by {
        if s[0].0 == s[i].0 {
          LexIrreflexive(s[0].0);
        }
      }
      assert s[1..][i - 1] == s[i];
      LookupAt(s[1..], i - 1);
    }
  }

  /**
   * `daily_net_series(df, year_month)`: one entry per date of the month,
   * strictly ascending by date, holding that date's signed sum.
   */
  function DailyNetSeries(rows: seq<Row>, yearMonth: string): (r: seq<(string, int)>)
    ensures InMonth(rows, yearMonth) == [] ==> r == []
    ensures StrictlyAscending(r)
    ensures Dates(r) == set x | x in InMonth(rows, yearMonth) :: x.date
    ensures forall i | 0 <= i < |r| :: r[i].1 == NetOn(InMonth(rows, yearMonth), r[i].0)
  {
    if rows == [] then []
    else
      var month := InMonth(rows, yearMonth);
      if month == [] then []
      else
        var r := DailyTotals(month);
        assert forall i | 0 <= i < |r| :: r[i].1 == NetOn(month, r[i].0) by {
          forall i | 0 <= i < |r| ensures r[i].1 == NetOn(month, r[i].0) {
            LookupAt(r, i);
          }
        }
        r
  }

  // ---------------------------------------------------------------------------
  // Worked examples

  /** An expense of 5000 for food and an income of 2000000 as salary, in August 2025. */
  function AugustRows(): seq<Row> {
    [Storage.Row("2025-08-01", Transaction.Expense, "식비", "", 5000),
     Storage.Row("2025-08-02", Transaction.Income, "월급", "", 2000000)]
  }

  lemma AugustGroups()
    ensures InMonth(AugustRows(), "2025-08") == AugustRows()
    ensures Groups(AugustRows()) == [SummaryRow("식비", 0, 5000, -5000), SummaryRow("월급", 2000000, 0, 2000000)]
  {
    var rows := AugustRows();
    var salary := rows[1];
    assert rows[1..] == [salary];
    assert [salary][1..] == [];
    assert InMonth([salary], "2025-08") == [salary];
    assert GroupKeys([salary]) == ["월급"];
    assert GroupKeys(rows) == ["식비", "월급"];
    assert SumKind([salary], "식비", Transaction.Income) == 0;
    assert SumKind([salary], "식비", Transaction.Expense) == 0;
    assert SumKind([salary], "월급", Transaction.Income) == 2000000;
    assert SumKind([salary], "월급", Transaction.Expense) == 0;
  }

  /** The summary lists salary first (higher net), each side summed, the missing side 0. */
  lemma AugustSummary()
    ensures MonthSummary(AugustRows(), "2025-08") ==
      [SummaryRow("월급", 2000000, 0, 2000000), SummaryRow("식비", 0, 5000, -5000)]
  {
    AugustGroups();
    var a := SummaryRow("식비", 0, 5000, -5000);
    var b := SummaryRow("월급", 2000000, 0, 2000000);
    assert [a, b][1..] == [b];
    assert SortByNet([b]) == [b];
    assert InsertByNet(a, [b]) == [b, a];
  }

  /** The daily series has one entry per day, ascending. */
  lemma AugustDaily()
    ensures DailyNetSeries(AugustRows(), "2025-08") == [("2025-08-01", -5000), ("2025-08-02", 2000000)]
  {
    AugustGroups();
    var rows := AugustRows();
    assert rows[1..] == [rows[1]];
    assert [rows[1]][1..] == [];
    var late := DailyTotals([rows[1]]);
    assert late == [("2025-08-02", 2000000)];
    AugustAddEarlierDay();
  }

  lemma AugustAddEarlierDay()
    ensures AddAt([("2025-08-02", 2000000)], "2025-08-01", -5000) ==
      [("2025-08-01", -5000), ("2025-08-02", 2000000)]
  {
    var early, late := "2025-08-01", "2025-08-02";
    assert early == "2025-08-0" + ['1'];
    assert late == "2025-08-0" + ['2'];
    LexPrefixStep("2025-08-0", '1', '2');
    assert early[9] != late[9];
    AddBeforeOnly(late, 2000000, early, -5000);
  }

  /** A date below the only entry of a series goes in front of it. */
  lemma AddBeforeOnly(late: string, x: int, early: string, v: int)
    requires LexLess(early, late) && early != late
    ensures AddAt([(late, x)], early, v) == [(early, v), (late, x)]
  {
  }

  /** Strings that agree up to a position are ordered by their first differing character. */
  lemma {:induction false} LexPrefixStep(p: string, a: char, b: char)
    requires a < b
    ensures LexLess(p + [a], p + [b])
    decreases |p|
  {
    if p != [] {
      assert (p + [a])[1..] == p[1..] + [a];
      assert (p + [b])[1..] == p[1..] + [b];
      LexPrefixStep(p[1..], a, b);
    }
  }

  /**
   * A row whose type is neither income nor expense is left out of the month
   * summary but counted as an outflow by the daily series.
   */
  lemma UntrackedTypeExample(amount: int)
    ensures var rows := [Storage.Row("2025-08-03", "기타", "교통", "", amount)];
            && MonthSummary(rows, "2025-08") == []
            && DailyNetSeries(rows, "2025-08") == [("2025-08-03", -amount)]
  {
    var row := Storage.Row("2025-08-03", "기타", "교통", "", amount);
    var rows := [row];
    assert rows[1..] == [];
    assert InMonth(rows, "2025-08") == rows;
    assert !IsTracked("기타");
    assert GroupKeys(rows) == [];
    assert Groups(rows) == [];
    assert DailyTotals(rows) == [("2025-08-03", -amount)];
  }
}
