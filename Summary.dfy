/** The pure part of `generateSummary`: the empty-sheet answer, the period filter, the
    running total and the per-category totals, the period label and the category lines
    in descending order of amount.

    The rows are the sheet's rows `[date, amount, category, description]` with the amount
    already read as a number. Whether a row's date falls in the current day, week or
    month depends on the clock and on date parsing, so it is a parameter `inPeriod`. */
module Summary {
  import opened Expenses

  // ---------------------------------------------------------------------------
  // Periods

  /** The periods the filter looks at dates for; every other value keeps every row */
  predicate IsDatedPeriod(period: string) {
    period == "today" || period == "week" || period == "month"
  }

  /** The period `/summary` asks for: the option given, or "all" when it is missing or
      empty (both falsy) */
  function SummaryPeriod(given: Option<string>): (p: string)
    ensures given.Some? && given.value != "" ==> p == given.value
    ensures given.None? || given.value == "" ==> p == "all" && !IsDatedPeriod(p)
  {
    if given.Some? && given.value != "" then given.value else "all"
  }

  /** The heading of the summary for a period */
  function PeriodLabel(period: string): (heading: string)
    ensures heading == "Today" <==> period == "today"
    ensures heading == "This Week" <==> period == "week"
    ensures heading == "This Month" <==> period == "month"
    ensures heading == "All Time" <==> !IsDatedPeriod(period)
  {
    match period
    case "today" => "Today"
    case "week" => "This Week"
    case "month" => "This Month"
    case _ => "All Time"
  }

  /** Whether the filter keeps a row */
  predicate Keeps(period: string, inPeriod: Row -> bool, row: Row) {
    !IsDatedPeriod(period) || inPeriod(row)
  }

  /** a is b with some elements left out, the rest in the same order */
  ghost predicate IsSubsequence(a: seq<Row>, b: seq<Row>)
    decreases |b|
  {
    if a == [] then true
    else if b == [] then false
    else if a[0] == b[0] then IsSubsequence(a[1..], b[1..])
    else IsSubsequence(a, b[1..])
  }

  /** `rows.filter(...)` for the period: the rows the period keeps, in sheet order */
  function FilterByPeriod(rows: seq<Row>, period: string, inPeriod: Row -> bool): (kept: seq<Row>)
    ensures IsSubsequence(kept, rows)
    ensures forall r | r in kept :: r in rows && Keeps(period, inPeriod, r)
    ensures forall r | r in rows && Keeps(period, inPeriod, r) :: r in kept
    ensures !IsDatedPeriod(period) ==> kept == rows
    ensures (forall r | r in rows :: !Keeps(period, inPeriod, r)) ==> kept == []
  {
    if rows == [] then []
    else
      var rest := FilterByPeriod(rows[1..], period, inPeriod);
      assert forall r | r in rows :: r == rows[0] || r in rows[1..];
      if Keeps(period, inPeriod, rows[0]) then [rows[0]] + rest else rest
  }

  /** The filter keeps every copy of a row the period keeps and no copy of any other row */
  lemma {:induction false} FilterCounts(rows: seq<Row>, period: string, inPeriod: Row -> bool)
    ensures var kept := FilterByPeriod(rows, period, inPeriod);
            forall q :: multiset(kept)[q] == if Keeps(period, inPeriod, q) then multiset(rows)[q] else 0
  {
    if rows != [] {
      FilterCounts(rows[1..], period, inPeriod);
      assert rows == [rows[0]] + rows[1..];
      assert multiset(rows) == multiset{rows[0]} + multiset(rows[1..]);
    }
  }

  // ---------------------------------------------------------------------------
  // Totals

  /** The sum of the amounts of rows */
  function SumAmounts(rows: seq<Row>): real {
    if rows == [] then 0.0 else SumAmounts(rows[..|rows| - 1]) + rows[|rows| - 1].amount
  }

  /** The sum of the amounts of the rows of one category */
  function CategorySum(rows: seq<Row>, category: string): real {
    if rows == [] then 0.0
    else
      var last := rows[|rows| - 1];
      CategorySum(rows[..|rows| - 1], category) + (if last.category == category then last.amount else 0.0)
  }

  /** `byCategory[category] = (byCategory[category] || 0) + amount` */
  function AddTo(m: map<string, real>, category: string, amount: real): map<string, real> {
    m[category := (if category in m then m[category] else 0.0) + amount]
  }

  /** The key order of an object after a key is set: a new key goes last */
  function Appended(order: seq<string>, category: string): seq<string> {
    if category in order then order else order + [category]
  }

  /** `byCategory` after the rows have been added one after the other */
  function CategoryTotals(rows: seq<Row>): map<string, real> {
    if rows == [] then map[]
    else AddTo(CategoryTotals(rows[..|rows| - 1]), rows[|rows| - 1].category, rows[|rows| - 1].amount)
  }

  /** The keys of `byCategory` in the order they were first added, which is the order
      `Object.entries` lists them in */
  function CategoryOrder(rows: seq<Row>): seq<string> {
    if rows == [] then []
    else Appended(CategoryOrder(rows[..|rows| - 1]), rows[|rows| - 1].category)
  }

  /** No element occurs twice */
  predicate Distinct(keys: seq<string>) {
    forall i, j | 0 <= i < j < |keys| :: keys[i] != keys[j]
  }

  /** Distinct keys are as many as the set of them */
  lemma {:induction false} DistinctCount(keys: seq<string>)
    requires Distinct(keys)
    ensures |set k | k in keys| == |keys|
  {
    if keys != [] {
      var init := keys[..|keys| - 1];
      var last := keys[|keys| - 1];
      DistinctCount(init);
      assert (set k | k in keys) == (set k | k in init) + {last};
      assert last !in init;
    }
  }

  /** The sum of m's values at keys */
  function SumOver(keys: seq<string>, m: map<string, real>): real
    requires forall k | k in keys :: k in m
  {
    if keys == [] then 0.0 else SumOver(keys[..|keys| - 1], m) + m[keys[|keys| - 1]]
  }

  /** The keys of `byCategory` are exactly the categories of the rows, and each value is
      the sum of the amounts of that category's rows */
  lemma {:induction false} CategoryTotalsMeaning(rows: seq<Row>)
    ensures forall c :: c in CategoryTotals(rows) <==> exists i | 0 <= i < |rows| :: rows[i].category == c
    ensures forall c :: CategorySum(rows, c) == if c in CategoryTotals(rows) then CategoryTotals(rows)[c] else 0.0
  {
    if rows != [] {
      var init := rows[..|rows| - 1];
      CategoryTotalsMeaning(init);
      forall c ensures c in CategoryTotals(rows) <==> exists i | 0 <= i < |rows| :: rows[i].category == c {
        if exists i | 0 <= i < |init| :: init[i].category == c {
          var i :| 0 <= i < |init| && init[i].category == c;
          assert rows[i].category == c;
        }
        if exists i | 0 <= i < |rows| :: rows[i].category == c {
          var i :| 0 <= i < |rows| && rows[i].category == c;
          if i < |init| {
            assert init[i].category == c;
          }
        }
      }
    }
  }

  /** The order lists every key of `byCategory` once and nothing else */
  lemma {:induction false} CategoryOrderMeaning(rows: seq<Row>)
    ensures Distinct(CategoryOrder(rows))
    ensures forall c :: c in CategoryOrder(rows) <==> c in CategoryTotals(rows)
  {
    if rows != [] {
      CategoryOrderMeaning(rows[..|rows| - 1]);
    }
  }

  /** Adding d to the value of one key adds d to a sum over distinct keys that holds it
      and nothing to one that does not */
  lemma {:induction false} SumOverAdd(keys: seq<string>, m: map<string, real>, c: string, d: real)
    requires Distinct(keys) && c in m && forall k | k in keys :: k in m
    ensures SumOver(keys, m[c := m[c] + d]) == SumOver(keys, m) + (if c in keys then d else 0.0)
  {
    if keys != [] {
      var init := keys[..|keys| - 1];
      SumOverAdd(init, m, c, d);
      assert c in keys <==> c in init || c == keys[|keys| - 1];
      assert c == keys[|keys| - 1] ==> c !in init;
    }
  }

  /** A key that is new to m does not change a sum over keys of m */
  lemma {:induction false} SumOverNew(keys: seq<string>, m: map<string, real>, c: string, v: real)
    requires c !in keys && forall k | k in keys :: k in m
    ensures SumOver(keys, m[c := v]) == SumOver(keys, m)
  {
    if keys != [] {
      SumOverNew(keys[..|keys| - 1], m, c, v);
    }
  }

  /** Adding an amount to one category, new or not, adds it to the sum over the keys */
  lemma SumOverStep(order: seq<string>, m: map<string, real>, c: string, amount: real)
    requires Distinct(order) && forall k :: k in order <==> k in m
    ensures forall k | k in Appended(order, c) :: k in AddTo(m, c, amount)
    ensures SumOver(Appended(order, c), AddTo(m, c, amount)) == SumOver(order, m) + amount
  {
    if c in m {
      SumOverAdd(order, m, c, amount);
    } else {
      SumOverNew(order, m, c, amount);
      var order' := order + [c];
      assert order'[..|order'| - 1] == order;
    }
  }

  /** The total is the sum of the per-category totals */
  lemma {:induction false} TotalIsSumOfCategories(rows: seq<Row>)
    ensures forall k | k in CategoryOrder(rows) :: k in CategoryTotals(rows)
    ensures SumAmounts(rows) == SumOver(CategoryOrder(rows), CategoryTotals(rows))
  {
    CategoryOrderMeaning(rows);
    if rows != [] {
      var init := rows[..|rows| - 1];
      var last := rows[|rows| - 1];
      TotalIsSumOfCategories(init);
      CategoryOrderMeaning(init);
      assert CategoryOrder(rows) == Appended(CategoryOrder(init), last.category);
      assert CategoryTotals(rows) == AddTo(CategoryTotals(init), last.category, last.amount);
      assert SumAmounts(rows) == SumAmounts(init) + last.amount;
      SumOverStep(CategoryOrder(init), CategoryTotals(init), last.category, last.amount);
    }
  }

  /** The `forEach` over the filtered rows: the running total, and `byCategory` with its
      keys in the order they were added */
  method Tally(rows: seq<Row>) returns (total: real, byCategory: map<string, real>, order: seq<string>)
    ensures total == SumAmounts(rows)
    ensures byCategory == CategoryTotals(rows)
    ensures order == CategoryOrder(rows)
  {
    total := 0.0;
    byCategory := map[];
    order := [];
    for i := 0 to |rows|
      invariant total == SumAmounts(rows[..i])
      invariant byCategory == CategoryTotals(rows[..i])
      invariant order == CategoryOrder(rows[..i])
    {
      assert rows[..i + 1][..i] == rows[..i];
      CategoryOrderMeaning(rows[..i]);
      var row := rows[i];
      total := total + row.amount;
      if row.category !in byCategory {
        order := order + [row.category];
      }
      byCategory := byCategory[row.category := (if row.category in byCategory then byCategory[row.category] else 0.0) + row.amount];
    }
    assert rows[..|rows|] == rows;
  }

  // ---------------------------------------------------------------------------
  // The category lines

  /** `Object.entries(byCategory)`: the pairs in key order */
  function Entries(keys: seq<string>, m: map<string, real>): (es: seq<(string, real)>)
    requires forall k | k in keys :: k in m
    ensures |es| == |keys|
    ensures forall i | 0 <= i < |keys| :: es[i] == (keys[i], m[keys[i]])
  {
    if keys == [] then [] else [(keys[0], m[keys[0]])] + Entries(keys[1..], m)
  }

  /** Amounts do not increase along es */
  predicate NonIncreasing(es: seq<(string, real)>) {
    forall i, j | 0 <= i < j < |es| :: es[i].1 >= es[j].1
  }

  /** The entries of es with amount v, in their order in es */
  function WithAmount(es: seq<(string, real)>, v: real): (r: seq<(string, real)>)
    ensures forall x | x in r :: x in es && x.1 == v
  {
    if es == [] then [] else (if es[0].1 == v then [es[0]] else []) + WithAmount(es[1..], v)
  }

  /** e placed before the first entry of es whose amount is not larger, so after the
      entries it comes after in a stable sort */
  function InsertByAmount(e: (string, real), es: seq<(string, real)>): (r: seq<(string, real)>)
    ensures multiset(r) == multiset(es) + multiset{e}
    ensures |r| == |es| + 1 && (r[0] == e || (es != [] && r[0] == es[0]))
  {
    if es == [] then [e]
    else if e.1 >= es[0].1 then [e] + es
    else
      assert es == [es[0]] + es[1..];
      [es[0]] + InsertByAmount(e, es[1..])
  }

  /** Inserting into lines sorted by descending amount keeps them sorted */
  lemma {:induction false} InsertSorted(e: (string, real), es: seq<(string, real)>)
    requires NonIncreasing(es)
    ensures NonIncreasing(InsertByAmount(e, es))
  {
    var r := InsertByAmount(e, es);
    if es == [] {
    } else if e.1 >= es[0].1 {
      assert r == [e] + es;
      forall i, j | 0 <= i < j < |r| ensures r[i].1 >= r[j].1 {
        assert r[j] == es[j - 1];
        if i > 0 {
          assert r[i] == es[i - 1];
        }
      }
    } else {
      assert NonIncreasing(es[1..]) by {
        forall i, j | 0 <= i < j < |es| - 1 ensures es[1..][i].1 >= es[1..][j].1 {
          assert es[1..][i] == es[i + 1] && es[1..][j] == es[j + 1];
        }
      }
      var rest := InsertByAmount(e, es[1..]);
      InsertSorted(e, es[1..]);
      assert r == [es[0]] + rest;
      assert es[0].1 >= rest[0].1;
      forall i, j | 0 <= i < j < |r| ensures r[i].1 >= r[j].1 {
        assert r[j] == rest[j - 1];
        if i > 0 {
          assert r[i] == rest[i - 1];
        }
      }
    }
  }

  lemma WithAmountCons(x: (string, real), xs: seq<(string, real)>, v: real)
    ensures WithAmount([x] + xs, v) == (if x.1 == v then [x] else []) + WithAmount(xs, v)
  {
    assert ([x] + xs)[1..] == xs;
  }

  /** Two prefixes of which one is empty can be taken in either order */
  lemma SwapEmpty<T>(a: seq<T>, b: seq<T>, w: seq<T>)
    requires a == [] || b == []
    ensures a + (b + w) == b + (a + w)
  {
    if a == [] {
      assert a + (b + w) == b + w && a + w == w;
    } else {
      assert b + w == w && b + (a + w) == a + w;
    }
  }

  /** Inserting e puts it first among the entries with its amount and leaves their order
      otherwise as it was */
  lemma {:induction false} InsertKeepsTies(e: (string, real), es: seq<(string, real)>, v: real)
    ensures WithAmount(InsertByAmount(e, es), v) == (if e.1 == v then [e] else []) + WithAmount(es, v)
  {
    if es == [] || e.1 >= es[0].1 {
      WithAmountCons(e, es, v);
    } else {
      var rest := InsertByAmount(e, es[1..]);
      var first, mine := if es[0].1 == v then [es[0]] else [], if e.1 == v then [e] else [];
      calc {
        WithAmount(InsertByAmount(e, es), v);
      == { assert InsertByAmount(e, es) == [es[0]] + rest; }
        WithAmount([es[0]] + rest, v);
      == { WithAmountCons(es[0], rest, v); }
        first + WithAmount(rest, v);
      == { InsertKeepsTies(e, es[1..], v); }
        first + (mine + WithAmount(es[1..], v));
      == { assert e.1 == v ==> es[0].1 != v; SwapEmpty(first, mine, WithAmount(es[1..], v)); }
        mine + (first + WithAmount(es[1..], v));
      == { WithAmountCons(es[0], es[1..], v); assert es == [es[0]] + es[1..]; }
        mine + WithAmount(es, v);
      }
    }
  }

  /** `.sort((a, b) => b[1] - a[1])`: the entries ordered by amount, largest first; the
      sort is stable, which SortKeepsTies states */
  function SortByAmount(es: seq<(string, real)>): (r: seq<(string, real)>)
    ensures NonIncreasing(r)
    ensures multiset(r) == multiset(es)
  {
    if es == [] then []
    else
      assert es == [es[0]] + es[1..];
      InsertSorted(es[0], SortByAmount(es[1..]));
      InsertByAmount(es[0], SortByAmount(es[1..]))
  }

  /** Entries with equal amounts stay in the order they had */
  lemma {:induction false} SortKeepsTies(es: seq<(string, real)>, v: real)
    ensures WithAmount(SortByAmount(es), v) == WithAmount(es, v)
  {
    if es != [] {
      SortKeepsTies(es[1..], v);
      InsertKeepsTies(es[0], SortByAmount(es[1..]), v);
    }
  }

  /** Two categories with the same amount are listed in key order */
  lemma TieExample()
    ensures SortByAmount([("food", 5.0), ("rent", 5.0)]) == [("food", 5.0), ("rent", 5.0)]
  {
    var es := [("food", 5.0), ("rent", 5.0)];
    assert es[1..] == [("rent", 5.0)];
    assert SortByAmount(es[1..]) == [("rent", 5.0)];
  }

  /** The sum of the amounts of the lines */
  function LinesTotal(es: seq<(string, real)>): real {
    if es == [] then 0.0 else es[0].1 + LinesTotal(es[1..])
  }

  lemma {:induction false} LinesTotalAppend(es: seq<(string, real)>, x: (string, real))
    ensures LinesTotal(es + [x]) == LinesTotal(es) + x.1
  {
    if es != [] {
      LinesTotalAppend(es[1..], x);
      assert (es + [x])[1..] == es[1..] + [x];
    }
  }

  /** Inserting a line adds its amount to the sum */
  lemma {:induction false} LinesTotalInsert(e: (string, real), es: seq<(string, real)>)
    ensures LinesTotal(InsertByAmount(e, es)) == LinesTotal(es) + e.1
  {
    if es != [] && e.1 < es[0].1 {
      LinesTotalInsert(e, es[1..]);
      assert InsertByAmount(e, es)[1..] == InsertByAmount(e, es[1..]);
    }
  }

  /** Sorting keeps the sum of the lines */
  lemma {:induction false} LinesTotalSort(es: seq<(string, real)>)
    ensures LinesTotal(SortByAmount(es)) == LinesTotal(es)
  {
    if es != [] {
      LinesTotalSort(es[1..]);
      LinesTotalInsert(es[0], SortByAmount(es[1..]));
    }
  }

  /** The lines of the entries add up to the sum over their keys */
  lemma {:induction false} LinesTotalEntries(keys: seq<string>, m: map<string, real>)
    requires forall k | k in keys :: k in m
    ensures LinesTotal(Entries(keys, m)) == SumOver(keys, m)
  {
    if keys != [] {
      var init := keys[..|keys| - 1];
      var last := keys[|keys| - 1];
      LinesTotalEntries(init, m);
      assert Entries(keys, m) == Entries(init, m) + [(last, m[last])];
      LinesTotalAppend(Entries(init, m), (last, m[last]));
    }
  }

  // ---------------------------------------------------------------------------
  // generateSummary

  /** The message, as its parts: the fixed text for an empty sheet, or the period label,
      the total and the category lines in the order they are written */
  datatype Report =
    | NoExpensesYet
    | PeriodReport(heading: string, total: real, lines: seq<(string, real)>)

  /** What `generateSummary` returns: `{ total, byCategory, message }` */
  datatype SummaryResult = SummaryResult(total: real, byCategory: map<string, real>, report: Report)

  /** The summary of rows for a period: the fixed message exactly for an empty sheet,
      otherwise the period's heading, the total, and as many lines as categories */
  function SummaryOf(rows: seq<Row>, period: string, inPeriod: Row -> bool): (r: SummaryResult)
    ensures rows == [] <==> r.report.NoExpensesYet?
    ensures r.report.NoExpensesYet? ==> r.total == 0.0 && r.byCategory == map[]
    ensures r.report.PeriodReport? ==>
              r.report.heading == PeriodLabel(period) && r.report.total == r.total
              && |r.report.lines| == |r.byCategory|
  {
    if rows == [] then SummaryResult(0.0, map[], NoExpensesYet)
    else
      var kept := FilterByPeriod(rows, period, inPeriod);
      var totals, order := CategoryTotals(kept), CategoryOrder(kept);
      TotalIsSumOfCategories(kept);
      CategoryOrderMeaning(kept);
      DistinctCount(order);
      assert (set k | k in order) == totals.Keys;
      assert |SortByAmount(Entries(order, totals))| == |multiset(Entries(order, totals))|;
      var total := SumAmounts(kept);
      SummaryResult(total, totals, PeriodReport(PeriodLabel(period), total, SortByAmount(Entries(order, totals))))
  }

  /** `generateSummary(rows, period)` once the rows have been read from the sheet */
  method GenerateSummary(rows: seq<Row>, period: string, inPeriod: Row -> bool) returns (s: SummaryResult)
    ensures s == SummaryOf(rows, period, inPeriod)
  {
    if |rows| == 0 {
      return SummaryResult(0.0, map[], NoExpensesYet);
    }
    var kept := FilterByPeriod(rows, period, inPeriod);
    var total, byCategory, order := Tally(kept);
    TotalIsSumOfCategories(kept);
    var lines := SortByAmount(Entries(order, byCategory));
    s := SummaryResult(total, byCategory, PeriodReport(PeriodLabel(period), total, lines));
  }

  /** An empty sheet gives a zero total, no categories and the fixed message */
  lemma EmptySheet(period: string, inPeriod: Row -> bool)
    ensures SummaryOf([], period, inPeriod) == SummaryResult(0.0, map[], NoExpensesYet)
  {
  }

  /** A sheet whose rows all fall outside the period gives a zero total, no categories
      and a report with its label and no category lines */
  lemma NothingInPeriod(rows: seq<Row>, period: string, inPeriod: Row -> bool)
    requires rows != [] && forall r | r in rows :: !Keeps(period, inPeriod, r)
    ensures SummaryOf(rows, period, inPeriod) == SummaryResult(0.0, map[], PeriodReport(PeriodLabel(period), 0.0, []))
  {
    assert FilterByPeriod(rows, period, inPeriod) == [];
  }

  /** The sorted entries of a map, listed by keys that are exactly its keys, are its pairs */
  lemma SortedEntries(keys: seq<string>, m: map<string, real>)
    requires forall k :: k in keys <==> k in m
    ensures forall x | x in SortByAmount(Entries(keys, m)) :: x.0 in m && x.1 == m[x.0]
    ensures forall c | c in m :: (c, m[c]) in SortByAmount(Entries(keys, m))
  {
    var es := Entries(keys, m);
    var lines := SortByAmount(es);
    forall x | x in lines ensures x.0 in m && x.1 == m[x.0] {
      assert x in multiset(lines);
      assert x in es;
    }
    forall c | c in m ensures (c, m[c]) in lines {
      var i :| 0 <= i < |keys| && keys[i] == c;
      assert es[i] == (c, m[c]);
      assert (c, m[c]) in multiset(es);
    }
  }

  /** The totals of a nonempty sheet: the total is the sum of the amounts of the rows the
      period keeps, `byCategory` has a key for exactly the categories of those rows, and
      each value is the sum of that category's amounts */
  lemma SummaryTotals(rows: seq<Row>, period: string, inPeriod: Row -> bool)
    requires rows != []
    ensures var s, kept := SummaryOf(rows, period, inPeriod), FilterByPeriod(rows, period, inPeriod);
            && s.total == SumAmounts(kept)
            && (forall c :: c in s.byCategory <==> exists i | 0 <= i < |kept| :: kept[i].category == c)
            && (forall c | c in s.byCategory :: s.byCategory[c] == CategorySum(kept, c))
  {
    var kept := FilterByPeriod(rows, period, inPeriod);
    CategoryTotalsMeaning(kept);
  }

  /** The category lines of a nonempty sheet: under the period's label, one line per key of
      `byCategory` with its value, largest amount first, categories with equal amounts in
      key order, adding up to the total */
  lemma SummaryLines(rows: seq<Row>, period: string, inPeriod: Row -> bool)
    requires rows != []
    ensures var s, kept := SummaryOf(rows, period, inPeriod), FilterByPeriod(rows, period, inPeriod);
            && s.report.PeriodReport? && s.report.heading == PeriodLabel(period) && s.report.total == s.total
            && NonIncreasing(s.report.lines)
            && LinesTotal(s.report.lines) == s.total
            && |s.report.lines| == |s.byCategory|
            && (forall x | x in s.report.lines :: x.0 in s.byCategory && x.1 == s.byCategory[x.0])
            && (forall c | c in s.byCategory :: (c, s.byCategory[c]) in s.report.lines)
            && (forall k | k in CategoryOrder(kept) :: k in s.byCategory)
            && (forall v :: WithAmount(s.report.lines, v) == WithAmount(Entries(CategoryOrder(kept), s.byCategory), v))
  {
    var kept := FilterByPeriod(rows, period, inPeriod);
    var totals, order := CategoryTotals(kept), CategoryOrder(kept);
    TotalIsSumOfCategories(kept);
    CategoryOrderMeaning(kept);
    LinesTotalSort(Entries(order, totals));
    LinesTotalEntries(order, totals);
    SortedEntries(order, totals);
    forall v ensures WithAmount(SortByAmount(Entries(order, totals)), v) == WithAmount(Entries(order, totals), v) {
      SortKeepsTies(Entries(order, totals), v);
    }
  }

  /** A period other than today, this week and this month sums every row of the sheet */
  lemma UndatedPeriodKeepsAll(rows: seq<Row>, period: string, inPeriod: Row -> bool)
    requires rows != [] && !IsDatedPeriod(period)
    ensures SummaryOf(rows, period, inPeriod).total == SumAmounts(rows)
    ensures SummaryOf(rows, period, inPeriod).byCategory == CategoryTotals(rows)
    ensures SummaryOf(rows, period, inPeriod).report.heading == "All Time"
  {
  }
}
