/**
 * The analytics engine: derived figures over a transaction log.
 *
 * Every time-relative operation takes the current date `now` explicitly.
 * Amounts are exact reals. A dictionary the source builds (category totals,
 * budgets, utilisation) is an association list in insertion order, because
 * the order of its keys decides the order of recommendations downstream.
 */
module Analytics {
  import opened Seqs
  import opened Calendar

  datatype Kind = Income | Expense

  /** A stored transaction as far as the analytics read it. */
  datatype Transaction = Transaction(kind: Kind, amount: real, category: string, date: Date)

  predicate IsIncome(t: Transaction) { t.kind == Income }

  predicate IsExpense(t: Transaction) { t.kind == Expense }

  predicate AllNonNegative(ts: seq<Transaction>) {
    forall i :: 0 <= i < |ts| ==> ts[i].amount >= 0.0
  }

  // ---------------------------------------------------------------------------
  // Period filter

  /**
   * The lower bound a period filter compares against. `setDate` moves `now`
   * back to the week start before the month and year starts are computed, so
   * both are taken from the week start, not from today. Unknown periods
   * (including "all") have no bound.
   */
  function PeriodStart(now: Date, period: string): Option<Date>
    requires ValidDate(now)
  {
    var weekStart := WeekStart(now);
    if period == "today" then Some(now)
    else if period == "week" then Some(weekStart)
    else if period == "month" then Some(Date(weekStart.year, weekStart.month, 1))
    else if period == "year" then Some(Date(weekStart.year, 1, 1))
    else None
  }

  predicate InPeriod(now: Date, period: string, t: Transaction)
    requires ValidDate(now)
  {
    match PeriodStart(now, period)
    case None => true
    case Some(start) => DateLe(start, t.date)
  }

  function PeriodKeep(now: Date, period: string): Transaction -> bool
    requires ValidDate(now)
  {
    (t: Transaction) => InPeriod(now, period, t)
  }

  /** `getTransactionsByPeriod`: no filter has an upper bound. */
  function TransactionsByPeriod(ts: seq<Transaction>, period: string, now: Date): (r: seq<Transaction>)
    requires ValidDate(now)
    ensures IsSubsequence(r, ts)
    ensures PeriodStart(now, period).None? ==> r == ts
    ensures forall i :: 0 <= i < |r| ==> InPeriod(now, period, r[i])
    ensures forall i :: 0 <= i < |ts| && InPeriod(now, period, ts[i]) ==> ts[i] in r
    ensures forall t :: multiset(r)[t] == if InPeriod(now, period, t) then multiset(ts)[t] else 0
  {
    FilterMembers(ts, PeriodKeep(now, period));
    if PeriodStart(now, period).None? then
      FilterKeepAll(ts, PeriodKeep(now, period));
      Filter(ts, PeriodKeep(now, period))
    else
      Filter(ts, PeriodKeep(now, period))
  }

  /** The four bounds are ordered: year start <= month start <= week start <= today. */
  lemma PeriodStartsOrdered(now: Date)
    requires ValidDate(now)
    ensures DateLe(PeriodStart(now, "year").value, PeriodStart(now, "month").value)
    ensures DateLe(PeriodStart(now, "month").value, PeriodStart(now, "week").value)
    ensures DateLe(PeriodStart(now, "week").value, PeriodStart(now, "today").value)
  {
  }

  lemma NestedPeriods(ts: seq<Transaction>, now: Date, outer: string, inner: string)
    requires ValidDate(now)
    requires PeriodStart(now, outer).Some? && PeriodStart(now, inner).Some?
    requires DateLe(PeriodStart(now, outer).value, PeriodStart(now, inner).value)
    ensures TransactionsByPeriod(TransactionsByPeriod(ts, outer, now), inner, now)
         == TransactionsByPeriod(ts, inner, now)
  {
    var a, b := PeriodStart(now, outer).value, PeriodStart(now, inner).value;
    forall t: Transaction | PeriodKeep(now, inner)(t) ensures PeriodKeep(now, outer)(t) {
      assert DateLe(b, t.date);
    }
    FilterNested(ts, PeriodKeep(now, outer), PeriodKeep(now, inner));
  }

  /**
   * For a fixed `now` the filters nest: filtering "year" and then "month" is
   * the "month" filter, and likewise month/week and week/today.
   */
  lemma PeriodsNest(ts: seq<Transaction>, now: Date)
    requires ValidDate(now)
    ensures TransactionsByPeriod(TransactionsByPeriod(ts, "year", now), "month", now)
         == TransactionsByPeriod(ts, "month", now)
    ensures TransactionsByPeriod(TransactionsByPeriod(ts, "month", now), "week", now)
         == TransactionsByPeriod(ts, "week", now)
    ensures TransactionsByPeriod(TransactionsByPeriod(ts, "week", now), "today", now)
         == TransactionsByPeriod(ts, "today", now)
  {
    PeriodStartsOrdered(now);
    NestedPeriods(ts, now, "year", "month");
    NestedPeriods(ts, now, "month", "week");
    NestedPeriods(ts, now, "week", "today");
  }

  /** Filtering twice by the same period is filtering once. */
  lemma PeriodIdempotent(ts: seq<Transaction>, period: string, now: Date)
    requires ValidDate(now)
    ensures TransactionsByPeriod(TransactionsByPeriod(ts, period, now), period, now)
         == TransactionsByPeriod(ts, period, now)
  {
    if PeriodStart(now, period).Some? {
      NestedPeriods(ts, now, period, period);
    }
  }

  /**
   * The "month" filter starts on the first of the current month only when the
   * current week started in it; otherwise it starts on the first of the
   * previous month.
   */
  lemma MonthFilterStart(now: Date)
    requires ValidDate(now)
    ensures PeriodStart(now, "month") == Some(
      if DayOfWeek(now) < now.day then FirstOfMonth(MonthOf(now))
      else FirstOfMonth(AddMonths(now.year, now.month, -1)))
  {
    if DayOfWeek(now) >= now.day {
      SubDaysIntoPreviousMonth(now, DayOfWeek(now));
    }
  }

  /** Likewise the "year" filter reaches back to the previous year in a week that started in December. */
  lemma YearFilterStart(now: Date)
    requires ValidDate(now)
    ensures PeriodStart(now, "year") == Some(
      Date(if now.month == 1 && now.day <= DayOfWeek(now) then now.year - 1 else now.year, 1, 1))
  {
    if DayOfWeek(now) >= now.day {
      SubDaysIntoPreviousMonth(now, DayOfWeek(now));
      if now.month == 1 {
        MonthIndexInjective(AddMonths(now.year, now.month, -1), YearMonth(now.year - 1, 12));
      } else {
        MonthIndexInjective(AddMonths(now.year, now.month, -1), YearMonth(now.year, now.month - 1));
      }
    }
  }

  /** On Wednesday 2 October 2024 the "month" filter keeps a transaction of 15 September. */
  lemma MonthFilterKeepsPreviousMonth(t: Transaction)
    requires t.date == Date(2024, 9, 15)
    ensures TransactionsByPeriod([t], "month", Date(2024, 10, 2)) == [t]
  {
    var now := Date(2024, 10, 2);
    assert DayNumber(now) == 739160;
    assert DayOfWeek(now) == 3;
    MonthFilterStart(now);
    assert AddMonths(2024, 10, -1) == YearMonth(2024, 9);
    assert InPeriod(now, "month", t);
    FilterSnoc([], t, PeriodKeep(now, "month"));
    assert [] + [t] == [t];
  }

  // ---------------------------------------------------------------------------
  // Totals

  /** `reduce((sum, t) => sum + t.amount, 0)`. */
  function SumAmounts(ts: seq<Transaction>): (r: real)
    ensures AllNonNegative(ts) ==> r >= 0.0
  {
    if ts == [] then 0.0 else SumAmounts(ts[..|ts| - 1]) + ts[|ts| - 1].amount
  }

  lemma SumAmountsSnoc(ts: seq<Transaction>, t: Transaction)
    ensures SumAmounts(ts + [t]) == SumAmounts(ts) + t.amount
  {
    assert (ts + [t])[..|ts|] == ts;
  }

  lemma FilterNonNegative(ts: seq<Transaction>, keep: Transaction -> bool)
    ensures AllNonNegative(ts) ==> AllNonNegative(Filter(ts, keep))
  {
    var r := Filter(ts, keep);
    FilterMembers(ts, keep);
    forall i | 0 <= i < |r| ensures r[i] in ts {
      assert r[i] in multiset(r);
    }
  }

  function TotalIncome(ts: seq<Transaction>): (r: real)
    ensures AllNonNegative(ts) ==> r >= 0.0
  {
    FilterNonNegative(ts, IsIncome);
    SumAmounts(Filter(ts, IsIncome))
  }

  function TotalExpenses(ts: seq<Transaction>): (r: real)
    ensures AllNonNegative(ts) ==> r >= 0.0
  {
    FilterNonNegative(ts, IsExpense);
    SumAmounts(Filter(ts, IsExpense))
  }

  function Balance(ts: seq<Transaction>): real {
    TotalIncome(ts) - TotalExpenses(ts)
  }

  lemma {:induction false} TotalsSnoc(ts: seq<Transaction>, t: Transaction)
    ensures TotalIncome(ts + [t]) == TotalIncome(ts) + (if IsIncome(t) then t.amount else 0.0)
    ensures TotalExpenses(ts + [t]) == TotalExpenses(ts) + (if IsExpense(t) then t.amount else 0.0)
  {
    FilterSnoc(ts, t, IsIncome);
    FilterSnoc(ts, t, IsExpense);
    SumAmountsSnoc(Filter(ts, IsIncome), t);
    SumAmountsSnoc(Filter(ts, IsExpense), t);
  }

  /** Independent reference: each transaction moves the balance by its signed amount. */
  function NetFlow(ts: seq<Transaction>): real {
    if ts == [] then 0.0
    else
      var t := ts[|ts| - 1];
      NetFlow(ts[..|ts| - 1]) + (if IsIncome(t) then t.amount else -t.amount)
  }

  /** `getBalance` is income minus expenses, that is, the signed sum of all amounts. */
  lemma {:induction false} BalanceIsNetFlow(ts: seq<Transaction>)
    ensures Balance(ts) == NetFlow(ts)
  {
    if ts != [] {
      var s, t := ts[..|ts| - 1], ts[|ts| - 1];
      assert ts == s + [t];
      BalanceIsNetFlow(s);
      TotalsSnoc(s, t);
      assert NetFlow(ts) == NetFlow(s) + (if IsIncome(t) then t.amount else -t.amount);
      if IsIncome(t) {
        assert Balance(ts) == Balance(s) + t.amount;
      } else {
        assert Balance(ts) == Balance(s) - t.amount;
      }
    }
  }

  // ---------------------------------------------------------------------------
  // Spending by category

  function Keys<V>(entries: seq<(string, V)>): (r: seq<string>)
    ensures |r| == |entries|
    ensures forall i :: 0 <= i < |r| ==> r[i] == entries[i].0
  {
    seq(|entries|, i requires 0 <= i < |entries| => entries[i].0)
  }

  predicate DistinctKeys<V>(entries: seq<(string, V)>) {
    forall i, j :: 0 <= i < j < |entries| ==> entries[i].0 != entries[j].0
  }

  /** Position of the first entry with key c, or |entries| when there is none. */
  function KeyIndex<V>(entries: seq<(string, V)>, c: string): (k: nat)
    ensures k <= |entries|
    ensures k < |entries| ==> entries[k].0 == c
    ensures forall j :: 0 <= j < k ==> entries[j].0 != c
  {
    if entries == [] then 0
    else if entries[0].0 == c then 0
    else 1 + KeyIndex(entries[1..], c)
  }

  /** `dict[c]`, with `undefined` as None. */
  function Lookup<V>(entries: seq<(string, V)>, c: string): (r: Option<V>)
    ensures r.None? <==> c !in Keys(entries)
    ensures r.Some? ==> (c, r.value) in entries
  {
    var k := KeyIndex(entries, c);
    if k < |entries| then Some(entries[k].1) else None
  }

  /** The expense categories in order of first appearance. */
  function Categories(ts: seq<Transaction>): (r: seq<string>)
    ensures forall i, j :: 0 <= i < j < |r| ==> r[i] != r[j]
  {
    if ts == [] then []
    else
      var s, t := ts[..|ts| - 1], ts[|ts| - 1];
      var p := Categories(s);
      assert forall i :: 0 <= i < |s| ==> s[i] == ts[i];
      if IsExpense(t) && t.category !in p then p + [t.category] else p
  }

  /** A category appears exactly when some expense carries it. */
  lemma {:induction false} CategoriesMembers(ts: seq<Transaction>, c: string)
    ensures c in Categories(ts) <==> exists i :: 0 <= i < |ts| && IsExpense(ts[i]) && ts[i].category == c
  {
    if ts != [] {
      var s, t := ts[..|ts| - 1], ts[|ts| - 1];
      var p := Categories(s);
      CategoriesMembers(s, c);
      assert Categories(ts) == if IsExpense(t) && t.category !in p then p + [t.category] else p;
      if c in Categories(ts) {
        if c in p {
          var i :| 0 <= i < |s| && IsExpense(s[i]) && s[i].category == c;
          assert ts[i] == s[i];
        } else {
          assert IsExpense(ts[|ts| - 1]) && ts[|ts| - 1].category == c;
        }
      }
      if exists i :: 0 <= i < |ts| && IsExpense(ts[i]) && ts[i].category == c {
        var i :| 0 <= i < |ts| && IsExpense(ts[i]) && ts[i].category == c;
        if i < |s| {
          assert s[i] == ts[i];
        }
      }
    }
  }

  /** Reference definition: the total of the expenses of category c. */
  function CategorySpend(ts: seq<Transaction>, c: string): real {
    if ts == [] then 0.0
    else
      var t := ts[|ts| - 1];
      CategorySpend(ts[..|ts| - 1], c) + (if IsExpense(t) && t.category == c then t.amount else 0.0)
  }

  /** The dictionary `getSpendingByCategory` returns, as an association list. */
  function CategoryTotals(ts: seq<Transaction>): (r: seq<(string, real)>)
    ensures Keys(r) == Categories(ts)
    ensures forall i :: 0 <= i < |r| ==> r[i].1 == CategorySpend(ts, r[i].0)
  {
    var cats := Categories(ts);
    seq(|cats|, i requires 0 <= i < |cats| => (cats[i], CategorySpend(ts, cats[i])))
  }

  lemma {:induction false} CategorySpendAbsent(ts: seq<Transaction>, c: string)
    requires c !in Categories(ts)
    ensures CategorySpend(ts, c) == 0.0
  {
    if ts != [] {
      var s := ts[..|ts| - 1];
      assert forall i :: 0 <= i < |s| ==> s[i] == ts[i];
      CategorySpendAbsent(s, c);
    }
  }

  /**
   * One step of the `forEach`: an expense adds its amount to its category's
   * entry, creating the entry on first sight; income changes nothing.
   */
  function AddToTotals(totals: seq<(string, real)>, t: Transaction): seq<(string, real)> {
    var k := KeyIndex(totals, t.category);
    if !IsExpense(t) then totals
    else if k == |totals| then totals + [(t.category, t.amount)]
    else totals[k := (t.category, totals[k].1 + t.amount)]
  }

  /** One more transaction changes the totals as one step of the `forEach` does. */
  lemma CategoryTotalsSnoc(ts: seq<Transaction>, t: Transaction)
    ensures CategoryTotals(ts + [t]) == AddToTotals(CategoryTotals(ts), t)
  {
    var ts' := ts + [t];
    assert ts'[..|ts|] == ts;
    var before, after := CategoryTotals(ts), CategoryTotals(ts');
    var k := KeyIndex(before, t.category);
    var cats := Categories(ts);
    assert Keys(before) == cats;
    if !IsExpense(t) {
      assert Categories(ts') == cats;
      assert |after| == |before|;
      forall i | 0 <= i < |after| ensures after[i] == before[i] {
      }
    } else if k == |before| {
      assert t.category !in cats;
      CategorySpendAbsent(ts, t.category);
      assert Categories(ts') == cats + [t.category];
      assert |after| == |before| + 1;
      forall i | 0 <= i < |after| ensures after[i] == (before + [(t.category, t.amount)])[i] {
      }
    } else {
      assert t.category in cats;
      assert Categories(ts') == cats;
      forall i | 0 <= i < |after|
        ensures after[i] == before[k := (t.category, before[k].1 + t.amount)][i]
      {
        if i != k {
          assert cats[i] != cats[k];
        }
      }
    }
  }

  /**
   * `getSpendingByCategory`: one pass over the expenses that adds each amount
   * to its category's entry, creating the entry on first sight.
   */
  method SpendingByCategory(ts: seq<Transaction>) returns (totals: seq<(string, real)>)
    ensures totals == CategoryTotals(ts)
  {
    var expenses := Filter(ts, IsExpense);
    totals := [];
    var i := 0;
    while i < |expenses|
      invariant 0 <= i <= |expenses|
      invariant totals == CategoryTotals(expenses[..i])
    {
      var t := expenses[i];
      ghost var before := totals;
      assert expenses[..i + 1] == expenses[..i] + [t];
      CategoryTotalsSnoc(expenses[..i], t);
      assert IsExpense(t);
      var k := KeyIndex(totals, t.category);
      if k == |totals| {
        totals := totals + [(t.category, 0.0)];
        totals := totals[k := (t.category, totals[k].1 + t.amount)];
        assert totals == before + [(t.category, t.amount)];
      } else {
        totals := totals[k := (t.category, totals[k].1 + t.amount)];
      }
      assert totals == AddToTotals(before, t);
      i := i + 1;
    }
    assert expenses[..i] == expenses;
    IncomeNeverContributes(ts);
  }

  /** Income transactions play no part in the category totals. */
  lemma {:induction false} IncomeNeverContributes(ts: seq<Transaction>)
    ensures CategoryTotals(Filter(ts, IsExpense)) == CategoryTotals(ts)
  {
    if ts != [] {
      var s, t := ts[..|ts| - 1], ts[|ts| - 1];
      assert ts == s + [t];
      IncomeNeverContributes(s);
      FilterSnoc(s, t, IsExpense);
      CategoryTotalsSnoc(s, t);
      if IsExpense(t) {
        assert Filter(ts, IsExpense) == Filter(s, IsExpense) + [t];
        CategoryTotalsSnoc(Filter(s, IsExpense), t);
      } else {
        assert Filter(ts, IsExpense) == Filter(s, IsExpense);
        assert CategoryTotals(ts) == CategoryTotals(s);
      }
    }
  }

  function SumValues(entries: seq<(string, real)>): real {
    if entries == [] then 0.0 else SumValues(entries[..|entries| - 1]) + entries[|entries| - 1].1
  }

  lemma {:induction false} SumValuesUpdate(entries: seq<(string, real)>, k: nat, e: (string, real))
    requires k < |entries|
    ensures SumValues(entries[k := e]) == SumValues(entries) - entries[k].1 + e.1
  {
    var n := |entries|;
    var updated := entries[k := e];
    if k == n - 1 {
      assert updated[..n - 1] == entries[..n - 1];
    } else {
      assert updated[..n - 1] == entries[..n - 1][k := e];
      SumValuesUpdate(entries[..n - 1], k, e);
    }
  }

  lemma SumValuesSnoc(entries: seq<(string, real)>, e: (string, real))
    ensures SumValues(entries + [e]) == SumValues(entries) + e.1
  {
    assert (entries + [e])[..|entries|] == entries;
  }

  /** The category totals add up to the total expenses. */
  lemma {:induction false} CategoryTotalsSum(ts: seq<Transaction>)
    ensures SumValues(CategoryTotals(ts)) == TotalExpenses(ts)
  {
    if ts != [] {
      var s, t := ts[..|ts| - 1], ts[|ts| - 1];
      assert ts == s + [t];
      CategoryTotalsSum(s);
      SumValuesStep(s, t);
      TotalsSnoc(s, t);
    }
  }

  lemma SumValuesStep(s: seq<Transaction>, t: Transaction)
    ensures SumValues(CategoryTotals(s + [t])) == SumValues(CategoryTotals(s)) + (if IsExpense(t) then t.amount else 0.0)
  {
    CategoryTotalsSnoc(s, t);
    var before, after := CategoryTotals(s), CategoryTotals(s + [t]);
    var k := KeyIndex(before, t.category);
    assert after == AddToTotals(before, t);
    if !IsExpense(t) {
      assert after == before;
    } else if k == |before| {
      assert after == before + [(t.category, t.amount)];
      SumValuesSnoc(before, (t.category, t.amount));
    } else {
      assert after == before[k := (t.category, before[k].1 + t.amount)];
      SumValuesUpdate(before, k, (t.category, before[k].1 + t.amount));
    }
  }

  /** A category has an entry exactly when some expense carries it; entries are unique. */
  lemma CategoryTotalsKeys(ts: seq<Transaction>, c: string)
    ensures DistinctKeys(CategoryTotals(ts))
    ensures c in Keys(CategoryTotals(ts)) <==> exists i :: 0 <= i < |ts| && IsExpense(ts[i]) && ts[i].category == c
  {
    var r := CategoryTotals(ts);
    assert forall i :: 0 <= i < |r| ==> r[i].0 == Categories(ts)[i];
    CategoriesMembers(ts, c);
  }

  // ---------------------------------------------------------------------------
  // Top categories

  predicate NonIncreasing(entries: seq<(string, real)>) {
    forall i, j :: 0 <= i < j < |entries| ==> entries[i].1 >= entries[j].1
  }

  /** Inserts x after every entry whose amount is at least x's (the stable position). */
  function InsertByAmount(sorted: seq<(string, real)>, x: (string, real)): (r: seq<(string, real)>)
    ensures multiset(r) == multiset(sorted) + multiset{x}
    ensures |r| == |sorted| + 1
    ensures NonIncreasing(sorted) ==> NonIncreasing(r)
  {
    if sorted == [] then [x]
    else
      var s, last := sorted[..|sorted| - 1], sorted[|sorted| - 1];
      assert sorted == s + [last];
      if last.1 >= x.1 then
        InsertAfterLast(sorted, x);
        sorted + [x]
      else
        var p := InsertByAmount(s, x);
        InsertBeforeLast(s, last, x, p);
        p + [last]
  }

  lemma InsertAfterLast(sorted: seq<(string, real)>, x: (string, real))
    requires sorted != [] && sorted[|sorted| - 1].1 >= x.1
    ensures NonIncreasing(sorted) ==> NonIncreasing(sorted + [x])
  {
    if NonIncreasing(sorted) {
      var r := sorted + [x];
      forall i, j | 0 <= i < j < |r| ensures r[i].1 >= r[j].1 {
        if j == |sorted| && i < |sorted| - 1 {
          assert sorted[i].1 >= sorted[|sorted| - 1].1;
        }
      }
    }
  }

  lemma InsertBeforeLast(s: seq<(string, real)>, last: (string, real), x: (string, real), p: seq<(string, real)>)
    requires last.1 < x.1
    requires multiset(p) == multiset(s) + multiset{x}
    requires NonIncreasing(s) ==> NonIncreasing(p)
    ensures NonIncreasing(s + [last]) ==> NonIncreasing(p + [last])
  {
    if NonIncreasing(s + [last]) {
      assert forall i :: 0 <= i < |s| ==> s[i] == (s + [last])[i];
      assert NonIncreasing(s);
      var r := p + [last];
      forall i, j | 0 <= i < j < |r| ensures r[i].1 >= r[j].1 {
        if j == |p| {
          assert p[i] in multiset(p);
          if p[i] != x {
            assert p[i] in multiset(s);
            var m :| 0 <= m < |s| && s[m] == p[i];
            assert (s + [last])[m].1 >= (s + [last])[|s|].1;
          }
        }
      }
    }
  }

  /** `sort((a, b) => b[1] - a[1])`: a stable sort by descending amount. */
  function SortByAmount(entries: seq<(string, real)>): (r: seq<(string, real)>)
    ensures multiset(r) == multiset(entries)
    ensures |r| == |entries|
    ensures NonIncreasing(r)
  {
    if entries == [] then []
    else
      assert entries == entries[..|entries| - 1] + [entries[|entries| - 1]];
      InsertByAmount(SortByAmount(entries[..|entries| - 1]), entries[|entries| - 1])
  }

  function AmountIs(v: real): ((string, real)) -> bool {
    (e: (string, real)) => e.1 == v
  }

  lemma {:induction false} InsertStable(sorted: seq<(string, real)>, x: (string, real), v: real)
    ensures Filter(InsertByAmount(sorted, x), AmountIs(v))
         == Filter(sorted, AmountIs(v)) + (if x.1 == v then [x] else [])
  {
    InsertByAmountStep(sorted, x);
    if sorted == [] {
      FilterSnoc([], x, AmountIs(v));
      assert [] + [x] == [x];
    } else {
      var s, last := sorted[..|sorted| - 1], sorted[|sorted| - 1];
      assert sorted == s + [last];
      FilterSnoc(s, last, AmountIs(v));
      if last.1 >= x.1 {
        FilterSnoc(sorted, x, AmountIs(v));
      } else {
        InsertStable(s, x, v);
        FilterSnoc(InsertByAmount(s, x), last, AmountIs(v));
      }
    }
  }

  /** The three cases of one insertion step. */
  lemma InsertByAmountStep(sorted: seq<(string, real)>, x: (string, real))
    ensures sorted == [] ==> InsertByAmount(sorted, x) == [x]
    ensures sorted != [] && sorted[|sorted| - 1].1 >= x.1 ==> InsertByAmount(sorted, x) == sorted + [x]
    ensures sorted != [] && sorted[|sorted| - 1].1 < x.1
        ==> InsertByAmount(sorted, x) == InsertByAmount(sorted[..|sorted| - 1], x) + [sorted[|sorted| - 1]]
  {
  }

  /** Stability: the entries of any one amount keep their relative order. */
  lemma {:induction false} SortStable(entries: seq<(string, real)>, v: real)
    ensures Filter(SortByAmount(entries), AmountIs(v)) == Filter(entries, AmountIs(v))
  {
    if entries != [] {
      var s, x := entries[..|entries| - 1], entries[|entries| - 1];
      assert entries == s + [x];
      SortStable(s, v);
      InsertStable(SortByAmount(s), x, v);
      FilterSnoc(s, x, AmountIs(v));
    }
  }

  /** `getTopCategories(transactions, limit)`. */
  function TopCategories(ts: seq<Transaction>, limit: int): seq<(string, real)> {
    SliceTo(SortByAmount(CategoryTotals(ts)), limit)
  }

  /**
   * The top categories are at most `limit` (when non-negative) of the
   * spending categories, each with its own total, by non-increasing amount;
   * the first has the largest total of all categories.
   */
  lemma TopCategoriesSpec(ts: seq<Transaction>, limit: int)
    ensures var r := TopCategories(ts, limit);
      && (limit >= 0 ==> |r| == if limit < |Categories(ts)| then limit else |Categories(ts)|)
      && (limit < 0 ==> |r| == if |Categories(ts)| + limit > 0 then |Categories(ts)| + limit else 0)
      && r <= SortByAmount(CategoryTotals(ts))
      && NonIncreasing(r)
      && (forall i :: 0 <= i < |r| ==> r[i].0 in Categories(ts) && r[i].1 == CategorySpend(ts, r[i].0))
      && (r != [] ==> forall c :: c in Categories(ts) ==> CategorySpend(ts, c) <= r[0].1)
  {
    var sorted := SortByAmount(CategoryTotals(ts));
    var r := TopCategories(ts, limit);
    SortedTotalsAreTotals(ts);
    if r != [] {
      SortedTotalsFirstIsLargest(ts);
      assert r[0] == sorted[0];
    }
    assert forall i :: 0 <= i < |r| ==> r[i] == sorted[i];
  }

  /** Sorting keeps each entry a category with its own total. */
  lemma SortedTotalsAreTotals(ts: seq<Transaction>)
    ensures var sorted := SortByAmount(CategoryTotals(ts));
      forall i :: 0 <= i < |sorted| ==> sorted[i].0 in Categories(ts) && sorted[i].1 == CategorySpend(ts, sorted[i].0)
  {
    var totals := CategoryTotals(ts);
    var sorted := SortByAmount(totals);
    forall i | 0 <= i < |sorted| ensures sorted[i].0 in Categories(ts) && sorted[i].1 == CategorySpend(ts, sorted[i].0) {
      assert sorted[i] in multiset(totals);
      var j :| 0 <= j < |totals| && totals[j] == sorted[i];
      assert Keys(totals)[j] == totals[j].0;
    }
  }

  /** After sorting, the first entry has the largest total of all categories. */
  lemma SortedTotalsFirstIsLargest(ts: seq<Transaction>)
    requires SortByAmount(CategoryTotals(ts)) != []
    ensures forall c :: c in Categories(ts) ==> CategorySpend(ts, c) <= SortByAmount(CategoryTotals(ts))[0].1
  {
    var totals := CategoryTotals(ts);
    var sorted := SortByAmount(totals);
    forall c | c in Categories(ts) ensures CategorySpend(ts, c) <= sorted[0].1 {
      var j :| 0 <= j < |Categories(ts)| && Categories(ts)[j] == c;
      assert Keys(totals)[j] == c;
      assert totals[j] in multiset(sorted);
      var m :| 0 <= m < |sorted| && sorted[m] == totals[j];
    }
  }

  // ---------------------------------------------------------------------------
  // Budget utilisation

  datatype Usage = Usage(budget: real, spent: real, remaining: real, percentage: real)

  /** `spending[category] || 0`. */
  function SpentOn(spending: seq<(string, real)>, c: string): real {
    match Lookup(spending, c)
    case Some(v) => v
    case None => 0.0
  }

  function UsageOf(spending: seq<(string, real)>, c: string, budget: real): Usage
    requires budget > 0.0
  {
    var spent := SpentOn(spending, c);
    Usage(budget, spent, budget - spent, Percentage(spent, budget))
  }

  /**
   * `(part / whole) * 100`. The thresholds the recommendations test are
   * comparisons of part with whole: above 100 means part exceeds whole, above
   * 80 means part exceeds four fifths of whole, above 20 means part exceeds a
   * fifth of whole.
   */
  function Percentage(part: real, whole: real): (p: real)
    requires whole > 0.0
    ensures p * whole == part * 100.0
    ensures p > 100.0 <==> part > whole
    ensures p > 80.0 <==> part > whole * 0.8
    ensures p > 20.0 <==> part > whole * 0.2
    ensures p > 0.0 <==> part > 0.0
    ensures p < 50.0 <==> part < whole * 0.5
  {
    Quotient(part, whole);
    part / whole * 100.0
  }

  predicate IsSet(b: (string, real)) { b.1 > 0.0 }

  /** The utilisation dictionary, one entry per budget with a positive limit. */
  function Utilization(spending: seq<(string, real)>, budgets: seq<(string, real)>): seq<(string, Usage)> {
    if budgets == [] then []
    else
      var p := Utilization(spending, budgets[..|budgets| - 1]);
      var b := budgets[|budgets| - 1];
      if b.1 > 0.0 then p + [(b.0, UsageOf(spending, b.0, b.1))] else p
  }

  /**
   * `getBudgetUtilization`: walks the budget keys in order and records each
   * category with a positive limit.
   */
  method BudgetUtilization(ts: seq<Transaction>, budgets: seq<(string, real)>)
    returns (util: seq<(string, Usage)>)
    ensures util == Utilization(CategoryTotals(ts), budgets)
  {
    var spending := SpendingByCategory(ts);
    util := [];
    for i := 0 to |budgets|
      invariant util == Utilization(spending, budgets[..i])
    {
      assert budgets[..i + 1][..i] == budgets[..i];
      var (category, limit) := budgets[i];
      if limit > 0.0 {
        var spent := SpentOn(spending, category);
        util := util + [(category, Usage(limit, spent, limit - spent, Percentage(spent, limit)))];
      }
    }
    assert budgets[..|budgets|] == budgets;
  }

  /**
   * The utilisation has one entry per budget with a positive limit, in budget
   * order, holding that limit, the category's spending (0 when it has none),
   * what remains and the percentage used.
   */
  lemma {:induction false} UtilizationSpec(spending: seq<(string, real)>, budgets: seq<(string, real)>)
    ensures var util, kept := Utilization(spending, budgets), Filter(budgets, IsSet);
      && |util| == |kept|
      && forall i :: 0 <= i < |util| ==> UsageMatches(spending, kept[i], util[i])
  {
    if budgets != [] {
      var s, b := budgets[..|budgets| - 1], budgets[|budgets| - 1];
      assert budgets == s + [b];
      UtilizationSpec(spending, s);
      FilterSnoc(s, b, IsSet);
      if b.1 > 0.0 {
        assert UsageMatches(spending, b, (b.0, UsageOf(spending, b.0, b.1)));
      }
    }
  }

  /** Entry u records budget b: its limit, the spending, what remains and the percentage used. */
  predicate UsageMatches(spending: seq<(string, real)>, b: (string, real), u: (string, Usage)) {
    && u.0 == b.0
    && u.1.budget == b.1 > 0.0
    && u.1.spent == SpentOn(spending, b.0)
    && u.1.remaining == u.1.budget - u.1.spent
    && u.1.percentage == Percentage(u.1.spent, u.1.budget)
  }

  /** A category with no expenses has spent 0. */
  lemma SpentWithoutExpenses(ts: seq<Transaction>, c: string)
    requires forall i :: 0 <= i < |ts| && IsExpense(ts[i]) ==> ts[i].category != c
    ensures SpentOn(CategoryTotals(ts), c) == 0.0
  {
    CategoryTotalsKeys(ts, c);
  }

  /** A category whose limit is zero or negative has no entry. */
  lemma UnsetBudgetExcluded(spending: seq<(string, real)>, budgets: seq<(string, real)>, i: nat)
    requires DistinctKeys(budgets) && i < |budgets| && budgets[i].1 <= 0.0
    ensures budgets[i].0 !in Keys(Utilization(spending, budgets))
  {
    UtilizationSpec(spending, budgets);
    var util, kept := Utilization(spending, budgets), Filter(budgets, IsSet);
    forall j | 0 <= j < |util| ensures util[j].0 != budgets[i].0 {
      assert UsageMatches(spending, kept[j], util[j]);
      FilterElement(budgets, IsSet, j);
      var m :| 0 <= m < |budgets| && budgets[m] == kept[j];
      assert m != i;
    }
  }

  // ---------------------------------------------------------------------------
  // Spending trend

  datatype Bucket = Bucket(month: YearMonth, income: real, expenses: real)

  function InMonthKeep(ym: YearMonth): Transaction -> bool {
    (t: Transaction) => t.date.year == ym.year && t.date.month == ym.month
  }

  function MonthBucket(ts: seq<Transaction>, ym: YearMonth): Bucket {
    var inMonth := Filter(ts, InMonthKeep(ym));
    Bucket(ym, TotalIncome(inMonth), TotalExpenses(inMonth))
  }

  /**
   * `getSpendingTrend(transactions, months)`: one bucket per month, oldest
   * first, ending with the current month.
   */
  method SpendingTrend(ts: seq<Transaction>, months: int, now: Date) returns (trend: seq<Bucket>)
    requires ValidDate(now)
    ensures |trend| == if months > 0 then months else 0
    ensures forall k :: 0 <= k < |trend| ==>
      trend[k] == MonthBucket(ts, AddMonths(now.year, now.month, k - (months - 1)))
    ensures forall k :: 0 <= k < |trend| - 1 ==>
      MonthIndex(trend[k + 1].month) == MonthIndex(trend[k].month) + 1
    ensures |trend| > 0 ==> trend[|trend| - 1].month == MonthOf(now)
  {
    trend := [];
    var i := months - 1;
    while i >= 0
      invariant i <= months - 1 && (months > 0 ==> -1 <= i) && (months <= 0 ==> i == months - 1)
      invariant |trend| == months - 1 - i
      invariant forall k :: 0 <= k < |trend| ==>
        trend[k] == MonthBucket(ts, AddMonths(now.year, now.month, k - (months - 1)))
      decreases i
    {
      var monthDate := AddMonths(now.year, now.month, -i);
      var monthTransactions := Filter(ts, InMonthKeep(monthDate));
      trend := trend + [Bucket(monthDate, TotalIncome(monthTransactions), TotalExpenses(monthTransactions))];
      i := i - 1;
    }
    if |trend| > 0 {
      MonthIndexInjective(AddMonths(now.year, now.month, 0), MonthOf(now));
    }
  }

  // ---------------------------------------------------------------------------
  // Average, prediction, comparison

  /** a / b against a positive divisor b, as comparisons of a with multiples of b. */
  lemma Quotient(a: real, b: real)
    requires b > 0.0
    ensures a / b * b == a
    ensures a >= 0.0 ==> a / b >= 0.0
    ensures a / b * 100.0 * b == a * 100.0
    ensures a / b * 100.0 > 100.0 <==> a > b
    ensures a / b * 100.0 > 80.0 <==> a > b * 0.8
    ensures a / b * 100.0 > 20.0 <==> a > b * 0.2
    ensures a / b * 100.0 > 0.0 <==> a > 0.0
    ensures a / b * 100.0 < 50.0 <==> a < b * 0.5
  {
    var q := a / b;
    assert q * b == a;
    Threshold(a, b, 1.0);
    Threshold(a, b, 0.8);
    Threshold(a, b, 0.2);
    Threshold(a, b, 0.5);
    Threshold(a, b, 0.0);
  }

  lemma Threshold(a: real, b: real, t: real)
    requires b > 0.0
    ensures a / b * 100.0 > t * 100.0 <==> a > b * t
    ensures a / b * 100.0 < t * 100.0 <==> a < b * t
  {
    var q := a / b;
    assert q * b == a;
    assert (q - t) * b == a - b * t;
    assert (q - t) * b > 0.0 <==> q - t > 0.0;
    assert (q - t) * b < 0.0 <==> q - t < 0.0;
  }

  /** The month-on-month change in percent, 0 when there is nothing to compare with. */
  function PercentageChange(difference: real, last: real): (p: real)
    ensures last <= 0.0 ==> p == 0.0
    ensures last > 0.0 ==> p * last == difference * 100.0
    ensures p > 0.0 ==> difference > 0.0
    ensures p > 20.0 <==> last > 0.0 && difference > last * 0.2
  {
    if last > 0.0 then Percentage(difference, last) else 0.0
  }

  /** The current spending plus the average for each remaining day. */
  function Projected(current: real, avgDaily: real, days: int): (r: real)
    ensures avgDaily >= 0.0 && days >= 0 ==> r >= current
    ensures days == 0 ==> r == current
  {
    assert avgDaily >= 0.0 && days >= 0 ==> avgDaily * (days as real) >= 0.0;
    current + avgDaily * (days as real)
  }

  function ExpenseDays(ts: seq<Transaction>): set<Date> {
    set i | 0 <= i < |ts| && IsExpense(ts[i]) :: ts[i].date
  }

  /**
   * `getAverageDailySpending`: total expenses over the number of distinct
   * days with an expense; 0 for an empty list or one without expenses.
   */
  function AverageDailySpending(ts: seq<Transaction>): (r: real)
    ensures ExpenseDays(ts) == {} ==> r == 0.0
    ensures ExpenseDays(ts) != {} ==> r * (|ExpenseDays(ts)| as real) == TotalExpenses(ts)
    ensures AllNonNegative(ts) ==> r >= 0.0
  {
    if |ts| == 0 then 0.0
    else
      var expenses := Filter(ts, IsExpense);
      ExpensesOnly(ts);
      if |expenses| == 0 then
        0.0
      else
        var total, days := TotalExpenses(expenses), |ExpenseDays(expenses)| as real;
        Quotient(total, days);
        total / days
  }

  /** The figures the average is built from do not change when only the expenses are kept. */
  lemma ExpensesOnly(ts: seq<Transaction>)
    ensures var expenses := Filter(ts, IsExpense);
      && ExpenseDays(expenses) == ExpenseDays(ts)
      && TotalExpenses(expenses) == TotalExpenses(ts)
      && (AllNonNegative(ts) ==> TotalExpenses(ts) >= 0.0)
      && (expenses == [] <==> ExpenseDays(ts) == {})
  {
    var expenses := Filter(ts, IsExpense);
    ExpenseDaysOfExpenses(ts);
    FilterNested(ts, IsExpense, IsExpense);
    if expenses != [] {
      assert expenses[0].date in ExpenseDays(expenses);
    }
  }

  lemma ExpenseDaysOfExpenses(ts: seq<Transaction>)
    ensures ExpenseDays(Filter(ts, IsExpense)) == ExpenseDays(ts)
  {
    var e := Filter(ts, IsExpense);
    FilterMembers(ts, IsExpense);
    forall d | d in ExpenseDays(e) ensures d in ExpenseDays(ts) {
      var j :| 0 <= j < |e| && IsExpense(e[j]) && e[j].date == d;
      assert e[j] in multiset(e);
      var i :| 0 <= i < |ts| && ts[i] == e[j];
    }
    forall d | d in ExpenseDays(ts) ensures d in ExpenseDays(e) {
      var i :| 0 <= i < |ts| && IsExpense(ts[i]) && ts[i].date == d;
      assert ts[i] in e;
      var j :| 0 <= j < |e| && e[j] == ts[i];
    }
  }

  datatype Prediction = Prediction(current: real, predicted: real, daysRemaining: int)

  /**
   * `predictMonthEndSpending`: this month's expenses plus the average daily
   * spending for each remaining day of the month.
   */
  function PredictMonthEndSpending(ts: seq<Transaction>, now: Date): (r: Prediction)
    requires ValidDate(now)
    ensures r.daysRemaining == DaysInMonth(now.year, now.month) - now.day >= 0
    ensures r.current == TotalExpenses(TransactionsByPeriod(ts, "month", now))
    ensures r.predicted
         == Projected(r.current, AverageDailySpending(TransactionsByPeriod(ts, "month", now)), r.daysRemaining)
    ensures AllNonNegative(ts) ==> r.predicted >= r.current >= 0.0
  {
    var monthTransactions := TransactionsByPeriod(ts, "month", now);
    var current := TotalExpenses(monthTransactions);
    var avgDaily := AverageDailySpending(monthTransactions);
    var remainingDays := DaysInMonth(now.year, now.month) - now.day;
    FilterNonNegative(ts, PeriodKeep(now, "month"));
    Prediction(current, Projected(current, avgDaily, remainingDays), remainingDays)
  }

  datatype Comparison = Comparison(
    thisMonth: real, lastMonth: real, difference: real, percentageChange: real, trend: string)

  /** The whole previous calendar month, first to last day inclusive. */
  function LastMonthKeep(now: Date): Transaction -> bool {
    var prev := AddMonths(now.year, now.month, -1);
    (t: Transaction) => DateLe(FirstOfMonth(prev), t.date) && DateLe(t.date, LastOfMonth(prev))
  }

  /** A transaction with a valid date counts as last month's exactly when it is dated in that month. */
  lemma LastMonthIsCalendarMonth(now: Date, t: Transaction)
    requires ValidDate(t.date)
    ensures LastMonthKeep(now)(t) <==> MonthOf(t.date) == AddMonths(now.year, now.month, -1)
  {
    WithinMonth(t.date, AddMonths(now.year, now.month, -1));
  }

  /**
   * `compareWithPreviousMonth`: this month's expenses (the "month" filter)
   * against last month's; the percentage change is 0 when last month had none.
   */
  function CompareWithPreviousMonth(ts: seq<Transaction>, now: Date): (r: Comparison)
    requires ValidDate(now)
    ensures r.thisMonth == TotalExpenses(TransactionsByPeriod(ts, "month", now))
    ensures r.lastMonth == TotalExpenses(Filter(ts, LastMonthKeep(now)))
    ensures r.difference == r.thisMonth - r.lastMonth
    ensures r.percentageChange == PercentageChange(r.difference, r.lastMonth)
    ensures r.trend == (if r.difference > 0.0 then "up" else "down")
    ensures r.percentageChange > 0.0 ==> r.trend == "up"
  {
    var thisMonth := TransactionsByPeriod(ts, "month", now);
    var lastMonth := Filter(ts, LastMonthKeep(now));
    var thisMonthExpenses := TotalExpenses(thisMonth);
    var lastMonthExpenses := TotalExpenses(lastMonth);
    var difference := thisMonthExpenses - lastMonthExpenses;
    var percentageChange := PercentageChange(difference, lastMonthExpenses);
    Comparison(thisMonthExpenses, lastMonthExpenses, difference, percentageChange,
      if difference > 0.0 then "up" else "down")
  }
}
