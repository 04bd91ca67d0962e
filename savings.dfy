/**
 * Savings recommendations: a fixed sequence of checks over this month's
 * transactions and the budgets, each contributing at most one recommendation
 * per budget (the first check) or at most one in all (the later checks), a
 * congratulation when none fires, and at most five in the end.
 *
 * The message text of a recommendation is kept as the figures it reports
 * (its number formatting is not modelled); titles are built from display
 * names as the source builds them.
 */
module Savings {
  import opened Seqs
  import opened Calendar
  import opened Analytics

  datatype RecKind = Warning | Caution | Alert | Tip | Goal | Success

  /** What a recommendation's message reports. */
  datatype Message =
    | OverBudget(overspent: real, percentOver: real)
    | Approaching(remaining: real)
    | Increased(percentageChange: real, difference: real)
    | TopSpending(amount: real)
    | ProjectedOverrun(overspend: real)
    | GoalProgress(progress: real, goal: real)
    | GreatJob

  datatype Recommendation = Recommendation(kind: RecKind, category: string, message: Message, savings: real)

  /** The check a recommendation comes from, in the order the checks run. */
  function Stage(r: Recommendation): nat {
    match r.message
    case OverBudget(_, _) => 0
    case Approaching(_) => 0
    case Increased(_, _) => 1
    case TopSpending(_) => 2
    case ProjectedOverrun(_) => 3
    case GoalProgress(_, _) => 4
    case GreatJob => 5
  }

  // ---------------------------------------------------------------------------
  // Display tables

  const FallbackTip := "Review this category for potential savings opportunities."

  /** The categories with a savings tip of their own. */
  const TipCategories := ["food", "transport", "shopping", "bills", "entertainment", "health", "education", "other"]

  /** `getCategorySavingsTip`: the category's own tip, or the generic one. */
  function CategorySavingsTip(c: string): string {
    if c == "food" then "Try meal planning and cooking at home more often to save 20-30%."
    else if c == "transport" then "Consider carpooling, public transit, or biking to reduce costs."
    else if c == "shopping" then "Use the 24-hour rule: wait a day before making non-essential purchases."
    else if c == "bills" then "Review subscriptions and negotiate better rates with providers."
    else if c == "entertainment" then "Look for free or low-cost activities and use streaming services wisely."
    else if c == "health" then "Use generic medications and preventive care to reduce long-term costs."
    else if c == "education" then "Explore free online courses and library resources."
    else if c == "other" then "Track and categorize these expenses to identify patterns."
    else FallbackTip
  }

  /** A category without a tip of its own gets the generic one. */
  lemma GenericTip(c: string)
    requires c !in TipCategories
    ensures CategorySavingsTip(c) == FallbackTip
  {
    assert c != TipCategories[0] && c != TipCategories[1] && c != TipCategories[2] && c != TipCategories[3];
    assert c != TipCategories[4] && c != TipCategories[5] && c != TipCategories[6] && c != TipCategories[7];
  }

  /** The generic tip is none of the specific ones. */
  lemma SpecificTip(c: string)
    requires c in TipCategories
    ensures CategorySavingsTip(c) != FallbackTip
  {
    var k :| 0 <= k < |TipCategories| && TipCategories[k] == c;
    if k == 0 { assert c == "food"; }
    else if k == 1 { assert c == "transport"; }
    else if k == 2 { assert c == "shopping"; }
    else if k == 3 { assert c == "bills"; }
    else if k == 4 { assert c == "entertainment"; }
    else if k == 5 { assert c == "health"; }
    else if k == 6 { assert c == "education"; }
    else { assert c == "other"; }
  }

  /** The categories with a display name of their own. */
  const NamedCategories :=
    ["food", "transport", "shopping", "bills", "entertainment", "health", "education", "other", "overall", "savings"]

  /** `getCategoryName`: the display name of a known category, otherwise the category itself. */
  function CategoryName(c: string): string {
    if c == "food" then "Food & Dining"
    else if c == "transport" then "Transportation"
    else if c == "shopping" then "Shopping"
    else if c == "bills" then "Bills & Utilities"
    else if c == "entertainment" then "Entertainment"
    else if c == "health" then "Healthcare"
    else if c == "education" then "Education"
    else if c == "other" then "Other"
    else if c == "overall" then "Overall Spending"
    else if c == "savings" then "Savings"
    else c
  }

  /** A category shows as itself exactly when it has no display name of its own. */
  lemma CategoryNameSpec(c: string)
    ensures CategoryName(c) == c <==> c !in NamedCategories
  {
    if c in NamedCategories {
      var k :| 0 <= k < |NamedCategories| && NamedCategories[k] == c;
    }
  }

  /** The title each kind of recommendation is shown with. */
  function Title(r: Recommendation): string {
    match r.message
    case OverBudget(_, _) => "Over Budget on " + CategoryName(r.category)
    case Approaching(_) => "Approaching Limit: " + CategoryName(r.category)
    case Increased(_, _) => "Spending Increased Significantly"
    case TopSpending(_) => "Top Spending: " + CategoryName(r.category)
    case ProjectedOverrun(_) => "Projected to Exceed Total Budget"
    case GoalProgress(_, _) => "Savings Goal Progress"
    case GreatJob => "Great Job! \U{1F389}"
  }

  /** The advice a top-spending message ends with: the tip for its category. */
  function Advice(r: Recommendation): string {
    if r.message.TopSpending? then CategorySavingsTip(r.category) else ""
  }

  // ---------------------------------------------------------------------------
  // The checks

  /** Over budget (above 100%) or approaching the limit (above 80%); nothing below. */
  function BudgetRec(e: (string, Usage)): Option<Recommendation> {
    var (c, u) := e;
    if u.percentage > 100.0 then
      Some(Recommendation(Warning, c,
        OverBudget(u.spent - u.budget, u.percentage - 100.0), u.spent - u.budget))
    else if u.percentage > 80.0 then
      Some(Recommendation(Caution, c,
        Approaching(u.remaining), 0.0))
    else None
  }

  /** The first check, over the utilisation entries in order. */
  function BudgetRecs(util: seq<(string, Usage)>): seq<Recommendation> {
    if util == [] then []
    else
      var p := BudgetRecs(util[..|util| - 1]);
      match BudgetRec(util[|util| - 1])
      case Some(r) => p + [r]
      case None => p
  }

  /** Spending up more than 20% on last month. */
  function AlertRecs(cmp: Comparison): seq<Recommendation> {
    if cmp.percentageChange > 20.0 then
      [Recommendation(Alert, "overall",
        Increased(cmp.percentageChange, cmp.difference), cmp.difference)]
    else []
  }

  /** The biggest category, when it is above 500, with a tenth of it as the saving. */
  function TipRecs(top: seq<(string, real)>): seq<Recommendation> {
    if top != [] && top[0].1 > 500.0 then
      var (c, amount) := top[0];
      [Recommendation(Tip, c,
        TopSpending(amount), amount * 0.1)]
    else []
  }

  /** The month-end projection above the sum of all budgets (when that sum is positive). */
  function OverrunRecs(predicted: real, budgets: seq<(string, real)>): seq<Recommendation> {
    var totalBudget := SumValues(budgets);
    if totalBudget > 0.0 && predicted > totalBudget then
      [Recommendation(Warning, "overall",
        ProjectedOverrun(predicted - totalBudget), predicted - totalBudget)]
    else []
  }

  /** With a positive "savings" goal, this month's balance below half of it. */
  function GoalRecs(month: seq<Transaction>, budgets: seq<(string, real)>): seq<Recommendation> {
    match Lookup(budgets, "savings")
    case Some(goal) =>
      if goal > 0.0 then
        var saved := Balance(month);
        var progress := Percentage(saved, goal);
        if progress < 50.0 then
          [Recommendation(Goal, "savings",
            GoalProgress(progress, goal), goal - saved)]
        else []
      else []
    case None => []
  }

  const Congratulation :=
    Recommendation(Success, "overall", GreatJob, 0.0)

  /** Everything the checks produce, in the order they run. */
  function Candidates(ts: seq<Transaction>, budgets: seq<(string, real)>, now: Date): seq<Recommendation>
    requires ValidDate(now)
  {
    var month := TransactionsByPeriod(ts, "month", now);
    BudgetRecs(Utilization(CategoryTotals(month), budgets))
      + AlertRecs(CompareWithPreviousMonth(ts, now))
      + TipRecs(TopCategories(month, 3))
      + OverrunRecs(PredictMonthEndSpending(month, now).predicted, budgets)
      + GoalRecs(month, budgets)
  }

  /** `generateRecommendations`: the first five candidates, or the congratulation alone. */
  function Recommendations(ts: seq<Transaction>, budgets: seq<(string, real)>, now: Date): (r: seq<Recommendation>)
    requires ValidDate(now)
    ensures 1 <= |r| <= 5
    ensures Candidates(ts, budgets, now) == [] ==> r == [Congratulation]
    ensures Candidates(ts, budgets, now) != [] ==> r <= Candidates(ts, budgets, now)
    ensures var c := Candidates(ts, budgets, now);
      c != [] ==> |r| == if |c| < 5 then |c| else 5
  {
    var c := Candidates(ts, budgets, now);
    SliceTo(if c == [] then [Congratulation] else c, 5)
  }

  /**
   * `generateRecommendations`, step by step: one pass over the utilisation,
   * the month-on-month alert, one pass over the top three categories, the
   * projection and the savings goal, then the congratulation and the cut to five.
   */
  method GenerateRecommendations(ts: seq<Transaction>, budgets: seq<(string, real)>, now: Date)
    returns (recs: seq<Recommendation>)
    requires ValidDate(now)
    ensures recs == Recommendations(ts, budgets, now)
    ensures 1 <= |recs| <= 5
  {
    var monthTransactions := TransactionsByPeriod(ts, "month", now);
    var comparison := CompareWithPreviousMonth(ts, now);
    var budgetUtil := BudgetUtilization(monthTransactions, budgets);
    recs := BudgetChecks(budgetUtil);
    recs := recs + AlertRecs(comparison);
    var topCategories := TopCategories(monthTransactions, 3);
    var tips := TopSpendingChecks(topCategories);
    recs := recs + tips;
    var prediction := PredictMonthEndSpending(monthTransactions, now);
    recs := recs + OverrunRecs(prediction.predicted, budgets);
    recs := recs + GoalRecs(monthTransactions, budgets);
    assert recs == Candidates(ts, budgets, now);
    if |recs| == 0 {
      recs := recs + [Congratulation];
    }
    recs := SliceTo(recs, 5);
  }

  /** The pass over the utilisation entries, in budget order. */
  method BudgetChecks(budgetUtil: seq<(string, Usage)>) returns (recs: seq<Recommendation>)
    ensures recs == BudgetRecs(budgetUtil)
  {
    recs := [];
    for i := 0 to |budgetUtil|
      invariant recs == BudgetRecs(budgetUtil[..i])
    {
      assert budgetUtil[..i + 1][..i] == budgetUtil[..i];
      var (category, data) := budgetUtil[i];
      if data.percentage > 100.0 {
        var overspent := data.spent - data.budget;
        recs := recs + [Recommendation(Warning, category,
          OverBudget(overspent, data.percentage - 100.0), overspent)];
      } else if data.percentage > 80.0 {
        recs := recs + [Recommendation(Caution, category,
          Approaching(data.remaining), 0.0)];
      }
    }
    assert budgetUtil[..|budgetUtil|] == budgetUtil;
  }

  /** The pass over the top categories, of which only the first can fire. */
  method TopSpendingChecks(topCategories: seq<(string, real)>) returns (recs: seq<Recommendation>)
    ensures recs == TipRecs(topCategories)
  {
    recs := [];
    for index := 0 to |topCategories|
      invariant recs == if index == 0 then [] else TipRecs(topCategories)
    {
      var (category, amount) := topCategories[index];
      if index == 0 && amount > 500.0 {
        recs := recs + [Recommendation(Tip, category,
          TopSpending(amount), amount * 0.1)];
      }
    }
  }

  /** `getTotalPotentialSavings`: the savings of all recommendations added up. */
  function TotalPotentialSavings(recs: seq<Recommendation>): real {
    if recs == [] then 0.0
    else TotalPotentialSavings(recs[..|recs| - 1]) + recs[|recs| - 1].savings
  }

  /** The savings of recommendations listed one after another add up. */
  lemma {:induction false} TotalSavingsAppend(a: seq<Recommendation>, b: seq<Recommendation>)
    ensures TotalPotentialSavings(a + b) == TotalPotentialSavings(a) + TotalPotentialSavings(b)
    decreases |b|
  {
    if b == [] {
      assert a + b == a;
    } else {
      var b', x := b[..|b| - 1], b[|b| - 1];
      assert (a + b)[..|a + b| - 1] == a + b';
      TotalSavingsAppend(a, b');
    }
  }

  /** Savings that are never negative add up to a total that is not negative either. */
  lemma {:induction false} TotalSavingsNonNegative(recs: seq<Recommendation>)
    requires forall i :: 0 <= i < |recs| ==> recs[i].savings >= 0.0
    ensures TotalPotentialSavings(recs) >= 0.0
  {
    if recs != [] {
      TotalSavingsNonNegative(recs[..|recs| - 1]);
    }
  }

  // ---------------------------------------------------------------------------
  // Properties

  /**
   * A saving is never negative, and it is positive for everything but a
   * caution (which suggests no figure) and the congratulation.
   */
  predicate SavingsSensible(r: Recommendation) {
    r.savings >= 0.0 && (r.kind != Caution && r.kind != Success ==> r.savings > 0.0)
  }

  /** Every recommendation in rs comes from check k, is sensible and is not the congratulation. */
  predicate FromStage(rs: seq<Recommendation>, k: nat) {
    forall i :: 0 <= i < |rs| ==> Stage(rs[i]) == k && SavingsSensible(rs[i]) && rs[i].kind != Success
  }

  /**
   * Recommendations appear in the order the checks run, and only the first
   * check (one per budget) can contribute more than one.
   */
  predicate InCheckOrder(rs: seq<Recommendation>) {
    forall i, j :: 0 <= i < j < |rs| ==> Stage(rs[i]) < Stage(rs[j]) || Stage(rs[i]) == Stage(rs[j]) == 0
  }

  lemma BudgetRecsSnoc(util: seq<(string, Usage)>, e: (string, Usage))
    ensures BudgetRecs(util + [e]) == BudgetRecs(util) + match BudgetRec(e) case Some(r) => [r] case None => []
  {
    assert (util + [e])[..|util|] == util;
  }

  /**
   * The first check yields at most one recommendation per utilisation entry,
   * each a warning with a positive saving or a caution, each about a
   * budgeted category, and none about the same category twice when every
   * category has one budget.
   */
  lemma {:induction false} BudgetStage(spending: seq<(string, real)>, budgets: seq<(string, real)>)
    ensures FromStage(BudgetRecs(Utilization(spending, budgets)), 0)
    ensures |BudgetRecs(Utilization(spending, budgets))| <= |Utilization(spending, budgets)|
    ensures NamesBudgets(BudgetRecs(Utilization(spending, budgets)), budgets)
    ensures DistinctKeys(budgets) ==> OnePerCategory(BudgetRecs(Utilization(spending, budgets)))
  {
    BudgetRecsPerBudget(spending, budgets);
    if budgets != [] {
      var s, b := budgets[..|budgets| - 1], budgets[|budgets| - 1];
      var p := Utilization(spending, s);
      BudgetStage(spending, s);
      if b.1 > 0.0 {
        var e := (b.0, UsageOf(spending, b.0, b.1));
        assert Utilization(spending, budgets) == p + [e];
        BudgetRecsSnoc(p, e);
        BudgetRecStage(spending, b);
        FromStageAppend(BudgetRecs(p), match BudgetRec(e) case Some(r) => [r] case None => [], 0);
      }
    }
  }

  /** Every recommendation is about a category that has a budget. */
  predicate NamesBudgets(recs: seq<Recommendation>, budgets: seq<(string, real)>) {
    forall i :: 0 <= i < |recs| ==> recs[i].category in Keys(budgets)
  }

  /** No two recommendations are about the same category. */
  predicate OnePerCategory(recs: seq<Recommendation>) {
    forall i, j :: 0 <= i < j < |recs| ==> recs[i].category != recs[j].category
  }

  /**
   * Each budget recommendation names a budget, and with one entry per
   * category no category is named twice.
   */
  lemma {:induction false} BudgetRecsPerBudget(spending: seq<(string, real)>, budgets: seq<(string, real)>)
    ensures NamesBudgets(BudgetRecs(Utilization(spending, budgets)), budgets)
    ensures DistinctKeys(budgets) ==> OnePerCategory(BudgetRecs(Utilization(spending, budgets)))
  {
    if budgets != [] {
      var s, b := budgets[..|budgets| - 1], budgets[|budgets| - 1];
      assert budgets == s + [b];
      var p := Utilization(spending, s);
      var prev := BudgetRecs(p);
      BudgetRecsPerBudget(spending, s);
      NamesMoreBudgets(prev, s, b);
      if DistinctKeys(budgets) {
        assert DistinctKeys(s);
      }
      if b.1 > 0.0 {
        var e := (b.0, UsageOf(spending, b.0, b.1));
        assert Utilization(spending, budgets) == p + [e];
        BudgetRecsSnoc(p, e);
        match BudgetRec(e)
        case None =>
        case Some(r) =>
          NamesSnoc(prev, r, s, b);
          if DistinctKeys(budgets) {
            DistinctSnoc(prev, r, s, b);
          }
      }
    }
  }

  lemma NamesMoreBudgets(recs: seq<Recommendation>, s: seq<(string, real)>, b: (string, real))
    requires NamesBudgets(recs, s)
    ensures NamesBudgets(recs, s + [b])
  {
    assert forall k :: 0 <= k < |s| ==> Keys(s)[k] == Keys(s + [b])[k];
  }

  lemma NamesSnoc(recs: seq<Recommendation>, r: Recommendation, s: seq<(string, real)>, b: (string, real))
    requires NamesBudgets(recs, s + [b]) && r.category == b.0
    ensures NamesBudgets(recs + [r], s + [b])
  {
    assert Keys(s + [b])[|s|] == b.0;
    assert forall i :: 0 <= i < |recs| ==> (recs + [r])[i] == recs[i];
  }

  lemma DistinctSnoc(recs: seq<Recommendation>, r: Recommendation, s: seq<(string, real)>, b: (string, real))
    requires OnePerCategory(recs) && NamesBudgets(recs, s) && DistinctKeys(s + [b]) && r.category == b.0
    ensures OnePerCategory(recs + [r])
  {
    assert b.0 !in Keys(s) by {
      forall k | 0 <= k < |s| ensures Keys(s)[k] != b.0 {
        assert (s + [b])[k].0 != (s + [b])[|s|].0;
      }
    }
    assert forall i :: 0 <= i < |recs| ==> (recs + [r])[i] == recs[i];
  }

  /** A single budget entry yields nothing or a sensible first-stage recommendation. */
  lemma BudgetRecStage(spending: seq<(string, real)>, b: (string, real))
    requires b.1 > 0.0
    ensures FromStage(match BudgetRec((b.0, UsageOf(spending, b.0, b.1))) case Some(r) => [r] case None => [], 0)
  {
    BudgetRecSavings(spending, b);
  }

  lemma FromStageAppend(a: seq<Recommendation>, b: seq<Recommendation>, k: nat)
    requires FromStage(a, k) && FromStage(b, k)
    ensures FromStage(a + b, k)
  {
    assert forall i :: 0 <= i < |a + b| ==> (a + b)[i] == if i < |a| then a[i] else b[i - |a|];
  }

  /** The first check's two outcomes, as conditions on what was spent against the limit. */
  predicate Fires(kind: RecKind, spent: real, limit: real) {
    if kind == Warning then spent > limit else limit * 0.8 < spent <= limit
  }

  predicate HasRec(rs: seq<Recommendation>, kind: RecKind, c: string) {
    exists i :: 0 <= i < |rs| && rs[i].kind == kind && rs[i].category == c
  }

  predicate BudgetFires(spending: seq<(string, real)>, budgets: seq<(string, real)>, kind: RecKind, c: string) {
    exists i :: 0 <= i < |budgets| && budgets[i].0 == c && budgets[i].1 > 0.0 && Fires(kind, SpentOn(spending, c), budgets[i].1)
  }

  /**
   * Category c gets a warning exactly when one of its positive budgets is
   * exceeded, and a caution exactly when one of them is more than 80% used
   * but not exceeded.
   */
  lemma {:induction false} BudgetRecsIff(spending: seq<(string, real)>, budgets: seq<(string, real)>, kind: RecKind, c: string)
    requires kind == Warning || kind == Caution
    ensures HasRec(BudgetRecs(Utilization(spending, budgets)), kind, c) <==> BudgetFires(spending, budgets, kind, c)
  {
    if budgets != [] {
      var s, b := budgets[..|budgets| - 1], budgets[|budgets| - 1];
      var p := Utilization(spending, s);
      BudgetRecsIff(spending, s, kind, c);
      BudgetFiresSnoc(spending, s, b, kind, c);
      assert budgets == s + [b];
      BudgetRecsSnocHas(spending, s, b, kind, c);
    }
  }

  lemma BudgetRecsSnocHas(spending: seq<(string, real)>, s: seq<(string, real)>, b: (string, real), kind: RecKind, c: string)
    requires kind == Warning || kind == Caution
    ensures HasRec(BudgetRecs(Utilization(spending, s + [b])), kind, c)
        <==> HasRec(BudgetRecs(Utilization(spending, s)), kind, c) || (b.0 == c && b.1 > 0.0 && Fires(kind, SpentOn(spending, c), b.1))
  {
    var p := Utilization(spending, s);
    assert (s + [b])[..|s|] == s;
    if b.1 > 0.0 {
      var e := (b.0, UsageOf(spending, b.0, b.1));
      assert Utilization(spending, s + [b]) == p + [e];
      BudgetRecsSnoc(p, e);
      BudgetRecFires(spending, b, kind, c);
      var single := match BudgetRec(e) case Some(r) => [r] case None => [];
      HasRecAppend(BudgetRecs(p), single, kind, c);
      if BudgetRec(e).Some? {
        var r := BudgetRec(e).value;
        assert single == [r];
        assert HasRec(single, kind, c) <==> r.kind == kind && r.category == c by {
          assert single[0] == r;
        }
      }
    } else {
      assert Utilization(spending, s + [b]) == p;
    }
  }

  lemma BudgetFiresSnoc(spending: seq<(string, real)>, s: seq<(string, real)>, b: (string, real), kind: RecKind, c: string)
    ensures BudgetFires(spending, s + [b], kind, c)
        <==> BudgetFires(spending, s, kind, c) || (b.0 == c && b.1 > 0.0 && Fires(kind, SpentOn(spending, c), b.1))
  {
    var t := s + [b];
    if BudgetFires(spending, t, kind, c) {
      var i :| 0 <= i < |t| && t[i].0 == c && t[i].1 > 0.0 && Fires(kind, SpentOn(spending, c), t[i].1);
      if i < |s| {
        assert t[i] == s[i];
      }
    }
    if BudgetFires(spending, s, kind, c) {
      var i :| 0 <= i < |s| && s[i].0 == c && s[i].1 > 0.0 && Fires(kind, SpentOn(spending, c), s[i].1);
      assert t[i] == s[i];
    }
    if b.0 == c && b.1 > 0.0 && Fires(kind, SpentOn(spending, c), b.1) {
      assert t[|s|] == b;
    }
  }

  /**
   * For one positive budget: a warning saves what was spent beyond the limit,
   * a caution saves nothing.
   */
  lemma BudgetRecSavings(spending: seq<(string, real)>, b: (string, real))
    requires b.1 > 0.0
    ensures var r := BudgetRec((b.0, UsageOf(spending, b.0, b.1)));
      && (r.Some? ==> r.value.category == b.0)
      && (r.Some? && r.value.kind == Warning ==> r.value.savings == SpentOn(spending, b.0) - b.1 > 0.0)
      && (r.Some? && r.value.kind == Caution ==> r.value.savings == 0.0)
      && (r.None? <==> SpentOn(spending, b.0) <= b.1 * 0.8)
  {
  }

  lemma BudgetRecFires(spending: seq<(string, real)>, b: (string, real), kind: RecKind, c: string)
    requires b.1 > 0.0 && (kind == Warning || kind == Caution)
    ensures var r := BudgetRec((b.0, UsageOf(spending, b.0, b.1)));
      (r.Some? && r.value.kind == kind && r.value.category == c) <==> b.0 == c && Fires(kind, SpentOn(spending, c), b.1)
  {
  }

  lemma HasRecAppend(a: seq<Recommendation>, b: seq<Recommendation>, kind: RecKind, c: string)
    ensures HasRec(a + b, kind, c) <==> HasRec(a, kind, c) || HasRec(b, kind, c)
  {
    var t := a + b;
    if HasRec(t, kind, c) {
      var i :| 0 <= i < |t| && t[i].kind == kind && t[i].category == c;
      if i >= |a| {
        assert t[i] == b[i - |a|];
      }
    }
    if HasRec(a, kind, c) {
      var i :| 0 <= i < |a| && a[i].kind == kind && a[i].category == c;
      assert t[i] == a[i];
    }
    if HasRec(b, kind, c) {
      var i :| 0 <= i < |b| && b[i].kind == kind && b[i].category == c;
      assert t[|a| + i] == b[i];
    }
  }

  /**
   * The month-on-month alert fires exactly when last month had expenses and
   * this month's exceed them by more than a fifth; its saving is the increase.
   */
  lemma AlertSpec(ts: seq<Transaction>, now: Date)
    requires ValidDate(now)
    ensures var thisMonth := TotalExpenses(TransactionsByPeriod(ts, "month", now));
      var lastMonth := TotalExpenses(Filter(ts, LastMonthKeep(now)));
      var a := AlertRecs(CompareWithPreviousMonth(ts, now));
      && |a| <= 1
      && (a != [] <==> lastMonth > 0.0 && thisMonth - lastMonth > lastMonth * 0.2)
      && (a != [] ==> a[0].kind == Alert && a[0].savings == thisMonth - lastMonth)
      && FromStage(a, 1)
  {
  }

  /**
   * The top-spending tip fires exactly when some category has spent more than
   * 500; it names a category with the largest spending, offers a tenth of it
   * and carries that category's tip.
   */
  lemma TipSpec(month: seq<Transaction>)
    ensures var t := TipRecs(TopCategories(month, 3));
      && |t| <= 1
      && (t != [] <==> exists c :: c in Categories(month) && CategorySpend(month, c) > 500.0)
      && (t != [] ==>
            && t[0].category in Categories(month)
            && CategorySpend(month, t[0].category) > 500.0
            && (forall c :: c in Categories(month) ==> CategorySpend(month, c) <= CategorySpend(month, t[0].category))
            && t[0].savings == CategorySpend(month, t[0].category) * 0.1
            && t[0].message == TopSpending(CategorySpend(month, t[0].category)))
      && FromStage(t, 2)
  {
    var top := TopCategories(month, 3);
    TipStage(top);
    if Categories(month) != [] {
      TopFirst(month);
      if exists c :: c in Categories(month) && CategorySpend(month, c) > 500.0 {
        var c :| c in Categories(month) && CategorySpend(month, c) > 500.0;
        assert top[0].1 >= CategorySpend(month, c);
      }
    } else {
      TopCategoriesSpec(month, 3);
      assert top == [];
    }
  }

  lemma TipStage(top: seq<(string, real)>)
    ensures FromStage(TipRecs(top), 2)
  {
    if top != [] && top[0].1 > 500.0 {
      assert top[0].1 * 0.1 > 0.0;
    }
  }

  /** With some spending category, the first of the top categories is one with the largest spending. */
  lemma TopFirst(month: seq<Transaction>)
    requires Categories(month) != []
    ensures var top := TopCategories(month, 3);
      && top != []
      && top[0].0 in Categories(month)
      && top[0].1 == CategorySpend(month, top[0].0)
      && forall c :: c in Categories(month) ==> CategorySpend(month, c) <= top[0].1
  {
    TopCategoriesSpec(month, 3);
  }

  /**
   * The overrun warning fires exactly when the budgets add up to something
   * positive and the month-end projection exceeds that sum, by the saving.
   */
  lemma OverrunSpec(predicted: real, budgets: seq<(string, real)>)
    ensures var o := OverrunRecs(predicted, budgets);
      && |o| <= 1
      && (o != [] <==> SumValues(budgets) > 0.0 && predicted > SumValues(budgets))
      && (o != [] ==> o[0].kind == Warning && o[0].savings == predicted - SumValues(budgets))
      && FromStage(o, 3)
  {
  }

  /** With amounts that are not negative, having already spent more than all budgets means an overrun warning. */
  lemma OverrunWhenAlreadyOver(ts: seq<Transaction>, budgets: seq<(string, real)>, now: Date)
    requires ValidDate(now) && AllNonNegative(ts)
    requires 0.0 < SumValues(budgets) < TotalExpenses(TransactionsByPeriod(ts, "month", now))
    ensures var month := TransactionsByPeriod(ts, "month", now);
      OverrunRecs(PredictMonthEndSpending(month, now).predicted, budgets) != []
  {
    var month := TransactionsByPeriod(ts, "month", now);
    PeriodIdempotent(ts, "month", now);
    FilterNonNegative(ts, PeriodKeep(now, "month"));
  }

  /**
   * The savings-goal reminder fires exactly when there is a positive
   * "savings" budget and this month's balance is below half of it; its
   * saving is what is still missing.
   */
  lemma GoalSpec(month: seq<Transaction>, budgets: seq<(string, real)>)
    ensures var g := GoalRecs(month, budgets);
      var goal := Lookup(budgets, "savings");
      && |g| <= 1
      && (g != [] <==> goal.Some? && goal.value > 0.0 && Balance(month) < goal.value * 0.5)
      && (g != [] ==> g[0].kind == Goal && g[0].savings == goal.value - Balance(month))
      && FromStage(g, 4)
  {
  }

  lemma AppendStage(a: seq<Recommendation>, b: seq<Recommendation>, k: nat)
    requires InCheckOrder(a) && (forall i :: 0 <= i < |a| ==> Stage(a[i]) < k)
    requires |b| <= 1 && FromStage(b, k)
    ensures InCheckOrder(a + b) && forall i :: 0 <= i < |a + b| ==> Stage((a + b)[i]) <= k
  {
  }

  lemma AppendFromStage(a: seq<Recommendation>, b: seq<Recommendation>, k: nat)
    requires (forall i :: 0 <= i < |a| ==> SavingsSensible(a[i]) && a[i].kind != Success)
    requires FromStage(b, k)
    ensures forall i :: 0 <= i < |a + b| ==> SavingsSensible((a + b)[i]) && (a + b)[i].kind != Success
  {
  }

  /**
   * The candidates follow the order of the checks, every saving is sensible,
   * and none of them is the congratulation.
   */
  lemma CandidatesShape(ts: seq<Transaction>, budgets: seq<(string, real)>, now: Date)
    requires ValidDate(now)
    ensures var c := Candidates(ts, budgets, now);
      && InCheckOrder(c)
      && forall i :: 0 <= i < |c| ==> SavingsSensible(c[i]) && c[i].kind != Success
  {
    var month := TransactionsByPeriod(ts, "month", now);
    var b := BudgetRecs(Utilization(CategoryTotals(month), budgets));
    var a := AlertRecs(CompareWithPreviousMonth(ts, now));
    var t := TipRecs(TopCategories(month, 3));
    var o := OverrunRecs(PredictMonthEndSpending(month, now).predicted, budgets);
    var g := GoalRecs(month, budgets);
    BudgetStage(CategoryTotals(month), budgets);
    AlertSpec(ts, now);
    TipSpec(month);
    OverrunSpec(PredictMonthEndSpending(month, now).predicted, budgets);
    GoalSpec(month, budgets);
    AppendStage(b, a, 1);
    AppendStage(b + a, t, 2);
    AppendStage(b + a + t, o, 3);
    AppendStage(b + a + t + o, g, 4);
    AppendFromStage(b, a, 1);
    AppendFromStage(b + a, t, 2);
    AppendFromStage(b + a + t, o, 3);
    AppendFromStage(b + a + t + o, g, 4);
  }

  /**
   * The recommendations follow the order of the checks, the congratulation
   * appears exactly when no check fired, and every saving is sensible, so the
   * total potential saving is never negative.
   */
  lemma RecommendationsSpec(ts: seq<Transaction>, budgets: seq<(string, real)>, now: Date)
    requires ValidDate(now)
    ensures var r := Recommendations(ts, budgets, now);
      && InCheckOrder(r)
      && ((exists i :: 0 <= i < |r| && r[i].kind == Success) <==> Candidates(ts, budgets, now) == [])
      && (forall i :: 0 <= i < |r| ==> SavingsSensible(r[i]))
      && TotalPotentialSavings(r) >= 0.0
  {
    var c := Candidates(ts, budgets, now);
    CandidatesShape(ts, budgets, now);
    FirstFive(c);
    assert Recommendations(ts, budgets, now) == SliceTo(if c == [] then [Congratulation] else c, 5);
  }

  /** Cutting sensible candidates in check order to five, or congratulating, keeps them so. */
  lemma FirstFive(c: seq<Recommendation>)
    requires InCheckOrder(c)
    requires forall i :: 0 <= i < |c| ==> SavingsSensible(c[i]) && c[i].kind != Success
    ensures var r := SliceTo(if c == [] then [Congratulation] else c, 5);
      && InCheckOrder(r)
      && ((exists i :: 0 <= i < |r| && r[i].kind == Success) <==> c == [])
      && (forall i :: 0 <= i < |r| ==> SavingsSensible(r[i]))
      && TotalPotentialSavings(r) >= 0.0
  {
    var r := SliceTo(if c == [] then [Congratulation] else c, 5);
    if c != [] {
      assert forall i :: 0 <= i < |r| ==> r[i] == c[i];
    } else {
      assert r == [Congratulation];
      assert r[0].kind == Success;
    }
    TotalSavingsNonNegative(r);
  }
}
