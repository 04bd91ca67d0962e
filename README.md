# budgetwise core, modelled in Dafny

budgetwise is a browser budgeting app. This project models its three logic components and proves properties about them:

- **Analytics engine** (`js/analytics.js`). It derives figures from a transaction log:
  - transactions in a period (today, week, month, year or all);
  - income, expense and balance totals;
  - spending per category and the top categories;
  - how much of each budget is used;
  - a month-by-month trend;
  - the average daily spending and a month-end projection;
  - a comparison with the previous month.
- **Recommendation generator** (`js/savings.js`). It runs a fixed sequence of checks over this month's spending and the budgets, congratulates when nothing fires, returns at most five recommendations, and can add up their potential savings.
- **CSV import** (`js/csv-import.js`). It has four parts:
  - splitting the text into a header line and data rows;
  - finding the date, amount, description and category columns by keyword;
  - turning a row into a transaction;
  - normalising dates and guessing a category from the description.

The Dafny modules follow that structure:

| module | file | models |
|---|---|---|
| `Seqs` | `seqs.dfy` | `Array.prototype.filter` and `slice(0, n)`, order-preserving subsequences |
| `Calendar` | `calendar.dfy` | the JavaScript `Date` operations the app relies on |
| `Text` | `text.dfy` | JavaScript's `trim`, `replace(/c/g, '')`, `split`, `toLowerCase`, `includes`, `padStart`, number rendering and number parsing |
| `Analytics` | `analytics.dfy` | `js/analytics.js` |
| `Savings` | `savings.dfy` | `js/savings.js` |
| `CsvImport` | `csv_import.dfy` | `js/csv-import.js` |

Modelling choices:

- **Time.** The current date `now` is a parameter wherever the source reads the clock.
- **Dates.** A date is a proleptic Gregorian (year, month, day). A day number counts days from 0001-01-01 and gives weekdays and "k days before" exactly.
- **Amounts.** Amounts are exact reals.
- **Dictionaries.** A dictionary the source builds or iterates is an association list in insertion order. This covers category totals, budgets and utilisation. Their key order decides the order of the recommendations.
- **Loops.** Where the source loops and pushes or overwrites, the model is a method with a loop. Each such method is proved equal to a specification function. This applies to:
  - spending by category, budget utilisation and the spending trend;
  - the recommendation passes;
  - CSV parsing and column detection.
- **Pure code.** The rest is functions, with lemmas about them.

Where the code and its description differ, the model follows the code:

- **Month and year filters.** `now.setDate(...)` (js/analytics.js:10) moves `now` to the week start before the month and year starts are taken. So the "month" filter starts on the first of the week start's month, which can be the previous month, and the "year" filter likewise (`Analytics.MonthFilterStart`, `Analytics.YearFilterStart`, `Analytics.MonthFilterKeepsPreviousMonth`).
- **CSV cells.** A CSV cell is trimmed first and then stripped of double quotes (js/csv-import.js:20). Spaces inside quotes therefore survive (`CsvImport.QuotedCellKeepsSpaces`).

## Model

| member | source | states |
|---|---|---|
| `Seqs.Filter` | js/analytics.js:34 | `filter` keeps only elements satisfying the predicate and never grows the sequence |
| `Seqs.FilterMembers` | js/analytics.js:14-28 | `filter` returns an order-preserving subsequence that holds each element satisfying the predicate exactly as often as the input does, and no other element |
| `Seqs.SliceTo` | js/savings.js:102 | `slice(0, end)` is a prefix of length `min(end, n)` (end counting from the back when negative) |
| `Calendar.DaysInMonth` | js/analytics.js:136 | a month has 28 to 31 days, 29 exactly for February of a leap year |
| `Calendar.DayOfWeek` | js/analytics.js:10 | `getDay()` is a weekday 0..6; which day is 0 is fixed by `Calendar.KnownSunday`, and how the weekday moves by `Calendar.WeekdayOfSubDays` |
| `Calendar.KnownSunday` | js/analytics.js:10 | weekday 0 is Sunday: 4 January 1970, a Sunday, has weekday 0 |
| `Calendar.WeekdayOfSubDays` | js/analytics.js:10 | going k days back moves the weekday k places back, modulo 7 |
| `Calendar.DateOrderIsDayOrder` | js/analytics.js:14-24 | comparing two valid dates is comparing their day numbers, in both directions |
| `Calendar.SubDays` | js/analytics.js:10 | `setDate(getDate() - k)` gives a valid date exactly k days earlier |
| `Calendar.WeekStart` | js/analytics.js:10 | the week start has weekday 0 (a Sunday, by `Calendar.KnownSunday`), is not after now and is at most six days before it |
| `Calendar.AddMonths` | js/analytics.js:101 | `new Date(y, m - 1 + d, 1)` is a month 1..12 whose linear index is shifted by exactly d (carrying into the year) |
| `Calendar.MonthIndexInjective` | js/analytics.js:101-105 | equal month indices mean the same year and month |
| `Calendar.WithinMonth` | js/analytics.js:157-162 | a valid date lies between the first and last day of a month exactly when it is in that month |
| `Calendar.LastOfPreviousMonth` | js/analytics.js:158 | `new Date(y, m, 0)` is a valid date, the day before the first of the month |
| `Text.Trim` | js/csv-import.js:11 | `trim` returns one slice `s[i..j]` of the input with only whitespace before i and after j, no whitespace at either end of the result, and is empty exactly when the input is all whitespace |
| `Text.TrimIdempotent` | js/csv-import.js:16 | trimming twice is trimming once |
| `Text.Without` | js/csv-import.js:16 | `replace(/c/g, '')` leaves no c, keeps the other characters in order and each as often as before, and changes nothing when there is no c |
| `Text.SplitJoin` | js/csv-import.js:11 | `split(sep)` gives one more piece than separators, no piece holds the separator, and joining the pieces gives the text back |
| `Text.LowerIdempotent` | js/csv-import.js:41 | `toLowerCase` leaves no ASCII capital and lowering twice is lowering once |
| `Text.ContainsIff` | js/csv-import.js:44 | `includes(sub)` holds exactly when sub occurs at some position |
| `Text.NatToStringRoundTrip` | js/csv-import.js:121 | the decimal rendering of a year reads back as that number |
| `Text.NatToStringLength` | js/csv-import.js:121 | a number renders with four digits exactly when it is 1000..9999, and with 1, 2 or 3 digits below that |
| `Text.PadStart2` | js/csv-import.js:119-120 | `padStart(2, '0')` gives two digits with the same value |
| `Text.ParseDecimalOfNat` | js/csv-import.js:81 | the amount parser reads back a rendered number with or without a minus sign |
| `Text.ParseDecimalOfCents` | js/csv-import.js:81 | an amount written as whole part, point and two cent digits, with or without a minus sign, parses to exactly n hundredths (the fractional branch: whole value plus the fraction's digits over 10 to the number of fraction digits) |
| `Analytics.TransactionsByPeriod` | js/analytics.js:7-29 | the filter is an order-preserving subsequence, an unknown period returns the input, and each transaction on or after the period start is kept as often as it occurs while every other is dropped |
| `Analytics.PeriodStart` | js/analytics.js:7-12 | the bound of "today", "week", "month" and "year", and none for any other period; `Analytics.PeriodStartsOrdered`, `Analytics.MonthFilterStart` and `Analytics.YearFilterStart` state where each bound lies |
| `Analytics.PeriodStartsOrdered` | js/analytics.js:9-12 | year start, month start, week start and today are in that order, even with the `setDate` side effect |
| `Analytics.PeriodsNest` | js/analytics.js:14-28 | filtering by a shorter period after a longer one equals filtering by the shorter one |
| `Analytics.PeriodIdempotent` | js/analytics.js:14-28 | filtering twice by the same period is filtering once |
| `Analytics.MonthFilterStart` | js/analytics.js:10-11 | the month filter starts on the first of this month when the week started in it, otherwise on the first of the previous month |
| `Analytics.YearFilterStart` | js/analytics.js:10-12 | the year filter starts on 1 January of the previous year when the week started before this year (early January), otherwise on 1 January of this year |
| `Analytics.MonthFilterKeepsPreviousMonth` | js/analytics.js:21-22 | on Wednesday 2024-10-02 the "month" filter keeps a transaction of 2024-09-15 |
| `Analytics.TotalsSnoc` | js/analytics.js:32-43 | one more transaction adds its amount to the income total or to the expense total, according to its type |
| `Analytics.TotalIncome` | js/analytics.js:32-37 | the sum of the income amounts, not negative for non-negative amounts; `Analytics.TotalsSnoc` states how it grows |
| `Analytics.TotalExpenses` | js/analytics.js:39-44 | the sum of the expense amounts, not negative for non-negative amounts; `Analytics.TotalsSnoc` states how it grows |
| `Analytics.Balance` | js/analytics.js:46-48 | income minus expenses; `Analytics.BalanceIsNetFlow` states that it is the running net flow |
| `Analytics.BalanceIsNetFlow` | js/analytics.js:46-48 | the balance equals the running net flow (income added, expenses subtracted) |
| `Analytics.Lookup` | js/analytics.js:82 | a dictionary read is undefined exactly when the key is absent, otherwise an entry of that key |
| `Analytics.CategoriesMembers` | js/analytics.js:54-61 | a category appears exactly when some expense carries it |
| `Analytics.CategoryTotals` | js/analytics.js:51-64 | the keys are the expense categories in order of first appearance, each with its own total |
| `Analytics.CategoryTotalsSnoc` | js/analytics.js:56-61 | one more expense adds to its category's entry or appends a new one; income changes nothing |
| `Analytics.SpendingByCategory` | js/analytics.js:51-64 | the forEach loop builds exactly the category totals |
| `Analytics.IncomeNeverContributes` | js/analytics.js:54-55 | income transactions never change the category totals |
| `Analytics.CategoryTotalsSum` | js/analytics.js:51-64 | the category totals add up to the total expenses |
| `Analytics.CategoryTotalsKeys` | js/analytics.js:57-59 | keys are distinct, and a key exists exactly when some expense has that category |
| `Analytics.CategorySpendAbsent` | js/analytics.js:57-60 | a category without an entry has spent 0 |
| `Analytics.SortByAmount` | js/analytics.js:70 | sorting is a permutation by non-increasing amount |
| `Analytics.SortStable` | js/analytics.js:70 | sorting keeps entries of equal amount in their original order |
| `Analytics.TopCategories` | js/analytics.js:67-73 | the sorted category totals cut by `slice(0, limit)`; `Analytics.TopCategoriesSpec` states its length, order and entries |
| `Analytics.TopCategoriesSpec` | js/analytics.js:67-73 | exactly `min(limit, number of categories)` entries for a non-negative limit, and all but the last `-limit` for a negative one; non-increasing, each with its own total, a prefix of the sorted totals, and the first the largest of all |
| `Analytics.Percentage` | js/analytics.js:87 | `spent / budget * 100` times the budget is 100 times spent, and each threshold the recommendations test is a comparison of spent with a fraction of the budget |
| `Analytics.Utilization` | js/analytics.js:76-93 | the utilisation table; `Analytics.UtilizationSpec`, `Analytics.SpentWithoutExpenses` and `Analytics.UnsetBudgetExcluded` state its entries, and `Analytics.BudgetUtilization` is the loop that builds it |
| `Analytics.BudgetUtilization` | js/analytics.js:76-93 | the loop over the budget keys builds exactly the utilisation |
| `Analytics.UtilizationSpec` | js/analytics.js:80-89 | one entry per budget with a positive limit, in budget order, holding the limit, the category spending, `budget - spent` and the percentage |
| `Analytics.SpentWithoutExpenses` | js/analytics.js:82 | a category with no expenses has spent 0 |
| `Analytics.UnsetBudgetExcluded` | js/analytics.js:81 | a budget whose limit is not positive has no utilisation entry |
| `Analytics.SpendingTrend` | js/analytics.js:96-116 | exactly `months` buckets (none for a non-positive count), consecutive months oldest first and ending with the current month, each totalling only that month's transactions |
| `Analytics.AverageDailySpending` | js/analytics.js:119-130 | 0 without expenses; otherwise the average times the number of distinct expense days is the total expenses; never negative for non-negative amounts |
| `Analytics.ExpensesOnly` | js/analytics.js:122-127 | keeping only the expenses changes neither their days nor their total |
| `Analytics.Projected` | js/analytics.js:143 | the projection is at least the current spending for a non-negative average and day count |
| `Analytics.PredictMonthEndSpending` | js/analytics.js:133-150 | the days remaining are the month's length minus today (never negative), current spending is this month's expenses, the projection adds the daily average per remaining day and is at least the current spending for non-negative amounts |
| `Analytics.PercentageChange` | js/analytics.js:168-170 | 0 when last month had no expenses, otherwise the change relative to last month in percent, above 20 exactly when the increase exceeds a fifth |
| `Analytics.LastMonthIsCalendarMonth` | js/analytics.js:157-163 | a transaction counts as last month's exactly when it is dated in the previous calendar month |
| `Analytics.CompareWithPreviousMonth` | js/analytics.js:153-179 | the difference is this month minus last month, the change follows it, and the trend is "up" exactly when the difference is positive |
| `CsvImport.Clean` | js/csv-import.js:16 | a cleaned header or cell holds no double quote |
| `CsvImport.CleanRow` | js/csv-import.js:20 | one cleaned cell per comma-separated piece |
| `CsvImport.ParsedTable` | js/csv-import.js:10-27 | the parsed header and rows; `CsvImport.ParsedTableSpec` and `CsvImport.KeptRowsStep` state them, and `CsvImport.ParseCsv` is the loop that builds them |
| `CsvImport.ParseCsv` | js/csv-import.js:10-27 | the loop over lines builds exactly the parsed table |
| `CsvImport.KeptRowsStep` | js/csv-import.js:19-24 | a line's row is appended exactly when it has as many cells as the header |
| `CsvImport.ParsedTableSpec` | js/csv-import.js:11-24 | empty exactly when there are fewer than two lines; otherwise the cleaned header, and rows in input order that are a subsequence of the cleaned lines, at most one per line, each as wide as the header, no cell with a quote |
| `CsvImport.CleanUnquoted` | js/csv-import.js:20 | without quotes, cleaning is trimming |
| `CsvImport.QuotedCellKeepsSpaces` | js/csv-import.js:20 | the quoted cell `" a "` becomes ` a `, because trimming happens before quote removal |
| `CsvImport.MatchesAnyIff` | js/csv-import.js:44-59 | a header matches a keyword list exactly when it includes one of its keywords |
| `CsvImport.LastMatch` | js/csv-import.js:40-62 | a detected column is -1 or a header index |
| `CsvImport.LastMatchSpec` | js/csv-import.js:40-62 | a column is -1 exactly when no header matches; otherwise it is a matching header after which none matches (the last match wins) |
| `CsvImport.DetectedColumns` | js/csv-import.js:32-65 | the last matching header for each of the four keyword lists; `CsvImport.LastMatchSpec` states each column, and `CsvImport.DetectColumns` is the loop that builds them |
| `CsvImport.DetectColumns` | js/csv-import.js:32-65 | the forEach loop builds exactly the detected mapping |
| `CsvImport.DateKeysReduce` | js/csv-import.js:44 | the date keywords match exactly the headers that include "date" |
| `CsvImport.StripMoney` | js/csv-import.js:81 | removing `$` and `,` leaves neither and keeps every other character, in order and as often as before |
| `CsvImport.RowToTransaction` | js/csv-import.js:70-108 | one row as a transaction or null; `CsvImport.RowToTransactionSpec` and `CsvImport.RowCategorySpec` state when and with which fields |
| `CsvImport.RowToTransactionSpec` | js/csv-import.js:70-107 | a row converts exactly when both columns exist and the amount and date parse; the stored amount is the positive absolute value, the type is expense exactly for a negative amount, with the parsed date, category and description |
| `CsvImport.RowCategorySpec` | js/csv-import.js:89-99 | a non-empty category cell is lower-cased, otherwise the description is categorised; the description defaults to "Transaction" |
| `CsvImport.PivotYear` | js/csv-import.js:117-118 | a year below 100 becomes 1950..2049 with the same last two digits; a larger one is kept |
| `CsvImport.SlashMatchAt` | js/csv-import.js:115 | the pattern `(\d{1,2})\/(\d{1,2})\/(\d{2,4})` tried at one position; `CsvImport.FindSlashGroups`, `CsvImport.SlashMatchShift` and `CsvImport.SlashDateAtStart` state what it matches |
| `CsvImport.FindSlash` | js/csv-import.js:115 | the unanchored `match`, tried from the left; `CsvImport.FindSlashLeftmost`, `CsvImport.FindSlashFinds` and `CsvImport.FindSlashFirst` state which match it returns |
| `CsvImport.ParseDate` | js/csv-import.js:113-131 | a slash date reformatted, an ISO date kept, anything else null; `CsvImport.SlashDateAtStart`, `CsvImport.SlashDateAfter`, `CsvImport.ParseDateSlashShape` and `CsvImport.ParseDateNoSlash` state each case |
| `CsvImport.FindSlashGroups` | js/csv-import.js:115 | a slash date has one or two month digits, one or two day digits and two to four year digits |
| `CsvImport.FindSlashLeftmost` | js/csv-import.js:115 | the groups `match` returns, joined by slashes, stand in the text at a position where the pattern matches, and it matches at no earlier position |
| `CsvImport.FindSlashFinds` | js/csv-import.js:115 | the pattern is not anchored: a match at any position from the start on means `match` finds one |
| `CsvImport.FindSlashFirst` | js/csv-import.js:115 | with no match before position k, `match` returns the match at k |
| `CsvImport.SlashMatchShift` | js/csv-import.js:115 | whether and what the pattern matches at a position depends only on the text from there on |
| `CsvImport.SlashDateAtStart` | js/csv-import.js:115-121 | text that starts with one or two month digits, '/', one or two day digits, '/', and two to four year digits not followed by a further digit (unless there are four) becomes the pivoted year, the padded month and the padded day joined by dashes |
| `CsvImport.SlashDateAfter` | js/csv-import.js:115-121 | after text without digits, an M/D/Y date is reformatted as if the text started with it |
| `CsvImport.ParseDateInsideText` | js/csv-import.js:115-121 | "Posted 1/5/24" becomes "2024-01-05" |
| `CsvImport.ParseDateSlashShape` | js/csv-import.js:115-121 | a slash date gives year, month and day in that order around two dashes, with the values read from the groups; 9 or 10 characters |
| `CsvImport.ParseDateNoSlash` | js/csv-import.js:124-130 | an input without any slash is returned unchanged when it contains a YYYY-MM-DD pattern and is null otherwise |
| `CsvImport.ParseDateFixpoint` | js/csv-import.js:113-128 | a ten-character normalised date parses to itself |
| `CsvImport.ParseDateTwoDigitYear` | js/csv-import.js:115-121 | "1/5/24" becomes "2024-01-05" |
| `CsvImport.ParseDateLastCentury` | js/csv-import.js:115-121 | "12/31/99" becomes "1999-12-31" |
| `CsvImport.ParseDateThreeDigitYear` | js/csv-import.js:115-121 | "1/2/123" becomes "123-01-02" |
| `CsvImport.ParseDateThreeDigitResult` | js/csv-import.js:124-130 | "123-01-02" is not accepted again |
| `CsvImport.ParseDateIsoUnchanged` | js/csv-import.js:124-128 | "2024-03-07" is returned unchanged |
| `CsvImport.ParseDateNoDate` | js/csv-import.js:113-131 | "March 7" gives null |
| `CsvImport.FirstGroupSpec` | js/csv-import.js:139-146 | with distinct group names, group k wins exactly when it matches and no earlier group does, and "other" exactly when none matches |
| `CsvImport.AutoCategorizeSpec` | js/csv-import.js:136-147 | the category is group k exactly when a keyword of that group is in the lower-cased description and none of an earlier one is, and "other" exactly when none is |
| `CsvImport.AutoCategorize` | js/csv-import.js:136-147 | the first keyword group found in the lower-cased description, else "other"; `CsvImport.AutoCategorizeSpec` and `CsvImport.AutoCategorizeRange` state it |
| `CsvImport.AutoCategorizeRange` | js/csv-import.js:139-146 | the category is one of the six group names or "other" |
| `CsvImport.AutoCategorizeFood` | js/csv-import.js:139 | "Starbucks Coffee" is food |
| `CsvImport.AutoCategorizeShopping` | js/csv-import.js:139-141 | "Random Store XYZ" is shopping |
| `Savings.GenericTip` | js/savings.js:106-117 | a category without a tip of its own gets the generic tip |
| `Savings.SpecificTip` | js/savings.js:107-116 | every category in the tip table gets a tip other than the generic one |
| `Savings.CategorySavingsTip` | js/savings.js:106-118 | the tip table; `Savings.GenericTip` and `Savings.SpecificTip` state which categories get which tip |
| `Savings.CategoryNameSpec` | js/savings.js:121-134 | a category is shown as itself exactly when it has no display name of its own |
| `Savings.CategoryName` | js/savings.js:121-135 | the display-name table; `Savings.CategoryNameSpec` states when the key itself is shown |
| `Savings.Recommendations` | js/savings.js:91-102 | one to five recommendations: the congratulation alone when no check fired, otherwise the first `min(5, n)` of the n candidates |
| `Savings.GenerateRecommendations` | js/savings.js:7-103 | the method builds exactly the recommendations, one to five of them |
| `Savings.BudgetChecks` | js/savings.js:15-35 | the pass over the utilisation builds exactly the first check's recommendations |
| `Savings.TopSpendingChecks` | js/savings.js:50-60 | the pass over the top categories builds exactly the tip check's result |
| `Savings.BudgetStage` | js/savings.js:15-35 | the first check gives at most one recommendation per utilisation entry, each with a sensible saving and about a budgeted category, and no category twice when each category has one budget |
| `Savings.BudgetRecsIff` | js/savings.js:15-35 | a category gets a warning exactly when a positive budget of it is exceeded, and a caution exactly when one is more than 80% used but not exceeded |
| `Savings.BudgetRecSavings` | js/savings.js:16-33 | a warning saves what was spent beyond the limit (positive), a caution saves 0, and nothing is said at 80% or below |
| `Savings.AlertSpec` | js/savings.js:38-46 | at most one alert, exactly when last month had expenses and this month's exceed them by more than a fifth, saving the increase |
| `Savings.TipSpec` | js/savings.js:49-60 | at most one tip, exactly when some category spent more than 500; it names a largest category and saves a tenth of its spending |
| `Savings.OverrunSpec` | js/savings.js:63-74 | at most one overrun warning, exactly when the sum of all budgets is positive and the projection exceeds it, saving the excess |
| `Savings.OverrunWhenAlreadyOver` | js/savings.js:63-74 | with non-negative amounts, having already spent more than the positive budget sum means an overrun warning |
| `Savings.GoalSpec` | js/savings.js:77-89 | at most one goal reminder, exactly when the "savings" budget is positive and this month's balance is below half of it, saving what is missing |
| `Savings.CandidatesShape` | js/savings.js:15-89 | the candidates come in the order of the checks, only the first check contributes more than one, no saving is negative, and none is the congratulation |
| `Savings.Candidates` | js/savings.js:7-89 | the five checks in order; `Savings.CandidatesShape` and the per-check lemmas (`Savings.BudgetRecsIff`, `Savings.AlertSpec`, `Savings.TipSpec`, `Savings.OverrunSpec`, `Savings.GoalSpec`) state what each contributes |
| `Savings.FirstFive` | js/savings.js:91-102 | for in-order candidates with sensible savings, cutting to five or congratulating keeps the check order and sensible savings with a non-negative total, and a success appears exactly when there was no candidate |
| `Savings.RecommendationsSpec` | js/savings.js:91-102 | the result follows the check order, holds a success exactly when no check fired, has no negative saving, and its total potential saving is not negative |
| `Savings.TotalSavingsAppend` | js/savings.js:138-140 | the total potential saving of two lists in a row is the sum of their totals |
| `Savings.TotalSavingsNonNegative` | js/savings.js:138-140 | savings that are never negative total to something not negative |
| `Savings.TotalPotentialSavings` | js/savings.js:138-140 | the sum of the savings; `Savings.TotalSavingsAppend` and `Savings.TotalSavingsNonNegative` state it |

## Left out

- I/O and the rest of the app are not part of this model:
  - `js/app.js`: DOM and formatting;
  - `js/import-page.js`: file upload and PDF reading;
  - `js/charts.js`: chart rendering;
  - `js/storage.js`: `localStorage`.
- The wall clock is replaced by the `now` parameter.
- Time of day and time zones are not modelled; dates have day granularity. This covers:
  - `new Date(t.date)`;
  - the week start keeping the current time of day;
  - `toDateString`.

  Transactions carry a parsed date rather than the stored date string.
- Floating-point behaviour is not modelled; amounts are exact reals. This also covers `parseFloat(t.amount)` on stored amounts.
- Number formatting is not modelled (`toFixed`, template strings, `toLocaleDateString` month labels). A trend bucket carries its year and month. A recommendation message carries only the figures it reports. Titles are derived by `Savings.Title`. The tip a top-spending message ends with is `Savings.Advice`.
- Default arguments are explicit parameters: `limit = 5` of `getTopCategories` (js/analytics.js:67) and `months = 6` of `getSpendingTrend` (js/analytics.js:96).
- The unused `spending` variable of `generateRecommendations` (js/savings.js:10) is not computed.
- Key order and key sets:
  - `Object.entries` and `Object.keys` put integer-like keys first; the model keeps insertion order.
  - A budget list with a repeated key has no JavaScript counterpart. Its lookups use the first entry.
  - Inherited object properties such as `constructor` are not keys of the tables.
- Text.ParseDecimal: `parseFloat` is modelled only on its plain decimal inputs. `Text.ParseDecimal` accepts an optional `+` or `-`, digits and an optional fraction. It rejects what `parseFloat` would still read:
  - a numeric prefix, so "12abc" is rejected rather than read as 12;
  - leading whitespace, so a quoted cell `" 12.50"`, which cleans to ` 12.50`, drops its row where `parseFloat` gives 12.5;
  - exponents such as `1e3`;
  - `Infinity`.
- NaN and Infinity do not arise: amounts are reals.
- `toLowerCase` only maps ASCII capitals. Other Unicode case mappings are not modelled.
- CsvImport.RowToTransaction: requires the description column to be -1 or inside the row. With a shorter row and an empty or absent category cell, the source passes `undefined` to `autoCategorize`, which throws. With a filled category cell it would instead store an undefined description, which has no counterpart here. The only caller (js/import-page.js:72-76) passes rows of `parseCSV`, which are exactly as wide as the header the mapping was detected on, so the requirement holds there.
- CsvImport.ParseDate: the month and day of a slash date are not validated, because the source does not validate them either.
- Text.Lower: its contract only fixes the length. Its properties are stated by `Text.LowerIdempotent` and the categorisation examples.
- Savings.TotalPotentialSavings: `rec.savings || 0` counts a missing or NaN saving as 0. Here every recommendation has a real saving, so the fallback never applies.
- Savings.GenerateRecommendations: it makes the alert, overrun and goal decisions through the stage functions rather than inline statements. The two `forEach` passes are loops in `Savings.BudgetChecks` and `Savings.TopSpendingChecks`.
