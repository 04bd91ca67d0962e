/**
 * CSV ingestion: splitting the text into a header line and data rows,
 * finding the date/amount/description/category columns by keyword, turning
 * one row into a transaction, normalising dates and guessing a category from
 * the description.
 */
module CsvImport {
  import opened Seqs
  import opened Text
  import Analytics

  // ---------------------------------------------------------------------------
  // parseCSV

  datatype CsvTable = CsvTable(headers: seq<string>, rows: seq<seq<string>>)

  /** One header or cell: trimmed first, then stripped of every double quote. */
  function Clean(cell: string): (r: string)
    ensures '"' !in r
  {
    Without(Trim(cell), '"')
  }

  /** `line.split(',').map(clean)`. */
  function CleanRow(line: string): (r: seq<string>)
    ensures |r| == |Split(line, ',')|
    ensures forall i :: 0 <= i < |r| ==> r[i] == Clean(Split(line, ',')[i])
  {
    var pieces := Split(line, ',');
    seq(|pieces|, i requires 0 <= i < |pieces| => Clean(pieces[i]))
  }

  function Lines(text: string): (r: seq<string>)
    ensures |r| >= 1
  {
    Split(Trim(text), '\n')
  }

  /** Every line split into cleaned cells. */
  function CleanRows(lines: seq<string>): (r: seq<seq<string>>)
    ensures |r| == |lines|
  {
    seq(|lines|, k requires 0 <= k < |lines| => CleanRow(lines[k]))
  }

  function HasWidth(width: nat): seq<string> -> bool {
    row => |row| == width
  }

  /** The data lines whose cell count matches the header, in input order. */
  function KeptRows(lines: seq<string>, width: nat): seq<seq<string>> {
    Filter(CleanRows(lines), HasWidth(width))
  }

  /** What `parseCSV` returns for the text. */
  function ParsedTable(text: string): CsvTable {
    var lines := Lines(text);
    if |lines| < 2 then CsvTable([], [])
    else
      var headers := CleanRow(lines[0]);
      CsvTable(headers, KeptRows(lines[1..], |headers|))
  }

  /**
   * `parseCSV`: splits the trimmed text into lines; the first gives the
   * headers and every later line whose cell count equals the header count
   * becomes a row.
   */
  method ParseCsv(text: string) returns (table: CsvTable)
    ensures table == ParsedTable(text)
  {
    var lines := Lines(text);
    if |lines| < 2 {
      return CsvTable([], []);
    }
    var headers := CleanRow(lines[0]);
    var rows: seq<seq<string>> := [];
    for i := 1 to |lines|
      invariant rows == KeptRows(lines[1..i], |headers|)
    {
      KeptRowsStep(lines, i, |headers|);
      var row := CleanRow(lines[i]);
      if |row| == |headers| {
        rows := rows + [row];
      }
    }
    assert lines[1..|lines|] == lines[1..];
    table := CsvTable(headers, rows);
  }

  /** One more data line adds its row when the row has the header's width. */
  lemma KeptRowsStep(lines: seq<string>, i: nat, width: nat)
    requires 1 <= i < |lines|
    ensures var row := CleanRow(lines[i]);
      KeptRows(lines[1..i + 1], width) == KeptRows(lines[1..i], width) + (if |row| == width then [row] else [])
  {
    assert CleanRows(lines[1..i + 1]) == CleanRows(lines[1..i]) + [CleanRow(lines[i])];
    FilterSnoc(CleanRows(lines[1..i]), CleanRow(lines[i]), HasWidth(width));
  }

  lemma KeptRowsShape(lines: seq<string>, width: nat)
    ensures |KeptRows(lines, width)| <= |lines|
    ensures forall i :: 0 <= i < |KeptRows(lines, width)| ==> |KeptRows(lines, width)[i]| == width
    ensures forall i, j :: 0 <= i < |KeptRows(lines, width)| && 0 <= j < width ==> '"' !in KeptRows(lines, width)[i][j]
    ensures IsSubsequence(KeptRows(lines, width), CleanRows(lines))
  {
    var all, kept := CleanRows(lines), KeptRows(lines, width);
    FilterMembers(all, HasWidth(width));
    forall i, j | 0 <= i < |kept| && 0 <= j < width ensures '"' !in kept[i][j] {
      FilterElement(all, HasWidth(width), i);
      var k :| 0 <= k < |all| && all[k] == kept[i];
      assert kept[i][j] == Clean(Split(lines[k], ',')[j]);
    }
  }

  /**
   * Fewer than two lines give an empty table. Otherwise there is at least one
   * header, every row has exactly one cell per header, there are at most as
   * many rows as data lines, the rows are the cleaned data lines in input
   * order with some left out, and no header or cell holds a double quote.
   */
  lemma ParsedTableSpec(text: string)
    ensures var lines, t := Lines(text), ParsedTable(text);
      && (|lines| < 2 <==> t.headers == [] && t.rows == [])
      && (|lines| >= 2 ==> |t.rows| <= |lines| - 1)
      && (forall i :: 0 <= i < |t.rows| ==> |t.rows[i]| == |t.headers|)
      && (forall i :: 0 <= i < |t.headers| ==> '"' !in t.headers[i])
      && (forall i, j :: 0 <= i < |t.rows| && 0 <= j < |t.headers| ==> '"' !in t.rows[i][j])
      && (|lines| >= 2 ==> t.headers == CleanRow(lines[0]) && IsSubsequence(t.rows, CleanRows(lines[1..])))
  {
    var lines := Lines(text);
    if |lines| >= 2 {
      KeptRowsShape(lines[1..], |CleanRow(lines[0])|);
    }
  }

  /** A cell holding no double quote is simply trimmed. */
  lemma CleanUnquoted(cell: string)
    requires '"' !in cell
    ensures Clean(cell) == Trim(cell)
  {
    var r := Trim(cell);
    var i, j :| 0 <= i <= j <= |cell| && r == cell[i..j] && TrimmedEnds(cell, i, j);
    NotInSlice(cell, i, j, '"');
  }

  lemma NotInSlice(s: string, i: int, j: int, c: char)
    requires 0 <= i <= j <= |s| && c !in s
    ensures c !in s[i..j]
  {
    forall k | i <= k < j ensures s[k] != c {
      assert s[k] in s;
    }
  }

  /**
   * Quotes are stripped after trimming, so the spaces a quoted cell holds
   * inside its quotes survive.
   */
  lemma QuotedCellKeepsSpaces()
    ensures Clean("\" a \"") == " a "
  {
    QuotedCellTrim();
    QuotedCellUnquote();
  }

  lemma QuotedCellTrim()
    ensures Trim("\" a \"") == "\" a \""
  {
    QuotedCellTrimStart();
    QuotedCellTrimEnd();
  }

  lemma QuotedCellTrimStart()
    ensures TrimStart("\" a \"") == "\" a \""
  {
  }

  lemma QuotedCellTrimEnd()
    ensures TrimEnd("\" a \"") == "\" a \""
  {
  }

  lemma QuotedCellUnquote()
    ensures Without("\" a \"", '"') == " a "
  {
    var s := "\" a \"";
    assert s[..|s| - 1] == "\" a ";
    assert s[..|s| - 1][..|s| - 2] == "\" a";
    assert s[..|s| - 1][..|s| - 2][..|s| - 3] == "\" ";
    assert s[..|s| - 1][..|s| - 2][..|s| - 3][..|s| - 4] == "\"";
    assert Without("\"", '"') == "";
    assert Without("\" ", '"') == " ";
    assert Without("\" a", '"') == " a";
    assert Without("\" a ", '"') == " a ";
  }

  // ---------------------------------------------------------------------------
  // detectColumns

  /** Column indices; -1 means the column was not found. */
  datatype Mapping = Mapping(date: int, amount: int, description: int, category: int)

  const DateKeys: seq<string> := ["date", "transaction date", "posting date"]
  const AmountKeys: seq<string> := ["amount", "debit", "withdrawal"]
  const DescriptionKeys: seq<string> := ["description", "merchant", "payee"]
  const CategoryKeys: seq<string> := ["category", "type"]

  /** `h.includes(k1) || h.includes(k2) || ...`. */
  predicate MatchesAny(h: string, keys: seq<string>) {
    keys != [] && (Contains(h, keys[0]) || MatchesAny(h, keys[1..]))
  }

  lemma {:induction false} MatchesAnyIff(h: string, keys: seq<string>)
    ensures MatchesAny(h, keys) <==> exists k :: 0 <= k < |keys| && Contains(h, keys[k])
  {
    if keys != [] {
      MatchesAnyIff(h, keys[1..]);
      if exists k :: 0 <= k < |keys| && Contains(h, keys[k]) {
        var k :| 0 <= k < |keys| && Contains(h, keys[k]);
        if k > 0 {
          assert keys[1..][k - 1] == keys[k];
        }
      }
    }
  }

  /** The index of the last of the first n headers whose lower-cased text matches keys, or -1. */
  function LastMatch(headers: seq<string>, keys: seq<string>, n: nat): (r: int)
    requires n <= |headers|
    ensures -1 <= r < n
  {
    if n == 0 then -1
    else if MatchesAny(Lower(headers[n - 1]), keys) then n - 1
    else LastMatch(headers, keys, n - 1)
  }

  /** The mapping `detectColumns` returns. */
  function DetectedColumns(headers: seq<string>): Mapping {
    var n := |headers|;
    Mapping(LastMatch(headers, DateKeys, n), LastMatch(headers, AmountKeys, n),
      LastMatch(headers, DescriptionKeys, n), LastMatch(headers, CategoryKeys, n))
  }

  /**
   * `detectColumns`: visits the headers in order and overwrites a field each
   * time a header matches its keywords, so the last match wins.
   */
  method DetectColumns(headers: seq<string>) returns (mapping: Mapping)
    ensures mapping == DetectedColumns(headers)
  {
    mapping := Mapping(-1, -1, -1, -1);
    for index := 0 to |headers|
      invariant mapping == Mapping(LastMatch(headers, DateKeys, index), LastMatch(headers, AmountKeys, index),
        LastMatch(headers, DescriptionKeys, index), LastMatch(headers, CategoryKeys, index))
    {
      var h := Lower(headers[index]);
      if MatchesAny(h, DateKeys) {
        mapping := mapping.(date := index);
      }
      if MatchesAny(h, AmountKeys) {
        mapping := mapping.(amount := index);
      }
      if MatchesAny(h, DescriptionKeys) {
        mapping := mapping.(description := index);
      }
      if MatchesAny(h, CategoryKeys) {
        mapping := mapping.(category := index);
      }
    }
  }

  /**
   * A column is -1 exactly when no header matches; otherwise it is a header
   * index, that header matches and no later one does.
   */
  lemma {:induction false} LastMatchSpec(headers: seq<string>, keys: seq<string>, n: nat)
    requires n <= |headers|
    ensures var r := LastMatch(headers, keys, n);
      && (r == -1 <==> forall j :: 0 <= j < n ==> !MatchesAny(Lower(headers[j]), keys))
      && (r >= 0 ==> (MatchesAny(Lower(headers[r]), keys)
                      && forall j :: r < j < n ==> !MatchesAny(Lower(headers[j]), keys)))
  {
    if n > 0 {
      LastMatchSpec(headers, keys, n - 1);
    }
  }

  /** Containment of strings is transitive. */
  lemma ContainsTransitive(s: string, a: string, b: string)
    requires Contains(s, a) && Contains(a, b)
    ensures Contains(s, b)
  {
    ContainsIff(s, a);
    ContainsIff(a, b);
    var i :| OccursAt(s, a, i);
    var j :| OccursAt(a, b, j);
    forall k | 0 <= k < |b| ensures s[i + j + k] == b[k] {
      assert b[k] == a[j + k];
      assert a[j + k] == s[i..i + |a|][j + k];
    }
    assert s[i + j..i + j + |b|] == b;
    assert OccursAt(s, b, i + j);
    ContainsIff(s, b);
  }

  /** The longer date keywords add nothing: a header is a date column exactly when it contains "date". */
  lemma DateKeysReduce(h: string)
    ensures MatchesAny(h, DateKeys) <==> Contains(h, "date")
  {
    var td, pd := "transaction date", "posting date";
    MatchesAnyIff(h, DateKeys);
    if MatchesAny(h, DateKeys) {
      var k :| 0 <= k < |DateKeys| && Contains(h, DateKeys[k]);
      if k == 1 {
        assert td[12..16] == "date";
        ContainsSlice(td, 12, 16);
        ContainsTransitive(h, td, "date");
      } else if k == 2 {
        assert pd[8..12] == "date";
        ContainsSlice(pd, 8, 12);
        ContainsTransitive(h, pd, "date");
      }
    } else {
      assert !Contains(h, DateKeys[0]);
    }
  }

  // ---------------------------------------------------------------------------
  // rowToTransaction

  /** A transaction as the importer produces it; the date is still text. */
  datatype Imported = Imported(kind: Analytics.Kind, amount: real, category: string, description: string, date: string)

  /** `row[i]`, with `undefined` for a position outside the row. */
  function Cell(row: seq<string>, i: int): Option<string> {
    if 0 <= i < |row| then Some(row[i]) else None
  }

  /** A present, non-empty cell (a truthy string). */
  predicate Filled(c: Option<string>) {
    c.Some? && c.value != ""
  }

  /** `s.replace(/[$,]/g, '')`. */
  function StripMoney(s: string): (r: string)
    ensures '$' !in r && ',' !in r
    ensures IsSubsequence(r, s)
    ensures forall x :: x != '$' && x != ',' ==> multiset(r)[x] == multiset(s)[x]
  {
    var t := Without(s, '$');
    WithoutSubset(t, ',');
    SubsequenceTransitive(Without(t, ','), t, s);
    Without(t, ',')
  }

  function Abs(x: real): real {
    if x < 0.0 then -x else x
  }

  /** The signed amount of a row, or None for a missing, non-numeric or zero amount. */
  function RowAmount(row: seq<string>, m: Mapping): Option<real> {
    var cell := Cell(row, m.amount);
    if !Filled(cell) then None
    else
      match ParseDecimal(StripMoney(cell.value))
      case None => None
      case Some(v) => if v == 0.0 then None else Some(v)
  }

  function RowDate(row: seq<string>, m: Mapping): Option<string> {
    var cell := Cell(row, m.date);
    if !Filled(cell) then None else ParseDate(cell.value)
  }

  function RowDescription(row: seq<string>, m: Mapping): string
    requires m.description == -1 || 0 <= m.description < |row|
  {
    if m.description != -1 then row[m.description] else "Transaction"
  }

  function RowCategory(row: seq<string>, m: Mapping): string
    requires m.description == -1 || 0 <= m.description < |row|
  {
    var cell := Cell(row, m.category);
    if m.category != -1 && Filled(cell) then Lower(cell.value) else AutoCategorize(RowDescription(row, m))
  }

  /**
   * `rowToTransaction`: null (None) unless the row has a date and an amount
   * column, both cells are filled, the amount is a non-zero number and the
   * date parses. The sign of the amount gives the type; the stored amount is
   * its absolute value.
   */
  function RowToTransaction(row: seq<string>, m: Mapping): Option<Imported>
    requires m.description == -1 || 0 <= m.description < |row|
  {
    if m.date == -1 || m.amount == -1 then None
    else if !Filled(Cell(row, m.date)) || !Filled(Cell(row, m.amount)) then None
    else
      match RowAmount(row, m)
      case None => None
      case Some(amount) =>
        match ParseDate(Cell(row, m.date).value)
        case None => None
        case Some(date) =>
          Some(Imported(if amount < 0.0 then Analytics.Expense else Analytics.Income, Abs(amount),
            RowCategory(row, m), RowDescription(row, m), date))
  }

  /**
   * A row converts exactly when both columns exist and its amount and date
   * parse; the result then has a positive amount equal to the magnitude of
   * the parsed one, is an expense exactly when that was negative, and carries
   * the row's category, description and normalised date.
   */
  lemma RowToTransactionSpec(row: seq<string>, m: Mapping)
    requires m.description == -1 || 0 <= m.description < |row|
    ensures var r := RowToTransaction(row, m);
      && (r.Some? <==> m.date != -1 && m.amount != -1 && RowAmount(row, m).Some? && RowDate(row, m).Some?)
      && (r.Some? ==>
           && r.value.amount > 0.0
           && r.value.amount == Abs(RowAmount(row, m).value)
           && (r.value.kind == Analytics.Expense <==> RowAmount(row, m).value < 0.0)
           && r.value.date == RowDate(row, m).value
           && r.value.category == RowCategory(row, m)
           && r.value.description == RowDescription(row, m))
  {
  }

  /** The category cell, lower-cased, wins when filled; otherwise the description decides. */
  lemma RowCategorySpec(row: seq<string>, m: Mapping)
    requires m.description == -1 || 0 <= m.description < |row|
    ensures 0 <= m.category < |row| && row[m.category] != "" ==> RowCategory(row, m) == Lower(row[m.category])
    ensures (m.category < 0 || m.category >= |row| || row[m.category] == "") ==>
      RowCategory(row, m) == AutoCategorize(RowDescription(row, m))
    ensures m.description == -1 ==> RowDescription(row, m) == "Transaction"
  {
  }

  // ---------------------------------------------------------------------------
  // parseDate

  /** Number of digits at s[p..], at most max. */
  function DigitRun(s: string, p: nat, max: nat): (n: nat)
    ensures n <= max && (n > 0 ==> p + n <= |s|)
    decreases max
  {
    if max == 0 || p >= |s| || !IsDigit(s[p]) then 0 else 1 + DigitRun(s, p + 1, max - 1)
  }

  /** The run is made of digits and, short of max, is not followed by one. */
  lemma {:induction false} DigitRunDigits(s: string, p: nat, max: nat)
    ensures var n := DigitRun(s, p, max);
      && (forall i :: p <= i < p + n ==> IsDigit(s[i]))
      && (n < max && p + n < |s| ==> !IsDigit(s[p + n]))
    decreases max
  {
    if DigitRun(s, p, max) > 0 {
      DigitRunDigits(s, p + 1, max - 1);
    }
  }

  /**
   * `(\d{1,2})\/(\d{1,2})\/(\d{2,4})` tried at position p. Each group is
   * greedy; giving a digit back never helps, because a shorter first or
   * second group would be followed by a digit instead of '/', and the year
   * group ends the pattern.
   */
  function SlashMatchAt(s: string, p: nat): Option<(string, string, string)> {
    var n1 := DigitRun(s, p, 2);
    if n1 == 0 || p + n1 >= |s| || s[p + n1] != '/' then None
    else AfterMonth(s, p, n1)
  }

  /** The rest of the pattern once the month group (n1 digits at p) and its slash matched. */
  function AfterMonth(s: string, p: nat, n1: nat): Option<(string, string, string)>
    requires p + n1 < |s|
  {
    var q := p + n1 + 1;
    var n2 := DigitRun(s, q, 2);
    if n2 == 0 || q + n2 >= |s| || s[q + n2] != '/' then None
    else AfterDay(s, p, n1, n2)
  }

  /** The year group once the month and day groups and both slashes matched. */
  function AfterDay(s: string, p: nat, n1: nat, n2: nat): Option<(string, string, string)>
    requires p + n1 + n2 + 1 < |s|
  {
    var y := p + n1 + n2 + 2;
    var n3 := DigitRun(s, y, 4);
    if n3 < 2 then None
    else Some((s[p..p + n1], s[p + n1 + 1..p + n1 + 1 + n2], s[y..y + n3]))
  }

  /** `match` searches from the left: the first position where the pattern matches. */
  function FindSlash(s: string, p: nat): Option<(string, string, string)>
    decreases |s| - p
  {
    if p >= |s| then None
    else
      match SlashMatchAt(s, p)
      case Some(g) => Some(g)
      case None => FindSlash(s, p + 1)
  }

  /** `\d{4}-\d{2}-\d{2}` at position p. */
  predicate IsoAt(s: string, p: nat) {
    p + 10 <= |s| && AllDigits(s[p..p + 4]) && s[p + 4] == '-'
    && AllDigits(s[p + 5..p + 7]) && s[p + 7] == '-' && AllDigits(s[p + 8..p + 10])
  }

  predicate HasIso(s: string) {
    exists p: nat | p < |s| :: IsoAt(s, p)
  }

  /** A two-digit year lies in 1950..2049; longer years are kept. */
  function PivotYear(v: nat): (y: nat)
    ensures v < 100 ==> 1950 <= y <= 2049 && y % 100 == v
    ensures v >= 100 ==> y == v
  {
    if v < 100 then (if v < 50 then v + 2000 else v + 1900) else v
  }

  /**
   * `parseDate`: an M/D/Y date anywhere in the text becomes
   * `year-MM-DD`; otherwise text holding a `YYYY-MM-DD` date is returned
   * unchanged; anything else is null (None).
   */
  function ParseDate(s: string): Option<string> {
    var g := FindSlash(s, 0);
    if g.Some? then
      FindSlashGroups(s, 0);
      var (m, d, y) := g.value;
      Some(NatToString(PivotYear(DigitsValue(y))) + "-" + PadStart2(m) + "-" + PadStart2(d))
    else if HasIso(s) then Some(s)
    else None
  }

  lemma {:induction false} NoSlashNoMatch(s: string, p: nat)
    requires '/' !in s
    ensures FindSlash(s, p) == None
    decreases |s| - p
  {
    if p < |s| {
      NoSlashNoMatch(s, p + 1);
    }
  }

  /** Text without a slash is returned as it is when it holds an ISO date, else rejected. */
  lemma ParseDateNoSlash(s: string)
    requires '/' !in s
    ensures ParseDate(s) == if HasIso(s) then Some(s) else None
  {
    NoSlashNoMatch(s, 0);
  }

  /**
   * r is `year-MM-DD`: a run of digits reading as year, a dash, two digits
   * reading as month, a dash and two digits reading as day.
   */
  predicate IsDashed(r: string, year: nat, month: nat, day: nat) {
    var k := |r| - 6;
    && k >= 1 && r[k] == '-' && r[k + 3] == '-'
    && AllDigits(r[..k]) && DigitsValue(r[..k]) == year
    && AllDigits(r[k + 1..k + 3]) && DigitsValue(r[k + 1..k + 3]) == month
    && AllDigits(r[k + 4..]) && DigitsValue(r[k + 4..]) == day
  }

  /**
   * The M/D/Y result is `year-MM-DD` for the pivoted year group and the
   * month and day groups; the year has four digits unless the group denoted
   * 100..999, in which case it has three.
   */
  lemma ParseDateSlashShape(s: string)
    requires FindSlash(s, 0).Some?
    ensures var g := FindSlash(s, 0).value;
      && AllDigits(g.0) && AllDigits(g.1) && AllDigits(g.2)
      && ParseDate(s).Some?
      && IsDashed(ParseDate(s).value, PivotYear(DigitsValue(g.2)), DigitsValue(g.0), DigitsValue(g.1))
      && (|ParseDate(s).value| == 10 <==> DigitsValue(g.2) < 100 || DigitsValue(g.2) >= 1000)
      && 9 <= |ParseDate(s).value| <= 10
  {
    var (m, d, y) := FindSlash(s, 0).value;
    FindSlashGroups(s, 0);
    var year := NatToString(PivotYear(DigitsValue(y)));
    var mm, dd := PadStart2(m), PadStart2(d);
    assert ParseDate(s).value == year + "-" + mm + "-" + dd;
    YearDigits(y);
    NatToStringRoundTrip(PivotYear(DigitsValue(y)));
    DashedShape(year, mm, dd);
  }

  /** A year group of two to four digits pivots to a year of three or four digits. */
  lemma YearDigits(y: string)
    requires AllDigits(y) && |y| <= 4
    ensures var n := |NatToString(PivotYear(DigitsValue(y)))|;
      3 <= n <= 4 && (n == 4 <==> DigitsValue(y) < 100 || DigitsValue(y) >= 1000)
  {
    DigitsBound(y);
    assert Pow10(|y|) <= 10000 by {
      assert Pow10(0) == 1 && Pow10(1) == 10 && Pow10(2) == 100 && Pow10(3) == 1000 && Pow10(4) == 10000;
    }
    NatToStringLength(PivotYear(DigitsValue(y)));
  }

  /** Joining digit strings with dashes, two-digit month and day, gives a dashed date. */
  lemma DashedShape(year: string, mm: string, dd: string)
    requires year != [] && AllDigits(year) && AllDigits(mm) && AllDigits(dd)
    requires |mm| == 2 && |dd| == 2
    ensures IsDashed(year + "-" + mm + "-" + dd, DigitsValue(year), DigitsValue(mm), DigitsValue(dd))
  {
    DashedParts(year, mm, dd);
    DashedOfParts(year + "-" + mm + "-" + dd, year, mm, dd);
  }

  /** Where the parts of `year-MM-DD` sit. */
  lemma DashedParts(year: string, mm: string, dd: string)
    requires |mm| == 2 && |dd| == 2
    ensures var r, k := year + "-" + mm + "-" + dd, |year|;
      && |r| == k + 6 && r[k] == '-' && r[k + 3] == '-'
      && r[..k] == year && r[k + 1..k + 3] == mm && r[k + 4..] == dd
  {
  }

  lemma DashedOfParts(r: string, year: string, mm: string, dd: string)
    requires year != [] && AllDigits(year) && AllDigits(mm) && AllDigits(dd)
    requires var k := |year|;
      && |r| == k + 6 && r[k] == '-' && r[k + 3] == '-'
      && r[..k] == year && r[k + 1..k + 3] == mm && r[k + 4..] == dd
    ensures IsDashed(r, DigitsValue(year), DigitsValue(mm), DigitsValue(dd))
  {
  }

  /** The groups FindSlash returns are digit strings of the pattern's lengths. */
  lemma {:induction false} FindSlashGroups(s: string, p: nat)
    requires FindSlash(s, p).Some?
    ensures var g := FindSlash(s, p).value;
      && 1 <= |g.0| <= 2 && 1 <= |g.1| <= 2 && 2 <= |g.2| <= 4
      && AllDigits(g.0) && AllDigits(g.1) && AllDigits(g.2)
    decreases |s| - p
  {
    if SlashMatchAt(s, p).None? {
      FindSlashGroups(s, p + 1);
    } else {
      SlashMatchGroups(s, p);
    }
  }

  /** The groups of one match are digit strings of the pattern's lengths. */
  lemma SlashMatchGroups(s: string, p: nat)
    requires SlashMatchAt(s, p).Some?
    ensures var g := SlashMatchAt(s, p).value;
      && 1 <= |g.0| <= 2 && 1 <= |g.1| <= 2 && 2 <= |g.2| <= 4
      && AllDigits(g.0) && AllDigits(g.1) && AllDigits(g.2)
  {
    SlashMatchRuns(s, p);
    var n1 := DigitRun(s, p, 2);
    var n2 := DigitRun(s, p + n1 + 1, 2);
    RunIsDigits(s, p, 2);
    RunIsDigits(s, p + n1 + 1, 2);
    RunIsDigits(s, p + n1 + n2 + 2, 4);
  }

  /** A non-empty run is a digit string. */
  lemma RunIsDigits(s: string, p: nat, max: nat)
    requires DigitRun(s, p, max) > 0
    ensures AllDigits(s[p..p + DigitRun(s, p, max)])
  {
    DigitRunDigits(s, p, max);
    var t := s[p..p + DigitRun(s, p, max)];
    forall i | 0 <= i < |t| ensures IsDigit(t[i]) {
      assert t[i] == s[p + i];
    }
  }

  /** What a match at p consists of: three digit runs separated by slashes. */
  lemma SlashMatchRuns(s: string, p: nat)
    requires SlashMatchAt(s, p).Some?
    ensures var n1 := DigitRun(s, p, 2); var n2 := DigitRun(s, p + n1 + 1, 2); var n3 := DigitRun(s, p + n1 + n2 + 2, 4);
      && 1 <= n1 && 1 <= n2 && 2 <= n3 && p + n1 + n2 + n3 + 2 <= |s| && s[p + n1] == '/' && s[p + n1 + n2 + 1] == '/'
      && SlashMatchAt(s, p).value == (s[p..p + n1], s[p + n1 + 1..p + n1 + 1 + n2], s[p + n1 + n2 + 2..p + n1 + n2 + 2 + n3])
  {
  }

  /** Conversely, three such runs separated by slashes are a match at p. */
  lemma SlashMatchOfRuns(s: string, p: nat, a: string, b: string, c: string)
    requires DigitRun(s, p, 2) == |a| && DigitRun(s, p + |a| + 1, 2) == |b| && DigitRun(s, p + |a| + |b| + 2, 4) == |c|
    requires 1 <= |a| && 1 <= |b| && 2 <= |c| && p + |a| + |b| + |c| + 2 <= |s|
    requires s[p + |a|] == '/' && s[p + |a| + |b| + 1] == '/'
    requires var q, y := p + |a| + 1, p + |a| + |b| + 2;
      a == s[p..p + |a|] && b == s[q..q + |b|] && c == s[y..y + |c|]
    ensures SlashMatchAt(s, p) == Some((a, b, c))
  {
  }

  /**
   * A four-digit result is a fixed point: parsing what `parseDate` produced
   * returns it unchanged.
   */
  lemma ParseDateFixpoint(s: string)
    requires ParseDate(s).Some? && |ParseDate(s).value| == 10 && FindSlash(s, 0).Some?
    ensures ParseDate(ParseDate(s).value) == ParseDate(s)
  {
    var (m, d, y) := FindSlash(s, 0).value;
    FindSlashGroups(s, 0);
    var year := NatToString(PivotYear(DigitsValue(y)));
    var mm, dd := PadStart2(m), PadStart2(d);
    var r := year + "-" + mm + "-" + dd;
    assert ParseDate(s).value == r;
    DashedIsIso(year, mm, dd);
    assert HasIso(r) by {
      assert IsoAt(r, 0);
    }
    ParseDateNoSlash(r);
  }

  /** A four-digit year, two-digit month and two-digit day joined by dashes form an ISO date. */
  lemma DashedIsIso(year: string, mm: string, dd: string)
    requires |year| == 4 && |mm| == 2 && |dd| == 2
    requires AllDigits(year) && AllDigits(mm) && AllDigits(dd) && '/' !in year
    ensures var r := year + "-" + mm + "-" + dd;
      '/' !in r && IsoAt(r, 0)
  {
    DashedParts(year, mm, dd);
    NoSlashInDigits(mm);
    NoSlashInDigits(dd);
  }

  lemma NoSlashInDigits(s: string)
    requires AllDigits(s)
    ensures '/' !in s
  {
    forall i | 0 <= i < |s| ensures s[i] != '/' {
      assert IsDigit(s[i]);
    }
  }

  /**
   * Text that starts with an M/D/Y date, the year group not followed by
   * another digit unless it already has four, becomes `year-MM-DD` of that
   * date.
   */
  lemma SlashDateAtStart(m: string, d: string, y: string, rest: string)
    requires 1 <= |m| <= 2 && 1 <= |d| <= 2 && 2 <= |y| <= 4
    requires AllDigits(m) && AllDigits(d) && AllDigits(y)
    requires |y| == 4 || rest == [] || !IsDigit(rest[0])
    ensures ParseDate(m + "/" + d + "/" + y + rest)
         == Some(NatToString(PivotYear(DigitsValue(y))) + "-" + PadStart2(m) + "-" + PadStart2(d))
  {
    var s := m + "/" + d + "/" + y + rest;
    SlashMatchOfText(m, d, y, rest);
    assert FindSlash(s, 0) == Some((m, d, y));
  }

  /** Where the groups and slashes of `m/d/y` followed by rest sit. */
  lemma SlashLayout(m: string, d: string, y: string, rest: string)
    requires 1 <= |m| <= 2 && 1 <= |d| <= 2 && 2 <= |y| <= 4
    ensures var s, q, p := m + "/" + d + "/" + y + rest, |m| + 1, |m| + |d| + 2;
      && |s| == p + |y| + |rest|
      && s[..|m|] == m && s[|m|] == '/'
      && s[q..q + |d|] == d && s[q + |d|] == '/'
      && s[p..p + |y|] == y
      && (p + |y| < |s| ==> s[p + |y|] == rest[0])
  {
    var s, q, p := m + "/" + d + "/" + y + rest, |m| + 1, |m| + |d| + 2;
    var b := m + "/" + d;
    var e := b + "/" + y;
    assert s == e + rest;
    assert s[q..q + |d|] == d by {
      assert forall i :: 0 <= i < |d| ==> s[q + i] == b[q + i] == d[i];
    }
    assert s[p..p + |y|] == y by {
      assert forall i :: 0 <= i < |y| ==> s[p + i] == e[p + i] == y[i];
    }
  }

  /** The pattern matches at the start of `m/d/y` followed by rest, taking exactly those groups. */
  lemma SlashMatchOfText(m: string, d: string, y: string, rest: string)
    requires 1 <= |m| <= 2 && 1 <= |d| <= 2 && 2 <= |y| <= 4
    requires AllDigits(m) && AllDigits(d) && AllDigits(y)
    requires |y| == 4 || rest == [] || !IsDigit(rest[0])
    ensures SlashMatchAt(m + "/" + d + "/" + y + rest, 0) == Some((m, d, y))
  {
    var s := m + "/" + d + "/" + y + rest;
    SlashLayout(m, d, y, rest);
    RunsOfText(m, d, y, rest);
    assert s[0..|m|] == m;
    SlashMatchOfRuns(s, 0, m, d, y);
  }

  /** The three digit runs of `m/d/y` followed by rest are exactly the groups. */
  lemma RunsOfText(m: string, d: string, y: string, rest: string)
    requires 1 <= |m| <= 2 && 1 <= |d| <= 2 && 2 <= |y| <= 4
    requires AllDigits(m) && AllDigits(d) && AllDigits(y)
    requires |y| == 4 || rest == [] || !IsDigit(rest[0])
    ensures var s := m + "/" + d + "/" + y + rest;
      && DigitRun(s, 0, 2) == |m|
      && DigitRun(s, |m| + 1, 2) == |d|
      && DigitRun(s, |m| + |d| + 2, 4) == |y|
  {
    var s := m + "/" + d + "/" + y + rest;
    assert !IsDigit('/');
    TextSplits(m, d, y, rest);
    RunAfter([], m, "/" + d + "/" + y + rest, 2);
    RunAfter(m + "/", d, "/" + y + rest, 2);
    RunAfter(m + "/" + d + "/", y, rest, 4);
  }

  /** The same text, bracketed around each group. */
  lemma TextSplits(m: string, d: string, y: string, rest: string)
    ensures var s := m + "/" + d + "/" + y + rest;
      && s == [] + (m + ("/" + d + "/" + y + rest))
      && s == (m + "/") + (d + ("/" + y + rest))
      && s == (m + "/" + d + "/") + (y + rest)
  {
  }

  /** A digit group g standing after u, not extendable by what follows it, is the run at |u|. */
  lemma RunAfter(u: string, g: string, t: string, max: nat)
    requires |g| <= max && AllDigits(g)
    requires |g| == max || t == [] || !IsDigit(t[0])
    ensures DigitRun(u + (g + t), |u|, max) == |g|
  {
    RunOfPrefix(g, t, max);
    RunShift(u, g + t, 0, max);
  }

  /** A digit prefix g that may not be extended by the text after it is the whole run. */
  lemma {:induction false} RunOfPrefix(g: string, t: string, max: nat)
    requires |g| <= max && AllDigits(g)
    requires |g| == max || t == [] || !IsDigit(t[0])
    ensures DigitRun(g + t, 0, max) == |g|
    decreases |g|
  {
    if g != [] {
      assert IsDigit(g[0]);
      assert g + t == [g[0]] + (g[1..] + t);
      RunOfPrefix(g[1..], t, max - 1);
      RunShift([g[0]], g[1..] + t, 0, max - 1);
    }
  }

  /** A run inside v is the same run inside u + v, shifted by |u|. */
  lemma {:induction false} RunShift(u: string, v: string, p: nat, max: nat)
    ensures DigitRun(u + v, |u| + p, max) == DigitRun(v, p, max)
    decreases max
  {
    if max > 0 && p < |v| {
      assert (u + v)[|u| + p] == v[p];
      RunShift(u, v, p + 1, max - 1);
    }
  }

  /**
   * `match` returns the leftmost occurrence: the groups, rejoined by slashes,
   * stand in s at a position k where the pattern matches, and it matches at
   * no earlier position from p on.
   */
  lemma {:induction false} FindSlashLeftmost(s: string, p: nat)
    requires FindSlash(s, p).Some?
    ensures var g := FindSlash(s, p).value;
      exists k :: p <= k && SlashMatchAt(s, k) == Some(g) && OccursAt(s, g.0 + "/" + g.1 + "/" + g.2, k)
        && forall q :: p <= q < k ==> SlashMatchAt(s, q).None?
    decreases |s| - p
  {
    var g := FindSlash(s, p).value;
    if SlashMatchAt(s, p).Some? {
      SlashMatchOccurs(s, p);
      assert SlashMatchAt(s, p) == Some(g);
    } else {
      FindSlashLeftmost(s, p + 1);
      var k :| p + 1 <= k && SlashMatchAt(s, k) == Some(g) && OccursAt(s, g.0 + "/" + g.1 + "/" + g.2, k)
        && forall q :: p + 1 <= q < k ==> SlashMatchAt(s, q).None?;
      assert forall q :: p <= q < k ==> SlashMatchAt(s, q).None?;
    }
  }

  /** The search from p reaches any later position where the pattern matches. */
  lemma {:induction false} FindSlashFinds(s: string, p: nat, k: nat)
    requires p <= k < |s| && SlashMatchAt(s, k).Some?
    ensures FindSlash(s, p).Some?
    decreases k - p
  {
    if p < k && SlashMatchAt(s, p).None? {
      FindSlashFinds(s, p + 1, k);
    }
  }

  /** With no match from p up to k, the search from p returns the match at k. */
  lemma {:induction false} FindSlashFirst(s: string, p: nat, k: nat)
    requires p <= k < |s| && SlashMatchAt(s, k).Some?
    requires forall q :: p <= q < k ==> SlashMatchAt(s, q).None?
    ensures FindSlash(s, p) == SlashMatchAt(s, k)
    decreases k - p
  {
    if p < k {
      FindSlashFirst(s, p + 1, k);
    }
  }

  /**
   * The pattern is not anchored: after text without digits, an M/D/Y date
   * is read as if the text started with it.
   */
  lemma SlashDateAfter(pre: string, m: string, d: string, y: string, rest: string)
    requires forall i :: 0 <= i < |pre| ==> !IsDigit(pre[i])
    requires 1 <= |m| <= 2 && 1 <= |d| <= 2 && 2 <= |y| <= 4
    requires AllDigits(m) && AllDigits(d) && AllDigits(y)
    requires |y| == 4 || rest == [] || !IsDigit(rest[0])
    ensures ParseDate(pre + m + "/" + d + "/" + y + rest)
         == Some(NatToString(PivotYear(DigitsValue(y))) + "-" + PadStart2(m) + "-" + PadStart2(d))
  {
    var t := m + "/" + d + "/" + y + rest;
    JoinAfter(pre, m, d, y, rest);
    SlashMatchAfter(pre, m, d, y, rest);
    FindSlashAfterPrefix(pre, t, (m, d, y));
    ParseDateOfMatch(pre + t, m, d, y);
  }

  lemma JoinAfter(pre: string, m: string, d: string, y: string, rest: string)
    ensures pre + m + "/" + d + "/" + y + rest == pre + (m + "/" + d + "/" + y + rest)
  {
  }

  /** The date the search finds is the one `parseDate` formats. */
  lemma ParseDateOfMatch(s: string, m: string, d: string, y: string)
    requires FindSlash(s, 0) == Some((m, d, y)) && AllDigits(y)
    ensures ParseDate(s) == Some(NatToString(PivotYear(DigitsValue(y))) + "-" + PadStart2(m) + "-" + PadStart2(d))
  {
    FindSlashGroups(s, 0);
  }

  /** After a prefix without digits, the search from 0 finds the match at the prefix's end. */
  lemma FindSlashAfterPrefix(u: string, v: string, g: (string, string, string))
    requires forall i :: 0 <= i < |u| ==> !IsDigit(u[i])
    requires SlashMatchAt(u + v, |u|) == Some(g)
    ensures FindSlash(u + v, 0) == Some(g)
  {
    forall q | 0 <= q < |u| ensures SlashMatchAt(u + v, q).None? {
      NoMatchAtNonDigit(u, v, q);
    }
    FindSlashFirst(u + v, 0, |u|);
  }

  /** No match starts at a character that is not a digit. */
  lemma NoMatchAtNonDigit(u: string, v: string, q: nat)
    requires q < |u| && !IsDigit(u[q])
    ensures SlashMatchAt(u + v, q).None?
  {
    assert (u + v)[q] == u[q];
  }

  /** `m/d/y` after any prefix matches at the prefix's end. */
  lemma SlashMatchAfter(pre: string, m: string, d: string, y: string, rest: string)
    requires 1 <= |m| <= 2 && 1 <= |d| <= 2 && 2 <= |y| <= 4
    requires AllDigits(m) && AllDigits(d) && AllDigits(y)
    requires |y| == 4 || rest == [] || !IsDigit(rest[0])
    ensures SlashMatchAt(pre + (m + "/" + d + "/" + y + rest), |pre|) == Some((m, d, y))
  {
    SlashMatchOfText(m, d, y, rest);
    SlashMatchShift(pre, m + "/" + d + "/" + y + rest, 0);
  }

  /** Matching at p inside t is matching at |u| + p inside u + t. */
  lemma SlashMatchShift(u: string, t: string, p: nat)
    ensures SlashMatchAt(u + t, |u| + p) == SlashMatchAt(t, p)
  {
    var n1 := DigitRun(t, p, 2);
    RunShift(u, t, p, 2);
    if n1 != 0 && p + n1 < |t| {
      assert (u + t)[|u| + p + n1] == t[p + n1];
      AfterMonthShift(u, t, p, n1);
    }
  }

  lemma AfterMonthShift(u: string, t: string, p: nat, n1: nat)
    requires p + n1 < |t|
    ensures AfterMonth(u + t, |u| + p, n1) == AfterMonth(t, p, n1)
  {
    var q := p + n1 + 1;
    var n2 := DigitRun(t, q, 2);
    RunShift(u, t, q, 2);
    if n2 != 0 && q + n2 < |t| {
      assert (u + t)[|u| + q + n2] == t[q + n2];
      AfterDayShift(u, t, p, n1, n2);
    }
  }

  lemma AfterDayShift(u: string, t: string, p: nat, n1: nat, n2: nat)
    requires p + n1 + n2 + 1 < |t|
    ensures AfterDay(u + t, |u| + p, n1, n2) == AfterDay(t, p, n1, n2)
  {
    var y := p + n1 + n2 + 2;
    var n3 := DigitRun(t, y, 4);
    RunShift(u, t, y, 4);
    if n3 >= 2 {
      SliceShift(u, t, p, p + n1);
      SliceShift(u, t, p + n1 + 1, p + n1 + 1 + n2);
      SliceShift(u, t, y, y + n3);
    }
  }

  lemma SliceShift(u: string, v: string, a: nat, b: nat)
    requires a <= b <= |v|
    ensures (u + v)[|u| + a..|u| + b] == v[a..b]
  {
    assert forall i :: 0 <= i < b - a ==> (u + v)[|u| + a..|u| + b][i] == v[a..b][i];
  }

  /** "Posted 1/5/24" is 5 January 2024: the date need not start the text. */
  lemma ParseDateInsideText()
    ensures ParseDate("Posted 1/5/24") == Some("2024-01-05")
  {
    assert "Posted 1/5/24" == "Posted " + "1" + "/" + "5" + "/" + "24" + "";
    assert AllDigits("1") && AllDigits("5") && AllDigits("24");
    SlashDateAfter("Posted ", "1", "5", "24", "");
    ShortYearParts();
  }

  /** A match at k is its groups joined by slashes, standing in s at k. */
  lemma SlashMatchOccurs(s: string, k: nat)
    requires SlashMatchAt(s, k).Some?
    ensures var g := SlashMatchAt(s, k).value;
      OccursAt(s, g.0 + "/" + g.1 + "/" + g.2, k)
  {
    SlashMatchRuns(s, k);
    var g := SlashMatchAt(s, k).value;
    SlicesJoined(s, k, g.0, g.1, g.2);
  }

  lemma SlicesJoined(s: string, k: nat, a: string, b: string, c: string)
    requires k + |a| + |b| + |c| + 2 <= |s| && s[k + |a|] == '/' && s[k + |a| + 1 + |b|] == '/'
    requires var q, y := k + |a| + 1, k + |a| + |b| + 2;
      a == s[k..k + |a|] && b == s[q..q + |b|] && c == s[y..y + |c|]
    ensures OccursAt(s, a + "/" + b + "/" + c, k)
  {
    var t := a + "/" + b + "/" + c;
    assert |t| == |a| + |b| + |c| + 2;
    assert forall i :: 0 <= i < |t| ==> t[i] == s[k + i];
  }

  /** `1/5/24` is 5 January 2024. */
  lemma ParseDateTwoDigitYear()
    ensures ParseDate("1/5/24") == Some("2024-01-05")
  {
    assert "1/5/24" == "1" + "/" + "5" + "/" + "24" + "";
    assert AllDigits("1") && AllDigits("5") && AllDigits("24");
    SlashDateAtStart("1", "5", "24", "");
    ShortYearParts();
  }

  lemma ShortYearParts()
    ensures NatToString(PivotYear(DigitsValue("24"))) + "-" + PadStart2("1") + "-" + PadStart2("5") == "2024-01-05"
  {
    assert DigitsValue("24") == 24 by { assert "24"[..1] == "2"; }
    assert PivotYear(24) == 2024;
    Year2024();
    assert PadStart2("1") == "01" by { assert "0" + "1" == "01"; }
    assert PadStart2("5") == "05" by { assert "0" + "5" == "05"; }
    assert "2024" + "-" + "01" + "-" + "05" == "2024-01-05";
  }

  lemma Year2024()
    ensures NatToString(2024) == "2024"
  {
  }

  /** `12/31/99` is 31 December 1999. */
  lemma ParseDateLastCentury()
    ensures ParseDate("12/31/99") == Some("1999-12-31")
  {
    assert "12/31/99" == "12" + "/" + "31" + "/" + "99" + "";
    assert AllDigits("12") && AllDigits("31") && AllDigits("99");
    SlashDateAtStart("12", "31", "99", "");
    LastCenturyParts();
  }

  lemma LastCenturyParts()
    ensures NatToString(PivotYear(DigitsValue("99"))) + "-" + PadStart2("12") + "-" + PadStart2("31") == "1999-12-31"
  {
    assert DigitsValue("99") == 99 by { assert "99"[..1] == "9"; }
    Year1999();
    assert PadStart2("12") == "12" && PadStart2("31") == "31";
    assert "1999" + "-" + "12" + "-" + "31" == "1999-12-31";
  }

  /** An ISO date is returned as it is. */
  lemma ParseDateIsoUnchanged()
    ensures ParseDate("2024-03-07") == Some("2024-03-07")
  {
    var s := "2024-03-07";
    assert s[0..4] == "2024" && s[5..7] == "03" && s[8..10] == "07";
    assert IsoAt(s, 0);
    ParseDateNoSlash("2024-03-07");
  }

  /** Text with neither form of date gives null. */
  lemma ParseDateNoDate()
    ensures ParseDate("March 7") == None
  {
    ParseDateNoSlash("March 7");
    assert !HasIso("March 7");
  }

  /** A three-digit year is kept as it is... */
  lemma ParseDateThreeDigitYear()
    ensures ParseDate("1/2/123") == Some("123-01-02")
  {
    assert "1/2/123" == "1" + "/" + "2" + "/" + "123" + "";
    assert AllDigits("1") && AllDigits("2") && AllDigits("123");
    SlashDateAtStart("1", "2", "123", "");
    ThreeDigitParts();
  }

  lemma Year1999()
    ensures NatToString(1999) == "1999"
  {
  }

  lemma ThreeDigitParts()
    ensures NatToString(PivotYear(DigitsValue("123"))) + "-" + PadStart2("1") + "-" + PadStart2("2") == "123-01-02"
  {
    assert DigitsValue("123") == 123 by { assert "123"[..2] == "12"; assert "12"[..1] == "1"; }
    assert NatToString(123) == "123";
    assert PadStart2("1") == "01" && PadStart2("2") == "02";
    assert "123" + "-" + "01" + "-" + "02" == "123-01-02";
  }

  /** ...and the result no longer parses. */
  lemma ParseDateThreeDigitResult()
    ensures ParseDate("123-01-02") == None
  {
    ParseDateNoSlash("123-01-02");
    assert !HasIso("123-01-02");
  }

  // ---------------------------------------------------------------------------
  // autoCategorize

  /** The keyword groups, in the order they are tried. */
  const Groups: seq<(string, seq<string>)> := [
    ("food", ["restaurant", "cafe", "coffee", "food", "dining", "starbucks", "mcdonald"]),
    ("transport", ["gas", "fuel", "uber", "lyft", "taxi", "parking"]),
    ("shopping", ["amazon", "walmart", "target", "store", "shop"]),
    ("bills", ["electric", "water", "internet", "phone", "utility", "bill"]),
    ("entertainment", ["netflix", "spotify", "movie", "entertainment"]),
    ("health", ["pharmacy", "doctor", "hospital", "medical", "health"])
  ]

  /** The name of the first group with a keyword in desc, or "other". */
  function FirstGroup(desc: string, groups: seq<(string, seq<string>)>): string {
    if groups == [] then "other"
    else if MatchesAny(desc, groups[0].1) then groups[0].0
    else FirstGroup(desc, groups[1..])
  }

  /** `autoCategorize`: the first keyword group found in the lower-cased description wins. */
  function AutoCategorize(description: string): string {
    FirstGroup(Lower(description), Groups)
  }

  /**
   * The first group that matches decides: the result is group k's name
   * exactly when group k matches and no earlier one does, and "other"
   * exactly when none matches.
   */
  lemma {:induction false} FirstGroupIn(desc: string, groups: seq<(string, seq<string>)>)
    ensures FirstGroup(desc, groups) == "other"
         || exists i :: 0 <= i < |groups| && FirstGroup(desc, groups) == groups[i].0
  {
    if groups != [] && !MatchesAny(desc, groups[0].1) {
      FirstGroupIn(desc, groups[1..]);
      if FirstGroup(desc, groups) != "other" {
        var i :| 0 <= i < |groups[1..]| && FirstGroup(desc, groups[1..]) == groups[1..][i].0;
        assert groups[1..][i] == groups[i + 1];
      }
    }
  }

  lemma {:induction false} FirstGroupSpec(desc: string, groups: seq<(string, seq<string>)>, k: nat)
    requires k < |groups|
    requires forall i, j :: 0 <= i < j < |groups| ==> groups[i].0 != groups[j].0
    requires forall i :: 0 <= i < |groups| ==> groups[i].0 != "other"
    ensures FirstGroup(desc, groups) == groups[k].0
        <==> MatchesAny(desc, groups[k].1) && forall i :: 0 <= i < k ==> !MatchesAny(desc, groups[i].1)
    ensures FirstGroup(desc, groups) == "other" <==> forall i :: 0 <= i < |groups| ==> !MatchesAny(desc, groups[i].1)
  {
    if !MatchesAny(desc, groups[0].1) {
      var rest := groups[1..];
      assert forall i :: 0 <= i < |rest| ==> rest[i] == groups[i + 1];
      if k > 0 {
        FirstGroupSpec(desc, rest, k - 1);
      } else {
        FirstGroupIn(desc, rest);
        if rest != [] {
          FirstGroupSpec(desc, rest, 0);
        }
      }
    }
  }

  /**
   * A description is put in group k exactly when a keyword of that group
   * occurs in its lower-cased form and none of an earlier group does; it is
   * "other" exactly when no keyword of any group occurs.
   */
  lemma AutoCategorizeSpec(description: string, k: nat)
    requires k < |Groups|
    ensures AutoCategorize(description) == Groups[k].0
        <==> MatchesAny(Lower(description), Groups[k].1) && forall i :: 0 <= i < k ==> !MatchesAny(Lower(description), Groups[i].1)
    ensures AutoCategorize(description) == "other"
        <==> forall i :: 0 <= i < |Groups| ==> !MatchesAny(Lower(description), Groups[i].1)
  {
    GroupNames();
    FirstGroupSpec(Lower(description), Groups, k);
  }

  /** The group names are distinct and none is "other". */
  lemma GroupNames()
    ensures forall i, j :: 0 <= i < j < |Groups| ==> Groups[i].0 != Groups[j].0
    ensures forall i :: 0 <= i < |Groups| ==> Groups[i].0 != "other"
  {
  }

  /** autoCategorize returns one of the seven categories. */
  lemma AutoCategorizeRange(description: string)
    ensures AutoCategorize(description) in
      ["food", "transport", "shopping", "bills", "entertainment", "health", "other"]
  {
    FirstGroupIn(Lower(description), Groups);
  }

  lemma AutoCategorizeFood()
    ensures AutoCategorize("Starbucks Coffee") == "food"
  {
    StarbucksLower();
    StarbucksHasCoffee("starbucks coffee");
  }

  lemma StarbucksLower()
    ensures Lower("Starbucks Coffee") == "starbucks coffee"
  {
    var s := "Starbucks Coffee";
    assert forall i :: 0 <= i < |s| ==> Lower(s)[i] == LowerChar(s[i]);
  }

  lemma StarbucksHasCoffee(d: string)
    requires d == "starbucks coffee"
    ensures MatchesAny(d, Groups[0].1)
  {
    assert d[10..16] == "coffee";
    ContainsSlice(d, 10, 16);
    MatchesAnyIff(d, Groups[0].1);
    assert Contains(d, Groups[0].1[2]);
  }

  lemma AutoCategorizeShopping()
    ensures AutoCategorize("Random Store XYZ") == "shopping"
  {
    RandomStoreLower();
    var d := "random store xyz";
    RandomStoreLetters(d);
    RandomStoreHasStore(d);
    NoFood(d);
    NoTransport(d);
    ShoppingWhenNotEarlier(d);
  }

  lemma RandomStoreLower()
    ensures Lower("Random Store XYZ") == "random store xyz"
  {
    var s := "Random Store XYZ";
    assert forall i :: 0 <= i < |s| ==> Lower(s)[i] == LowerChar(s[i]);
  }

  /** The lowered example lacks a letter of every food and transport keyword. */
  lemma RandomStoreLetters(d: string)
    requires d == "random store xyz"
    ensures 'u' !in d && 'c' !in d && 'f' !in d && 'i' !in d && 'b' !in d
    ensures 'g' !in d && 'l' !in d && 'p' !in d
  {
    RandomStoreFoodLetters(d);
    RandomStoreTransportLetters(d);
  }

  lemma RandomStoreFoodLetters(d: string)
    requires d == "random store xyz"
    ensures 'u' !in d && 'c' !in d && 'f' !in d && 'i' !in d && 'b' !in d
  {
  }

  lemma RandomStoreTransportLetters(d: string)
    requires d == "random store xyz"
    ensures 'g' !in d && 'l' !in d && 'p' !in d
  {
  }

  lemma RandomStoreHasStore(d: string)
    requires d == "random store xyz"
    ensures MatchesAny(d, Groups[2].1)
  {
    assert d[7..12] == "store";
    ContainsSlice(d, 7, 12);
    MatchesAnyIff(d, Groups[2].1);
    assert Contains(d, Groups[2].1[3]);
  }

  /** Text without u, c, f, i and b holds no food keyword. */
  lemma NoFood(d: string)
    requires 'u' !in d && 'c' !in d && 'f' !in d && 'i' !in d && 'b' !in d
    ensures !MatchesAny(d, Groups[0].1)
  {
    MissingChar(d, "restaurant", 'u');
    MissingChar(d, "cafe", 'c');
    MissingChar(d, "coffee", 'c');
    MissingChar(d, "food", 'f');
    MissingChar(d, "dining", 'i');
    MissingChar(d, "starbucks", 'b');
    MissingChar(d, "mcdonald", 'c');
    MatchesAnyIff(d, Groups[0].1);
  }

  /** Text without g, f, u, l, i and p holds no transport keyword. */
  lemma NoTransport(d: string)
    requires 'g' !in d && 'f' !in d && 'u' !in d && 'l' !in d && 'i' !in d && 'p' !in d
    ensures !MatchesAny(d, Groups[1].1)
  {
    MissingChar(d, "gas", 'g');
    MissingChar(d, "fuel", 'f');
    MissingChar(d, "uber", 'u');
    MissingChar(d, "lyft", 'l');
    MissingChar(d, "taxi", 'i');
    MissingChar(d, "parking", 'p');
    MatchesAnyIff(d, Groups[1].1);
  }

  /** Shopping wins when neither food nor transport matched. */
  lemma ShoppingWhenNotEarlier(d: string)
    requires !MatchesAny(d, Groups[0].1) && !MatchesAny(d, Groups[1].1) && MatchesAny(d, Groups[2].1)
    ensures FirstGroup(d, Groups) == "shopping"
  {
    var g1 := Groups[1..];
    var g2 := g1[1..];
    assert g1[0] == Groups[1] && g2[0] == Groups[2];
    assert FirstGroup(d, g2) == "shopping";
    assert FirstGroup(d, g1) == FirstGroup(d, g2);
  }
}
