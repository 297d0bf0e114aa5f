/** The index series builder: splits raw CBS statistics rows into January,
    July and yearly values, builds the January/July skeleton of years and
    left-joins the CPI and CAO series onto it. The CBS requests are not part
    of this model: each series arrives as its rows of period code and value. */
module Indices {
  import opened Wrappers
  import opened Text
  import opened Records

  const StartYear := 2002

  /** A value cell as delivered: a number, some text, or empty. */
  datatype RawValue = Number(n: real) | Textual(t: string) | Blank

  /** A raw statistics row: the `Perioden` code and the selected value. */
  datatype CbsRow = CbsRow(perioden: string, value: RawValue)

  datatype IndexError =
    | NoYearInCode   // a code without four consecutive digits: the int cast raises
    | MissingYearKey // merging onto a table without columns raises KeyError

  /** `pd.to_numeric(..., errors='coerce')`: text that does not parse is
      null. */
  function ToNumeric(v: RawValue): (r: Option<real>)
    ensures v.Blank? ==> r.None?
    ensures v.Number? ==> r == Some(v.n)
    ensures v.Textual? && r.Some? ==> HasDigit(v.t)
  {
    match v
    case Number(n) => Some(n)
    case Textual(t) => PyFloat(t)
    case Blank => None
  }

  /** `str.strip().str.lower()` of the code. */
  function RawCode(perioden: string): string {
    Lower(Strip(perioden))
  }

  /** Four digits start at position `i`. */
  predicate DigitRunAt(s: string, i: int) {
    0 <= i && i + 4 <= |s| && AllDigits(s[i..i + 4])
  }

  /** The first run of four digits (`(\d{4})`), read as a number. */
  function FirstFourDigits(s: string): (r: Option<nat>)
    ensures r.Some? ==> r.value < 10000
    decreases |s|
  {
    if |s| < 4 then None
    else if AllDigits(s[..4]) then Some(FourDigitValue(s[..4]))
    else FirstFourDigits(s[1..])
  }

  /** `FirstFourDigits` finds a run exactly when there is one, and then it
      reads the leftmost. */
  lemma {:induction false} FirstFourDigitsSpec(s: string)
    ensures FirstFourDigits(s).None? <==> forall i :: !DigitRunAt(s, i)
    ensures FirstFourDigits(s).Some? ==>
      exists i :: DigitRunAt(s, i) && (forall j :: 0 <= j < i ==> !DigitRunAt(s, j))
        && FirstFourDigits(s).value == FourDigitValue(s[i..i + 4])
    decreases |s|
  {
    if |s| < 4 {
    } else if AllDigits(s[..4]) {
      assert s[0..4] == s[..4] && DigitRunAt(s, 0);
    } else {
      var r := FirstFourDigits(s[1..]);
      FirstFourDigitsSpec(s[1..]);
      assert !DigitRunAt(s, 0) by { assert s[0..4] == s[..4]; }
      forall i ensures DigitRunAt(s, i + 1) <==> DigitRunAt(s[1..], i) {
        if 0 <= i && i + 5 <= |s| { assert s[i + 1..i + 5] == s[1..][i..i + 4]; }
      }
      if r.Some? {
        var k :| DigitRunAt(s[1..], k) && (forall j :: 0 <= j < k ==> !DigitRunAt(s[1..], j))
                 && r.value == FourDigitValue(s[1..][k..k + 4]);
        assert s[k + 1..k + 5] == s[1..][k..k + 4];
        assert DigitRunAt(s, k + 1);
        assert forall j :: 0 <= j < k + 1 ==> !DigitRunAt(s, j) by {
          forall j | 0 < j < k + 1 ensures !DigitRunAt(s, j) { assert !DigitRunAt(s[1..], j - 1); }
        }
      } else {
        assert forall i :: !DigitRunAt(s, i) by {
          forall i ensures !DigitRunAt(s, i) {
            if i > 0 { assert !DigitRunAt(s[1..], i - 1); }
          }
        }
      }
    }
  }

  function FourDigitValue(s: string): (r: nat)
    requires |s| == 4 && AllDigits(s)
    ensures r < 10000
  {
    DigitValue(s[0]) * 1000 + DigitValue(s[1]) * 100 + DigitValue(s[2]) * 10 + DigitValue(s[3])
  }

  /** A statistics row after the column preparation: its code, year and
      numeric value. */
  datatype Coded = Coded(code: string, year: nat, value: Option<real>)

  /** Codes every row, or raises when a code has no year. */
  function CodeRows(rows: seq<CbsRow>): (r: Result<seq<Coded>, IndexError>)
    ensures r.Ok? ==> |r.value| == |rows| && forall i :: 0 <= i < |rows| ==>
      r.value[i].code == RawCode(rows[i].perioden) && r.value[i].value == ToNumeric(rows[i].value)
      && Some(r.value[i].year) == FirstFourDigits(r.value[i].code)
    ensures r.Err? <==> exists i :: 0 <= i < |rows| && FirstFourDigits(RawCode(rows[i].perioden)).None?
  {
    if rows == [] then Ok([])
    else
      var init := CodeRows(rows[..|rows| - 1]);
      var row := rows[|rows| - 1];
      var code := RawCode(row.perioden);
      assert forall i :: 0 <= i < |rows| - 1 ==> rows[..|rows| - 1][i] == rows[i];
      match FirstFourDigits(code)
      case None => Err(NoYearInCode)
      case Some(y) =>
        if init.Err? then Err(init.error)
        else Ok(init.value + [Coded(code, y, ToNumeric(row.value))])
  }

  /** The yearly rows: a code that contains "jj00" or is exactly four
      characters long. */
  predicate IsYearly(code: string) {
    Contains(code, "jj00") || |code| == 4
  }

  /** `np.select`: January for "mm01" or "januari", otherwise July for
      "mm07" or "juli", otherwise no period. */
  function MonthOf(code: string): (r: Option<Period>)
    ensures r != Some(Unknown)
  {
    if Contains(code, "mm01") || Contains(code, "januari") then Some(January)
    else if Contains(code, "mm07") || Contains(code, "juli") then Some(July)
    else None
  }

  /** The values of the yearly rows of one year, in order. */
  function YearlyValues(coded: seq<Coded>, year: int): seq<Option<real>> {
    if coded == [] then []
    else
      var c := coded[|coded| - 1];
      YearlyValues(coded[..|coded| - 1], year) + if IsYearly(c.code) && c.year == year then [c.value] else []
  }

  lemma YearlyValuesLast(coded: seq<Coded>, y: int)
    requires coded != []
    ensures var c := coded[|coded| - 1];
      YearlyValues(coded, y) == YearlyValues(coded[..|coded| - 1], y) + if IsYearly(c.code) && c.year == y then [c.value] else []
  {
  }

  /** The yearly table built row by row: a yearly row sets its year's
      entry to its value, or keeps the entry when the value is null. */
  function YearlyTable(coded: seq<Coded>): (r: map<int, Option<real>>)
    ensures forall y :: y in r ==> exists i :: 0 <= i < |coded| && IsYearly(coded[i].code) && coded[i].year == y
  {
    if coded == [] then map[]
    else
      var m := YearlyTable(coded[..|coded| - 1]);
      var c := coded[|coded| - 1];
      if !IsYearly(c.code) then m
      else m[c.year := if c.value.Some? then c.value else if c.year in m then m[c.year] else None]
  }

  /** `groupby('Year').last()`: the table has an entry exactly for the years
      with a yearly row, holding the last non-null yearly value of that
      year, or null. */
  lemma {:induction false} YearlyTableSpec(coded: seq<Coded>, y: int)
    ensures y in YearlyTable(coded) <==> YearlyValues(coded, y) != []
    ensures y in YearlyTable(coded) ==> YearlyTable(coded)[y] == LastNonNull(YearlyValues(coded, y))
  {
    if coded != [] {
      var init := coded[..|coded| - 1];
      var c := coded[|coded| - 1];
      var m := YearlyTable(init);
      YearlyTableSpec(init, y);
      YearlyValuesLast(coded, y);
      if IsYearly(c.code) && c.year == y {
        LastNonNullAppend(YearlyValues(init, y), c.value);
        var v := if c.value.Some? then c.value else if y in m then m[y] else None;
        assert YearlyTable(coded) == m[y := v];
        if y !in m {
          assert YearlyValues(init, y) == [];
        }
      } else {
        assert YearlyValues(coded, y) == YearlyValues(init, y);
        if IsYearly(c.code) {
          assert YearlyTable(coded) == m[c.year := if c.value.Some? then c.value else if c.year in m then m[c.year] else None];
        }
      }
    }
  }

  datatype MonthlyRow = MonthlyRow(year: int, period: Period, value: Option<real>)

  /** The January and July rows, in order. */
  function MonthlyRows(coded: seq<Coded>): (r: seq<MonthlyRow>)
    ensures forall m :: m in r ==> m.period != Unknown
  {
    if coded == [] then []
    else
      MonthlyRows(coded[..|coded| - 1]) + MonthlyOf(coded[|coded| - 1])
  }

  /** The monthly row one coded row contributes: one for January or July,
      none otherwise. */
  function MonthlyOf(c: Coded): seq<MonthlyRow> {
    match MonthOf(c.code) case None => [] case Some(p) => [MonthlyRow(c.year, p, c.value)]
  }

  /** The monthly table has one row per January or July row of the input,
      carrying that row's year and value. */
  lemma MonthlyRowsSpec(coded: seq<Coded>)
    ensures |MonthlyRows(coded)| <= |coded|
    ensures forall m :: m in MonthlyRows(coded) <==>
      exists i :: 0 <= i < |coded| && MonthOf(coded[i].code) == Some(m.period)
        && m == MonthlyRow(coded[i].year, m.period, coded[i].value)
  {
    MonthlyRowsLength(coded);
    forall m ensures m in MonthlyRows(coded) <==>
      exists i :: 0 <= i < |coded| && MonthOf(coded[i].code) == Some(m.period)
        && m == MonthlyRow(coded[i].year, m.period, coded[i].value)
    {
      if m in MonthlyRows(coded) {
        MonthlyRowsSound(coded, m);
      }
      if (exists i :: 0 <= i < |coded| && MonthOf(coded[i].code) == Some(m.period)
                        && m == MonthlyRow(coded[i].year, m.period, coded[i].value)) {
        var i :| 0 <= i < |coded| && MonthOf(coded[i].code) == Some(m.period)
          && m == MonthlyRow(coded[i].year, m.period, coded[i].value);
        MonthlyRowsComplete(coded, i);
      }
    }
  }

  lemma {:induction false} MonthlyRowsLength(coded: seq<Coded>)
    ensures |MonthlyRows(coded)| <= |coded|
  {
    if coded != [] {
      MonthlyRowsLength(coded[..|coded| - 1]);
    }
  }

  /** Every monthly row comes from a January or July row of the input. */
  lemma {:induction false} MonthlyRowsSound(coded: seq<Coded>, m: MonthlyRow)
    requires m in MonthlyRows(coded)
    ensures exists i ::
      && 0 <= i < |coded| && MonthOf(coded[i].code) == Some(m.period)
      && m == MonthlyRow(coded[i].year, m.period, coded[i].value)
  {
    assert coded != [];
    var n := |coded| - 1;
    var init := coded[..n];
    assert MonthlyRows(coded) == MonthlyRows(init) + MonthlyOf(coded[n]);
    if m in MonthlyRows(init) {
      MonthlyRowsSound(init, m);
      var i :| 0 <= i < |init| && MonthOf(init[i].code) == Some(m.period)
        && m == MonthlyRow(init[i].year, m.period, init[i].value);
      assert init[i] == coded[i];
    } else {
      assert m in MonthlyOf(coded[n]);
      assert MonthOf(coded[n].code) == Some(m.period);
    }
  }

  /** Every January or July row of the input gives a monthly row. */
  lemma {:induction false} MonthlyRowsComplete(coded: seq<Coded>, i: int)
    requires 0 <= i < |coded| && MonthOf(coded[i].code).Some?
    ensures MonthlyRow(coded[i].year, MonthOf(coded[i].code).value, coded[i].value) in MonthlyRows(coded)
  {
    var n := |coded| - 1;
    var init := coded[..n];
    assert MonthlyRows(coded) == MonthlyRows(init) + MonthlyOf(coded[n]);
    if i < n {
      assert init[i] == coded[i];
      MonthlyRowsComplete(init, i);
    }
  }

  /** The result of `parse_periods`: two tables, or two empty frames without
      columns when the input had no rows. */
  datatype Parsed = NoTables | Tables(monthly: seq<MonthlyRow>, yearly: map<int, Option<real>>)

  function ParsePeriods(rows: seq<CbsRow>): (r: Result<Parsed, IndexError>)
    ensures rows == [] <==> r == Ok(NoTables)
  {
    if rows == [] then Ok(NoTables)
    else match CodeRows(rows)
      case Err(e) => Err(e)
      case Ok(coded) => Ok(Tables(MonthlyRows(coded), YearlyTable(coded)))
  }

  // ---------------------------------------------------------------------
  // Skeleton and joins

  /** Row `i` of the skeleton: year `2002 + i / 2`, January on even and
      July on odd positions. */
  function SkeletonKey(i: nat): (int, Period) {
    (StartYear + i / 2, if i % 2 == 0 then January else July)
  }

  /** The skeleton loop over `range(2002, currentYear + 2)`. */
  method BuildSkeleton(currentYear: int) returns (keys: seq<(int, Period)>)
    ensures |keys| == if currentYear + 2 > StartYear then 2 * (currentYear + 2 - StartYear) else 0
    ensures forall i :: 0 <= i < |keys| ==> keys[i] == SkeletonKey(i)
  {
    keys := [];
    var y := StartYear;
    while y < currentYear + 2
      invariant y >= StartYear && (y <= currentYear + 2 || y == StartYear)
      invariant |keys| == 2 * (y - StartYear)
      invariant forall i :: 0 <= i < |keys| ==> keys[i] == SkeletonKey(i)
      decreases currentYear + 2 - y
    {
      keys := keys + [(y, January), (y, July)];
      y := y + 1;
    }
  }

  /** A row under construction: its key and the value columns attached so
      far, in merge order. */
  datatype JoinRow = JoinRow(year: int, period: Period, values: seq<Option<real>>)

  /** Left merge on Year with the yearly table (at most one entry per year,
      so every row is kept once). */
  function AttachYearly(base: seq<JoinRow>, yearly: map<int, Option<real>>): (r: seq<JoinRow>)
    ensures |r| == |base|
    ensures forall i :: 0 <= i < |base| ==>
      r[i].year == base[i].year && r[i].period == base[i].period && r[i].values == base[i].values + [if base[i].year in yearly then yearly[base[i].year] else None]
  {
    seq(|base|, i requires 0 <= i < |base| =>
      base[i].(values := base[i].values + [if base[i].year in yearly then yearly[base[i].year] else None]))
  }

  /** The monthly rows with a given key, in order. */
  function Matches(monthly: seq<MonthlyRow>, year: int, period: Period): seq<MonthlyRow> {
    if monthly == [] then []
    else
      var m := monthly[|monthly| - 1];
      Matches(monthly[..|monthly| - 1], year, period) + if m.year == year && m.period == period then [m] else []
  }

  /** The output rows of one base row in a left merge: one per match, or
      the row itself with a null when nothing matches. */
  function JoinOne(row: JoinRow, monthly: seq<MonthlyRow>): (r: seq<JoinRow>)
    ensures |r| >= 1
  {
    var ms := Matches(monthly, row.year, row.period);
    if ms == [] then [row.(values := row.values + [None])]
    else seq(|ms|, j requires 0 <= j < |ms| => row.(values := row.values + [ms[j].value]))
  }

  /** Left merge on (Year, Period) with the monthly table. */
  function AttachMonthly(base: seq<JoinRow>, monthly: seq<MonthlyRow>): (r: seq<JoinRow>)
    ensures |r| >= |base|
    ensures base == [] ==> r == []
  {
    if base == [] then [] else JoinOne(base[0], monthly) + AttachMonthly(base[1..], monthly)
  }

  /** `attach_data`: the yearly then the monthly column, or KeyError when
      the series had no rows at all. */
  function AttachData(base: seq<JoinRow>, parsed: Parsed): (r: Result<seq<JoinRow>, IndexError>)
    ensures r.Err? <==> parsed.NoTables?
    ensures r.Err? ==> r.error == MissingYearKey
    ensures r.Ok? ==> |r.value| >= |base|
  {
    match parsed
    case NoTables => Err(MissingYearKey)
    case Tables(monthly, yearly) => Ok(AttachMonthly(AttachYearly(base, yearly), monthly))
  }

  function Skeleton(currentYear: int): seq<JoinRow> {
    var n := if currentYear + 2 > StartYear then 2 * (currentYear + 2 - StartYear) else 0;
    seq(n, i requires 0 <= i < n => JoinRow(SkeletonKey(i).0, SkeletonKey(i).1, []))
  }

  /** The yearly value a merge on Year attaches. */
  function YearlyLookup(yearly: map<int, Option<real>>, year: int): Option<real> {
    if year in yearly then yearly[year] else None
  }

  /** Each output row of the monthly merge extends a base row with the same
      key by one value. */
  predicate Extends(x: JoinRow, b: JoinRow) {
    x.year == b.year && x.period == b.period && |x.values| == |b.values| + 1 && x.values[..|b.values|] == b.values
  }

  lemma {:induction false} AttachMonthlyShape(base: seq<JoinRow>, monthly: seq<MonthlyRow>)
    ensures forall x :: x in AttachMonthly(base, monthly) ==> exists b :: b in base && Extends(x, b)
    decreases |base|
  {
    if base != [] {
      AttachMonthlyShape(base[1..], monthly);
      var b := base[0];
      forall x | x in JoinOne(b, monthly) ensures Extends(x, b) {
        assert (x.values)[..|b.values|] == b.values;
      }
      forall x | x in AttachMonthly(base, monthly) ensures exists b :: b in base && Extends(x, b) {
        if x in JoinOne(base[0], monthly) {
          assert Extends(x, base[0]);
        } else {
          assert x in AttachMonthly(base[1..], monthly);
          var b :| b in base[1..] && Extends(x, b);
          assert b in base;
        }
      }
    }
  }

  /** Keep the rows from `StartYear` on. */
  function FromStartYear(rows: seq<JoinRow>): (r: seq<JoinRow>)
    ensures forall x :: x in r <==> x in rows && x.year >= StartYear
  {
    if rows == [] then []
    else
      var rest := FromStartYear(rows[1..]);
      assert forall x :: x in rows <==> x == rows[0] || x in rows[1..];
      if rows[0].year >= StartYear then [rows[0]] + rest else rest
  }

  /** Every row carries the four attached values. */
  predicate Attached(rows: seq<JoinRow>) {
    forall x :: x in rows ==> |x.values| == 4
  }

  /** Column selection in the order of the saved file; the merges appended
      yearly_cpi, monthly_cpi, yearly_cao and monthly_cao. */
  function Select(rows: seq<JoinRow>): (r: seq<IndexRow>)
    requires Attached(rows)
    ensures |r| == |rows|
    ensures forall i :: 0 <= i < |rows| ==>
      var v := rows[i].values;
      r[i] == IndexRow(rows[i].year, rows[i].period, v[3], v[1], v[2], v[0])
  {
    seq(|rows|, i requires 0 <= i < |rows| =>
      var v := rows[i].values;
      assert rows[i] in rows;
      IndexRow(rows[i].year, rows[i].period, v[3], v[1], v[2], v[0]))
  }

  /** Row `x` is base row `b` with the yearly value of its year and one
      monthly value appended. */
  predicate Carries(x: JoinRow, b: JoinRow, yearly: map<int, Option<real>>) {
    && x.year == b.year && x.period == b.period
    && |x.values| == |b.values| + 2 && x.values[..|b.values|] == b.values
    && x.values[|b.values|] == YearlyLookup(yearly, b.year)
  }

  /** The two merges of one series. */
  lemma AttachDataShape(base: seq<JoinRow>, parsed: Parsed, k: nat)
    requires parsed.Tables? && forall b :: b in base ==> |b.values| == k
    ensures forall x :: x in AttachData(base, parsed).value ==> exists b :: b in base && Carries(x, b, parsed.yearly)
  {
    var y := AttachYearly(base, parsed.yearly);
    AttachMonthlyShape(y, parsed.monthly);
    forall x | x in AttachData(base, parsed).value ensures exists b :: b in base && Carries(x, b, parsed.yearly) {
      var yb :| yb in y && Extends(x, yb);
      var i :| 0 <= i < |y| && y[i] == yb;
      var b := base[i];
      assert x.values[..k] == yb.values[..k];
      assert x.values[k] == yb.values[k];
      assert Carries(x, b, parsed.yearly);
    }
  }

  /** The whole of `process_indices` after the statistics arrive: `None`
      when no CAO column was found (nothing is written), the first error
      raised, or the rows of the saved file. */
  function IndexTable(cpi: seq<CbsRow>, cao: Option<seq<CbsRow>>, currentYear: int): (r: Result<Option<seq<IndexRow>>, IndexError>)
    ensures cao.None? && ParsePeriods(cpi).Ok? ==> r == Ok(None)
    ensures ParsePeriods(cpi).Err? ==> r == Err(ParsePeriods(cpi).error)
    ensures r.Ok? && r.value.Some? ==>
      cao.Some? && forall i :: 0 <= i < |r.value.value| ==> r.value.value[i].year >= StartYear
  {
    match ParsePeriods(cpi)
    case Err(e) => Err(e)
    case Ok(cpiT) =>
      if cao.None? then Ok(None)
      else match ParsePeriods(cao.value)
        case Err(e) => Err(e)
        case Ok(caoT) =>
          match AttachData(Skeleton(currentYear), cpiT)
          case Err(e) => Err(e)
          case Ok(t1) =>
            match AttachData(t1, caoT)
            case Err(e) => Err(e)
            case Ok(t2) =>
              AttachedAfterBoth(Skeleton(currentYear), cpiT, caoT);
              var kept := FromStartYear(t2);
              assert forall i :: 0 <= i < |kept| ==> kept[i].year >= StartYear by {
                forall i | 0 <= i < |kept| ensures kept[i].year >= StartYear {
                  assert kept[i] in kept;
                }
              }
              Ok(Some(Select(kept)))
  }

  lemma AttachedAfterBoth(skeleton: seq<JoinRow>, cpiT: Parsed, caoT: Parsed)
    requires forall b :: b in skeleton ==> b.values == []
    requires AttachData(skeleton, cpiT).Ok?
    requires AttachData(AttachData(skeleton, cpiT).value, caoT).Ok?
    ensures Attached(FromStartYear(AttachData(AttachData(skeleton, cpiT).value, caoT).value))
  {
    AttachDataShape(skeleton, cpiT, 0);
    AttachDataShape(AttachData(skeleton, cpiT).value, caoT, 2);
  }

  /** `process_indices` from the fetched rows on: parse both series, stop
      when there is no CAO column, build the skeleton, attach CPI then CAO,
      keep the years from 2002 and order the columns. */
  method ProcessIndices(cpi: seq<CbsRow>, cao: Option<seq<CbsRow>>, currentYear: int)
    returns (r: Result<Option<seq<IndexRow>>, IndexError>)
    ensures r == IndexTable(cpi, cao, currentYear)
  {
    var cpiT := ParsePeriods(cpi);
    if cpiT.Err? {
      return Err(cpiT.error);
    }
    if cao.None? {
      return Ok(None);
    }
    var caoT := ParsePeriods(cao.value);
    if caoT.Err? {
      return Err(caoT.error);
    }
    var keys := BuildSkeleton(currentYear);
    var frame := seq(|keys|, i requires 0 <= i < |keys| => JoinRow(keys[i].0, keys[i].1, []));
    assert frame == Skeleton(currentYear);
    var t1 := AttachData(frame, cpiT.value);
    if t1.Err? {
      return Err(t1.error);
    }
    var t2 := AttachData(t1.value, caoT.value);
    if t2.Err? {
      return Err(t2.error);
    }
    AttachedAfterBoth(frame, cpiT.value, caoT.value);
    return Ok(Some(Select(FromStartYear(t2.value))));
  }

  // ---------------------------------------------------------------------
  // Properties of the index table

  /** Every skeleton row is an empty row of a year from 2002 up to
      `currentYear + 1`, January or July. */
  predicate SkeletonRow(b: JoinRow, currentYear: int) {
    b.values == [] && StartYear <= b.year < currentYear + 2 && b.period != Unknown
  }

  lemma SkeletonRows(currentYear: int)
    ensures forall b :: b in Skeleton(currentYear) ==> SkeletonRow(b, currentYear)
  {
    var sk := Skeleton(currentYear);
    forall b | b in sk ensures SkeletonRow(b, currentYear) {
      var i :| 0 <= i < |sk| && sk[i] == b;
      assert b.year == StartYear + i / 2;
    }
  }

  /** Every row of the saved table lies in the skeleton's years, and its
      yearly columns hold the yearly value of its year, so a year's
      January and July rows carry the same yearly values. */
  lemma IndexRowsYearly(cpi: seq<CbsRow>, cao: seq<CbsRow>, currentYear: int)
    requires IndexTable(cpi, Some(cao), currentYear).Ok?
    requires IndexTable(cpi, Some(cao), currentYear).value.Some?
    ensures ParsePeriods(cpi).Ok? && ParsePeriods(cpi).value.Tables?
    ensures ParsePeriods(cao).Ok? && ParsePeriods(cao).value.Tables?
    ensures var rows := IndexTable(cpi, Some(cao), currentYear).value.value;
      forall r :: r in rows ==>
        && StartYear <= r.year < currentYear + 2 && r.period != Unknown
        && r.yearlyCpi == YearlyLookup(ParsePeriods(cpi).value.yearly, r.year)
        && r.yearlyCao == YearlyLookup(ParsePeriods(cao).value.yearly, r.year)
  {
    IndexTableValue(cpi, cao, currentYear);
    SelectedYearly(ParsePeriods(cpi).value, ParsePeriods(cao).value, currentYear);
  }

  /** A saved table is the selection of the rows kept after attaching both
      parsed series to the skeleton. */
  lemma IndexTableValue(cpi: seq<CbsRow>, cao: seq<CbsRow>, currentYear: int)
    requires IndexTable(cpi, Some(cao), currentYear).Ok?
    requires IndexTable(cpi, Some(cao), currentYear).value.Some?
    ensures ParsePeriods(cpi).Ok? && ParsePeriods(cpi).value.Tables?
    ensures ParsePeriods(cao).Ok? && ParsePeriods(cao).value.Tables?
    ensures AttachData(Skeleton(currentYear), ParsePeriods(cpi).value).Ok?
    ensures AttachData(AttachData(Skeleton(currentYear), ParsePeriods(cpi).value).value, ParsePeriods(cao).value).Ok?
    ensures var t2 := AttachData(AttachData(Skeleton(currentYear), ParsePeriods(cpi).value).value, ParsePeriods(cao).value).value;
      Attached(FromStartYear(t2)) && IndexTable(cpi, Some(cao), currentYear).value.value == Select(FromStartYear(t2))
  {
    SkeletonRows(currentYear);
    AttachedAfterBoth(Skeleton(currentYear), ParsePeriods(cpi).value, ParsePeriods(cao).value);
  }

  /** The rows kept from the skeleton after both attachments carry the
      skeleton's years and periods and each series' yearly value. */
  lemma SelectedYearly(cpiT: Parsed, caoT: Parsed, currentYear: int)
    requires cpiT.Tables? && caoT.Tables?
    requires AttachData(Skeleton(currentYear), cpiT).Ok?
    requires AttachData(AttachData(Skeleton(currentYear), cpiT).value, caoT).Ok?
    requires Attached(FromStartYear(AttachData(AttachData(Skeleton(currentYear), cpiT).value, caoT).value))
    ensures var rows := Select(FromStartYear(AttachData(AttachData(Skeleton(currentYear), cpiT).value, caoT).value));
      forall r :: r in rows ==>
        && StartYear <= r.year < currentYear + 2 && r.period != Unknown
        && r.yearlyCpi == YearlyLookup(cpiT.yearly, r.year)
        && r.yearlyCao == YearlyLookup(caoT.yearly, r.year)
  {
    var sk := Skeleton(currentYear);
    SkeletonRows(currentYear);
    var t1 := AttachData(sk, cpiT).value;
    var t2 := AttachData(t1, caoT).value;
    AttachDataShape(sk, cpiT, 0);
    AttachDataShape(t1, caoT, 2);
    var f := FromStartYear(t2);
    var rows := Select(f);
    forall r | r in rows
      ensures StartYear <= r.year < currentYear + 2 && r.period != Unknown
      ensures r.yearlyCpi == YearlyLookup(cpiT.yearly, r.year)
      ensures r.yearlyCao == YearlyLookup(caoT.yearly, r.year)
    {
      var i :| 0 <= i < |rows| && rows[i] == r;
      var x := f[i];
      assert x in f;
      var b1 :| b1 in t1 && Carries(x, b1, caoT.yearly);
      var b0 :| b0 in sk && Carries(b1, b0, cpiT.yearly);
      assert SkeletonRow(b0, currentYear);
      assert x.values[0] == b1.values[0];
    }
  }

  /** No two monthly rows share a (Year, Period) key. */
  predicate UniqueKeys(monthly: seq<MonthlyRow>) {
    forall i, j :: 0 <= i < j < |monthly| ==> monthly[i].year != monthly[j].year || monthly[i].period != monthly[j].period
  }

  lemma {:induction false} NoMatches(monthly: seq<MonthlyRow>, year: int, period: Period)
    requires forall k :: 0 <= k < |monthly| ==> monthly[k].year != year || monthly[k].period != period
    ensures Matches(monthly, year, period) == []
  {
    if monthly != [] {
      NoMatches(monthly[..|monthly| - 1], year, period);
    }
  }

  lemma {:induction false} MatchesUnique(monthly: seq<MonthlyRow>, year: int, period: Period)
    requires UniqueKeys(monthly)
    ensures |Matches(monthly, year, period)| <= 1
  {
    if monthly != [] {
      var n := |monthly| - 1;
      var init := monthly[..n];
      MatchesUnique(init, year, period);
      if monthly[n].year == year && monthly[n].period == period {
        forall k | 0 <= k < |init| ensures init[k].year != year || init[k].period != period {
          assert init[k] == monthly[k];
        }
        NoMatches(init, year, period);
      }
    }
  }

  /** The monthly value a merge on (Year, Period) attaches when keys are
      unique: the matching row's value, or null. */
  function MonthlyLookup(monthly: seq<MonthlyRow>, year: int, period: Period): Option<real> {
    var ms := Matches(monthly, year, period);
    if ms == [] then None else ms[0].value
  }

  /** With unique keys the monthly merge keeps every row exactly once, in
      order, appending the matching value or null. */
  lemma {:induction false} AttachMonthlyUnique(base: seq<JoinRow>, monthly: seq<MonthlyRow>)
    requires UniqueKeys(monthly)
    ensures var r := AttachMonthly(base, monthly);
      |r| == |base| && forall i :: 0 <= i < |base| ==>
        r[i] == base[i].(values := base[i].values + [MonthlyLookup(monthly, base[i].year, base[i].period)])
    decreases |base|
  {
    if base != [] {
      var head, tail := JoinOne(base[0], monthly), AttachMonthly(base[1..], monthly);
      var r := AttachMonthly(base, monthly);
      assert r == head + tail;
      AttachMonthlyUnique(base[1..], monthly);
      JoinOneUnique(base[0], monthly);
      forall i | 0 <= i < |base|
        ensures r[i] == base[i].(values := base[i].values + [MonthlyLookup(monthly, base[i].year, base[i].period)])
      {
        if i == 0 {
          assert r[0] == head[0];
        } else {
          assert r[i] == tail[i - 1] && base[1..][i - 1] == base[i];
        }
      }
    }
  }

  /** With unique keys a base row meets at most one match. */
  lemma JoinOneUnique(row: JoinRow, monthly: seq<MonthlyRow>)
    requires UniqueKeys(monthly)
    ensures JoinOne(row, monthly) == [row.(values := row.values + [MonthlyLookup(monthly, row.year, row.period)])]
  {
    MatchesUnique(monthly, row.year, row.period);
  }

  lemma {:induction false} FromStartYearAll(rows: seq<JoinRow>)
    requires forall x :: x in rows ==> x.year >= StartYear
    ensures FromStartYear(rows) == rows
  {
    if rows != [] {
      FromStartYearAll(rows[1..]);
    }
  }

  /** The values a unique-key merge of a series attaches to a row. */
  function SeriesValues(t: Parsed, year: int, period: Period): seq<Option<real>>
    requires t.Tables?
  {
    [YearlyLookup(t.yearly, year), MonthlyLookup(t.monthly, year, period)]
  }

  /** Attaching one series with unique monthly keys appends its two values
      to every row, keeping the rows and their order. */
  lemma AttachDataUnique(base: seq<JoinRow>, t: Parsed)
    requires t.Tables? && UniqueKeys(t.monthly)
    ensures AttachData(base, t).Ok?
    ensures var r := AttachData(base, t).value;
      |r| == |base| && forall i :: 0 <= i < |base| ==>
        r[i] == base[i].(values := base[i].values + SeriesValues(t, base[i].year, base[i].period))
  {
    var y := AttachYearly(base, t.yearly);
    AttachMonthlyUnique(y, t.monthly);
    var r := AttachData(base, t).value;
    assert r == AttachMonthly(y, t.monthly);
    forall i | 0 <= i < |base|
      ensures r[i] == base[i].(values := base[i].values + SeriesValues(t, base[i].year, base[i].period))
    {
      var m := MonthlyLookup(t.monthly, base[i].year, base[i].period);
      assert y[i] == base[i].(values := base[i].values + [YearlyLookup(t.yearly, base[i].year)]);
      assert r[i] == y[i].(values := y[i].values + [m]);
      assert base[i].values + SeriesValues(t, base[i].year, base[i].period) == y[i].values + [m];
    }
  }

  /** The joined table before selection: the skeleton with both series'
      values attached. */
  lemma JoinedSkeleton(cpiT: Parsed, caoT: Parsed, currentYear: int)
    requires cpiT.Tables? && UniqueKeys(cpiT.monthly)
    requires caoT.Tables? && UniqueKeys(caoT.monthly)
    ensures AttachData(Skeleton(currentYear), cpiT).Ok?
    ensures AttachData(AttachData(Skeleton(currentYear), cpiT).value, caoT).Ok?
    ensures var t2 := AttachData(AttachData(Skeleton(currentYear), cpiT).value, caoT).value;
      var sk := Skeleton(currentYear);
      && |t2| == |sk|
      && FromStartYear(t2) == t2
      && forall i :: 0 <= i < |sk| ==>
           t2[i] == JoinRow(sk[i].year, sk[i].period, SeriesValues(cpiT, sk[i].year, sk[i].period) + SeriesValues(caoT, sk[i].year, sk[i].period))
  {
    var sk := Skeleton(currentYear);
    SkeletonRows(currentYear);
    AttachDataUnique(sk, cpiT);
    var t1 := AttachData(sk, cpiT).value;
    AttachDataUnique(t1, caoT);
    var t2 := AttachData(t1, caoT).value;
    forall i | 0 <= i < |sk|
      ensures t2[i] == JoinRow(sk[i].year, sk[i].period, SeriesValues(cpiT, sk[i].year, sk[i].period) + SeriesValues(caoT, sk[i].year, sk[i].period))
    {
      assert sk[i] in sk;
      var s1, s2 := SeriesValues(cpiT, sk[i].year, sk[i].period), SeriesValues(caoT, sk[i].year, sk[i].period);
      assert t1[i] == JoinRow(sk[i].year, sk[i].period, s1) by {
        assert sk[i].values + s1 == s1;
      }
      assert t2[i] == t1[i].(values := t1[i].values + s2);
    }
    forall x | x in t2 ensures x.year >= StartYear {
      var i :| 0 <= i < |t2| && t2[i] == x;
      assert sk[i] in sk;
    }
    FromStartYearAll(t2);
  }

  /** When neither series repeats a (Year, Period) code, the saved table is
      the skeleton itself: row `i` has the skeleton's key and carries the
      matching monthly and yearly values of both series, null where a
      series has none. */
  lemma IndexRowsSkeleton(cpi: seq<CbsRow>, cao: seq<CbsRow>, currentYear: int)
    requires ParsePeriods(cpi).Ok? && ParsePeriods(cpi).value.Tables? && UniqueKeys(ParsePeriods(cpi).value.monthly)
    requires ParsePeriods(cao).Ok? && ParsePeriods(cao).value.Tables? && UniqueKeys(ParsePeriods(cao).value.monthly)
    ensures IndexTable(cpi, Some(cao), currentYear).Ok? && IndexTable(cpi, Some(cao), currentYear).value.Some?
    ensures var rows := IndexTable(cpi, Some(cao), currentYear).value.value;
      |rows| == |Skeleton(currentYear)| && forall i :: 0 <= i < |rows| ==> SkeletonIndexRow(rows[i], i, ParsePeriods(cpi).value, ParsePeriods(cao).value)
  {
    var cpiT, caoT := ParsePeriods(cpi).value, ParsePeriods(cao).value;
    JoinedSkeleton(cpiT, caoT, currentYear);
    var sk := Skeleton(currentYear);
    var t2 := AttachData(AttachData(sk, cpiT).value, caoT).value;
    var rows := IndexTable(cpi, Some(cao), currentYear).value.value;
    assert rows == Select(t2);
    forall i | 0 <= i < |rows| ensures SkeletonIndexRow(rows[i], i, cpiT, caoT) {
      assert t2[i].values == SeriesValues(cpiT, sk[i].year, sk[i].period) + SeriesValues(caoT, sk[i].year, sk[i].period);
    }
  }

  /** Row `i` of the saved table when keys are unique: the skeleton key,
      the monthly CAO and CPI values, then the yearly CAO and CPI values. */
  predicate SkeletonIndexRow(r: IndexRow, i: nat, cpiT: Parsed, caoT: Parsed)
    requires cpiT.Tables? && caoT.Tables?
  {
    var (y, p) := SkeletonKey(i);
    r == IndexRow(y, p, MonthlyLookup(caoT.monthly, y, p), MonthlyLookup(cpiT.monthly, y, p),
                  YearlyLookup(caoT.yearly, y), YearlyLookup(cpiT.yearly, y))
  }

  /** A series without any rows leaves no "Year" column to merge on, so the
      build stops with a key error once both series are fetched. */
  lemma EmptySeriesFails(cpi: seq<CbsRow>, cao: seq<CbsRow>, currentYear: int)
    requires cpi == [] || cao == []
    requires ParsePeriods(cpi).Ok? && ParsePeriods(cao).Ok?
    ensures IndexTable(cpi, Some(cao), currentYear) == Err(MissingYearKey)
  {
    if cpi != [] {
      var t1 := AttachData(Skeleton(currentYear), ParsePeriods(cpi).value);
      assert ParsePeriods(cpi).value.Tables?;
      assert t1.Ok?;
    }
  }

  /** A year followed by "jj00" is a yearly code and names no month. */
  lemma YearlyCode(y: string)
    requires |y| == 4 && AllDigits(y)
    ensures IsYearly(y + "jj00") && MonthOf(y + "jj00") == None
  {
    TagContained(y, "jj00");
    AbsentAfterDigits(y, "jj00", "mm01", 0);
    AbsentAfterDigits(y, "jj00", "januari", 1);
    AbsentAfterDigits(y, "jj00", "mm07", 0);
    AbsentAfterDigits(y, "jj00", "juli", 1);
  }

  /** A bare four-digit year is yearly too and names no month. */
  lemma BareYear(y: string)
    requires |y| == 4 && AllDigits(y)
    ensures IsYearly(y) && MonthOf(y) == None
  {
    AbsentAfterDigits(y, "", "mm01", 0);
    AbsentAfterDigits(y, "", "januari", 1);
    AbsentAfterDigits(y, "", "mm07", 0);
    AbsentAfterDigits(y, "", "juli", 1);
    assert y + "" == y;
  }

  /** A year followed by "mm01" is January and not yearly. */
  lemma JanuaryCode(y: string)
    requires |y| == 4 && AllDigits(y)
    ensures !IsYearly(y + "mm01") && MonthOf(y + "mm01") == Some(January)
  {
    AbsentAfterDigits(y, "mm01", "jj00", 0);
    TagContained(y, "mm01");
  }

  /** A year followed by "mm07" is July and not yearly: the January
      condition, checked first, does not match it. */
  lemma JulyCode(y: string)
    requires |y| == 4 && AllDigits(y)
    ensures !IsYearly(y + "mm07") && MonthOf(y + "mm07") == Some(July)
  {
    AbsentAfterDigits(y, "mm07", "jj00", 0);
    JulyTagNotJanuary(y);
    AbsentAfterDigits(y, "mm07", "januari", 1);
    TagContained(y, "mm07");
  }

  /** Month names are recognised as well as month codes. */
  lemma MonthNames(y: string)
    requires |y| == 4 && AllDigits(y)
    ensures MonthOf(y + " januari") == Some(January)
    ensures MonthOf(y + " juli") == Some(July)
  {
    var jan, jul := y + " januari", y + " juli";
    assert jan[|y| + 1..] == "januari";
    ContainsAt(jan, "januari", |y| + 1);
    AbsentAfterDigits(y, " juli", "mm01", 0);
    AbsentAfterDigits(y, " juli", "januari", 1);
    assert jul[|y| + 1..] == "juli";
    ContainsAt(jul, "juli", |y| + 1);
  }

  /** A tag is contained in any text it ends. */
  lemma TagContained(y: string, tag: string)
    ensures Contains(y + tag, tag)
  {
    assert (y + tag)[|y|..] == tag;
    ContainsAt(y + tag, tag, |y|);
  }

  /** A pattern is not contained in digits and a tag when one of its
      characters is neither a digit nor in the tag. */
  lemma AbsentAfterDigits(y: string, tag: string, p: string, k: nat)
    requires AllDigits(y) && k < |p| && !IsDigit(p[k]) && p[k] !in tag
    ensures !Contains(y + tag, p)
  {
    DigitsLack(y, p[k]);
    NoPattern(y + tag, p, k);
  }

  /** "mm01" never occurs in digits followed by "mm07". */
  lemma {:induction false} JulyTagNotJanuary(y: string)
    requires AllDigits(y)
    ensures !Contains(y + "mm07", "mm01")
    decreases |y|
  {
    var s := y + "mm07";
    if y == [] {
      assert s == "mm07";
      assert !StartsWith(s, "mm01") by { assert s[3] != "mm01"[3]; }
      assert s[1..] == "m07";
      NoPattern("m07", "mm01", 3);
    } else {
      assert !StartsWith(s, "mm01") by { assert s[0] == y[0]; }
      assert AllDigits(y[1..]) by {
        forall i | 0 <= i < |y| - 1 ensures IsDigit(y[1..][i]) { assert y[1..][i] == y[i + 1]; }
      }
      JulyTagNotJanuary(y[1..]);
      assert s[1..] == y[1..] + "mm07";
    }
  }

  /** A pattern with a character absent from the text is not contained. */
  lemma NoPattern(s: string, p: string, k: nat)
    requires k < |p| && p[k] !in s
    ensures !Contains(s, p)
  {
    if Contains(s, p) {
      ContainsChars(s, p, k);
    }
  }
}
