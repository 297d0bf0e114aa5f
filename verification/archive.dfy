/** The archive builder: turns weekly adult wages (up to 2018) and scraped
    wage tables (2019 onwards) into hourly archive rows for adults and youth.
    The CSV reads and writes are not part of this model: the two input tables
    are sequences of rows and the archive is the returned sequence. A Python
    exception that aborts the build is an `Err`. */
module Archive {
  import opened Wrappers
  import opened Text
  import opened Records

  // ---------------------------------------------------------------------
  // clean_currency

  /** The text rewrite of `clean_currency`: delete the byte sequence "â‚¬"
      (the euro sign read with the wrong encoding), spaces and dots, then
      turn commas into dots. */
  function CurrencyText(s: string): (r: string)
    ensures ' ' !in r && ',' !in r
  {
    var a := ReplaceAll(s, "â‚¬", "");
    var b := ReplaceAll(a, " ", "");
    var c := ReplaceAll(b, ".", "");
    ReplaceRemoves(a, ' ', "");
    ReplaceKeepsAbsent(b, ".", "", ' ');
    ReplaceKeepsAbsent(c, ",", ".", ' ');
    ReplaceRemoves(c, ',', ".");
    ReplaceAll(c, ",", ".")
  }

  /** `clean_currency`: null or empty gives null; otherwise the rewritten
      text is parsed and a text that does not parse gives null. */
  function CleanCurrency(val: Option<string>): (r: Option<real>)
    ensures val.None? || val == Some("") ==> r.None?
  {
    if val.None? || val.value == "" then None else PyFloat(CurrencyText(val.value))
  }

  lemma {:induction false} ReplaceKeeps(s: string, pat: string, rep: string, c: char)
    requires |pat| > 0 && c in s && c !in pat
    ensures c in ReplaceAll(s, pat, rep)
    decreases |s|
  {
    if |s| < |pat| {
    } else if s[..|pat|] == pat {
      assert s[0] == pat[0];
      assert c in s[|pat|..] by {
        var i :| 0 <= i < |s| && s[i] == c;
        assert s[|pat|..][i - |pat|] == c;
      }
      ReplaceKeeps(s[|pat|..], pat, rep, c);
    } else if s[0] != c {
      assert c in s[1..] by {
        var i :| 0 <= i < |s| && s[i] == c;
        assert s[1..][i - 1] == c;
      }
      ReplaceKeeps(s[1..], pat, rep, c);
    }
  }

  lemma {:induction false} ReplaceRemoves(s: string, c: char, rep: string)
    requires c !in rep
    ensures c !in ReplaceAll(s, [c], rep)
    decreases |s|
  {
    if |s| >= 1 {
      ReplaceRemoves(s[1..], c, rep);
      assert s[1..] == s[|[c]|..];
    }
  }

  lemma {:induction false} ReplaceKeepsAbsent(s: string, pat: string, rep: string, c: char)
    requires |pat| > 0 && c !in s && c !in rep
    ensures c !in ReplaceAll(s, pat, rep)
    decreases |s|
  {
    if |s| >= |pat| {
      if s[..|pat|] == pat {
        ReplaceKeepsAbsent(s[|pat|..], pat, rep, c);
      } else {
        ReplaceKeepsAbsent(s[1..], pat, rep, c);
      }
    }
  }

  lemma {:induction false} TrimStartKeeps(s: string, c: char)
    requires c in s && !IsSpace(c)
    ensures c in TrimStart(s)
  {
    if s != [] && IsSpace(s[0]) {
      assert c in s[1..] by {
        var i :| 0 <= i < |s| && s[i] == c;
        assert s[1..][i - 1] == c;
      }
      TrimStartKeeps(s[1..], c);
    }
  }

  lemma {:induction false} TrimEndKeeps(s: string, c: char)
    requires c in s && !IsSpace(c)
    ensures c in TrimEnd(s)
  {
    if s != [] && IsSpace(s[|s| - 1]) {
      assert c in s[..|s| - 1] by {
        var i :| 0 <= i < |s| && s[i] == c;
        assert s[..|s| - 1][i] == c;
      }
      TrimEndKeeps(s[..|s| - 1], c);
    }
  }

  /** Whatever `float()` accepts consists of digits, dots and signs. */
  lemma ParsedChars(s: string, c: char)
    requires PyFloat(s).Some? && c in Strip(s)
    ensures IsDigit(c) || c == '.' || c == '+' || c == '-'
  {
    var t := Strip(s);
    var u := if t != [] && (t[0] == '+' || t[0] == '-') then t[1..] else t;
    assert ParseUnsigned(u).Some?;
    assert DigitsAnd(u, '.') by {
      match IndexOf(u, '.')
      case None =>
      case Some(k) =>
        forall i | 0 <= i < |u| ensures IsDigit(u[i]) || u[i] == '.' {
          if i < k { assert u[..k][i] == u[i]; }
          else if i > k { assert u[k + 1..][i - k - 1] == u[i]; }
        }
    }
    var i :| 0 <= i < |t| && t[i] == c;
    if u != t && i > 0 { assert u[i - 1] == c; }
  }

  /** A literal "€" is not deleted, so a text holding one gives null. */
  lemma EuroSignGivesNull(s: string)
    requires '€' in s
    ensures CleanCurrency(Some(s)).None?
  {
    var a := ReplaceAll(s, "â‚¬", "");
    ReplaceKeeps(s, "â‚¬", "", '€');
    ReplaceKeeps(a, " ", "", '€');
    var b := ReplaceAll(a, " ", "");
    ReplaceKeeps(b, ".", "", '€');
    var c := ReplaceAll(b, ".", "");
    ReplaceKeeps(c, ",", ".", '€');
    TrimStartKeeps(CurrencyText(s), '€');
    TrimEndKeeps(TrimStart(CurrencyText(s)), '€');
    if PyFloat(CurrencyText(s)).Some? {
      ParsedChars(CurrencyText(s), '€');
    }
  }

  /** How a Dutch amount reads in the spreadsheet: the euro sign read with
      the wrong encoding, a space, the whole part `w`, an optional thousands
      dot `sep`, the digits `t`, a decimal comma and the cents `c`. */
  function SheetAmount(w: string, sep: string, t: string, c: string): string {
    "â‚¬ " + (w + (sep + (t + ("," + c))))
  }

  /** Every character of `s` is a digit, a dot or a comma. */
  predicate AmountChars(s: string) {
    forall i :: 0 <= i < |s| ==> IsDigit(s[i]) || s[i] == '.' || s[i] == ','
  }

  /** The mis-encoded euro sign and the space are deleted, leaving the
      digits with their dot and comma. */
  lemma SheetAmountPrefix(w: string, sep: string, t: string, c: string)
    requires AllDigits(w) && AllDigits(t) && AllDigits(c)
    requires sep == "" || sep == "."
    ensures AmountChars(w + (sep + (t + ("," + c))))
    ensures ReplaceAll(ReplaceAll(SheetAmount(w, sep, t, c), "â‚¬", ""), " ", "") == w + (sep + (t + ("," + c)))
  {
    var body := w + (sep + (t + ("," + c)));
    assert AmountChars(body) by {
      forall i | 0 <= i < |body| ensures IsDigit(body[i]) || body[i] == '.' || body[i] == ',' {
        if i < |w| {
          assert body[i] == w[i];
        } else if i < |w| + |sep| {
          assert body[i] == sep[i - |w|];
        } else if i < |w| + |sep| + |t| {
          assert body[i] == t[i - |w| - |sep|];
        } else if i > |w| + |sep| + |t| {
          assert body[i] == c[i - |w| - |sep| - |t| - 1];
        }
      }
    }
    assert 'â' !in " " + body;
    assert ' ' !in body;
    assert SheetAmount(w, sep, t, c) == "â‚¬" + (" " + body);
    DropLeading("â‚¬", " " + body);
    DropLeading(" ", body);
  }

  /** The thousands dot is deleted. */
  lemma SheetAmountDots(w: string, sep: string, t: string, c: string)
    requires AllDigits(w) && AllDigits(t) && AllDigits(c)
    requires sep == "" || sep == "."
    ensures ReplaceAll(w + (sep + (t + ("," + c))), ".", "") == (w + t) + ("," + c)
  {
    var tail := t + ("," + c);
    assert '.' !in w && '.' !in tail;
    if sep == "" {
      assert w + (sep + tail) == w + tail;
      ReplaceAfter(w, ".", "", tail);
      ReplaceAbsent(tail, ".", "");
    } else {
      ReplaceOne(w, ".", "", tail);
      assert w + ("" + tail) == w + tail;
    }
    assert w + tail == (w + t) + ("," + c);
  }

  /** The comma becomes the decimal point. */
  lemma SheetAmountText(w: string, sep: string, t: string, c: string)
    requires AllDigits(w) && AllDigits(t) && AllDigits(c)
    requires sep == "" || sep == "."
    ensures CurrencyText(SheetAmount(w, sep, t, c)) == (w + t) + ("." + c)
  {
    var body := w + (sep + (t + ("," + c)));
    var s2 := ReplaceAll(ReplaceAll(SheetAmount(w, sep, t, c), "â‚¬", ""), " ", "");
    SheetAmountPrefix(w, sep, t, c);
    assert s2 == body;
    SheetAmountDots(w, sep, t, c);
    var s3 := ReplaceAll(s2, ".", "");
    assert s3 == (w + t) + ("," + c);
    DigitsConcat(w, t);
    assert ',' !in w + t && ',' !in c;
    ReplaceOne(w + t, ",", ".", c);
    assert ReplaceAll(s3, ",", ".") == (w + t) + ("." + c);
  }

  /** Every such amount cleans to the value of its digits `wt` plus `c`
      hundredths. */
  lemma CleanCurrencyDutch(w: string, sep: string, t: string, c: string)
    requires AllDigits(w) && AllDigits(t) && AllDigits(c) && w != [] && |c| == 2
    requires sep == "" || sep == "."
    ensures AllDigits(w + t)
    ensures CleanCurrency(Some(SheetAmount(w, sep, t, c))) == Some(NatValue(w + t) as real + NatValue(c) as real / 100.0)
  {
    var wt := w + t;
    DigitsConcat(w, t);
    SheetAmountValue(wt, w, sep, t, c);
  }

  /** `CleanCurrencyDutch` with the digits `wt` named. */
  lemma SheetAmountValue(wt: string, w: string, sep: string, t: string, c: string)
    requires AllDigits(w) && AllDigits(t) && AllDigits(c) && w != [] && |c| == 2
    requires sep == "" || sep == "."
    requires wt == w + t && AllDigits(wt)
    ensures CleanCurrency(Some(SheetAmount(w, sep, t, c))) == Some(NatValue(wt) as real + NatValue(c) as real / 100.0)
  {
    SheetAmountClean(w, sep, t, c);
    ParseWholeCents(wt, c);
  }

  /** Cleaning a sheet amount parses its rewritten text "wt.cc". */
  lemma SheetAmountClean(w: string, sep: string, t: string, c: string)
    requires AllDigits(w) && AllDigits(t) && AllDigits(c) && w != [] && |c| == 2
    requires sep == "" || sep == "."
    ensures CleanCurrency(Some(SheetAmount(w, sep, t, c))) == PyFloat((w + t) + ("." + c))
  {
    SheetAmountText(w, sep, t, c);
    assert SheetAmount(w, sep, t, c) != "";
  }

  /** Deleting a pattern that only occurs at the head of a text leaves the
      rest of the text. */
  lemma DropLeading(pat: string, y: string)
    requires |pat| > 0 && pat[0] !in y
    ensures ReplaceAll(pat + y, pat, "") == y
  {
    ReplaceHead(pat, "", y);
    ReplaceAbsent(y, pat, "");
  }


  // ---------------------------------------------------------------------
  // Appending the output of consecutive steps, stopping at the first error

  datatype ArchiveError =
    | BadHistoryDate       // int() on the year or month field raised ValueError
    | MissingWorkweekRow   // a block has no 36/38/40 workweek row: IndexError
    | MissingSection       // a 2024+ row has a null Section: AttributeError
    | MissingHourlyColumn  // 'Minimumloon per uur' is not a column: KeyError

  type Outcome = Result<seq<WageRecord>, ArchiveError>

  /** The rows appended by running `f` on each element of `xs` in order
      (with the context `c` and the element's position), or the first error
      raised. */
  function Collect<C, X>(c: C, xs: seq<X>, f: (C, nat, X) -> Outcome): Outcome
    decreases |xs|
  {
    if xs == [] then Ok([])
    else match Collect(c, xs[..|xs| - 1], f)
      case Err(e) => Err(e)
      case Ok(rs) =>
        match f(c, |xs| - 1, xs[|xs| - 1])
        case Err(e) => Err(e)
        case Ok(o) => Ok(rs + o)
  }

  lemma CollectStep<C, X>(c: C, xs: seq<X>, i: nat, f: (C, nat, X) -> Outcome)
    requires i < |xs|
    ensures Collect(c, xs[..i + 1], f) ==
      match Collect(c, xs[..i], f)
      case Err(e) => Err(e)
      case Ok(rs) => (match f(c, i, xs[i]) case Err(e) => Err(e) case Ok(o) => Ok(rs + o))
  {
    assert xs[..i + 1][..i] == xs[..i];
  }

  lemma {:induction false} CollectErrSticks<C, X>(c: C, xs: seq<X>, i: nat, f: (C, nat, X) -> Outcome)
    requires i <= |xs| && Collect(c, xs[..i], f).Err?
    ensures Collect(c, xs, f) == Collect(c, xs[..i], f)
    decreases |xs|
  {
    if i == |xs| {
      assert xs[..i] == xs;
    } else {
      var init := xs[..|xs| - 1];
      assert init[..i] == xs[..i];
      CollectErrSticks(c, init, i, f);
    }
  }

  /** When every step that raises raises an error allowed by `P`, so does
      the whole. */
  lemma {:induction false} CollectErrKind<C, X>(c: C, xs: seq<X>, f: (C, nat, X) -> Outcome, P: ArchiveError -> bool)
    requires forall i :: 0 <= i < |xs| && f(c, i, xs[i]).Err? ==> P(f(c, i, xs[i]).error)
    ensures Collect(c, xs, f).Err? ==> P(Collect(c, xs, f).error)
    decreases |xs|
  {
    if xs != [] {
      var init := xs[..|xs| - 1];
      assert forall i :: 0 <= i < |init| ==> init[i] == xs[i];
      CollectErrKind(c, init, f, P);
    }
  }

  /** When every step yields rows that satisfy `P`, so does the whole. */
  lemma {:induction false} CollectAll<C, X>(c: C, xs: seq<X>, f: (C, nat, X) -> Outcome, P: WageRecord -> bool)
    requires forall i :: 0 <= i < |xs| && f(c, i, xs[i]).Ok? ==> forall w :: w in f(c, i, xs[i]).value ==> P(w)
    ensures Collect(c, xs, f).Ok? ==> forall w :: w in Collect(c, xs, f).value ==> P(w)
    decreases |xs|
  {
    if xs != [] {
      var init := xs[..|xs| - 1];
      assert forall i :: 0 <= i < |init| ==> init[i] == xs[i];
      CollectAll(c, init, f, P);
    }
  }

  // ---------------------------------------------------------------------
  // Part 1: history rows up to 2018

  /** The official youth percentages ("staffels") in table order, for the
      regime before July 2017 (ages 22 down to 15) and from then on (ages 21
      down to 15). */
  const StaffelPre2017: seq<(string, real)> :=
    [("22", 0.85), ("21", 0.725), ("20", 0.615), ("19", 0.525), ("18", 0.455), ("17", 0.395), ("16", 0.345), ("15", 0.30)]
  const StaffelPost2017: seq<(string, real)> :=
    [("21", 0.85), ("20", 0.70), ("19", 0.55), ("18", 0.475), ("17", 0.395), ("16", 0.345), ("15", 0.30)]

  /** The two tables: eight and seven ages, every percentage between 30%
      and 85%, falling strictly with age, and each age one below the one
      before it. */
  lemma StaffelTables()
    ensures |StaffelPre2017| == 8 && |StaffelPost2017| == 7
    ensures StaffelPre2017[0].0 == "22" && StaffelPost2017[0].0 == "21"
    ensures StaffelPre2017[7].0 == "15" && StaffelPost2017[6].0 == "15"
    ensures forall i :: 0 <= i < 8 ==> 0.30 <= StaffelPre2017[i].1 <= 0.85
    ensures forall i :: 0 <= i < 7 ==> 0.30 <= StaffelPost2017[i].1 <= 0.85
    ensures forall i :: 0 < i < 8 ==> StaffelPre2017[i].1 < StaffelPre2017[i - 1].1
    ensures forall i :: 0 < i < 7 ==> StaffelPost2017[i].1 < StaffelPost2017[i - 1].1
  {
  }

  /** The input row: its first field (a "YYYY-MM" text) and the weekly
      adult wage in the `Nominal` column. */
  datatype HistoryRow = HistoryRow(first: string, nominal: Option<real>)

  /** The first two fields of `s.split('-')`. */
  function DashFields(s: string): (string, string)
    requires '-' in s
  {
    var k := IndexOf(s, '-').value;
    var rest := s[k + 1..];
    (s[..k], match IndexOf(rest, '-') case None => rest case Some(j) => rest[..j])
  }

  /** The regime before July 2017: adult from 23. */
  predicate PreJuly2017(year: int, month: int) {
    year < 2017 || (year == 2017 && month == 1)
  }

  function AdultAge(year: int, month: int): string {
    if PreJuly2017(year, month) then "23+" else "22+"
  }

  function Staffel(year: int, month: int): seq<(string, real)> {
    if PreJuly2017(year, month) then StaffelPre2017 else StaffelPost2017
  }

  /** Month 1 is January; any other month is filed as July. */
  function MonthPeriod(month: int): Period {
    if month == 1 then January else July
  }

  /** The hourly share of a weekly wage at a percentage. */
  function Share(nominal: real, pct: real, hours: nat): real
    requires hours > 0
  {
    nominal * pct / hours as real
  }

  /** `round(nominal * pct / hours, 2)`, null when the wage is null. */
  function Scaled(nominal: Option<real>, pct: real, hours: nat): Option<real>
    requires hours > 0
  {
    match nominal
    case None => None
    case Some(n) => Some(Round2(Share(n, pct, hours)))
  }

  /** One archive row derived from a weekly wage and a percentage. */
  function HistoryRecord(year: int, month: int, nominal: Option<real>, age: string, isAdult: bool, pct: real): WageRecord {
    WageRecord(year, MonthPeriod(month), age, isAdult,
      Scaled(nominal, pct, 36), Scaled(nominal, pct, 38), Scaled(nominal, pct, 40), None)
  }

  function YouthRecords(year: int, month: int, nominal: Option<real>): seq<WageRecord> {
    var st := Staffel(year, month);
    seq(|st|, i requires 0 <= i < |st| => HistoryRecord(year, month, nominal, st[i].0, false, st[i].1))
  }

  /** The rows produced by one history row: none when its first field has
      no dash or its year is 2019 or later, an error when the year or month
      field is not an integer, otherwise the adult row and then one row per
      staffel age. */
  function HistoryStep(u: (), i: nat, row: HistoryRow): (r: Outcome)
    ensures r.Err? ==> r.error == BadHistoryDate && '-' in row.first
    ensures '-' !in row.first ==> r == Ok([])
    ensures r.Err? <==>
      '-' in row.first && (PyInt(DashFields(row.first).0).None? || PyInt(DashFields(row.first).1).None?)
    ensures r.Ok? && '-' in row.first ==>
      var year, month := PyInt(DashFields(row.first).0).value, PyInt(DashFields(row.first).1).value;
      && (year >= 2019 ==> r.value == [])
      && (year < 2019 ==> r.value == HistoryRows(year, month, row.nominal))
    ensures r.Ok? ==> |r.value| == 0 || |r.value| == 8 || |r.value| == 9
    ensures r.Ok? ==> forall k :: 0 <= k < |r.value| ==> r.value[k].year < 2019 && r.value[k].statutory.None?
  {
    if '-' !in row.first then Ok([])
    else
      var fields := DashFields(row.first);
      var year, month := PyInt(fields.0), PyInt(fields.1);
      if year.None? || month.None? then Err(BadHistoryDate)
      else if year.value >= 2019 then Ok([])
      else Ok(HistoryRows(year.value, month.value, row.nominal))
  }

  /** The adult row followed by the youth rows of one month. */
  function HistoryRows(year: int, month: int, nominal: Option<real>): (r: seq<WageRecord>)
    ensures |r| == (if PreJuly2017(year, month) then 9 else 8)
    ensures forall k :: 0 <= k < |r| ==>
      r[k].year == year && r[k].period == MonthPeriod(month) && r[k].statutory.None? && (r[k].isAdult <==> k == 0)
  {
    StaffelTables();
    [HistoryRecord(year, month, nominal, AdultAge(year, month), true, 1.0)] + YouthRecords(year, month, nominal)
  }

  /** The rows of one history row. */
  method HistoryRowRecords(row: HistoryRow) returns (r: Outcome)
    ensures r == HistoryStep((), 0, row)
  {
    if '-' !in row.first {
      return Ok([]);
    }
    var fields := DashFields(row.first);
    var year, month := PyInt(fields.0), PyInt(fields.1);
    if year.None? || month.None? {
      return Err(BadHistoryDate);
    }
    if year.value >= 2019 {
      return Ok([]);
    }
    var rows := MonthRecords(year.value, month.value, row.nominal);
    return Ok(rows);
  }

  /** The adult row of one month, then the staffel loop. */
  method MonthRecords(y: int, m: int, nominal: Option<real>) returns (rows: seq<WageRecord>)
    ensures rows == HistoryRows(y, m, nominal)
  {
    var adult := HistoryRecord(y, m, nominal, AdultAge(y, m), true, 1.0);
    rows := [adult];
    var staffel := Staffel(y, m);
    ghost var youth := YouthRecords(y, m, nominal);
    for j := 0 to |staffel|
      invariant rows == [adult] + youth[..j]
    {
      assert youth[..j + 1] == youth[..j] + [youth[j]];
      rows := rows + [HistoryRecord(y, m, nominal, staffel[j].0, false, staffel[j].1)];
    }
    assert youth[..|staffel|] == youth;
  }

  /** Part 1 of `create_archive`: the rows of every history row, in order. */
  method BuildHistory(history: seq<HistoryRow>) returns (r: Outcome)
    ensures r == Collect((), history, HistoryStep)
  {
    var rows: seq<WageRecord> := [];
    for i := 0 to |history|
      invariant Collect((), history[..i], HistoryStep) == Ok(rows)
    {
      CollectStep((), history, i, HistoryStep);
      var o := HistoryRowRecords(history[i]);
      assert o == HistoryStep((), i, history[i]);
      if o.Err? {
        CollectErrSticks((), history, i + 1, HistoryStep);
        return o;
      }
      rows := rows + o.value;
    }
    assert history[..|history|] == history;
    return Ok(rows);
  }

  /** A history row before 2019 gives the adult row (23+ before July 2017,
      22+ from then on) and then one youth row per staffel age, nine or
      eight rows; every hourly value is the weekly wage times the
      percentage over the workweek, rounded to cents, and
      `Hourly_Statutory` is null. */
  lemma HistoryRowsShape(year: int, month: int, nominal: Option<real>)
    ensures var rows := HistoryRows(year, month, nominal);
      && |rows| == (if PreJuly2017(year, month) then 9 else 8)
      && rows[0].isAdult && rows[0].age == (if PreJuly2017(year, month) then "23+" else "22+")
      && (forall i :: 1 <= i < |rows| ==> !rows[i].isAdult && rows[i].age == Staffel(year, month)[i - 1].0)
      && (forall i :: 0 <= i < |rows| ==>
            rows[i].statutory.None? && rows[i].year == year && rows[i].period == MonthPeriod(month))
      && (forall i, b :: 0 <= i < |rows| ==>
            var pct := if i == 0 then 1.0 else Staffel(year, month)[i - 1].1;
            Hourly(rows[i], b) == Scaled(nominal, pct, BasisHours(b)))
  {
    var rows, st := HistoryRows(year, month, nominal), Staffel(year, month);
    forall i | 0 <= i < |rows|
      ensures 1 <= i ==> !rows[i].isAdult && rows[i].age == st[i - 1].0
      ensures rows[i].statutory.None? && rows[i].year == year && rows[i].period == MonthPeriod(month)
      ensures forall b :: Hourly(rows[i], b) == Scaled(nominal, if i == 0 then 1.0 else st[i - 1].1, BasisHours(b))
    {
      HistoryRowAt(year, month, nominal, i);
      var pct := if i == 0 then 1.0 else st[i - 1].1;
      forall b ensures Hourly(rows[i], b) == Scaled(nominal, pct, BasisHours(b)) {
        match b
        case Hours36 =>
        case Hours38 =>
        case Hours40 =>
      }
    }
  }

  /** Row `i` of a history row's output: the adult row first, then the
      staffel ages with their percentages. */
  predicate HistoryRowIs(year: int, month: int, nominal: Option<real>, i: nat, w: WageRecord) {
    var st := Staffel(year, month);
    && (i == 0 ==> w == HistoryRecord(year, month, nominal, AdultAge(year, month), true, 1.0))
    && (0 < i <= |st| ==> w == HistoryRecord(year, month, nominal, st[i - 1].0, false, st[i - 1].1))
  }

  lemma HistoryRowAt(year: int, month: int, nominal: Option<real>, i: nat)
    requires i < |HistoryRows(year, month, nominal)|
    ensures HistoryRowIs(year, month, nominal, i, HistoryRows(year, month, nominal)[i])
  {
    if i > 0 {
      assert HistoryRows(year, month, nominal)[i] == YouthRecords(year, month, nominal)[i - 1];
    }
  }

  // ---------------------------------------------------------------------
  // Part 2: the scraped tables, 2019 onwards

  /** The columns run through `clean_currency` when the sheet has them. */
  const CleanedColumns: seq<string> := ["21 jaar en ouder", "20 jaar", "19 jaar", "18 jaar", "17 jaar",
    "16 jaar", "15 jaar", "22 jaar en ouder", "21 jaar", "Minimumloon per uur"]

  const HourlyColumn := "Minimumloon per uur"

  /** A row of the scraped sheet: its year, the named columns the builder
      reads, and the text of every other column by name. `None` is an empty
      cell. A cell the sheet reader took as a number stands here for
      Python's `str()` of that number, the text `clean_currency` works on
      after its `str(val)`. */
  datatype SheetRow = SheetRow(year: int, section: Option<string>, workweek: Option<string>,
                               leeftijd: Option<string>, cells: map<string, Option<string>>)

  /** `columns` lists the value columns in sheet order. */
  datatype Sheet = Sheet(columns: seq<string>, rows: seq<SheetRow>)

  function RawCell(row: SheetRow, col: string): Option<string> {
    if col in row.cells then row.cells[col] else None
  }

  /** A value cell after cleaning: still text, or a cleaned amount. */
  datatype Cell = Raw(text: Option<string>) | Amount(amount: Option<real>)

  datatype CleanRow = CleanRow(year: int, section: Option<string>, workweek: Option<string>,
                               leeftijd: Option<string>, cells: map<string, Cell>)

  datatype CleanSheet = CleanSheet(columns: seq<string>, rows: seq<CleanRow>)

  /** A row once the columns in `done` have been cleaned. */
  function CleanedRow(columns: seq<string>, row: SheetRow, done: seq<string>): CleanRow {
    CleanRow(row.year, row.section, row.workweek, row.leeftijd,
      map c | c in columns :: if c in done then Amount(CleanCurrency(RawCell(row, c))) else Raw(RawCell(row, c)))
  }

  /** The sheet after the cleaning loop. */
  function Cleaned(sheet: Sheet): CleanSheet {
    CleanSheet(sheet.columns,
      seq(|sheet.rows|, i requires 0 <= i < |sheet.rows| => CleanedRow(sheet.columns, sheet.rows[i], CleanedColumns)))
  }

  /** A cleaned sheet cell holds the cleaned amount exactly for the listed
      columns and the untouched text for the others; the rows keep their
      order and their named fields. */
  lemma CleanedCells(sheet: Sheet, i: nat, col: string)
    requires i < |sheet.rows| && col in sheet.columns
    ensures var row := Cleaned(sheet).rows[i];
      && row.year == sheet.rows[i].year && row.section == sheet.rows[i].section
      && row.workweek == sheet.rows[i].workweek && row.leeftijd == sheet.rows[i].leeftijd
      && col in row.cells
      && (col in CleanedColumns <==> row.cells[col].Amount?)
      && (col in CleanedColumns ==> row.cells[col].amount == CleanCurrency(RawCell(sheet.rows[i], col)))
      && (col !in CleanedColumns ==> row.cells[col].text == RawCell(sheet.rows[i], col))
  {
  }

  lemma CleanOneMore(columns: seq<string>, row: SheetRow, k: nat)
    requires k < |CleanedColumns| && CleanedColumns[k] in columns
    ensures var col := CleanedColumns[k];
      var before := CleanedRow(columns, row, CleanedColumns[..k]);
      CleanedRow(columns, row, CleanedColumns[..k + 1])
        == before.(cells := before.cells[col := Amount(CleanCurrency(RawCell(row, col)))])
  {
    var col := CleanedColumns[k];
    assert forall c :: c in CleanedColumns[..k + 1] <==> c in CleanedColumns[..k] || c == col by {
      assert CleanedColumns[..k + 1] == CleanedColumns[..k] + [col];
    }
  }

  lemma CleanSkip(columns: seq<string>, row: SheetRow, k: nat)
    requires k < |CleanedColumns| && CleanedColumns[k] !in columns
    ensures CleanedRow(columns, row, CleanedColumns[..k + 1]) == CleanedRow(columns, row, CleanedColumns[..k])
  {
    assert CleanedColumns[..k + 1] == CleanedColumns[..k] + [CleanedColumns[k]];
  }

  /** The cleaning loop: each listed column the sheet has is replaced, row
      by row, by its cleaned amounts. */
  method CleanSheetColumns(sheet: Sheet) returns (clean: CleanSheet)
    ensures clean == Cleaned(sheet)
  {
    var rows := seq(|sheet.rows|, i requires 0 <= i < |sheet.rows| => CleanedRow(sheet.columns, sheet.rows[i], []));
    assert CleanedColumns[..0] == [];
    for k := 0 to |CleanedColumns|
      invariant |rows| == |sheet.rows|
      invariant forall i :: 0 <= i < |rows| ==> rows[i] == CleanedRow(sheet.columns, sheet.rows[i], CleanedColumns[..k])
    {
      var col := CleanedColumns[k];
      if col in sheet.columns {
        for i := 0 to |rows|
          invariant |rows| == |sheet.rows|
          invariant forall j :: 0 <= j < i ==> rows[j] == CleanedRow(sheet.columns, sheet.rows[j], CleanedColumns[..k + 1])
          invariant forall j :: i <= j < |rows| ==> rows[j] == CleanedRow(sheet.columns, sheet.rows[j], CleanedColumns[..k])
        {
          CleanOneMore(sheet.columns, sheet.rows[i], k);
          rows := rows[i := rows[i].(cells := rows[i].cells[col := Amount(CleanCurrency(RawCell(sheet.rows[i], col)))])];
        }
      } else {
        forall i | 0 <= i < |rows|
          ensures CleanedRow(sheet.columns, sheet.rows[i], CleanedColumns[..k + 1]) == CleanedRow(sheet.columns, sheet.rows[i], CleanedColumns[..k])
        {
          CleanSkip(sheet.columns, sheet.rows[i], k);
        }
      }
    }
    assert CleanedColumns[..|CleanedColumns|] == CleanedColumns;
    return CleanSheet(sheet.columns, rows);
  }

  // ---------------------------------------------------------------------
  // The years of the sheet

  predicate StrictlyIncreasing(s: seq<int>) {
    forall i, j :: 0 <= i < j < |s| ==> s[i] < s[j]
  }

  predicate HasYear(rows: seq<CleanRow>, y: int) {
    exists i :: 0 <= i < |rows| && rows[i].year == y
  }

  lemma ConsIncreasing(a: int, rest: seq<int>)
    requires StrictlyIncreasing(rest) && forall x :: x in rest ==> a < x
    ensures StrictlyIncreasing([a] + rest)
  {
    forall i, j | 0 <= i < j < |[a] + rest| ensures ([a] + rest)[i] < ([a] + rest)[j] {
      assert ([a] + rest)[j] == rest[j - 1];
      if i > 0 { assert ([a] + rest)[i] == rest[i - 1]; }
      else { assert rest[j - 1] in rest; }
    }
  }

  function InsertYear(s: seq<int>, y: int): (r: seq<int>)
    requires StrictlyIncreasing(s)
    ensures StrictlyIncreasing(r)
    ensures forall x :: x in r <==> x in s || x == y
  {
    if s == [] then [y]
    else if y < s[0] then [y] + s
    else if y == s[0] then s
    else
      var rest := InsertYear(s[1..], y);
      assert forall x :: x in rest ==> s[0] < x by {
        assert forall j :: 0 <= j < |s[1..]| ==> s[0] < s[1..][j] by {
          forall j | 0 <= j < |s[1..]| ensures s[0] < s[1..][j] { assert s[1..][j] == s[j + 1]; }
        }
      }
      ConsIncreasing(s[0], rest);
      [s[0]] + rest
  }

  /** `sorted(df_s['Year'].unique())`: every year of the sheet once, in
      increasing order. */
  function Years(rows: seq<CleanRow>): (r: seq<int>)
    ensures StrictlyIncreasing(r)
    ensures forall y :: y in r <==> HasYear(rows, y)
  {
    if rows == [] then []
    else
      var init := rows[..|rows| - 1];
      var r := InsertYear(Years(init), rows[|rows| - 1].year);
      assert forall y :: HasYear(rows, y) <==> HasYear(init, y) || y == rows[|rows| - 1].year by {
        forall y | HasYear(init, y) ensures HasYear(rows, y) {
          var i :| 0 <= i < |init| && init[i].year == y;
          assert rows[i].year == y;
        }
        forall y | HasYear(rows, y) && y != rows[|rows| - 1].year ensures HasYear(init, y) {
          var i :| 0 <= i < |rows| && rows[i].year == y;
          assert init[i].year == y;
        }
      }
      r
  }

  /** `df_s[df_s['Year'] == year]`, in sheet order. */
  function YearRows(rows: seq<CleanRow>, year: int): (r: seq<CleanRow>)
    ensures forall x :: x in r <==> x in rows && x.year == year
    ensures |r| <= |rows|
  {
    if rows == [] then []
    else
      var init := YearRows(rows[..|rows| - 1], year);
      assert rows == rows[..|rows| - 1] + [rows[|rows| - 1]];
      if rows[|rows| - 1].year == year then init + [rows[|rows| - 1]] else init
  }

  /** A single row is kept exactly when it has the year. */
  lemma YearRowsOne(x: CleanRow, year: int)
    ensures YearRows([x], year) == if x.year == year then [x] else []
  {
    assert [x][..0] == [];
  }

  /** Adding a row to the end of the sheet adds it to the selection exactly
      when it has the year. */
  lemma YearRowsSnoc(init: seq<CleanRow>, last: CleanRow, year: int)
    ensures YearRows(init + [last], year)
         == YearRows(init, year) + (if last.year == year then [last] else [])
  {
    var rows := init + [last];
    assert rows[..|rows| - 1] == init;
  }

  /** The selection keeps sheet order and repeated rows: it distributes over
      concatenation. */
  lemma {:induction false} YearRowsAppend(a: seq<CleanRow>, b: seq<CleanRow>, year: int)
    ensures YearRows(a + b, year) == YearRows(a, year) + YearRows(b, year)
    decreases |b|
  {
    if b == [] {
      assert a + b == a;
    } else {
      var n := |b| - 1;
      var init, last := b[..n], b[n];
      assert b == init + [last];
      assert a + b == (a + init) + [last];
      YearRowsAppend(a, init, year);
      YearRowsSnoc(a + init, last, year);
      YearRowsSnoc(init, last, year);
      var ya, yi := YearRows(a, year), YearRows(init, year);
      var tail := if last.year == year then [last] else [];
      assert (ya + yi) + tail == ya + (yi + tail);
    }
  }

  // ---------------------------------------------------------------------
  // Years before 2024: blocks of three workweek rows

  /** The rows with a workweek label, in order. */
  function Labelled(rows: seq<CleanRow>): (r: seq<CleanRow>)
    ensures forall x :: x in r <==> x in rows && x.workweek.Some?
  {
    if rows == [] then []
    else
      var init := Labelled(rows[..|rows| - 1]);
      assert rows == rows[..|rows| - 1] + [rows[|rows| - 1]];
      if rows[|rows| - 1].workweek.Some? then init + [rows[|rows| - 1]] else init
  }

  /** A single row is kept exactly when it has a label. */
  lemma LabelledOne(x: CleanRow)
    ensures Labelled([x]) == if x.workweek.Some? then [x] else []
  {
    assert [x][..0] == [];
  }

  /** Adding a row to the end adds it to the labelled rows exactly when it has
      a label. */
  lemma LabelledSnoc(init: seq<CleanRow>, last: CleanRow)
    ensures Labelled(init + [last])
         == Labelled(init) + (if last.workweek.Some? then [last] else [])
  {
    var all := init + [last];
    assert all[..|all| - 1] == init;
  }

  /** The labelled rows keep sheet order and repeated rows: the selection
      distributes over concatenation. */
  lemma {:induction false} LabelledAppend(a: seq<CleanRow>, b: seq<CleanRow>)
    ensures Labelled(a + b) == Labelled(a) + Labelled(b)
    decreases |b|
  {
    if b == [] {
      assert a + b == a;
    } else {
      var n := |b| - 1;
      var init, last := b[..n], b[n];
      assert b == init + [last];
      assert a + b == (a + init) + [last];
      LabelledAppend(a, init);
      LabelledSnoc(a + init, last);
      LabelledSnoc(init, last);
      var fa, fi := Labelled(a), Labelled(init);
      var tail := if last.workweek.Some? then [last] else [];
      assert (fa + fi) + tail == fa + (fi + tail);
    }
  }


  /** `[indices[i:i + 3] for i in range(0, len(indices), 3)]`. */
  function Chunks(s: seq<CleanRow>): (r: seq<seq<CleanRow>>)
    ensures forall i :: 0 <= i < |r| ==> 1 <= |r[i]| <= 3
    ensures |r| == (|s| + 2) / 3
    decreases |s|
  {
    if s == [] then []
    else if |s| <= 3 then [s]
    else [s[..3]] + Chunks(s[3..])
  }

  function Flatten(bs: seq<seq<CleanRow>>): seq<CleanRow> {
    if bs == [] then [] else bs[0] + Flatten(bs[1..])
  }

  /** The blocks cover the labelled rows exactly, in order. */
  lemma {:induction false} ChunksFlatten(s: seq<CleanRow>)
    ensures Flatten(Chunks(s)) == s
    decreases |s|
  {
    if |s| > 3 {
      ChunksFlatten(s[3..]);
      assert Chunks(s)[1..] == Chunks(s[3..]);
      assert s[..3] + s[3..] == s;
    }
  }

  /** The first block of a year is the July table, every later block the
      January one. */
  function BlockPeriod(idx: nat): Period {
    if idx == 0 then July else January
  }

  /** The adult column: 22+ in January 2019, 21+ from July 2019 on. */
  predicate AdultColumn(year: int, period: Period, age: string) {
    (year == 2019 && period == January && age == "22+")
    || (year == 2019 && period == July && age == "21+")
    || (year > 2019 && age == "21+")
  }

  /** The age columns: those whose name contains "jaar" or "21+", in sheet
      order. */
  function AgeColumns(columns: seq<string>): (r: seq<string>)
    ensures forall c :: c in r <==> c in columns && (Contains(c, "jaar") || Contains(c, "21+"))
  {
    if columns == [] then []
    else
      var init := AgeColumns(columns[..|columns| - 1]);
      var c := columns[|columns| - 1];
      assert columns == columns[..|columns| - 1] + [c];
      if Contains(c, "jaar") || Contains(c, "21+") then init + [c] else init
  }

  /** A single column is kept exactly when its name contains "jaar" or
      "21+". */
  lemma AgeColumnsOne(c: string)
    ensures AgeColumns([c]) == if Contains(c, "jaar") || Contains(c, "21+") then [c] else []
  {
    assert [c][..0] == [];
  }

  /** Adding a column to the end adds it to the age columns exactly when its
      name contains "jaar" or "21+". */
  lemma AgeColumnsSnoc(init: seq<string>, last: string)
    ensures AgeColumns(init + [last])
         == AgeColumns(init) + (if Contains(last, "jaar") || Contains(last, "21+") then [last] else [])
  {
    var all := init + [last];
    assert all[..|all| - 1] == init;
  }

  /** The age columns keep sheet order: the selection distributes over
      concatenation. */
  lemma {:induction false} AgeColumnsAppend(a: seq<string>, b: seq<string>)
    ensures AgeColumns(a + b) == AgeColumns(a) + AgeColumns(b)
    decreases |b|
  {
    if b == [] {
      assert a + b == a;
    } else {
      var n := |b| - 1;
      var init, last := b[..n], b[n];
      assert b == init + [last];
      assert a + b == (a + init) + [last];
      AgeColumnsAppend(a, init);
      AgeColumnsSnoc(a + init, last);
      AgeColumnsSnoc(init, last);
      var fa, fi := AgeColumns(a), AgeColumns(init);
      var tail := if Contains(last, "jaar") || Contains(last, "21+") then [last] else [];
      assert (fa + fi) + tail == fa + (fi + tail);
    }
  }


  /** The workweek label of `x` contains `hours`. */
  predicate HasHours(x: CleanRow, hours: string) {
    x.workweek.Some? && Contains(x.workweek.value, hours)
  }

  /** The first row of a block whose workweek label contains `hours`. */
  function FirstWith(block: seq<CleanRow>, hours: string): Option<CleanRow> {
    if block == [] then None
    else if HasHours(block[0], hours) then Some(block[0])
    else FirstWith(block[1..], hours)
  }

  /** The row found is in the block, its label contains the hours and no
      earlier row's label does; none is found exactly when no label
      contains them. */
  lemma {:induction false} FirstWithSpec(block: seq<CleanRow>, hours: string)
    ensures var r := FirstWith(block, hours);
      && (r.Some? ==> r.value in block && HasHours(r.value, hours))
      && (r.Some? ==> exists i ::
            && 0 <= i < |block| && block[i] == r.value
            && forall k :: 0 <= k < i ==> !HasHours(block[k], hours))
      && (r.None? <==> forall x :: x in block ==> !HasHours(x, hours))
  {
    if block != [] {
      var tail := block[1..];
      FirstWithSpec(tail, hours);
      assert forall x :: x in block <==> x == block[0] || x in tail;
      var r := FirstWith(block, hours);
      if r.Some? && !HasHours(block[0], hours) {
        var i :| 0 <= i < |tail| && tail[i] == r.value
          && forall k :: 0 <= k < i ==> !HasHours(tail[k], hours);
        assert block[i + 1] == r.value;
        forall k | 0 <= k < i + 1 ensures !HasHours(block[k], hours) {
          if k > 0 {
            assert block[k] == tail[k - 1];
          }
        }
      }
    }
  }

  /** The cleaned amount of a cell; a cell that is still text reads as
      null. */
  function AmountAt(row: CleanRow, col: string): (r: Option<real>)
    ensures r.Some? ==> col in row.cells && row.cells[col] == Amount(r)
  {
    if col in row.cells && row.cells[col].Amount? then row.cells[col].amount else None
  }

  /** What every age column of a block reads: the year, the period and the
      block's first 36, 38 and 40 hour rows. */
  datatype BlockCtx = BlockCtx(year: int, period: Period, r36: Option<CleanRow>, r38: Option<CleanRow>, r40: Option<CleanRow>)

  function BlockContext(year: int, period: Period, block: seq<CleanRow>): BlockCtx {
    BlockCtx(year, period, FirstWith(block, "36"), FirstWith(block, "38"), FirstWith(block, "40"))
  }

  /** The archive row of one age column of a block, read from the block's
      36, 38 and 40 hour rows; a block missing one of them raises. */
  function ColumnStep(ctx: BlockCtx, k: nat, col: string): Outcome {
    var r36, r38, r40 := ctx.r36, ctx.r38, ctx.r40;
    if r36.None? || r38.None? || r40.None? then Err(MissingWorkweekRow)
    else
      var age := AgeLabel(col);
      Ok([WageRecord(ctx.year, ctx.period, age, AdultColumn(ctx.year, ctx.period, age),
                     AmountAt(r36.value, col), AmountAt(r38.value, col), AmountAt(r40.value, col), None)])
  }

  datatype YearCtx = YearCtx(columns: seq<string>, year: int)

  /** The rows of block number `idx`: one per age column. */
  function BlockStep(ctx: YearCtx, idx: nat, block: seq<CleanRow>): (r: Outcome)
    ensures r.Err? ==> r.error == MissingWorkweekRow
    ensures r.Ok? ==> forall w :: w in r.value ==> w.year == ctx.year && w.period == BlockPeriod(idx) && w.statutory.None?
  {
    var bctx, cols := BlockContext(ctx.year, BlockPeriod(idx), block), AgeColumns(ctx.columns);
    CollectErrKind(bctx, cols, ColumnStep, e => e == MissingWorkweekRow);
    CollectAll(bctx, cols, ColumnStep, (w: WageRecord) => w.year == ctx.year && w.period == BlockPeriod(idx) && w.statutory.None?);
    Collect(bctx, cols, ColumnStep)
  }

  function Blocks(sheet: CleanSheet, year: int): seq<seq<CleanRow>> {
    Chunks(Labelled(YearRows(sheet.rows, year)))
  }

  /** The block path of one year: the rows of every block in order. */
  function BlockRecords(sheet: CleanSheet, year: int): (r: Outcome)
    ensures r.Err? ==> r.error == MissingWorkweekRow
    ensures r.Ok? ==> forall w :: w in r.value ==> w.year == year && w.statutory.None?
  {
    var ctx, blocks := YearCtx(sheet.columns, year), Blocks(sheet, year);
    CollectErrKind(ctx, blocks, BlockStep, e => e == MissingWorkweekRow);
    CollectAll(ctx, blocks, BlockStep, (w: WageRecord) => w.year == year && w.statutory.None?);
    Collect(ctx, blocks, BlockStep)
  }

  method BlockRowRecords(ctx: YearCtx, idx: nat, block: seq<CleanRow>) returns (r: Outcome)
    ensures r == BlockStep(ctx, idx, block)
  {
    var cols := AgeColumns(ctx.columns);
    var bctx := BlockContext(ctx.year, BlockPeriod(idx), block);
    var rows: seq<WageRecord> := [];
    for k := 0 to |cols|
      invariant Collect(bctx, cols[..k], ColumnStep) == Ok(rows)
    {
      CollectStep(bctx, cols, k, ColumnStep);
      var r36, r38, r40 := FirstWith(block, "36"), FirstWith(block, "38"), FirstWith(block, "40");
      if r36.None? || r38.None? || r40.None? {
        CollectErrSticks(bctx, cols, k + 1, ColumnStep);
        return Err(MissingWorkweekRow);
      }
      var age := AgeLabel(cols[k]);
      rows := rows + [WageRecord(ctx.year, bctx.period, age, AdultColumn(ctx.year, bctx.period, age),
                      AmountAt(r36.value, cols[k]), AmountAt(r38.value, cols[k]), AmountAt(r40.value, cols[k]), None)];
    }
    assert cols[..|cols|] == cols;
    return Ok(rows);
  }

  /** The block path of one year before 2024. */
  method BuildBlocks(sheet: CleanSheet, year: int) returns (r: Outcome)
    ensures r == BlockRecords(sheet, year)
  {
    var blocks := Blocks(sheet, year);
    var ctx := YearCtx(sheet.columns, year);
    var rows: seq<WageRecord> := [];
    for idx := 0 to |blocks|
      invariant Collect(ctx, blocks[..idx], BlockStep) == Ok(rows)
    {
      CollectStep(ctx, blocks, idx, BlockStep);
      var o := BlockRowRecords(ctx, idx, blocks[idx]);
      if o.Err? {
        CollectErrSticks(ctx, blocks, idx + 1, BlockStep);
        return o;
      }
      rows := rows + o.value;
    }
    assert blocks[..|blocks|] == blocks;
    return Ok(rows);
  }

  // ---------------------------------------------------------------------
  // Years 2024 and 2025: one table per section

  /** `unique()`: each value once, in order of first appearance. */
  function Distinct(s: seq<Option<string>>): (r: seq<Option<string>>)
    ensures forall x :: x in r <==> x in s
    ensures forall i, j :: 0 <= i < j < |r| ==> r[i] != r[j]
  {
    if s == [] then []
    else
      var u := Distinct(s[..|s| - 1]);
      assert s == s[..|s| - 1] + [s[|s| - 1]];
      if s[|s| - 1] in u then u else u + [s[|s| - 1]]
  }

  /** Every value of `r` occurs in `s` before any occurrence of a later
      value of `r`. */
  predicate FirstAppearanceOrder(r: seq<Option<string>>, s: seq<Option<string>>) {
    forall i, j, k :: 0 <= i < j < |r| && 0 <= k < |s| && s[k] == r[j] ==> r[i] in s[..k]
  }

  /** `unique()` lists the values in the order of their first appearance. */
  lemma {:induction false} DistinctFirstAppearance(s: seq<Option<string>>)
    ensures FirstAppearanceOrder(Distinct(s), s)
  {
    if s != [] {
      var n := |s| - 1;
      var init, x := s[..n], s[n];
      var u, r := Distinct(init), Distinct(s);
      DistinctFirstAppearance(init);
      assert s == init + [x];
      forall i, j, k | 0 <= i < j < |r| && 0 <= k < |s| && s[k] == r[j] ensures r[i] in s[..k] {
        assert r[i] == u[i];
        if k < n {
          assert s[k] == init[k];
          assert r[j] in u;
          assert r[j] == u[j];
          assert s[..k] == init[..k];
        } else {
          assert u[i] in init;
          assert s[..k] == init;
        }
      }
    }
  }

  /** The `Section` column. */
  function SectionColumn(rows: seq<CleanRow>): (r: seq<Option<string>>)
    ensures |r| == |rows| && forall i :: 0 <= i < |rows| ==> r[i] == rows[i].section
  {
    seq(|rows|, i requires 0 <= i < |rows| => rows[i].section)
  }

  function Sections(rows: seq<CleanRow>): seq<Option<string>> {
    Distinct(SectionColumn(rows))
  }

  /** `y_df[y_df['Section'] == section]`, in sheet order. */
  function SectionMembers(rows: seq<CleanRow>, sec: Option<string>): (r: seq<CleanRow>)
    ensures forall x :: x in r <==> x in rows && x.section == sec
  {
    if rows == [] then []
    else
      var init := SectionMembers(rows[..|rows| - 1], sec);
      assert rows == rows[..|rows| - 1] + [rows[|rows| - 1]];
      if rows[|rows| - 1].section == sec then init + [rows[|rows| - 1]] else init
  }

  /** A single row is kept exactly when it is in the section. */
  lemma SectionMembersOne(x: CleanRow, sec: Option<string>)
    ensures SectionMembers([x], sec) == if x.section == sec then [x] else []
  {
    assert [x][..0] == [];
  }

  /** Adding a row to the end adds it to the section's rows exactly when it
      is in the section. */
  lemma SectionMembersSnoc(init: seq<CleanRow>, last: CleanRow, sec: Option<string>)
    ensures SectionMembers(init + [last], sec)
         == SectionMembers(init, sec) + (if last.section == sec then [last] else [])
  {
    var all := init + [last];
    assert all[..|all| - 1] == init;
  }

  /** The members of a section keep sheet order and repeated rows: the
      selection distributes over concatenation. */
  lemma {:induction false} SectionMembersAppend(a: seq<CleanRow>, b: seq<CleanRow>, sec: Option<string>)
    ensures SectionMembers(a + b, sec) == SectionMembers(a, sec) + SectionMembers(b, sec)
    decreases |b|
  {
    if b == [] {
      assert a + b == a;
    } else {
      var n := |b| - 1;
      var init, last := b[..n], b[n];
      assert b == init + [last];
      assert a + b == (a + init) + [last];
      SectionMembersAppend(a, init, sec);
      SectionMembersSnoc(a + init, last, sec);
      SectionMembersSnoc(init, last, sec);
      var fa, fi := SectionMembers(a, sec), SectionMembers(init, sec);
      var tail := if last.section == sec then [last] else [];
      assert (fa + fi) + tail == fa + (fi + tail);
    }
  }


  /** A section whose lower-cased title mentions "januari" is the January
      table; any other is July. */
  function SectionPeriod(title: string): Period {
    if Contains(Lower(title), "januari") then January else July
  }

  /** A row of the section layout: no hourly value per workweek. */
  predicate NoWorkweekValues(w: WageRecord) {
    w.hourly36.None? && w.hourly38.None? && w.hourly40.None?
  }

  datatype RowCtx = RowCtx(year: int, period: Period, hasHourly: bool)

  /** The archive row of one table row: the age label of `Leeftijd` (a
      null one reads "nan") and the statutory hourly wage; a sheet without
      the hourly column raises. */
  function RowStep(ctx: RowCtx, k: nat, row: CleanRow): (r: Outcome)
    ensures r.Err? <==> !ctx.hasHourly
    ensures r.Err? ==> r.error == MissingHourlyColumn
    ensures r.Ok? ==>
      && |r.value| == 1 && r.value[0].year == ctx.year && r.value[0].period == ctx.period
      && NoWorkweekValues(r.value[0]) && (r.value[0].isAdult <==> r.value[0].age == "21+")
  {
    if !ctx.hasHourly then Err(MissingHourlyColumn)
    else
      var age := AgeLabel(row.leeftijd.GetOr("nan"));
      Ok([WageRecord(ctx.year, ctx.period, age, age == "21+", None, None, None, AmountAt(row, HourlyColumn))])
  }

  datatype SectionCtx = SectionCtx(year: int, rows: seq<CleanRow>, hasHourly: bool)

  /** The rows of one section; a null section raises (it has no
      `lower()`). */
  function SectionStep(ctx: SectionCtx, k: nat, sec: Option<string>): (r: Outcome)
    ensures sec.None? ==> r == Err(MissingSection)
    ensures sec.Some? && r.Err? ==> r.error == MissingHourlyColumn
    ensures r.Ok? ==> forall w :: w in r.value ==> w.year == ctx.year && NoWorkweekValues(w)
  {
    if sec.None? then Err(MissingSection)
    else
      var rctx, members := RowCtx(ctx.year, SectionPeriod(sec.value), ctx.hasHourly), SectionMembers(ctx.rows, sec);
      CollectErrKind(rctx, members, RowStep, e => e == MissingHourlyColumn);
      CollectAll(rctx, members, RowStep, (w: WageRecord) => w.year == ctx.year && NoWorkweekValues(w));
      Collect(rctx, members, RowStep)
  }

  /** The section path of one year: the rows of every distinct section in
      order of first appearance. */
  function SectionRecords(sheet: CleanSheet, year: int): (r: Outcome)
    ensures r.Err? ==> r.error == MissingSection || r.error == MissingHourlyColumn
    ensures r.Ok? ==> forall w :: w in r.value ==> w.year == year && NoWorkweekValues(w)
  {
    var rows := YearRows(sheet.rows, year);
    var ctx, secs := SectionCtx(year, rows, HourlyColumn in sheet.columns), Sections(rows);
    CollectErrKind(ctx, secs, SectionStep, e => e == MissingSection || e == MissingHourlyColumn);
    CollectAll(ctx, secs, SectionStep, (w: WageRecord) => w.year == year && NoWorkweekValues(w));
    Collect(ctx, secs, SectionStep)
  }

  method SectionRowRecords(ctx: SectionCtx, sec: Option<string>) returns (r: Outcome)
    ensures r == SectionStep(ctx, 0, sec)
  {
    if sec.None? {
      return Err(MissingSection);
    }
    var members := SectionMembers(ctx.rows, sec);
    var rctx := RowCtx(ctx.year, SectionPeriod(sec.value), ctx.hasHourly);
    var rows: seq<WageRecord> := [];
    for k := 0 to |members|
      invariant Collect(rctx, members[..k], RowStep) == Ok(rows)
    {
      CollectStep(rctx, members, k, RowStep);
      if !ctx.hasHourly {
        CollectErrSticks(rctx, members, k + 1, RowStep);
        return Err(MissingHourlyColumn);
      }
      var age := AgeLabel(members[k].leeftijd.GetOr("nan"));
      rows := rows + [WageRecord(ctx.year, rctx.period, age, age == "21+", None, None, None, AmountAt(members[k], HourlyColumn))];
    }
    assert members[..|members|] == members;
    return Ok(rows);
  }

  /** The section path of one year from 2024 on. */
  method BuildSections(sheet: CleanSheet, year: int) returns (r: Outcome)
    ensures r == SectionRecords(sheet, year)
  {
    var yearRows := YearRows(sheet.rows, year);
    var sections := Sections(yearRows);
    var ctx := SectionCtx(year, yearRows, HourlyColumn in sheet.columns);
    var rows: seq<WageRecord> := [];
    for k := 0 to |sections|
      invariant Collect(ctx, sections[..k], SectionStep) == Ok(rows)
    {
      CollectStep(ctx, sections, k, SectionStep);
      var o := SectionRowRecords(ctx, sections[k]);
      if o.Err? {
        CollectErrSticks(ctx, sections, k + 1, SectionStep);
        return o;
      }
      rows := rows + o.value;
    }
    assert sections[..|sections|] == sections;
    return Ok(rows);
  }

  // ---------------------------------------------------------------------
  // The whole archive

  /** Years after 2025 are skipped; before 2024 the block layout is read,
      from 2024 the section layout. */
  function YearStep(sheet: CleanSheet, k: nat, year: int): (r: Outcome)
    ensures year > 2025 ==> r == Ok([])
    ensures r.Err? && year < 2024 ==> r.error == MissingWorkweekRow
    ensures r.Err? && year >= 2024 ==> r.error == MissingSection || r.error == MissingHourlyColumn
    ensures r.Ok? ==> forall w :: w in r.value ==> w.year == year && ArchiveRow(w)
  {
    if year > 2025 then Ok([])
    else if year < 2024 then
      BlockShape(sheet, year);
      BlockRecords(sheet, year)
    else
      SectionShape(sheet, year);
      SectionRecords(sheet, year)
  }

  /** The rows of every year of the cleaned sheet, in year order. */
  function ScrapedRecords(sheet: CleanSheet): (r: Outcome)
    ensures r.Err? ==> r.error != BadHistoryDate
    ensures r.Ok? ==> forall w :: w in r.value ==> ArchiveRow(w)
  {
    var years := Years(sheet.rows);
    CollectErrKind(sheet, years, YearStep, e => e != BadHistoryDate);
    CollectAll(sheet, years, YearStep, ArchiveRow);
    Collect(sheet, years, YearStep)
  }

  /** `create_archive`: the history rows followed by the scraped rows, or
      the first error raised. */
  function Archive(history: seq<HistoryRow>, sheet: Sheet): (r: Outcome)
    ensures Collect((), history, HistoryStep).Err? ==> r == Collect((), history, HistoryStep)
    ensures r.Err? && Collect((), history, HistoryStep).Ok? ==> r.error != BadHistoryDate
    ensures r.Ok? ==> Collect((), history, HistoryStep).Ok? && Collect((), history, HistoryStep).value <= r.value
    ensures r.Ok? ==> forall w :: w in r.value ==> ArchiveRow(w)
  {
    HistoryShape(history);
    match Collect((), history, HistoryStep)
    case Err(e) => Err(e)
    case Ok(h) =>
      match ScrapedRecords(Cleaned(sheet))
      case Err(e) => Err(e)
      case Ok(s) => Ok(h + s)
  }

  method CreateArchive(history: seq<HistoryRow>, sheet: Sheet) returns (r: Outcome)
    ensures r == Archive(history, sheet)
  {
    var archive := BuildHistory(history);
    if archive.Err? {
      return archive;
    }
    var clean := CleanSheetColumns(sheet);
    var years := Years(clean.rows);
    var rows: seq<WageRecord> := [];
    for k := 0 to |years|
      invariant Collect(clean, years[..k], YearStep) == Ok(rows)
    {
      CollectStep(clean, years, k, YearStep);
      var year := years[k];
      var o: Outcome;
      if year > 2025 {
        o := Ok([]);
      } else if year < 2024 {
        o := BuildBlocks(clean, year);
      } else {
        o := BuildSections(clean, year);
      }
      if o.Err? {
        CollectErrSticks(clean, years, k + 1, YearStep);
        return o;
      }
      rows := rows + o.value;
    }
    assert years[..|years|] == years;
    return Ok(archive.value + rows);
  }

  // ---------------------------------------------------------------------
  // Properties of the archive

  lemma MulGe(n: nat, d: int)
    requires d >= 1
    ensures n * d >= n
  {
  }

  lemma MulSub(n: nat, q: int, m: int)
    ensures n * q - n * m == n * (q - m)
  {
  }

  lemma DivModOffset(m: nat, j: nat, n: nat)
    requires j < n
    ensures (n * m + j) / n == m && (n * m + j) % n == j
  {
    var x := n * m + j;
    var q, r := x / n, x % n;
    assert x == n * q + r && 0 <= r < n;
    MulSub(n, q, m);
    if q > m {
      MulGe(n, q - m);
    } else if q < m {
      MulGe(n, m - q);
      MulSub(n, m, q);
    }
  }

  /** When every step yields exactly `n` rows, row `p` of the whole is row
      `p % n` of step `p / n`. */
  lemma {:induction false} CollectLayout<C, X>(c: C, xs: seq<X>, f: (C, nat, X) -> Outcome, n: nat)
    requires n > 0
    requires forall i :: 0 <= i < |xs| && f(c, i, xs[i]).Ok? ==> |f(c, i, xs[i]).value| == n
    ensures Collect(c, xs, f).Ok? ==>
      var rows := Collect(c, xs, f).value;
      && |rows| == n * |xs|
      && forall p :: 0 <= p < |rows| ==>
           p / n < |xs| && f(c, p / n, xs[p / n]).Ok? && rows[p] == f(c, p / n, xs[p / n]).value[p % n]
    decreases |xs|
  {
    if xs != [] && Collect(c, xs, f).Ok? {
      var last := |xs| - 1;
      var init := xs[..last];
      assert forall i :: 0 <= i < |init| ==> init[i] == xs[i];
      CollectLayout(c, init, f, n);
      var rs := Collect(c, init, f).value;
      var o := f(c, last, xs[last]).value;
      assert Collect(c, xs, f).value == rs + o;
      LayoutLength(n, last, |rs|);
      forall p | 0 <= p < |rs| + |o|
        ensures p / n < |xs| && f(c, p / n, xs[p / n]).Ok? && (rs + o)[p] == f(c, p / n, xs[p / n]).value[p % n]
      {
        if p < |rs| {
          assert (rs + o)[p] == rs[p];
          assert init[p / n] == xs[p / n];
        } else {
          LayoutLast(p, n, last, |rs|);
          assert (rs + o)[p] == o[p - |rs|];
        }
      }
    }
  }

  lemma LayoutLength(n: nat, last: nat, len: nat)
    requires len == n * last
    ensures len + n == n * (last + 1)
  {
  }

  lemma LayoutLast(p: nat, n: nat, last: nat, len: nat)
    requires len == n * last && len <= p < len + n
    ensures p / n == last && p % n == p - len
  {
    DivModOffset(last, p - len, n);
  }

  /** A property of every step's rows, by position, holds of the whole
      result at the matching position. */
  lemma CollectEach<C, X>(c: C, xs: seq<X>, f: (C, nat, X) -> Outcome, n: nat, P: (C, seq<X>, nat, nat, WageRecord) -> bool)
    requires n > 0
    requires forall i :: 0 <= i < |xs| && f(c, i, xs[i]).Ok? ==>
      |f(c, i, xs[i]).value| == n && forall j :: 0 <= j < n ==> P(c, xs, i, j, f(c, i, xs[i]).value[j])
    ensures Collect(c, xs, f).Ok? ==>
      |Collect(c, xs, f).value| == n * |xs| &&
      forall p :: 0 <= p < |Collect(c, xs, f).value| ==> P(c, xs, p / n, p % n, Collect(c, xs, f).value[p])
  {
    CollectLayout(c, xs, f, n);
    if Collect(c, xs, f).Ok? {
      var rows := Collect(c, xs, f).value;
      forall p | 0 <= p < |rows| ensures P(c, xs, p / n, p % n, rows[p]) {
        var i, j := p / n, p % n;
        assert i < |xs| && f(c, i, xs[i]).Ok? && rows[p] == f(c, i, xs[i]).value[j];
        var o := f(c, i, xs[i]).value;
        assert |o| == n && j < n;
        assert P(c, xs, i, j, o[j]);
      }
    }
  }

  /** A step that raises makes the whole raise. */
  lemma {:induction false} CollectErrAny<C, X>(c: C, xs: seq<X>, f: (C, nat, X) -> Outcome, i: nat)
    requires i < |xs| && f(c, i, xs[i]).Err?
    ensures Collect(c, xs, f).Err?
  {
    CollectStep(c, xs, i, f);
    CollectErrSticks(c, xs, i + 1, f);
  }

  /** Row `w` is the row of age column `col` in a block of the given
      period: the column's age label, the adult flag of that period, the
      hourly values of the block's first 36, 38 and 40 hour rows in that
      column, and a null statutory wage. */
  predicate BlockRow(year: int, period: Period, block: seq<CleanRow>, col: string, w: WageRecord) {
    var age := AgeLabel(col);
    && w.year == year && w.age == age && w.statutory.None? && w.period == period
    && w.isAdult == AdultColumn(year, period, age)
    && FirstWith(block, "36").Some? && w.hourly36 == AmountAt(FirstWith(block, "36").value, col)
    && FirstWith(block, "38").Some? && w.hourly38 == AmountAt(FirstWith(block, "38").value, col)
    && FirstWith(block, "40").Some? && w.hourly40 == AmountAt(FirstWith(block, "40").value, col)
  }

  /** A block yields one row per age column, in column order. */
  lemma BlockStepLayout(ctx: YearCtx, i: nat, block: seq<CleanRow>)
    requires BlockStep(ctx, i, block).Ok?
    ensures var cols, o := AgeColumns(ctx.columns), BlockStep(ctx, i, block).value;
      |o| == |cols| && forall j :: 0 <= j < |cols| ==> BlockRow(ctx.year, BlockPeriod(i), block, cols[j], o[j])
  {
    var cols := AgeColumns(ctx.columns);
    var bctx := BlockContext(ctx.year, BlockPeriod(i), block);
    CollectLayout(bctx, cols, ColumnStep, 1);
    var o := BlockStep(ctx, i, block).value;
    forall j | 0 <= j < |cols| ensures BlockRow(ctx.year, BlockPeriod(i), block, cols[j], o[j]) {
      assert j / 1 == j && j % 1 == 0;
      assert o[j] == ColumnStep(bctx, j, cols[j]).value[0];
    }
  }

  /** Row `w` is the row of age column `j` of block `i` of a year. */
  predicate SlotRow(ctx: YearCtx, blocks: seq<seq<CleanRow>>, i: nat, j: nat, w: WageRecord) {
    var cols := AgeColumns(ctx.columns);
    i < |blocks| && j < |cols| && BlockRow(ctx.year, BlockPeriod(i), blocks[i], cols[j], w)
  }

  /** Row `p` of a year before 2024 is the row of age column `p % n` in
      block `p / n`, for `n` age columns. */
  predicate BlockSlot(year: int, blocks: seq<seq<CleanRow>>, cols: seq<string>, rows: seq<WageRecord>, p: nat)
    requires 0 < |cols| && p < |rows|
  {
    p / |cols| < |blocks| && BlockRow(year, BlockPeriod(p / |cols|), blocks[p / |cols|], cols[p % |cols|], rows[p])
  }

  lemma SlotsOf(ctx: YearCtx, blocks: seq<seq<CleanRow>>, rows: seq<WageRecord>, n: nat)
    requires n == |AgeColumns(ctx.columns)| && n > 0
    requires forall p :: 0 <= p < |rows| ==> SlotRow(ctx, blocks, p / n, p % n, rows[p])
    ensures forall p :: 0 <= p < |rows| ==> BlockSlot(ctx.year, blocks, AgeColumns(ctx.columns), rows, p)
  {
    forall p | 0 <= p < |rows| ensures BlockSlot(ctx.year, blocks, AgeColumns(ctx.columns), rows, p) {
      assert SlotRow(ctx, blocks, p / n, p % n, rows[p]);
    }
  }

  /** The block layout of a year before 2024: for each block of three
      labelled rows, in order, one row per age column; the first block is
      the July table and every later one January. */
  lemma BlockLayout(sheet: CleanSheet, year: int)
    requires BlockRecords(sheet, year).Ok? && AgeColumns(sheet.columns) != []
    ensures var rows, cols, blocks := BlockRecords(sheet, year).value, AgeColumns(sheet.columns), Blocks(sheet, year);
      && |rows| == |cols| * |blocks|
      && forall p :: 0 <= p < |rows| ==> BlockSlot(year, blocks, cols, rows, p)
  {
    var ctx, blocks, cols := YearCtx(sheet.columns, year), Blocks(sheet, year), AgeColumns(sheet.columns);
    var n := |cols|;
    forall i | 0 <= i < |blocks| && BlockStep(ctx, i, blocks[i]).Ok?
      ensures |BlockStep(ctx, i, blocks[i]).value| == n
      ensures forall j :: 0 <= j < n ==> SlotRow(ctx, blocks, i, j, BlockStep(ctx, i, blocks[i]).value[j])
    {
      BlockStepLayout(ctx, i, blocks[i]);
    }
    CollectEach(ctx, blocks, BlockStep, n, SlotRow);
    SlotsOf(ctx, blocks, Collect(ctx, blocks, BlockStep).value, n);
  }

  /** Without age columns the block path yields nothing. */
  lemma {:induction false} BlockEmpty(ctx: YearCtx, blocks: seq<seq<CleanRow>>)
    requires AgeColumns(ctx.columns) == []
    ensures Collect(ctx, blocks, BlockStep) == Ok([])
    decreases |blocks|
  {
    if blocks != [] {
      BlockEmpty(ctx, blocks[..|blocks| - 1]);
      var bctx := BlockContext(ctx.year, BlockPeriod(|blocks| - 1), blocks[|blocks| - 1]);
      assert Collect(bctx, AgeColumns(ctx.columns), ColumnStep) == Ok([]);
      assert BlockStep(ctx, |blocks| - 1, blocks[|blocks| - 1]) == Ok([]);
      var none: seq<WageRecord> := [];
      assert none + none == none;
    }
  }

  /** Whether some step of a run raises. */
  predicate SomeStepFails<C, X>(c: C, xs: seq<X>, f: (C, nat, X) -> Outcome) {
    exists i :: 0 <= i < |xs| && f(c, i, xs[i]).Err?
  }

  /** A run raises exactly when one of its steps does. */
  lemma {:induction false} CollectErrIff<C, X>(c: C, xs: seq<X>, f: (C, nat, X) -> Outcome)
    ensures Collect(c, xs, f).Err? <==> SomeStepFails(c, xs, f)
    decreases |xs|
  {
    if xs != [] {
      var last := |xs| - 1;
      var init := xs[..last];
      CollectErrIff(c, init, f);
      if SomeStepFails(c, init, f) {
        var i :| 0 <= i < |init| && f(c, i, init[i]).Err?;
        assert init[i] == xs[i];
      }
      if SomeStepFails(c, xs, f) && !f(c, last, xs[last]).Err? {
        var i :| 0 <= i < |xs| && f(c, i, xs[i]).Err?;
        assert init[i] == xs[i];
      }
    }
  }

  /** A block raises exactly when the sheet has an age column and the
      block lacks a 36, 38 or 40 hour row. */
  predicate MissingWorkweek(block: seq<CleanRow>) {
    FirstWith(block, "36").None? || FirstWith(block, "38").None? || FirstWith(block, "40").None?
  }

  lemma BlockStepErr(ctx: YearCtx, i: nat, block: seq<CleanRow>)
    ensures BlockStep(ctx, i, block).Err? <==> AgeColumns(ctx.columns) != [] && MissingWorkweek(block)
  {
    var bctx := BlockContext(ctx.year, BlockPeriod(i), block);
    var cols := AgeColumns(ctx.columns);
    CollectErrIff(bctx, cols, ColumnStep);
    if cols != [] && MissingWorkweek(block) {
      assert ColumnStep(bctx, 0, cols[0]).Err?;
    }
  }

  /** The block path of a year raises exactly when the sheet has an age
      column and one of the year's blocks lacks a 36, 38 or 40 hour row. */
  lemma BlockRecordsErr(sheet: CleanSheet, year: int)
    ensures BlockRecords(sheet, year).Err? <==>
      AgeColumns(sheet.columns) != [] && exists b :: b in Blocks(sheet, year) && MissingWorkweek(b)
  {
    var ctx, blocks := YearCtx(sheet.columns, year), Blocks(sheet, year);
    CollectErrIff(ctx, blocks, BlockStep);
    if SomeStepFails(ctx, blocks, BlockStep) {
      var i :| 0 <= i < |blocks| && BlockStep(ctx, i, blocks[i]).Err?;
      BlockStepErr(ctx, i, blocks[i]);
    }
    if AgeColumns(sheet.columns) != [] && exists b :: b in blocks && MissingWorkweek(b) {
      var b :| b in blocks && MissingWorkweek(b);
      var i :| 0 <= i < |blocks| && blocks[i] == b;
      BlockStepErr(ctx, i, b);
    }
  }

  /** A row of a year from 2024 with a null section. */
  predicate NullSection(rows: seq<CleanRow>) {
    exists r :: r in rows && r.section.None?
  }

  lemma NullSectionErr(year: int, rows: seq<CleanRow>, has: bool)
    requires NullSection(rows)
    ensures Collect(SectionCtx(year, rows, has), Sections(rows), SectionStep).Err?
  {
    var ctx, secs := SectionCtx(year, rows, has), Sections(rows);
    var r :| r in rows && r.section.None?;
    var k :| 0 <= k < |rows| && rows[k] == r;
    assert SectionColumn(rows)[k] == None;
    assert None in SectionColumn(rows);
    assert None in secs;
    var i :| 0 <= i < |secs| && secs[i] == None;
    CollectErrAny(ctx, secs, SectionStep, i);
  }

  lemma NoHourlyErr(year: int, rows: seq<CleanRow>)
    requires rows != [] && !NullSection(rows)
    ensures Collect(SectionCtx(year, rows, false), Sections(rows), SectionStep).Err?
  {
    var ctx, secs := SectionCtx(year, rows, false), Sections(rows);
    var sec := rows[0].section;
    assert SectionColumn(rows)[0] == sec;
    assert sec in secs;
    var i :| 0 <= i < |secs| && secs[i] == sec;
    var members := SectionMembers(rows, sec);
    assert rows[0] in members;
    var rctx := RowCtx(year, SectionPeriod(sec.value), false);
    CollectErrAny(rctx, members, RowStep, 0);
    CollectErrAny(ctx, secs, SectionStep, i);
  }

  lemma SectionsErrCause(year: int, rows: seq<CleanRow>, has: bool)
    requires Collect(SectionCtx(year, rows, has), Sections(rows), SectionStep).Err?
    ensures NullSection(rows) || (rows != [] && !has)
  {
    var ctx, secs := SectionCtx(year, rows, has), Sections(rows);
    CollectErrIff(ctx, secs, SectionStep);
    var i :| 0 <= i < |secs| && SectionStep(ctx, i, secs[i]).Err?;
    var sec := secs[i];
    assert sec in SectionColumn(rows);
    var k :| 0 <= k < |rows| && SectionColumn(rows)[k] == sec;
    if sec.Some? {
      var rctx := RowCtx(year, SectionPeriod(sec.value), has);
      var members := SectionMembers(rows, sec);
      CollectErrIff(rctx, members, RowStep);
    } else {
      assert rows[k] in rows;
    }
  }

  /** The section path of a year raises exactly when one of the year's rows
      has no section, or the year has rows and the sheet has no hourly
      column. */
  lemma SectionRecordsErr(sheet: CleanSheet, year: int)
    ensures var rows := YearRows(sheet.rows, year);
      SectionRecords(sheet, year).Err? <==> NullSection(rows) || (rows != [] && HourlyColumn !in sheet.columns)
  {
    var rows := YearRows(sheet.rows, year);
    var has := HourlyColumn in sheet.columns;
    if NullSection(rows) {
      NullSectionErr(year, rows, has);
    } else if rows != [] && !has {
      NoHourlyErr(year, rows);
    }
    if SectionRecords(sheet, year).Err? {
      SectionsErrCause(year, rows, has);
    }
  }

  /** Row `w` is the row of table row `row` in a section of the given
      period: the age label of `Leeftijd`, adult exactly for "21+", no
      hourly values per workweek and the statutory hourly wage. */
  predicate SectionRow(year: int, period: Period, row: CleanRow, w: WageRecord) {
    var age := AgeLabel(row.leeftijd.GetOr("nan"));
    && w.year == year && w.period == period && w.age == age && w.isAdult == (age == "21+")
    && w.hourly36.None? && w.hourly38.None? && w.hourly40.None?
    && w.statutory == AmountAt(row, HourlyColumn)
  }

  /** A section yields one row per table row of that section, in sheet
      order, in January when its title mentions "januari" and July
      otherwise. */
  lemma SectionStepLayout(ctx: SectionCtx, k: nat, sec: Option<string>)
    requires SectionStep(ctx, k, sec).Ok?
    ensures sec.Some?
    ensures var o, members := SectionStep(ctx, k, sec).value, SectionMembers(ctx.rows, sec);
      && |o| == |members|
      && forall j :: 0 <= j < |o| ==> SectionRow(ctx.year, SectionPeriod(sec.value), members[j], o[j])
  {
    var members := SectionMembers(ctx.rows, sec);
    var rctx := RowCtx(ctx.year, SectionPeriod(sec.value), ctx.hasHourly);
    CollectLayout(rctx, members, RowStep, 1);
    var o := SectionStep(ctx, k, sec).value;
    forall j | 0 <= j < |o| ensures SectionRow(ctx.year, SectionPeriod(sec.value), members[j], o[j]) {
      assert j / 1 == j && j % 1 == 0;
      assert o[j] == RowStep(rctx, j, members[j]).value[0];
    }
  }

  // ---------------------------------------------------------------------
  // What every archive row looks like

  /** Rows are kept up to 2025; rows before 2024 carry hourly values per
      workweek and no statutory wage; rows from 2024 carry only the
      statutory wage; from 2019 on the adult row is the 22+ row of January
      2019 and the 21+ row from July 2019. */
  predicate ArchiveRow(w: WageRecord) {
    && w.year <= 2025
    && (w.year < 2024 ==> w.statutory.None?)
    && (w.year >= 2024 ==> w.hourly36.None? && w.hourly38.None? && w.hourly40.None?)
    && (w.year >= 2019 ==> (w.isAdult <==> AdultColumn(w.year, w.period, w.age)))
  }

  lemma HistoryShape(history: seq<HistoryRow>)
    ensures Collect((), history, HistoryStep).Ok? ==>
      forall w :: w in Collect((), history, HistoryStep).value ==> w.year < 2019 && ArchiveRow(w)
  {
    forall i | 0 <= i < |history| && HistoryStep((), i, history[i]).Ok?
      ensures forall w :: w in HistoryStep((), i, history[i]).value ==> w.year < 2019 && ArchiveRow(w)
    {
      HistoryStepShape(i, history[i]);
    }
    CollectAll((), history, HistoryStep, (w: WageRecord) => w.year < 2019 && ArchiveRow(w));
  }

  lemma HistoryStepShape(i: nat, row: HistoryRow)
    ensures HistoryStep((), i, row).Ok? ==> forall w :: w in HistoryStep((), i, row).value ==> w.year < 2019 && ArchiveRow(w)
  {
    if '-' in row.first {
      var fields := DashFields(row.first);
      var year, month := PyInt(fields.0), PyInt(fields.1);
      if year.Some? && month.Some? && year.value < 2019 {
        var rows := HistoryRows(year.value, month.value, row.nominal);
        HistoryRowsShape(year.value, month.value, row.nominal);
        forall w | w in rows ensures w.year < 2019 && ArchiveRow(w) {
          var k :| 0 <= k < |rows| && rows[k] == w;
        }
      }
    }
  }

  lemma BlockShape(sheet: CleanSheet, year: int)
    requires year < 2024
    ensures BlockRecords(sheet, year).Ok? ==> forall w :: w in BlockRecords(sheet, year).value ==> ArchiveRow(w)
  {
    var ctx, blocks := YearCtx(sheet.columns, year), Blocks(sheet, year);
    forall i | 0 <= i < |blocks| && BlockStep(ctx, i, blocks[i]).Ok?
      ensures forall w :: w in BlockStep(ctx, i, blocks[i]).value ==> ArchiveRow(w)
    {
      var bctx := BlockContext(year, BlockPeriod(i), blocks[i]);
      CollectAll(bctx, AgeColumns(sheet.columns), ColumnStep, ArchiveRow);
    }
    CollectAll(ctx, blocks, BlockStep, ArchiveRow);
  }

  lemma SectionShape(sheet: CleanSheet, year: int)
    requires 2024 <= year <= 2025
    ensures SectionRecords(sheet, year).Ok? ==> forall w :: w in SectionRecords(sheet, year).value ==> ArchiveRow(w)
  {
    var rows := YearRows(sheet.rows, year);
    var ctx := SectionCtx(year, rows, HourlyColumn in sheet.columns);
    var secs := Sections(rows);
    forall i | 0 <= i < |secs| && SectionStep(ctx, i, secs[i]).Ok?
      ensures forall w :: w in SectionStep(ctx, i, secs[i]).value ==> ArchiveRow(w)
    {
      var sec := secs[i];
      var rctx := RowCtx(year, SectionPeriod(sec.value), ctx.hasHourly);
      CollectAll(rctx, SectionMembers(rows, sec), RowStep, ArchiveRow);
    }
    CollectAll(ctx, secs, SectionStep, ArchiveRow);
  }
}
