/** `load_data`: the wage archive and the latest scraped rows are
    concatenated, left-joined with the index table on (Year, Period), given a
    Date, sorted by Date and forward-filled in the four index columns. The
    three CSV files are inputs; an absent file is `None`. */
module Pipeline {
  import opened Wrappers
  import opened Text
  import opened Records

  // ---------------------------------------------------------------------
  // The latest scraped file

  /** A row of the latest scraped file. When its Hourly_Statutory column
      was read as text, `statutoryText` is the raw cell (`None` for an
      empty cell); when it was read as numbers, `record.statutory` holds the
      value. */
  datatype LatestRow = LatestRow(record: WageRecord, statutoryText: Option<string>)

  /** The latest file: its rows, and whether the Hourly_Statutory column
      holds text (a column of dtype `object`). */
  datatype Latest = Latest(rows: seq<LatestRow>, textual: bool)

  /** The substitution of `[€.]` by nothing: every euro sign and every dot
      is deleted, every other character kept in order. */
  function DropEuroAndDots(s: string): (r: string)
    ensures |r| <= |s|
    ensures '€' !in r && '.' !in r
  {
    if s == [] then []
    else (if s[0] == '€' || s[0] == '.' then [] else [s[0]]) + DropEuroAndDots(s[1..])
  }

  /** What the deletion keeps: exactly the characters other than euro
      signs and dots. */
  lemma {:induction false} DropChars(s: string)
    ensures forall c :: c in DropEuroAndDots(s) <==> c in s && c != '€' && c != '.'
  {
    if s != [] {
      DropChars(s[1..]);
      assert forall c :: c in s <==> c == s[0] || c in s[1..];
    }
  }

  /** The cleaning of one Hourly_Statutory text cell: euro signs and dots
      deleted, commas turned into dots, then `float()`. An empty cell reads
      as the text "nan", which stays null; a text `float()` rejects is the
      error that aborts the load. */
  function CleanStatutoryCell(cell: Option<string>): (r: Result<Option<real>, string>)
    ensures cell.None? ==> r == Ok(None)
    ensures cell.Some? ==> (r.Err? <==> PyFloat(ReplaceAll(DropEuroAndDots(cell.value), ",", ".")).None?)
  {
    match cell
    case None => Ok(None)
    case Some(t) =>
      match PyFloat(ReplaceAll(DropEuroAndDots(t), ",", "."))
      case None => Err(t)
      case Some(v) => Ok(Some(v))
  }

  /** The record a latest row contributes once its text cell is cleaned. */
  function CleanedRecord(row: LatestRow): WageRecord
    requires CleanStatutoryCell(row.statutoryText).Ok?
  {
    row.record.(statutory := CleanStatutoryCell(row.statutoryText).value)
  }

  /** Column-wise cleaning of text rows: fails when any cell fails. */
  function CleanTextRows(rows: seq<LatestRow>): (r: Result<seq<WageRecord>, string>)
    ensures r.Err? <==> exists i :: 0 <= i < |rows| && CleanStatutoryCell(rows[i].statutoryText).Err?
    ensures r.Ok? ==> |r.value| == |rows| && forall i :: 0 <= i < |rows| ==> r.value[i] == CleanedRecord(rows[i])
  {
    if rows == [] then Ok([])
    else
      var rest := CleanTextRows(rows[1..]);
      assert forall i :: 1 <= i < |rows| ==> rows[1..][i - 1] == rows[i];
      match CleanStatutoryCell(rows[0].statutoryText)
      case Err(t) => Err(t)
      case Ok(v) =>
        if rest.Err? then Err(rest.error)
        else Ok([CleanedRecord(rows[0])] + rest.value)
  }

  /** The latest rows as they join the archive: cleaned when the column holds
      text, taken as they are when it holds numbers. */
  function LatestRecords(latest: Latest): (r: Result<seq<WageRecord>, string>)
    ensures !latest.textual ==> (r.Ok? && |r.value| == |latest.rows|
      && forall i :: 0 <= i < |latest.rows| ==> r.value[i] == latest.rows[i].record)
    ensures latest.textual ==> r == CleanTextRows(latest.rows)
  {
    if latest.textual then CleanTextRows(latest.rows)
    else Ok(seq(|latest.rows|, i requires 0 <= i < |latest.rows| => latest.rows[i].record))
  }

  // ---------------------------------------------------------------------
  // Left join with the index table

  /** The four index columns of a joined row. */
  datatype IndexValues = IndexValues(monthlyCao: Option<real>, monthlyCpi: Option<real>, yearlyCao: Option<real>, yearlyCpi: Option<real>)

  const NoIndex := IndexValues(None, None, None, None)

  function ValuesOf(x: IndexRow): IndexValues {
    IndexValues(x.monthlyCao, x.monthlyCpi, x.yearlyCao, x.yearlyCpi)
  }

  /** A wage row with the index values the merge attached. */
  datatype Joined = Joined(wage: WageRecord, index: IndexValues)

  /** The index rows whose (Year, Period) is the given key, in table order. */
  function IndexMatches(indices: seq<IndexRow>, year: int, period: Period): (r: seq<IndexValues>)
    ensures |r| <= |indices|
    ensures forall v :: v in r <==> exists x :: x in indices && x.year == year && x.period == period && ValuesOf(x) == v
  {
    if indices == [] then []
    else
      var x := indices[0];
      assert forall y :: y in indices <==> y == x || y in indices[1..];
      (if x.year == year && x.period == period then [ValuesOf(x)] else []) + IndexMatches(indices[1..], year, period)
  }

  /** The rows one wage row becomes in a left merge: one per matching index
      row, or itself with four nulls when nothing matches. */
  function JoinWage(w: WageRecord, indices: seq<IndexRow>): (r: seq<Joined>)
    ensures |r| >= 1
    ensures forall j :: j in r ==> j.wage == w
    ensures IndexMatches(indices, w.year, w.period) == [] ==> r == [Joined(w, NoIndex)]
  {
    var ms := IndexMatches(indices, w.year, w.period);
    if ms == [] then [Joined(w, NoIndex)]
    else seq(|ms|, i requires 0 <= i < |ms| => Joined(w, ms[i]))
  }

  /** `pd.merge(wages, indices, on=['Year', 'Period'], how='left')`. */
  function LeftJoin(wages: seq<WageRecord>, indices: seq<IndexRow>): (r: seq<Joined>)
    ensures |r| >= |wages|
    ensures forall j :: j in r ==> j.wage in wages
  {
    if wages == [] then []
    else
      var rest := LeftJoin(wages[1..], indices);
      assert forall j :: j in rest ==> j.wage in wages[1..];
      JoinWage(wages[0], indices) + rest
  }

  /** Every wage row survives the left merge. */
  lemma {:induction false} LeftJoinKeepsAll(wages: seq<WageRecord>, indices: seq<IndexRow>)
    ensures forall w :: w in wages ==> exists j :: j in LeftJoin(wages, indices) && j.wage == w
  {
    if wages != [] {
      LeftJoinKeepsAll(wages[1..], indices);
      var head := JoinWage(wages[0], indices);
      assert head[0] in head;
      forall w | w in wages ensures exists j :: j in LeftJoin(wages, indices) && j.wage == w {
        if w == wages[0] {
          assert head[0] in LeftJoin(wages, indices);
        } else {
          assert w in wages[1..];
          var j :| j in LeftJoin(wages[1..], indices) && j.wage == w;
          assert j in LeftJoin(wages, indices);
        }
      }
    }
  }

  /** At most one index row per (Year, Period), as the saved index table
      has. */
  predicate UniqueIndexKeys(indices: seq<IndexRow>) {
    forall i, j :: 0 <= i < j < |indices| ==> indices[i].year != indices[j].year || indices[i].period != indices[j].period
  }

  /** The index values a merge attaches under unique keys. */
  function IndexLookup(indices: seq<IndexRow>, year: int, period: Period): IndexValues {
    var ms := IndexMatches(indices, year, period);
    if ms == [] then NoIndex else ms[0]
  }

  lemma {:induction false} MatchesAtMostOne(indices: seq<IndexRow>, year: int, period: Period)
    requires UniqueIndexKeys(indices)
    ensures |IndexMatches(indices, year, period)| <= 1
  {
    if indices != [] {
      var rest := indices[1..];
      assert UniqueIndexKeys(rest) by {
        forall i, j | 0 <= i < j < |rest| ensures rest[i].year != rest[j].year || rest[i].period != rest[j].period {
          assert rest[i] == indices[i + 1] && rest[j] == indices[j + 1];
        }
      }
      MatchesAtMostOne(rest, year, period);
      if indices[0].year == year && indices[0].period == period {
        forall x | x in rest ensures x.year != year || x.period != period {
          var k :| 0 <= k < |rest| && rest[k] == x;
          assert indices[k + 1] == x;
        }
        var m := IndexMatches(rest, year, period);
        assert |m| == 0 || m[0] in m;
      }
    }
  }

  /** Under unique index keys the merge keeps the wage rows one for one and
      in order (archive rows, then latest rows), each with the index values
      of its (Year, Period), or nulls when the table has none. */
  lemma {:induction false} LeftJoinUnique(wages: seq<WageRecord>, indices: seq<IndexRow>)
    requires UniqueIndexKeys(indices)
    ensures |LeftJoin(wages, indices)| == |wages|
    ensures forall i :: 0 <= i < |wages| ==>
      LeftJoin(wages, indices)[i] == Joined(wages[i], IndexLookup(indices, wages[i].year, wages[i].period))
  {
    if wages != [] {
      LeftJoinUnique(wages[1..], indices);
      MatchesAtMostOne(indices, wages[0].year, wages[0].period);
    }
  }

  /** Without an index file every wage row is kept once, with four nulls. */
  lemma {:induction false} LeftJoinEmpty(wages: seq<WageRecord>)
    ensures LeftJoin(wages, []) == seq(|wages|, i requires 0 <= i < |wages| => Joined(wages[i], NoIndex))
  {
    if wages != [] {
      LeftJoinEmpty(wages[1..]);
    }
  }

  // ---------------------------------------------------------------------
  // Dates and the sort

  /** A month start: `Year-MM-01`. */
  datatype Date = Date(year: int, month: int)

  /** The Date column: January is month 1 and July month 7; a period the
      month map lacks gives no date (NaT). */
  function DateOf(year: int, period: Period): (r: Option<Date>)
    ensures r.None? <==> period == Unknown
    ensures r.Some? ==> (r.value.year == year && (r.value.month == 1 <==> period == January)
      && (r.value.month == 7 <==> period == July))
  {
    match period
    case January => Some(Date(year, 1))
    case July => Some(Date(year, 7))
    case Unknown => None
  }

  /** A merged row with its Date. */
  datatype Row = Row(wage: WageRecord, index: IndexValues, date: Option<Date>)

  function Dated(joined: seq<Joined>): (r: seq<Row>)
    ensures |r| == |joined|
    ensures forall i :: 0 <= i < |joined| ==>
      r[i] == Row(joined[i].wage, joined[i].index, DateOf(joined[i].wage.year, joined[i].wage.period))
  {
    seq(|joined|, i requires 0 <= i < |joined| =>
      Row(joined[i].wage, joined[i].index, DateOf(joined[i].wage.year, joined[i].wage.period)))
  }

  /** The order `sort_values('Date')` produces: ascending, missing dates
      last. */
  predicate DateLe(a: Option<Date>, b: Option<Date>) {
    b.None? || (a.Some? && (a.value.year < b.value.year || (a.value.year == b.value.year && a.value.month <= b.value.month)))
  }

  predicate SortedByDate(rows: seq<Row>) {
    forall i, j :: 0 <= i < j < |rows| ==> DateLe(rows[i].date, rows[j].date)
  }

  /** Inserting one row before the first row it does not follow. */
  function InsertByDate(x: Row, s: seq<Row>): (r: seq<Row>)
    ensures multiset(r) == multiset(s) + multiset{x}
  {
    if s == [] then [x]
    else if DateLe(x.date, s[0].date) then [x] + s
    else
      assert s == [s[0]] + s[1..];
      [s[0]] + InsertByDate(x, s[1..])
  }

  lemma {:induction false} InsertSorted(x: Row, s: seq<Row>)
    requires SortedByDate(s)
    ensures SortedByDate(InsertByDate(x, s))
  {
    if s != [] && !DateLe(x.date, s[0].date) {
      var rest := InsertByDate(x, s[1..]);
      InsertSorted(x, s[1..]);
      forall k | 0 <= k < |rest| ensures DateLe(s[0].date, rest[k].date) {
        assert rest[k] in multiset(rest);
        if rest[k] != x {
          assert rest[k] in multiset(s[1..]);
          var j :| 0 <= j < |s[1..]| && s[1..][j] == rest[k];
          assert s[j + 1] == rest[k];
        }
      }
    }
  }

  /** A sort of the rows by Date: the result is ordered and is a permutation
      of the input. Rows with equal dates may come in any order, as pandas'
      default sort does not promise stability. */
  function SortByDate(rows: seq<Row>): (r: seq<Row>)
    ensures multiset(r) == multiset(rows)
    ensures |r| == |rows|
    ensures SortedByDate(r)
  {
    if rows == [] then []
    else
      assert rows == [rows[0]] + rows[1..];
      InsertSorted(rows[0], SortByDate(rows[1..]));
      InsertByDate(rows[0], SortByDate(rows[1..]))
  }

  // ---------------------------------------------------------------------
  // Forward fill

  /** `ffill` of one column: each null takes the value before it in the
      filled column. */
  function FFill(xs: seq<Option<real>>): (r: seq<Option<real>>)
    ensures |r| == |xs|
  {
    if xs == [] then []
    else
      var init := FFill(xs[..|xs| - 1]);
      var v := xs[|xs| - 1];
      init + [if v.Some? then v else if init == [] then None else init[|init| - 1]]
  }

  /** A filled cell is the nearest non-null value at or before it: non-null
      cells are unchanged, a null takes the nearest earlier non-null value,
      and leading nulls stay null. */
  lemma {:induction false} FFillSpec(xs: seq<Option<real>>)
    ensures forall i :: 0 <= i < |xs| ==> FFill(xs)[i] == LastNonNull(xs[..i + 1])
  {
    if xs != [] {
      var n := |xs| - 1;
      var init := xs[..n];
      FFillSpec(init);
      forall i | 0 <= i < |xs| ensures FFill(xs)[i] == LastNonNull(xs[..i + 1]) {
        if i < n {
          assert init[..i + 1] == xs[..i + 1];
        } else {
          assert xs[..i + 1] == init + [xs[n]];
          LastNonNullAppend(init, xs[n]);
          if n > 0 {
            assert init[..n] == init;
          }
        }
      }
    }
  }

  lemma {:induction false} FFillKeeps(xs: seq<Option<real>>, i: nat)
    requires i < |xs| && xs[i].Some?
    ensures FFill(xs)[i] == xs[i]
  {
    var n := |xs| - 1;
    if i < n {
      assert xs[..n][i] == xs[i];
      FFillKeeps(xs[..n], i);
    }
  }

  lemma FFillLeading(xs: seq<Option<real>>, i: nat)
    requires i < |xs| && forall k :: 0 <= k <= i ==> xs[k].None?
    ensures FFill(xs)[i].None?
  {
    FFillSpec(xs);
    forall v | v in xs[..i + 1] ensures v.None? {
      var k :| 0 <= k < i + 1 && xs[..i + 1][k] == v;
    }
  }

  /** Filling twice equals filling once. */
  lemma {:induction false} FFillIdempotent(xs: seq<Option<real>>)
    ensures FFill(FFill(xs)) == FFill(xs)
  {
    if xs != [] {
      var n := |xs| - 1;
      var ys := FFill(xs);
      var init := FFill(xs[..n]);
      assert ys[..n] == init;
      FFillIdempotent(xs[..n]);
    }
  }

  /** A column without values stays without values. */
  lemma {:induction false} FFillAllNull(xs: seq<Option<real>>)
    requires forall v :: v in xs ==> v.None?
    ensures forall v :: v in FFill(xs) ==> v.None?
  {
    if xs != [] {
      var n := |xs| - 1;
      assert forall v :: v in xs[..n] ==> v in xs;
      FFillAllNull(xs[..n]);
      assert xs[n] in xs;
      var init := FFill(xs[..n]);
      assert init != [] ==> init[|init| - 1] in init;
    }
  }

  /** The in-place fill: a scan carrying the last value seen. */
  method ForwardFill(a: array<Option<real>>)
    modifies a
    ensures a[..] == FFill(old(a[..]))
  {
    var last: Option<real> := None;
    var i := 0;
    while i < a.Length
      invariant 0 <= i <= a.Length
      invariant a[..i] == FFill(old(a[..])[..i])
      invariant a[i..] == old(a[..])[i..]
      invariant last == if i == 0 then None else a[i - 1]
    {
      ghost var prefix := old(a[..])[..i + 1];
      assert prefix[..i] == old(a[..])[..i];
      if a[i].Some? {
        last := a[i];
      } else {
        a[i] := last;
      }
      i := i + 1;
    }
    assert old(a[..])[..a.Length] == old(a[..]);
  }

  /** The four index columns. */
  datatype IndexColumn = MonthlyCaoColumn | MonthlyCpiColumn | YearlyCaoColumn | YearlyCpiColumn

  function Get(v: IndexValues, c: IndexColumn): Option<real> {
    match c
    case MonthlyCaoColumn => v.monthlyCao
    case MonthlyCpiColumn => v.monthlyCpi
    case YearlyCaoColumn => v.yearlyCao
    case YearlyCpiColumn => v.yearlyCpi
  }

  function Put(v: IndexValues, c: IndexColumn, x: Option<real>): (r: IndexValues)
    ensures Get(r, c) == x
    ensures forall d :: d != c ==> Get(r, d) == Get(v, d)
  {
    match c
    case MonthlyCaoColumn => v.(monthlyCao := x)
    case MonthlyCpiColumn => v.(monthlyCpi := x)
    case YearlyCaoColumn => v.(yearlyCao := x)
    case YearlyCpiColumn => v.(yearlyCpi := x)
  }

  function Column(rows: seq<Row>, c: IndexColumn): (r: seq<Option<real>>)
    ensures |r| == |rows| && forall i :: 0 <= i < |rows| ==> r[i] == Get(rows[i].index, c)
  {
    seq(|rows|, i requires 0 <= i < |rows| => Get(rows[i].index, c))
  }

  /** The rows with column `c` replaced by `vs`; everything else kept. */
  function WithColumn(rows: seq<Row>, c: IndexColumn, vs: seq<Option<real>>): (r: seq<Row>)
    requires |vs| == |rows|
    ensures |r| == |rows|
    ensures forall i :: 0 <= i < |rows| ==>
      r[i].wage == rows[i].wage && r[i].date == rows[i].date && r[i].index == Put(rows[i].index, c, vs[i])
  {
    seq(|rows|, i requires 0 <= i < |rows| => rows[i].(index := Put(rows[i].index, c, vs[i])))
  }

  function FillColumn(rows: seq<Row>, c: IndexColumn): seq<Row> {
    WithColumn(rows, c, FFill(Column(rows, c)))
  }

  /** `df[idx_cols] = df[idx_cols].ffill()`. */
  function FillIndexColumns(rows: seq<Row>): seq<Row> {
    FillColumn(FillColumn(FillColumn(FillColumn(rows, MonthlyCaoColumn), MonthlyCpiColumn), YearlyCaoColumn), YearlyCpiColumn)
  }

  lemma FillColumnEffect(rows: seq<Row>, c: IndexColumn)
    ensures |FillColumn(rows, c)| == |rows|
    ensures Column(FillColumn(rows, c), c) == FFill(Column(rows, c))
    ensures forall d :: d != c ==> Column(FillColumn(rows, c), d) == Column(rows, d)
    ensures forall i :: 0 <= i < |rows| ==> FillColumn(rows, c)[i].wage == rows[i].wage && FillColumn(rows, c)[i].date == rows[i].date
  {
  }

  /** The four columns are filled independently of each other, and the wage
      and Date of every row are untouched. */
  lemma FillIndependent(rows: seq<Row>)
    ensures |FillIndexColumns(rows)| == |rows|
    ensures forall c :: Column(FillIndexColumns(rows), c) == FFill(Column(rows, c))
    ensures forall i :: 0 <= i < |rows| ==>
      FillIndexColumns(rows)[i].wage == rows[i].wage && FillIndexColumns(rows)[i].date == rows[i].date
  {
    var r1 := FillColumn(rows, MonthlyCaoColumn);
    var r2 := FillColumn(r1, MonthlyCpiColumn);
    var r3 := FillColumn(r2, YearlyCaoColumn);
    var r4 := FillColumn(r3, YearlyCpiColumn);
    FillKeepsRows(rows, MonthlyCaoColumn);
    FillKeepsRows(r1, MonthlyCpiColumn);
    FillKeepsRows(r2, YearlyCaoColumn);
    FillKeepsRows(r3, YearlyCpiColumn);
    forall c ensures Column(r4, c) == FFill(Column(rows, c)) {
      match c
      case MonthlyCaoColumn =>
        FillFills(rows, c);
        FillKeepsOther(r1, MonthlyCpiColumn, c);
        FillKeepsOther(r2, YearlyCaoColumn, c);
        FillKeepsOther(r3, YearlyCpiColumn, c);
      case MonthlyCpiColumn =>
        FillKeepsOther(rows, MonthlyCaoColumn, c);
        FillFills(r1, c);
        FillKeepsOther(r2, YearlyCaoColumn, c);
        FillKeepsOther(r3, YearlyCpiColumn, c);
      case YearlyCaoColumn =>
        FillKeepsOther(rows, MonthlyCaoColumn, c);
        FillKeepsOther(r1, MonthlyCpiColumn, c);
        FillFills(r2, c);
        FillKeepsOther(r3, YearlyCpiColumn, c);
      case YearlyCpiColumn =>
        FillKeepsOther(rows, MonthlyCaoColumn, c);
        FillKeepsOther(r1, MonthlyCpiColumn, c);
        FillKeepsOther(r2, YearlyCaoColumn, c);
        FillFills(r3, c);
    }
  }

  // The three parts of `FillColumnEffect`, one at a time.

  lemma FillFills(rows: seq<Row>, c: IndexColumn)
    ensures Column(FillColumn(rows, c), c) == FFill(Column(rows, c))
  {
    FillColumnEffect(rows, c);
  }

  lemma FillKeepsOther(rows: seq<Row>, c: IndexColumn, d: IndexColumn)
    requires d != c
    ensures Column(FillColumn(rows, c), d) == Column(rows, d)
  {
    FillColumnEffect(rows, c);
  }

  lemma FillKeepsRows(rows: seq<Row>, c: IndexColumn)
    ensures |FillColumn(rows, c)| == |rows|
    ensures forall i :: 0 <= i < |rows| ==> FillColumn(rows, c)[i].wage == rows[i].wage && FillColumn(rows, c)[i].date == rows[i].date
  {
    FillColumnEffect(rows, c);
  }

  /** One column filled through an array. */
  method FillColumnInPlace(rows: seq<Row>, c: IndexColumn) returns (r: seq<Row>)
    ensures r == FillColumn(rows, c)
  {
    var a := new Option<real>[|rows|](i requires 0 <= i < |rows| => Get(rows[i].index, c));
    assert a[..] == Column(rows, c);
    ForwardFill(a);
    r := WithColumn(rows, c, a[..]);
  }

  // ---------------------------------------------------------------------
  // The whole load

  datatype LoadResult =
    | NoArchive                      // the archive file is missing
    | ConversionFailed(text: string) // a latest text cell `float()` rejects
    | Loaded(rows: seq<Row>)

  /** The wage rows before the merge: the archive, then the latest rows. */
  function WageRows(archive: seq<WageRecord>, latest: Option<Latest>): (r: Result<seq<WageRecord>, string>)
    ensures latest.None? ==> r == Ok(archive)
    ensures latest.Some? && r.Ok? ==> LatestRecords(latest.value).Ok? && r.value == archive + LatestRecords(latest.value).value
    ensures latest.Some? ==> (r.Err? <==> LatestRecords(latest.value).Err?)
  {
    if latest.None? then Ok(archive)
    else match LatestRecords(latest.value)
      case Err(t) => Err(t)
      case Ok(rows) => Ok(archive + rows)
  }

  /** The merged, dated rows before sorting. */
  function Merged(wages: seq<WageRecord>, indices: Option<seq<IndexRow>>): (r: seq<Row>)
    ensures |r| >= |wages|
    ensures forall i :: 0 <= i < |r| ==> r[i].wage in wages
  {
    var joined := LeftJoin(wages, indices.GetOr([]));
    assert forall i :: 0 <= i < |joined| ==> joined[i].wage in wages by {
      forall i | 0 <= i < |joined| ensures joined[i].wage in wages {
        assert joined[i] in joined;
      }
    }
    Dated(joined)
  }

  /** The result of `load_data`. */
  function Load(archive: Option<seq<WageRecord>>, latest: Option<Latest>, indices: Option<seq<IndexRow>>): (r: LoadResult)
    ensures archive.None? <==> r == NoArchive
  {
    if archive.None? then NoArchive
    else match WageRows(archive.value, latest)
      case Err(t) => ConversionFailed(t)
      case Ok(wages) => Loaded(FillIndexColumns(SortByDate(Merged(wages, indices))))
  }

  method LoadData(archive: Option<seq<WageRecord>>, latest: Option<Latest>, indices: Option<seq<IndexRow>>)
    returns (r: LoadResult)
    ensures r == Load(archive, latest, indices)
  {
    if archive.None? {
      return NoArchive;
    }
    var wages := archive.value;
    if latest.Some? {
      var cleaned := LatestRecords(latest.value);
      if cleaned.Err? {
        return ConversionFailed(cleaned.error);
      }
      wages := wages + cleaned.value;
    }
    var table := if indices.Some? then indices.value else [];
    var df := Dated(LeftJoin(wages, table));
    df := SortByDate(df);
    df := FillColumnInPlace(df, MonthlyCaoColumn);
    df := FillColumnInPlace(df, MonthlyCpiColumn);
    df := FillColumnInPlace(df, YearlyCaoColumn);
    df := FillColumnInPlace(df, YearlyCpiColumn);
    return Loaded(df);
  }

  // ---------------------------------------------------------------------
  // Properties of the load

  function WagesOf(rows: seq<Row>): (r: seq<WageRecord>)
    ensures |r| == |rows|
  {
    if rows == [] then [] else [rows[0].wage] + WagesOf(rows[1..])
  }

  lemma {:induction false} WagesOfAt(rows: seq<Row>)
    ensures forall i :: 0 <= i < |rows| ==> WagesOf(rows)[i] == rows[i].wage
  {
    if rows != [] {
      WagesOfAt(rows[1..]);
    }
  }

  lemma {:induction false} InsertWages(x: Row, s: seq<Row>)
    ensures multiset(WagesOf(InsertByDate(x, s))) == multiset(WagesOf(s)) + multiset{x.wage}
  {
    if s != [] {
      if DateLe(x.date, s[0].date) {
        assert ([x] + s)[1..] == s;
      } else {
        var rest := InsertByDate(x, s[1..]);
        InsertWages(x, s[1..]);
        assert ([s[0]] + rest)[1..] == rest;
        assert WagesOf(s) == [s[0].wage] + WagesOf(s[1..]);
      }
    }
  }

  /** Sorting rows reorders their wages alike. */
  lemma {:induction false} SortWages(rows: seq<Row>)
    ensures multiset(WagesOf(SortByDate(rows))) == multiset(WagesOf(rows))
  {
    if rows != [] {
      SortWages(rows[1..]);
      InsertWages(rows[0], SortByDate(rows[1..]));
    }
  }

  /** The loaded table is ordered by Date and holds, up to that order, the
      merged rows: the same wage rows as many times each, with the index
      columns filled. */
  lemma LoadedShape(archive: Option<seq<WageRecord>>, latest: Option<Latest>, indices: Option<seq<IndexRow>>)
    requires Load(archive, latest, indices).Loaded?
    ensures WageRows(archive.value, latest).Ok?
    ensures var rows, merged := Load(archive, latest, indices).rows, Merged(WageRows(archive.value, latest).value, indices);
      && SortedByDate(rows)
      && |rows| == |merged|
      && multiset(WagesOf(rows)) == multiset(WagesOf(merged))
  {
    var merged := Merged(WageRows(archive.value, latest).value, indices);
    var sorted := SortByDate(merged);
    var rows := FillIndexColumns(sorted);
    FillIndependent(sorted);
    WagesOfAt(rows);
    WagesOfAt(sorted);
    assert WagesOf(rows) == WagesOf(sorted);
    SortWages(merged);
  }

  /** With an index table of unique keys, the loaded wage rows are exactly
      the archive rows and the latest rows, each once, in Date order. */
  lemma LoadedWagesUnique(archive: Option<seq<WageRecord>>, latest: Option<Latest>, indices: Option<seq<IndexRow>>)
    requires Load(archive, latest, indices).Loaded?
    requires indices.Some? ==> UniqueIndexKeys(indices.value)
    ensures WageRows(archive.value, latest).Ok?
    ensures multiset(WagesOf(Load(archive, latest, indices).rows)) == multiset(WageRows(archive.value, latest).value)
  {
    var wages := WageRows(archive.value, latest).value;
    LoadedShape(archive, latest, indices);
    var table := indices.GetOr([]);
    assert UniqueIndexKeys(table);
    LeftJoinUnique(wages, table);
    WagesOfAt(Merged(wages, indices));
    assert WagesOf(Merged(wages, indices)) == wages;
  }

  /** Every row carries four null index values. */
  predicate NullIndices(rows: seq<Row>) {
    forall r :: r in rows ==> r.index == NoIndex
  }

  lemma FillKeepsNull(rows: seq<Row>, c: IndexColumn)
    requires NullIndices(rows)
    ensures NullIndices(FillColumn(rows, c))
  {
    var col := Column(rows, c);
    forall v | v in col ensures v.None? {
      var i :| 0 <= i < |rows| && col[i] == v;
      assert rows[i] in rows;
    }
    FFillAllNull(col);
    var r := FillColumn(rows, c);
    forall x | x in r ensures x.index == NoIndex {
      var i :| 0 <= i < |r| && r[i] == x;
      assert rows[i] in rows;
      assert FFill(col)[i] in FFill(col);
    }
  }

  lemma SortKeepsNull(rows: seq<Row>)
    requires NullIndices(rows)
    ensures NullIndices(SortByDate(rows))
  {
    forall x | x in SortByDate(rows) ensures x.index == NoIndex {
      assert x in multiset(rows);
    }
  }

  /** Without an index file all four index columns are null on every loaded
      row. */
  lemma NoIndexFile(archive: Option<seq<WageRecord>>, latest: Option<Latest>)
    requires Load(archive, latest, None).Loaded?
    ensures NullIndices(Load(archive, latest, None).rows)
  {
    var wages := WageRows(archive.value, latest).value;
    var merged := Merged(wages, None);
    LeftJoinEmpty(wages);
    assert NullIndices(merged);
    var sorted := SortByDate(merged);
    SortKeepsNull(merged);
    var r1 := FillColumn(sorted, MonthlyCaoColumn);
    var r2 := FillColumn(r1, MonthlyCpiColumn);
    var r3 := FillColumn(r2, YearlyCaoColumn);
    FillKeepsNull(sorted, MonthlyCaoColumn);
    FillKeepsNull(r1, MonthlyCpiColumn);
    FillKeepsNull(r2, YearlyCaoColumn);
    FillKeepsNull(r3, YearlyCpiColumn);
  }

  /** A text cell `float()` rejects aborts the whole load. */
  lemma ConversionAborts(archive: seq<WageRecord>, rows: seq<LatestRow>, indices: Option<seq<IndexRow>>, i: nat)
    requires i < |rows| && CleanStatutoryCell(rows[i].statutoryText).Err?
    ensures Load(Some(archive), Some(Latest(rows, true)), indices).ConversionFailed?
  {
  }

  // ---------------------------------------------------------------------
  // The latest-file cleaning on Dutch amounts

  lemma {:induction false} DropConcat(a: string, b: string)
    ensures DropEuroAndDots(a + b) == DropEuroAndDots(a) + DropEuroAndDots(b)
  {
    if a == [] {
      assert a + b == b;
    } else {
      assert (a + b)[0] == a[0];
      assert (a + b)[1..] == a[1..] + b;
      DropConcat(a[1..], b);
    }
  }

  lemma {:induction false} DropDigits(s: string)
    requires AllDigits(s)
    ensures DropEuroAndDots(s) == s
  {
    if s != [] {
      assert IsDigit(s[0]);
      DropDigits(s[1..]);
    }
  }

  lemma DropTail(sep: string, t: string, c: string)
    requires AllDigits(t) && AllDigits(c)
    requires sep == "" || sep == "."
    ensures DropEuroAndDots(sep + (t + ("," + c))) == t + ("," + c)
  {
    var tail := "," + c;
    DropConcat(",", c);
    DropDigits(c);
    assert DropEuroAndDots(",") == ",";
    assert DropEuroAndDots(tail) == tail;
    DropConcat(t, tail);
    DropDigits(t);
    DropConcat(sep, t + tail);
    assert DropEuroAndDots(sep) == "";
  }

  lemma DropEuroPrefix(x: string)
    ensures DropEuroAndDots("€ " + x) == " " + DropEuroAndDots(x)
  {
    assert ("€ " + x)[0] == '€';
    assert ("€ " + x)[1..] == " " + x;
    assert (" " + x)[0] == ' ';
    assert (" " + x)[1..] == x;
  }

  lemma DropDutch(w: string, sep: string, t: string, c: string)
    requires AllDigits(w) && AllDigits(t) && AllDigits(c)
    requires sep == "" || sep == "."
    ensures DropEuroAndDots(DutchText(w, sep, t, c)) == " " + (w + (t + ("," + c)))
  {
    var rest := sep + (t + ("," + c));
    DropTail(sep, t, c);
    DropConcat(w, rest);
    DropDigits(w);
    DropEuroPrefix(w + rest);
  }

  lemma CommaToDot(v: string, c: string)
    requires AllDigits(v) && AllDigits(c)
    ensures ReplaceAll(" " + (v + ("," + c)), ",", ".") == " " + (v + ("." + c))
  {
    var u := " " + (v + ("," + c));
    ReplaceCharPointwise(u, ',', '.');
    var r := " " + (v + ("." + c));
    forall i | 0 <= i < |u| ensures ReplaceAll(u, ",", ".")[i] == r[i] {
      var n := 1 + |v|;
      if 1 <= i < n {
        assert u[i] == v[i - 1] == r[i];
        assert IsDigit(v[i - 1]);
      } else if i > n {
        assert u[i] == c[i - n - 1] == r[i];
        assert IsDigit(c[i - n - 1]);
      }
    }
  }

  /** The text the cleaning parses for a Dutch amount: the euro sign and
      the thousands dot are gone and the decimal comma is a dot. */
  lemma DutchAmountText(w: string, sep: string, t: string, c: string)
    requires AllDigits(w) && AllDigits(t) && AllDigits(c)
    requires sep == "" || sep == "."
    ensures ReplaceAll(DropEuroAndDots(DutchText(w, sep, t, c)), ",", ".") == " " + ((w + t) + ("." + c))
  {
    DropDutch(w, sep, t, c);
    assert w + (t + ("," + c)) == (w + t) + ("," + c);
    DigitsConcat(w, t);
    CommaToDot(w + t, c);
  }

  lemma StripLeadingSpace(v: string)
    ensures Strip(" " + v) == Strip(v)
  {
    assert (" " + v)[1..] == v;
  }

  /** `float()` of a space, whole digits, a dot and two cents digits. */
  lemma ParseDotted(d: string, c: string)
    requires AllDigits(d) && AllDigits(c) && d != [] && |c| == 2
    ensures PyFloat(" " + (d + ("." + c))) == Some(NatValue(d) as real + NatValue(c) as real / 100.0)
  {
    StripLeadingSpace(d + ("." + c));
    ParseWholeCents(d, c);
  }

  /** A Dutch amount (for instance "€ 1.234,56") cleans to its value: the
      whole digits with the thousands dot removed, plus the cents. */
  lemma CleanDutchAmount(w: string, sep: string, t: string, c: string)
    requires AllDigits(w) && AllDigits(t) && AllDigits(c)
    requires sep == "" || sep == "."
    requires w != [] && |c| == 2
    ensures AllDigits(w + t)
    ensures CleanStatutoryCell(Some(DutchText(w, sep, t, c))) == Ok(Some(NatValue(w + t) as real + NatValue(c) as real / 100.0))
  {
    var wt := w + t;
    DigitsConcat(w, t);
    DutchAmountValue(wt, w, sep, t, c);
  }

  /** `CleanDutchAmount` with the digits `wt` named. */
  lemma DutchAmountValue(wt: string, w: string, sep: string, t: string, c: string)
    requires AllDigits(w) && AllDigits(t) && AllDigits(c)
    requires sep == "" || sep == "."
    requires w != [] && |c| == 2
    requires wt == w + t && AllDigits(wt)
    ensures CleanStatutoryCell(Some(DutchText(w, sep, t, c))) == Ok(Some(NatValue(wt) as real + NatValue(c) as real / 100.0))
  {
    DutchAmountText(w, sep, t, c);
    ParseDotted(wt, c);
  }

  /** "€ 1.234,56" cleans to 1234.56. */
  lemma CleanStatutoryExample()
    ensures CleanStatutoryCell(Some("€ 1.234,56")) == Ok(Some(1234.56))
  {
    assert "€ 1.234,56" == DutchText("1", ".", "234", "56");
    CleanDutchAmount("1", ".", "234", "56");
    ThousandsDigits();
    assert "1" + "234" == "1234";
  }

  /** A text without digits, such as "n.v.t.", makes the conversion fail. */
  lemma CleanStatutoryNoDigit(t: string)
    requires !HasDigit(t)
    ensures CleanStatutoryCell(Some(t)).Err?
  {
    var u := DropEuroAndDots(t);
    DropChars(t);
    var r := ReplaceAll(u, ",", ".");
    ReplaceCharPointwise(u, ',', '.');
    assert !HasDigit(r) by {
      forall i | 0 <= i < |r| ensures !IsDigit(r[i]) {
        assert u[i] in u;
      }
    }
  }
}
