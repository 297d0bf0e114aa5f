/** The processing block of the dashboard that runs after `load_data`: the
    nominal wage chosen by regime and workweek basis, the effective price
    index, the deflated display wage, the adult/youth selection with its
    Category label, the youth age options and the growth calculator. The
    widget choices (basis, deflator key, show-adult toggle, selected ages,
    language, calculator dates and group) are parameters. */
module Metrics {
  import opened Wrappers
  import opened Text
  import opened Records
  import opened Pipeline

  // ---------------------------------------------------------------------
  // Deflator keys

  /** The four deflators the advanced setting offers (`Y_CPI`, `M_CPI`,
      `Y_CAO`, `M_CAO`). */
  datatype Deflator = MCpi | MCao | YCpi | YCao

  /** The deflator key: `"None"` for nominal wages, or one deflator. */
  datatype DeflatorKey = NoDeflation | Deflate(deflator: Deflator)

  /** The key of the dashboard: nominal exactly when the first wage-type
      option is the choice, otherwise the deflator kept in the session. */
  function AppDeflatorKey(choice: string, options: seq<string>, session: Deflator): (r: DeflatorKey)
    requires |options| == 2
    ensures r == NoDeflation <==> choice == options[0]
    ensures r != NoDeflation ==> r == Deflate(session)
  {
    if choice == options[0] then NoDeflation else Deflate(session)
  }

  /** With two distinct labels, picking the second deflates by the session
      choice and picking the first shows nominal wages. */
  lemma AppKeyOptions(options: seq<string>, session: Deflator)
    requires |options| == 2 && options[0] != options[1]
    ensures AppDeflatorKey(options[0], options, session) == NoDeflation
    ensures AppDeflatorKey(options[1], options, session) == Deflate(session)
  {
  }

  // ---------------------------------------------------------------------
  // Nominal wage

  /** `NominalWage`: the `Hourly_{basis}h` column before 2024, the
      statutory hourly wage from 2024 on. */
  function NominalWage(w: WageRecord, basis: Basis): Option<real> {
    if w.year < 2024 then Hourly(w, basis) else w.statutory
  }

  /** From 2024 the workweek basis does not matter, and the three workweek
      columns are not read. */
  lemma NominalFrom2024(w: WageRecord, b1: Basis, b2: Basis, h36: Option<real>, h38: Option<real>, h40: Option<real>)
    requires w.year >= 2024
    ensures NominalWage(w, b1) == NominalWage(w, b2) == w.statutory
    ensures NominalWage(w.(hourly36 := h36, hourly38 := h38, hourly40 := h40), b1) == NominalWage(w, b1)
  {
  }

  /** Before 2024 the statutory column is not read, and each basis reads
      its own workweek column. */
  lemma NominalBefore2024(w: WageRecord, basis: Basis, s: Option<real>)
    requires w.year < 2024
    ensures NominalWage(w.(statutory := s), basis) == NominalWage(w, basis)
    ensures NominalWage(w, Hours36) == w.hourly36
    ensures NominalWage(w, Hours38) == w.hourly38
    ensures NominalWage(w, Hours40) == w.hourly40
  {
  }

  function NominalColumn(rows: seq<Row>, basis: Basis): (r: seq<Option<real>>)
    ensures |r| == |rows|
    ensures forall i :: 0 <= i < |rows| ==> r[i] == NominalWage(rows[i].wage, basis)
  {
    seq(|rows|, i requires 0 <= i < |rows| => NominalWage(rows[i].wage, basis))
  }

  // ---------------------------------------------------------------------
  // Effective index

  /** `col_map`: the primary and the fallback index column of a deflator. */
  function ColMap(d: Deflator): (IndexColumn, IndexColumn) {
    match d
    case MCpi => (MonthlyCpiColumn, YearlyCpiColumn)
    case MCao => (MonthlyCaoColumn, YearlyCaoColumn)
    case YCpi => (YearlyCpiColumn, YearlyCpiColumn)
    case YCao => (YearlyCaoColumn, YearlyCaoColumn)
  }

  /** `combine_first`: the primary column where it is not null, otherwise
      the fallback column. */
  function Effective(v: IndexValues, d: Deflator): (r: Option<real>)
    ensures r.Some? <==> Get(v, ColMap(d).0).Some? || Get(v, ColMap(d).1).Some?
    ensures Get(v, ColMap(d).0).Some? ==> r == Get(v, ColMap(d).0)
  {
    var (p, f) := ColMap(d);
    if Get(v, p).Some? then Get(v, p) else Get(v, f)
  }

  /** The effective index of each deflator: the yearly deflators are their
      yearly column; the monthly ones fall back on the yearly column of the
      same series. */
  lemma EffectiveByDeflator(v: IndexValues)
    ensures Effective(v, YCpi) == v.yearlyCpi && Effective(v, YCao) == v.yearlyCao
    ensures Effective(v, MCpi) == if v.monthlyCpi.Some? then v.monthlyCpi else v.yearlyCpi
    ensures Effective(v, MCao) == if v.monthlyCao.Some? then v.monthlyCao else v.yearlyCao
  {
  }

  function EffectiveColumn(rows: seq<Row>, d: Deflator): (r: seq<Option<real>>)
    ensures |r| == |rows|
    ensures forall i :: 0 <= i < |rows| ==> r[i] == Effective(rows[i].index, d)
  {
    seq(|rows|, i requires 0 <= i < |rows| => Effective(rows[i].index, d))
  }

  // ---------------------------------------------------------------------
  // Display wage

  /** Division of nullable values: null when either side is null or the
      divisor is zero (where floating point gives an infinity or NaN). */
  function Div(a: Option<real>, b: Option<real>): (r: Option<real>)
    ensures r.Some? <==> a.Some? && b.Some? && b.value != 0.0
  {
    if a.Some? && b.Some? && b.value != 0.0 then Some(a.value / b.value) else None
  }

  /** The ratio `Effective_Index / base` of one row. */
  function Ratio(e: Option<real>, base: real): (r: Option<real>)
    requires base != 0.0
    ensures r.Some? <==> e.Some?
  {
    if e.Some? then Some(e.value / base) else None
  }

  /** The base of the deflation: the last row's effective index when it is
      neither null nor zero, otherwise 100 (the index base year). */
  function DeflationBase(eff: seq<Option<real>>): (r: real)
    requires eff != []
    ensures r != 0.0
    ensures eff[|eff| - 1].Some? && eff[|eff| - 1].value != 0.0 ==> r == eff[|eff| - 1].value
    ensures !(eff[|eff| - 1].Some? && eff[|eff| - 1].value != 0.0) ==> r == 100.0
  {
    var current := eff[|eff| - 1];
    if current.Some? && current.value != 0.0 then current.value else 100.0
  }

  /** `DisplayWage = NominalWage / (Effective_Index / base)`; reading the
      last row (`iloc[-1]`) of an empty frame raises `IndexError`. */
  function DisplayColumn(nominal: seq<Option<real>>, eff: seq<Option<real>>): (r: Result<seq<Option<real>>, string>)
    requires |nominal| == |eff|
    ensures r.Err? <==> eff == []
    ensures r.Ok? ==> |r.value| == |eff| && forall i :: 0 <= i < |eff| ==>
      r.value[i] == Div(nominal[i], Ratio(eff[i], DeflationBase(eff)))
  {
    if eff == [] then Err("IndexError: single positional indexer is out-of-bounds")
    else
      var base := DeflationBase(eff);
      Ok(seq(|eff|, i requires 0 <= i < |eff| => Div(nominal[i], Ratio(eff[i], base))))
  }

  /** Deflating by a ratio is scaling by the base over the index. */
  lemma DivByRatio(n: real, e: real, base: real)
    requires e != 0.0 && base != 0.0
    ensures Div(Some(n), Ratio(Some(e), base)) == Some(n * base / e)
  {
    var q := e / base;
    assert q * base == e;
    assert q != 0.0;
    var x, y := n / q, n * base / e;
    assert x * q == n;
    assert y * e == n * base;
    assert x * e == n * base by {
      calc {
        x * e;
        == x * (q * base);
        == (x * q) * base;
        == n * base;
      }
    }
    assert (x - y) * e == 0.0;
    assert x - y == 0.0;
  }

  /** With a usable current index the last row is rebased to ratio 1: its
      display wage is its nominal wage, and every other row is expressed
      in the purchasing power of the last row. */
  lemma RebasedToLastRow(nominal: seq<Option<real>>, eff: seq<Option<real>>, c: real)
    requires |nominal| == |eff| && eff != []
    requires eff[|eff| - 1] == Some(c) && c != 0.0
    ensures DisplayColumn(nominal, eff).value[|eff| - 1] == nominal[|eff| - 1]
    ensures forall i :: 0 <= i < |eff| && nominal[i].Some? && eff[i].Some? && eff[i].value != 0.0 ==>
      DisplayColumn(nominal, eff).value[i] == Some(nominal[i].value * c / eff[i].value)
  {
    var r, last := DisplayColumn(nominal, eff).value, |eff| - 1;
    assert DeflationBase(eff) == c;
    assert r[last] == Div(nominal[last], Ratio(eff[last], c));
    if nominal[last].Some? {
      var n := nominal[last].value;
      assert r[last] == Div(Some(n), Ratio(Some(c), c));
      DivByRatio(n, c, c);
      assert n * c / c == n;
    }
    forall i | 0 <= i < |eff| && nominal[i].Some? && eff[i].Some? && eff[i].value != 0.0
      ensures r[i] == Some(nominal[i].value * c / eff[i].value)
    {
      var n, e := nominal[i].value, eff[i].value;
      assert r[i] == Div(Some(n), Ratio(Some(e), c));
      DivByRatio(n, e, c);
      assert r[i] == Some(n * c / e);
      assert nominal[i].value * c / eff[i].value == n * c / e;
    }
  }

  /** Without a usable current index every row is divided by its index
      over 100. */
  lemma FallbackToIndexBase(nominal: seq<Option<real>>, eff: seq<Option<real>>)
    requires |nominal| == |eff| && eff != []
    requires eff[|eff| - 1].None? || eff[|eff| - 1].value == 0.0
    ensures var r := DisplayColumn(nominal, eff).value;
      forall i :: 0 <= i < |eff| && nominal[i].Some? && eff[i].Some? && eff[i].value != 0.0 ==>
        r[i] == Some(nominal[i].value * 100.0 / eff[i].value)
  {
    var r := DisplayColumn(nominal, eff).value;
    forall i | 0 <= i < |eff| && nominal[i].Some? && eff[i].Some? && eff[i].value != 0.0
      ensures r[i] == Some(nominal[i].value * 100.0 / eff[i].value)
    {
      assert r[i] == Div(nominal[i], Ratio(eff[i], 100.0));
      assert nominal[i] == Some(nominal[i].value) && eff[i] == Some(eff[i].value);
      DivByRatio(nominal[i].value, eff[i].value, 100.0);
    }
  }

  /** A row of the frame after the wage columns were added. */
  datatype Priced = Priced(row: Row, nominal: Option<real>, effective: Option<real>, display: Option<real>)

  /** The wage columns of the processing block: `NominalWage`, then either
      `DisplayWage = NominalWage` or the effective index and the deflated
      wage. `Effective_Index` is absent (null here) without deflation. */
  function PricedRows(rows: seq<Row>, basis: Basis, key: DeflatorKey): (r: Result<seq<Priced>, string>)
    ensures key.NoDeflation? ==> r.Ok?
    ensures key.Deflate? ==> (r.Err? <==> rows == [])
    ensures r.Ok? ==> |r.value| == |rows| && forall i :: 0 <= i < |rows| ==>
      r.value[i].row == rows[i] && r.value[i].nominal == NominalWage(rows[i].wage, basis)
  {
    var nominal := NominalColumn(rows, basis);
    match key
    case NoDeflation =>
      Ok(seq(|rows|, i requires 0 <= i < |rows| => Priced(rows[i], nominal[i], None, nominal[i])))
    case Deflate(d) =>
      var eff := EffectiveColumn(rows, d);
      match DisplayColumn(nominal, eff)
      case Err(e) => Err(e)
      case Ok(display) =>
        Ok(seq(|rows|, i requires 0 <= i < |rows| => Priced(rows[i], nominal[i], eff[i], display[i])))
  }

  /** Without deflation the display wage is the nominal wage on every row. */
  lemma NominalDisplay(rows: seq<Row>, basis: Basis)
    ensures var r := PricedRows(rows, basis, NoDeflation).value;
      forall i :: 0 <= i < |r| ==> r[i].display == r[i].nominal == NominalWage(rows[i].wage, basis)
  {
  }

  /** With deflation every row carries the effective index of its deflator
      and the display wage of `DisplayColumn`. */
  lemma DeflatedDisplay(rows: seq<Row>, basis: Basis, d: Deflator)
    requires rows != []
    ensures var r, nominal, eff := PricedRows(rows, basis, Deflate(d)).value, NominalColumn(rows, basis), EffectiveColumn(rows, d);
      && DisplayColumn(nominal, eff).Ok?
      && forall i :: 0 <= i < |rows| ==>
           r[i].effective == Effective(rows[i].index, d) && r[i].display == DisplayColumn(nominal, eff).value[i]
  {
  }

  /** The last row of a deflated frame with a usable current index shows
      its nominal wage. */
  lemma LastRowShowsNominal(rows: seq<Row>, basis: Basis, d: Deflator)
    requires rows != []
    requires Effective(rows[|rows| - 1].index, d).Some? && Effective(rows[|rows| - 1].index, d).value != 0.0
    ensures var r := PricedRows(rows, basis, Deflate(d)).value;
      r[|r| - 1].display == r[|r| - 1].nominal
  {
    var nominal, eff := NominalColumn(rows, basis), EffectiveColumn(rows, d);
    DeflatedDisplay(rows, basis, d);
    RebasedToLastRow(nominal, eff, eff[|eff| - 1].value);
  }

  // ---------------------------------------------------------------------
  // Selection and Category

  datatype Language = English | Dutch

  /** `cat_adult` and `cat_age` of each language. */
  function AdultLabel(lang: Language): string {
    match lang
    case English => "Adult"
    case Dutch => "Volwassen"
  }

  function AgePrefix(lang: Language): string {
    match lang
    case English => "Age: "
    case Dutch => "Leeftijd: "
  }

  /** The Category of a kept row. */
  function Category(w: WageRecord, lang: Language): string {
    if w.isAdult then AdultLabel(lang) else AgePrefix(lang) + w.age
  }

  /** Different groups get different categories: the adult label is no
      youth category, and youth categories differ when their ages do. */
  lemma CategoryDistinct(v: WageRecord, w: WageRecord, lang: Language)
    ensures v.isAdult && !w.isAdult ==> Category(v, lang) != Category(w, lang)
    ensures !v.isAdult && !w.isAdult ==> (Category(v, lang) == Category(w, lang) <==> v.age == w.age)
  {
    if v.isAdult && !w.isAdult {
      AdultNotYouth(lang, w.age);
    }
    if !v.isAdult && !w.isAdult && Category(v, lang) == Category(w, lang) {
      var p := AgePrefix(lang);
      assert v.age == (p + v.age)[|p|..];
    }
  }

  lemma AdultNotYouth(lang: Language, age: string)
    ensures AdultLabel(lang) != AgePrefix(lang) + age
  {
    var a, y := AdultLabel(lang), AgePrefix(lang) + age;
    match lang
    case English =>
      assert a[1] == 'd' && y[1] == 'g';
    case Dutch =>
      assert a[0] == 'V' && y[0] == 'L';
  }

  /** `mask_adult | mask_youth`. */
  predicate Kept(w: WageRecord, showAdult: bool, selected: seq<string>) {
    (w.isAdult && showAdult) || (w.age in selected && !w.isAdult)
  }

  /** A row of `final_df`. */
  datatype Shown = Shown(priced: Priced, category: string)

  /** `df[mask_adult | mask_youth]` with its Category column, in frame
      order. */
  function Select(ps: seq<Priced>, showAdult: bool, selected: seq<string>, lang: Language): (r: seq<Shown>)
    ensures |r| <= |ps|
    ensures forall s :: s in r ==>
      (s.priced in ps && Kept(s.priced.row.wage, showAdult, selected) && s.category == Category(s.priced.row.wage, lang))
  {
    if ps == [] then []
    else
      var w := ps[0].row.wage;
      var rest := Select(ps[1..], showAdult, selected, lang);
      if Kept(w, showAdult, selected) then [Shown(ps[0], Category(w, lang))] + rest else rest
  }

  /** Every kept row is selected. */
  lemma {:induction false} SelectComplete(ps: seq<Priced>, showAdult: bool, selected: seq<string>, lang: Language, p: Priced)
    requires p in ps && Kept(p.row.wage, showAdult, selected)
    ensures Shown(p, Category(p.row.wage, lang)) in Select(ps, showAdult, selected, lang)
  {
    if ps[0] != p {
      SelectComplete(ps[1..], showAdult, selected, lang, p);
    }
  }

  /** The selection is empty exactly when no row passes the mask. */
  lemma SelectEmpty(ps: seq<Priced>, showAdult: bool, selected: seq<string>, lang: Language)
    ensures Select(ps, showAdult, selected, lang) == [] <==> forall p :: p in ps ==> !Kept(p.row.wage, showAdult, selected)
  {
    if exists p :: p in ps && Kept(p.row.wage, showAdult, selected) {
      var p :| p in ps && Kept(p.row.wage, showAdult, selected);
      SelectComplete(ps, showAdult, selected, lang, p);
    }
  }

  /** Hiding the adult wage with no youth age selected leaves nothing to
      show, which is when the warning appears. */
  lemma NothingSelected(ps: seq<Priced>, lang: Language)
    ensures Select(ps, false, [], lang) == []
  {
    SelectEmpty(ps, false, [], lang);
  }

  /** The view the chart, the calculator and the data table read. */
  function View(rows: seq<Row>, basis: Basis, key: DeflatorKey, showAdult: bool, selected: seq<string>, lang: Language)
    : (r: Result<seq<Shown>, string>)
    ensures r.Err? <==> PricedRows(rows, basis, key).Err?
  {
    match PricedRows(rows, basis, key)
    case Err(e) => Err(e)
    case Ok(ps) => Ok(Select(ps, showAdult, selected, lang))
  }

  /** The wage columns, one column assignment at a time. */
  method AddWageColumns(rows: seq<Row>, basis: Basis, key: DeflatorKey) returns (r: Result<seq<Priced>, string>)
    ensures r == PricedRows(rows, basis, key)
  {
    var nominal := NominalColumn(rows, basis);
    if key.NoDeflation? {
      // DisplayWage = NominalWage
      return Ok(seq(|rows|, i requires 0 <= i < |rows| => Priced(rows[i], nominal[i], None, nominal[i])));
    }
    var effective := EffectiveColumn(rows, key.deflator);
    if |effective| == 0 {
      return Err("IndexError: single positional indexer is out-of-bounds");
    }
    var current := effective[|effective| - 1];
    var base := if current.Some? && current.value != 0.0 then current.value else 100.0;
    var display := seq(|rows|, i requires 0 <= i < |rows| => Div(nominal[i], Ratio(effective[i], base)));
    assert DisplayColumn(nominal, effective) == Ok(display) by {
      var d := DisplayColumn(nominal, effective).value;
      assert forall i :: 0 <= i < |rows| ==> d[i] == display[i];
    }
    r := Ok(seq(|rows|, i requires 0 <= i < |rows| => Priced(rows[i], nominal[i], effective[i], display[i])));
  }

  /** The processing block: the wage columns, then the selection with its
      Category. */
  method Process(rows: seq<Row>, basis: Basis, key: DeflatorKey, showAdult: bool, selected: seq<string>, lang: Language)
    returns (r: Result<seq<Shown>, string>)
    ensures r == View(rows, basis, key, showAdult, selected, lang)
  {
    var priced := AddWageColumns(rows, basis, key);
    if priced.Err? {
      return Err(priced.error);
    }
    r := Ok(Select(priced.value, showAdult, selected, lang));
  }

  // ---------------------------------------------------------------------
  // Youth age options

  /** The age labels of the adult rows, never offered as youth ages. */
  predicate AdultAgeLabel(a: string) {
    a == "23+" || a == "22+" || a == "21+" || a == "Adult"
  }

  /** No label occurs twice. */
  predicate Distinct(xs: seq<string>) {
    forall i, j :: 0 <= i < j < |xs| ==> xs[i] != xs[j]
  }

  /** `df['Age'].unique()`: each label once, in order of first appearance. */
  function Unique(xs: seq<string>): (r: seq<string>)
    ensures forall x :: x in r <==> x in xs
    ensures Distinct(r)
  {
    if xs == [] then []
    else
      var u := Unique(xs[..|xs| - 1]);
      var x := xs[|xs| - 1];
      assert forall y :: y in xs <==> y in xs[..|xs| - 1] || y == x;
      if x in u then u else u + [x]
  }

  /** The sort key `int(x) if x.isdigit() else 0`. */
  function AgeKey(a: string): nat {
    if a != [] && AllDigits(a) then NatValue(a) else 0
  }

  predicate SortedByAge(xs: seq<string>) {
    forall i, j :: 0 <= i < j < |xs| ==> AgeKey(xs[i]) <= AgeKey(xs[j])
  }

  /** Insert before the first label with a larger key. */
  function InsertAge(x: string, s: seq<string>): (r: seq<string>)
    ensures multiset(r) == multiset(s) + multiset{x}
    ensures forall y :: y in r <==> y == x || y in s
  {
    if s == [] || AgeKey(x) < AgeKey(s[0]) then [x] + s
    else
      assert s == [s[0]] + s[1..];
      [s[0]] + InsertAge(x, s[1..])
  }

  lemma {:induction false} InsertAgeSorted(x: string, s: seq<string>)
    requires SortedByAge(s)
    ensures SortedByAge(InsertAge(x, s))
  {
    if s != [] && AgeKey(x) >= AgeKey(s[0]) {
      var t := s[1..];
      assert SortedByAge(t) by {
        forall i, j | 0 <= i < j < |t| ensures AgeKey(t[i]) <= AgeKey(t[j]) {
          assert t[i] == s[i + 1] && t[j] == s[j + 1];
        }
      }
      InsertAgeSorted(x, t);
      var r := InsertAge(x, t);
      forall k | 0 <= k < |r| ensures AgeKey(s[0]) <= AgeKey(r[k]) {
        assert r[k] in r;
        if r[k] != x {
          var m :| 0 <= m < |t| && t[m] == r[k];
          assert t[m] == s[m + 1];
        }
      }
    }
  }

  /** `sorted(..., key=...)` by insertion. */
  function SortAges(xs: seq<string>): (r: seq<string>)
    ensures multiset(r) == multiset(xs)
  {
    if xs == [] then []
    else
      assert xs == xs[..|xs| - 1] + [xs[|xs| - 1]];
      InsertAge(xs[|xs| - 1], SortAges(xs[..|xs| - 1]))
  }

  lemma {:induction false} SortAgesSorted(xs: seq<string>)
    ensures SortedByAge(SortAges(xs))
  {
    if xs != [] {
      SortAgesSorted(xs[..|xs| - 1]);
      InsertAgeSorted(xs[|xs| - 1], SortAges(xs[..|xs| - 1]));
    }
  }

  function WithoutAdultLabels(xs: seq<string>): (r: seq<string>)
    ensures forall x :: x in r <==> x in xs && !AdultAgeLabel(x)
  {
    if xs == [] then []
    else
      var rest := WithoutAdultLabels(xs[1..]);
      assert forall y :: y in xs <==> y == xs[0] || y in xs[1..];
      if AdultAgeLabel(xs[0]) then rest else [xs[0]] + rest
  }

  /** The ages column of the frame. */
  function Ages(rows: seq<Row>): (r: seq<string>)
    ensures |r| == |rows| && forall i :: 0 <= i < |rows| ==> r[i] == rows[i].wage.age
  {
    seq(|rows|, i requires 0 <= i < |rows| => rows[i].wage.age)
  }

  /** `sorted_ages`: the youth age options. */
  function AgeOptions(rows: seq<Row>): seq<string> {
    SortAges(WithoutAdultLabels(Unique(Ages(rows))))
  }

  /** The options are every age label of the frame except the adult ones,
      each once, ordered by their integer value (non-numeric labels as 0). */
  lemma AgeOptionsSpec(rows: seq<Row>)
    ensures var r := AgeOptions(rows);
      && (forall a :: a in r <==> (exists i :: 0 <= i < |rows| && rows[i].wage.age == a) && !AdultAgeLabel(a))
      && SortedByAge(r)
      && forall a :: a in r ==> multiset(r)[a] == 1
  {
    var f := WithoutAdultLabels(Unique(Ages(rows)));
    SortAgesSorted(f);
    AgeOptionsMembers(rows);
    UniqueFilter(Unique(Ages(rows)));
    SortedOnce(f);
  }

  /** The options hold the non-adult labels of the frame. */
  lemma AgeOptionsMembers(rows: seq<Row>)
    ensures forall a :: a in AgeOptions(rows) <==> (exists i :: 0 <= i < |rows| && rows[i].wage.age == a) && !AdultAgeLabel(a)
  {
    var ages := Ages(rows);
    var f := WithoutAdultLabels(Unique(ages));
    var r := AgeOptions(rows);
    forall a ensures a in r <==> a in f {
      assert a in r <==> a in multiset(r);
      assert a in f <==> a in multiset(f);
    }
    forall a ensures a in ages <==> exists i :: 0 <= i < |rows| && rows[i].wage.age == a {
      if a in ages {
        var i :| 0 <= i < |ages| && ages[i] == a;
      }
      if exists i :: 0 <= i < |rows| && rows[i].wage.age == a {
        var i :| 0 <= i < |rows| && rows[i].wage.age == a;
        assert ages[i] == a;
      }
    }
  }

  /** Sorting distinct labels keeps each once. */
  lemma SortedOnce(f: seq<string>)
    requires Distinct(f)
    ensures forall a :: a in SortAges(f) ==> multiset(SortAges(f))[a] == 1
  {
    forall a | a in SortAges(f) ensures multiset(SortAges(f))[a] == 1 {
      assert a in multiset(SortAges(f));
      DistinctCount(f, a);
    }
  }

  /** Dropping labels keeps the remaining ones distinct. */
  lemma {:induction false} UniqueFilter(xs: seq<string>)
    requires Distinct(xs)
    ensures Distinct(WithoutAdultLabels(xs))
  {
    if xs != [] {
      var t := xs[1..];
      DistinctTail(xs);
      UniqueFilter(t);
      var rest := WithoutAdultLabels(t);
      if !AdultAgeLabel(xs[0]) {
        assert xs[0] !in t by {
          forall k | 0 <= k < |t| ensures t[k] != xs[0] { assert t[k] == xs[k + 1]; }
        }
        var r := [xs[0]] + rest;
        assert WithoutAdultLabels(xs) == r;
        forall i, j | 0 <= i < j < |r| ensures r[i] != r[j] {
          if i == 0 {
            assert r[0] == xs[0];
            assert r[j] == rest[j - 1] && rest[j - 1] in rest;
            assert r[j] in t;
          } else {
            assert r[i] == rest[i - 1] && r[j] == rest[j - 1];
          }
        }
      }
    }
  }

  lemma DistinctTail(xs: seq<string>)
    requires Distinct(xs) && xs != []
    ensures Distinct(xs[1..])
  {
    var t := xs[1..];
    forall i, j | 0 <= i < j < |t| ensures t[i] != t[j] {
      assert t[i] == xs[i + 1] && t[j] == xs[j + 1];
    }
  }

  /** A label occurs once in a sequence of distinct labels. */
  lemma {:induction false} DistinctCount(xs: seq<string>, a: string)
    requires Distinct(xs)
    requires a in xs
    ensures multiset(xs)[a] == 1
  {
    var t := xs[1..];
    assert xs == [xs[0]] + t;
    DistinctTail(xs);
    if xs[0] == a {
      assert a !in t by {
        forall k | 0 <= k < |t| ensures t[k] != a { assert t[k] == xs[k + 1]; }
      }
    } else {
      DistinctCount(t, a);
    }
  }

  // ---------------------------------------------------------------------
  // Growth calculator

  /** `pct = (diff / val1) * 100 if val1 != 0 else 0`; a null operand
      other than a zero start gives null (NaN). */
  function GrowthPct(start: Option<real>, end: Option<real>): (r: Option<real>)
    ensures start == Some(0.0) ==> r == Some(0.0)
    ensures r.Some? && start.Some? && start.value != 0.0 && end.Some? ==> start.value * (1.0 + r.value / 100.0) == end.value
    ensures r.None? <==> start.None? || (start != Some(0.0) && end.None?)
  {
    if start.Some? && start.value == 0.0 then Some(0.0)
    else if start.Some? && end.Some? then
      var pct := (end.value - start.value) / start.value * 100.0;
      assert start.value * (pct / 100.0) == end.value - start.value;
      Some(pct)
    else None
  }

  /** The growth from a value to itself is zero, and any growth
      percentage applied to a nonzero start is recovered. */
  lemma GrowthRoundTrip(start: real, pct: real)
    requires start != 0.0
    ensures GrowthPct(Some(start), Some(start)) == Some(0.0)
    ensures GrowthPct(Some(start), Some(start * (1.0 + pct / 100.0))) == Some(pct)
  {
    var end := start * (1.0 + pct / 100.0);
    assert end - start == start * (pct / 100.0);
    assert (end - start) / start == pct / 100.0;
  }

  /** The first row of a Category at a date. */
  function FirstAt(view: seq<Shown>, category: string, date: Date): (r: Option<Shown>)
    ensures r.Some? ==> r.value in view && r.value.category == category && r.value.priced.row.date == Some(date)
    ensures r.None? <==> forall s :: s in view ==> !(s.category == category && s.priced.row.date == Some(date))
  {
    if view == [] then None
    else if view[0].category == category && view[0].priced.row.date == Some(date) then Some(view[0])
    else
      var r := FirstAt(view[1..], category, date);
      assert forall s :: s in view <==> s == view[0] || s in view[1..];
      r
  }

  /** The calculator: the growth between the first rows of the chosen group
      at the start and end dates, or nothing when either row is missing. */
  function Calculator(view: seq<Shown>, category: string, start: Date, end: Date): (r: Option<Option<real>>)
    ensures r.Some? <==> FirstAt(view, category, start).Some? && FirstAt(view, category, end).Some?
    ensures r.Some? ==> r.value == GrowthPct(FirstAt(view, category, start).value.priced.display,
                                             FirstAt(view, category, end).value.priced.display)
  {
    match (FirstAt(view, category, start), FirstAt(view, category, end))
    case (Some(s), Some(e)) => Some(GrowthPct(s.priced.display, e.priced.display))
    case _ => None
  }
}
