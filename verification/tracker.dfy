/** The second dashboard: the same loading and processing as the first,
    except that its only deflator is the yearly CPI, chosen by the second
    wage-type option. */
module Tracker {
  import opened Wrappers
  import opened Records
  import opened Pipeline
  import opened Metrics

  /** `wage_type_opts` of each language. */
  function WageTypeOptions(lang: Language): (r: seq<string>)
    ensures |r| == 2 && r[0] != r[1]
  {
    match lang
    case English =>
      assert "Nominal"[0] != "Real (CPI)"[0];
      ["Nominal", "Real (CPI)"]
    case Dutch =>
      assert "Nominaal"[0] != "Reëel (CPI)"[0];
      ["Nominaal", "Reëel (CPI)"]
  }

  /** The deflator key: `Y_CPI` exactly when the second option is the
      choice, `"None"` for any other choice. */
  function TrackerDeflatorKey(choice: string, lang: Language): (r: DeflatorKey)
    ensures r == Deflate(YCpi) <==> choice == WageTypeOptions(lang)[1]
    ensures r != Deflate(YCpi) ==> r == NoDeflation
  {
    if choice == WageTypeOptions(lang)[1] then Deflate(YCpi) else NoDeflation
  }

  /** The two options of the radio give the two keys. */
  lemma TrackerKeyOptions(lang: Language)
    ensures TrackerDeflatorKey(WageTypeOptions(lang)[0], lang) == NoDeflation
    ensures TrackerDeflatorKey(WageTypeOptions(lang)[1], lang) == Deflate(YCpi)
  {
  }

  /** The view of this dashboard: it fails only when real wages are asked
      of an empty frame (the last row's index does not exist). */
  function TrackerView(rows: seq<Row>, basis: Basis, choice: string, showAdult: bool, selected: seq<string>, lang: Language)
    : (r: Result<seq<Shown>, string>)
    ensures r.Err? <==> choice == WageTypeOptions(lang)[1] && rows == []
  {
    View(rows, basis, TrackerDeflatorKey(choice, lang), showAdult, selected, lang)
  }

  /** Real wages here are deflated by the yearly CPI: every row's
      effective index is its `yearly_cpi`, and when the last row's
      `yearly_cpi` is neither null nor zero, the last row shows its
      nominal wage. */
  lemma RealWagesByYearlyCpi(rows: seq<Row>, basis: Basis, lang: Language)
    requires rows != []
    ensures var r := PricedRows(rows, basis, TrackerDeflatorKey(WageTypeOptions(lang)[1], lang));
      && r.Ok?
      && (forall i :: 0 <= i < |rows| ==> r.value[i].effective == rows[i].index.yearlyCpi)
      && (rows[|rows| - 1].index.yearlyCpi.Some? && rows[|rows| - 1].index.yearlyCpi.value != 0.0 ==>
            r.value[|rows| - 1].display == r.value[|rows| - 1].nominal)
  {
    TrackerKeyOptions(lang);
    DeflatedDisplay(rows, basis, YCpi);
    forall i | 0 <= i < |rows| ensures Effective(rows[i].index, YCpi) == rows[i].index.yearlyCpi {
      EffectiveByDeflator(rows[i].index);
    }
    if rows[|rows| - 1].index.yearlyCpi.Some? && rows[|rows| - 1].index.yearlyCpi.value != 0.0 {
      EffectiveByDeflator(rows[|rows| - 1].index);
      LastRowShowsNominal(rows, basis, YCpi);
    }
  }

  /** Nominal wages here are shown as they are. */
  lemma NominalWagesShown(rows: seq<Row>, basis: Basis, lang: Language)
    ensures var r := PricedRows(rows, basis, TrackerDeflatorKey(WageTypeOptions(lang)[0], lang));
      r.Ok? && forall i :: 0 <= i < |rows| ==> r.value[i].display == NominalWage(rows[i].wage, basis)
  {
    TrackerKeyOptions(lang);
    NominalDisplay(rows, basis);
  }
}
