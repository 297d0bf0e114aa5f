/** Records shared by the pipeline stages. A pandas null (NaN) in a numeric
    column is `None`; every table is a sequence of rows in frame order. */
module Records {
  import opened Wrappers
  import opened Text

  /** The `Period` column. `Unknown` is the scraper's fallback label when no
      month could be recognised. */
  datatype Period = January | July | Unknown

  /** A row of the wage archive (and of the merged wage table): the columns
      Year, Period, Age, IsAdult, Hourly_36h, Hourly_38h, Hourly_40h and
      Hourly_Statutory. */
  datatype WageRecord = WageRecord(
    year: int,
    period: Period,
    age: string,
    isAdult: bool,
    hourly36: Option<real>,
    hourly38: Option<real>,
    hourly40: Option<real>,
    statutory: Option<real>)

  /** A row of the index table: Year, Period, monthly_cao, monthly_cpi,
      yearly_cao, yearly_cpi (the column order of the saved file). */
  datatype IndexRow = IndexRow(
    year: int,
    period: Period,
    monthlyCao: Option<real>,
    monthlyCpi: Option<real>,
    yearlyCao: Option<real>,
    yearlyCpi: Option<real>)

  /** The workweek lengths of the pre-2024 hourly columns. */
  datatype Basis = Hours36 | Hours38 | Hours40

  function BasisHours(b: Basis): nat {
    match b
    case Hours36 => 36
    case Hours38 => 38
    case Hours40 => 40
  }

  /** The `Hourly_{h}h` column of a record. */
  function Hourly(w: WageRecord, b: Basis): Option<real> {
    match b
    case Hours36 => w.hourly36
    case Hours38 => w.hourly38
    case Hours40 => w.hourly40
  }

  /** The age-label rewrite shared by the scraper and the archive builder:
      " jaar en ouder" becomes "+", then " jaar" is deleted. */
  function AgeLabel(text: string): (r: string)
    ensures |r| <= |text|
    ensures ' ' !in text ==> r == text
  {
    var older := ReplaceAll(text, " jaar en ouder", "+");
    assert ' ' !in text ==> ReplaceAll(older, " jaar", "") == text by {
      if ' ' !in text {
        ReplaceAbsent(text, " jaar en ouder", "+");
        ReplaceAbsent(text, " jaar", "");
      }
    }
    ReplaceAll(older, " jaar", "")
  }

  /** For every age written in digits `d`, "d jaar en ouder" becomes "d+"
      and "d jaar" becomes "d": the labels the adult flag is matched on. */
  lemma AgeLabelAll(d: string)
    requires AllDigits(d)
    ensures AgeLabel(d + " jaar en ouder") == d + "+"
    ensures AgeLabel(d + " jaar") == d
  {
    var older := " jaar en ouder";
    var year := " jaar";
    assert d + older == d + (older + "");
    ReplaceOne(d, older, "+", "");
    assert d + ("+" + "") == d + "+";
    ReplaceAbsent(d + "+", year, "");
    assert d + year == d + (year + "");
    ReplaceAfter(d, older, "+", year);
    assert ReplaceAll(year, older, "+") == year by {
      assert |year| < |older|;
    }
    ReplaceOne(d, year, "", "");
    assert d + ("" + "") == d;
  }

  /** The last non-null value of a sequence (what `groupby().last()` keeps
      and what a forward fill carries), null when every value is null. */
  function LastNonNull(vs: seq<Option<real>>): (r: Option<real>)
    ensures r.Some? ==> r in vs
    ensures r.None? <==> forall v :: v in vs ==> v.None?
  {
    if vs == [] then None
    else if vs[|vs| - 1].Some? then vs[|vs| - 1]
    else
      var r := LastNonNull(vs[..|vs| - 1]);
      assert forall v :: v in vs ==> v in vs[..|vs| - 1] || v == vs[|vs| - 1];
      r
  }

  lemma LastNonNullAppend(vs: seq<Option<real>>, v: Option<real>)
    ensures LastNonNull(vs + [v]) == if v.Some? then v else LastNonNull(vs)
  {
    assert (vs + [v])[..|vs|] == vs;
  }
}
