/** The text rules of the current-year scraper: money and period parsing and
    the per-row rules applied to an extracted wage table. Page retrieval is
    not part of this model: the texts of links, titles, headers and table
    cells are the inputs. */
module Scraper {
  import opened Wrappers
  import opened Text
  import opened Records

  /** The regular-expression deletion `[^\d,]`: keeps digits and commas. */
  function KeepDigitsAndCommas(s: string): string {
    if s == [] then []
    else (if IsDigit(s[0]) || s[0] == ',' then [s[0]] else []) + KeepDigitsAndCommas(s[1..])
  }

  lemma {:induction false} KeepOnlyDigitsAndCommas(s: string)
    ensures DigitsAnd(KeepDigitsAndCommas(s), ',')
  {
    if s != [] {
      KeepOnlyDigitsAndCommas(s[1..]);
    }
  }

  lemma {:induction false} KeepCountsCommas(s: string)
    ensures multiset(KeepDigitsAndCommas(s))[','] == multiset(s)[',']
  {
    if s != [] {
      KeepCountsCommas(s[1..]);
      assert s == [s[0]] + s[1..];
    }
  }

  lemma {:induction false} KeepHasDigit(s: string)
    ensures HasDigit(KeepDigitsAndCommas(s)) <==> HasDigit(s)
  {
    if s != [] {
      KeepHasDigit(s[1..]);
      var rest := KeepDigitsAndCommas(s[1..]);
      if IsDigit(s[0]) {
        assert KeepDigitsAndCommas(s)[0] == s[0];
      } else {
        assert HasDigit(s) <==> HasDigit(s[1..]) by {
          if HasDigit(s) {
            var i :| 0 <= i < |s| && IsDigit(s[i]);
            assert s[1..][i - 1] == s[i];
          }
          if HasDigit(s[1..]) {
            var i :| 0 <= i < |s[1..]| && IsDigit(s[1..][i]);
            assert s[i + 1] == s[1..][i];
          }
        }
        var head := if s[0] == ',' then [s[0]] else [];
        assert KeepDigitsAndCommas(s) == head + rest;
        assert HasDigit(head + rest) <==> HasDigit(rest) by {
          if HasDigit(head + rest) {
            var i :| 0 <= i < |head + rest| && IsDigit((head + rest)[i]);
            assert rest[i - |head|] == (head + rest)[i];
          }
          if HasDigit(rest) {
            var i :| 0 <= i < |rest| && IsDigit(rest[i]);
            assert (head + rest)[i + |head|] == rest[i];
          }
        }
      }
    }
  }

  lemma {:induction false} ReplaceCharCounts(s: string, a: char, b: char)
    requires b !in s
    ensures multiset(ReplaceAll(s, [a], [b]))[b] == multiset(s)[a]
  {
    if s != [] {
      ReplaceCharCounts(s[1..], a, b);
      assert s[..1] == [s[0]];
      assert s == [s[0]] + s[1..];
    }
  }

  /** Turning the commas of a digits-and-commas string into dots. */
  lemma ReplaceCommaFacts(s: string)
    requires DigitsAnd(s, ',')
    ensures DigitsAnd(ReplaceAll(s, ",", "."), '.')
    ensures multiset(ReplaceAll(s, ",", "."))['.'] == multiset(s)[',']
    ensures HasDigit(ReplaceAll(s, ",", ".")) <==> HasDigit(s)
  {
    ReplaceCharPointwise(s, ',', '.');
    assert '.' !in s;
    ReplaceCharCounts(s, ',', '.');
    var r := ReplaceAll(s, ",", ".");
    if HasDigit(r) {
      var i :| 0 <= i < |r| && IsDigit(r[i]);
      assert IsDigit(s[i]);
    }
    if HasDigit(s) {
      var i :| 0 <= i < |s| && IsDigit(s[i]);
      assert IsDigit(r[i]);
    }
  }

  /** On a string of digits and dots, `float()` succeeds exactly when there
      is at least one digit and at most one dot, and the value is not
      negative. */
  lemma ParseDigitsAndDots(u: string)
    requires DigitsAnd(u, '.')
    ensures PyFloat(u).Some? <==> HasDigit(u) && multiset(u)['.'] <= 1
    ensures PyFloat(u).Some? ==> PyFloat(u).value >= 0.0
  {
    StripUnchanged(u);
    assert u != [] ==> u[0] != '+' && u[0] != '-';
    match IndexOf(u, '.')
    case None =>
      assert AllDigits(u);
      assert multiset(u)['.'] == 0;
      assert u != [] ==> IsDigit(u[0]);
    case Some(k) =>
      IndexOfEarliest(u, '.');
      ParseWithDot(u, k);
  }

  lemma ParseWithDot(u: string, k: nat)
    requires DigitsAnd(u, '.')
    requires k < |u| && u[k] == '.' && '.' !in u[..k]
    ensures var whole, frac := u[..k], u[k + 1..];
      AllDigits(whole)
      && (AllDigits(frac) <==> multiset(u)['.'] <= 1)
      && (AllDigits(frac) ==> (|whole| + |frac| > 0 <==> HasDigit(u)))
  {
    var whole, frac := u[..k], u[k + 1..];
    assert u == whole + ['.'] + frac;
    assert multiset(u)['.'] == multiset(whole)['.'] + 1 + multiset(frac)['.'];
    assert AllDigits(whole) by {
      forall i | 0 <= i < |whole| ensures IsDigit(whole[i]) {
        assert whole[i] in u[..k];
      }
    }
    assert multiset(whole)['.'] == 0;
    assert AllDigits(frac) <==> multiset(frac)['.'] == 0 by {
      if multiset(frac)['.'] == 0 {
        forall i | 0 <= i < |frac| ensures IsDigit(frac[i]) {
          assert frac[i] in multiset(frac);
          assert u[k + 1 + i] == frac[i];
        }
      }
    }
    if AllDigits(frac) {
      if |whole| > 0 {
        assert IsDigit(u[0]);
      } else if |frac| > 0 {
        assert IsDigit(u[k + 1]);
      } else {
        assert |u| == 1;
      }
    }
  }

  /** `clean_money`: `None` for a missing or empty text; otherwise every
      character that is neither a digit nor a comma is deleted, commas become
      dots and the result is parsed, giving `None` when it does not parse. */
  function CleanMoney(val: Option<string>): (r: Option<real>)
    ensures val.None? || val == Some("") ==> r.None?
    ensures r.Some? ==> r.value >= 0.0
  {
    if val.None? || val.value == "" then None
    else
      var kept := KeepDigitsAndCommas(val.value);
      KeepOnlyDigitsAndCommas(val.value);
      ReplaceCommaFacts(kept);
      ParseDigitsAndDots(ReplaceAll(kept, ",", "."));
      PyFloat(ReplaceAll(kept, ",", "."))
  }

  /** A non-empty text yields a value exactly when it holds a digit and at
      most one comma. */
  lemma CleanMoneyDefined(s: string)
    requires s != ""
    ensures CleanMoney(Some(s)).Some? <==> HasDigit(s) && multiset(s)[','] <= 1
  {
    var kept := KeepDigitsAndCommas(s);
    KeepOnlyDigitsAndCommas(s);
    KeepCountsCommas(s);
    KeepHasDigit(s);
    ReplaceCommaFacts(kept);
    ParseDigitsAndDots(ReplaceAll(kept, ",", "."));
  }

  /** A digits-and-commas prefix is kept whole. */
  lemma {:induction false} KeepPrefix(a: string, b: string)
    requires DigitsAnd(a, ',')
    ensures KeepDigitsAndCommas(a + b) == a + KeepDigitsAndCommas(b)
    decreases |a|
  {
    if a == [] {
      assert a + b == b;
    } else {
      var x, rest := a[0], a[1..];
      assert a == [x] + rest;
      assert a + b == [x] + (rest + b);
      assert IsDigit(x) || x == ',' by { assert a[0] == x; }
      assert DigitsAnd(rest, ',') by {
        forall i | 0 <= i < |rest| ensures IsDigit(rest[i]) || rest[i] == ',' {
          assert rest[i] == a[i + 1];
        }
      }
      KeepPrefix(rest, b);
      KeepCons(x, rest + b);
    }
  }

  lemma KeepCons(x: char, s: string)
    requires IsDigit(x) || x == ','
    ensures KeepDigitsAndCommas([x] + s) == [x] + KeepDigitsAndCommas(s)
  {
    assert ([x] + s)[1..] == s;
  }

  lemma DropCons(x: char, s: string)
    requires !IsDigit(x) && x != ','
    ensures KeepDigitsAndCommas([x] + s) == KeepDigitsAndCommas(s)
  {
    assert ([x] + s)[1..] == s;
  }

  /** A prefix without digits and commas is deleted whole. */
  lemma {:induction false} DropPrefix(a: string, b: string)
    requires forall i :: 0 <= i < |a| ==> !IsDigit(a[i]) && a[i] != ','
    ensures KeepDigitsAndCommas(a + b) == KeepDigitsAndCommas(b)
    decreases |a|
  {
    if a == [] {
      assert a + b == b;
    } else {
      var x, rest := a[0], a[1..];
      assert a + b == [x] + (rest + b);
      assert !IsDigit(x) && x != ',' by { assert a[0] == x; }
      forall i | 0 <= i < |rest| ensures !IsDigit(rest[i]) && rest[i] != ',' {
        assert rest[i] == a[i + 1];
      }
      DropPrefix(rest, b);
      DropCons(x, rest + b);
    }
  }

  /** A digits-and-commas text is kept whole. */
  lemma KeepAll(s: string)
    requires DigitsAnd(s, ',')
    ensures KeepDigitsAndCommas(s) == s
  {
    KeepPrefix(s, []);
    assert s + [] == s;
  }

  /** A text whose kept characters are digits, one comma and two digits
      yields their decimal value. */
  lemma CleanMoneyCents(s: string, w: string, c: string)
    requires s != "" && KeepDigitsAndCommas(s) == w + ("," + c)
    requires AllDigits(w) && w != [] && AllDigits(c) && |c| == 2
    ensures CleanMoney(Some(s)) == Some(NatValue(w) as real + NatValue(c) as real / 100.0)
  {
    DigitsLack(w, ',');
    DigitsLack(c, ',');
    ReplaceOne(w, ",", ".", c);
    ParseWholeCents(w, c);
  }

  /** The euro sign and the space before an amount are deleted. */
  lemma DropEuroSpace(b: string)
    ensures KeepDigitsAndCommas("€ " + b) == KeepDigitsAndCommas(b)
  {
    assert "€ " + b == ['€'] + ([' '] + b);
    DropCons(' ', b);
    DropCons('€', [' '] + b);
  }

  /** The kept characters of a euro sign, a space, the digits `w`, a
      separator `sep` without digits or commas, the digits `t`, a comma and
      the digits `c`. */
  lemma KeepAmount(sep: string, w: string, t: string, c: string)
    requires forall i :: 0 <= i < |sep| ==> !IsDigit(sep[i]) && sep[i] != ','
    requires AllDigits(w) && AllDigits(t) && AllDigits(c)
    ensures KeepDigitsAndCommas(DutchText(w, sep, t, c)) == w + (t + ("," + c))
  {
    var tail := "," + c;
    var rest := t + tail;
    assert KeepDigitsAndCommas(tail) == tail by {
      assert tail == [','] + c;
      KeepAll(c);
      KeepCons(',', c);
    }
    assert KeepDigitsAndCommas(rest) == rest by { KeepPrefix(t, tail); }
    assert KeepDigitsAndCommas(sep + rest) == rest by { DropPrefix(sep, rest); }
    assert KeepDigitsAndCommas(w + (sep + rest)) == w + rest by { KeepPrefix(w, sep + rest); }
    DropEuroSpace(w + (sep + rest));
  }

  lemma AppendAssoc<T>(a: seq<T>, b: seq<T>, c: seq<T>)
    ensures a + (b + c) == (a + b) + c
  {
  }

  /** A Dutch amount (for instance "€ 1.234,56") cleans to its value: the
      whole digits without the separator, plus the cents. */
  lemma CleanMoneyDutch(w: string, sep: string, t: string, c: string)
    requires forall i :: 0 <= i < |sep| ==> !IsDigit(sep[i]) && sep[i] != ','
    requires AllDigits(w) && AllDigits(t) && AllDigits(c) && w != [] && |c| == 2
    ensures AllDigits(w + t)
    ensures CleanMoney(Some(DutchText(w, sep, t, c))) == Some(NatValue(w + t) as real + NatValue(c) as real / 100.0)
  {
    KeepAmount(sep, w, t, c);
    AppendAssoc(w, t, "," + c);
    DigitsConcat(w, t);
    CleanMoneyCents(DutchText(w, sep, t, c), w + t, c);
  }

  lemma SimpleDigits()
    ensures NatValue("13" + "") == 13 && NatValue("27") == 27
  {
    assert "13" + "" == "13";
    assert "13"[..1] == "1" && "1"[..0] == "";
    assert "27"[..1] == "2" && "2"[..0] == "";
  }

  /** "€ 13,27" cleans to 13.27. */
  lemma CleanMoneyExample()
    ensures CleanMoney(Some(DutchText("13", "", "", "27"))) == Some(13.27)
  {
    CleanMoneyDutch("13", "", "", "27");
    SimpleDigits();
  }

  lemma ThousandsWhole()
    ensures NatValue("1" + "234") == 1234 && NatValue("56") == 56
  {
    assert "1" + "234" == "1234";
    ThousandsDigits();
  }

  /** "€ 1.234,56" cleans to 1234.56. */
  lemma CleanMoneyThousandsExample()
    ensures CleanMoney(Some(DutchText("1", ".", "234", "56"))) == Some(1234.56)
  {
    CleanMoneyDutch("1", ".", "234", "56");
    ThousandsWhole();
  }

  lemma CleanMoneyNoDigitExample()
    ensures CleanMoney(Some("€ -")) == None
  {
    assert "€ -" == "€ " + ['-'];
    DropEuroSpace(['-']);
    assert ['-'] == ['-'] + [];
    DropCons('-', []);
    assert ReplaceAll([], ",", ".") == [];
    assert PyFloat([]) == None;
  }

  lemma CleanMoneyTwoCommasExample()
    ensures CleanMoney(Some("1,2,3")) == None
  {
    CleanMoneyDefined("1,2,3");
    assert multiset("1,2,3")[','] == 2;
  }

  /** The period named by one text: January when its lower-cased form
      contains "januari" or "jan", else July when it contains "juli" or
      "jul", else none. */
  function PeriodOfText(text: string): (r: Option<Period>)
    ensures r != Some(Unknown)
    ensures r == Some(January) <==> Contains(Lower(text), "jan")
    ensures r == Some(July) <==> !Contains(Lower(text), "jan") && Contains(Lower(text), "jul")
    ensures r.None? <==> !Contains(Lower(text), "jan") && !Contains(Lower(text), "jul")
  {
    var t := Lower(text);
    JanuariHasJan(t);
    JuliHasJul(t);
    if Contains(t, "januari") || Contains(t, "jan") then Some(January)
    else if Contains(t, "juli") || Contains(t, "jul") then Some(July)
    else None
  }

  /** "januari" contains "jan", so the longer test adds nothing. */
  lemma {:induction false} JanuariHasJan(t: string)
    ensures Contains(t, "januari") ==> Contains(t, "jan")
    decreases |t|
  {
    if StartsWith(t, "januari") {
      assert t[..3] == t[..7][..3];
    } else if |t| > 0 {
      JanuariHasJan(t[1..]);
    }
  }

  lemma {:induction false} JuliHasJul(t: string)
    ensures Contains(t, "juli") ==> Contains(t, "jul")
    decreases |t|
  {
    if StartsWith(t, "juli") {
      assert t[..3] == t[..4][..3];
    } else if |t| > 0 {
      JuliHasJul(t[1..]);
    }
  }

  /** `determine_period`: the texts are scanned in order and the first one
      that names a period decides; `None` when none does. */
  function DeterminePeriod(texts: seq<string>): (r: Option<Period>)
    ensures r != Some(Unknown)
    ensures r.Some? ==> texts != []
  {
    if texts == [] then None
    else match PeriodOfText(texts[0])
      case Some(p) => Some(p)
      case None => DeterminePeriod(texts[1..])
  }

  /** Text `i` names `p` and no earlier text names a period. */
  predicate FirstNaming(texts: seq<string>, i: int, p: Period) {
    0 <= i < |texts| && PeriodOfText(texts[i]) == Some(p)
    && forall j :: 0 <= j < i ==> PeriodOfText(texts[j]).None?
  }

  /** The result is the period of the first text that names one. */
  lemma {:induction false} DeterminePeriodFirstMatch(texts: seq<string>, p: Period)
    ensures DeterminePeriod(texts) == Some(p) <==> exists i :: FirstNaming(texts, i, p)
  {
    if texts != [] {
      DeterminePeriodFirstMatch(texts[1..], p);
      if PeriodOfText(texts[0]).Some? {
        assert FirstNaming(texts, 0, PeriodOfText(texts[0]).value);
      }
      if PeriodOfText(texts[0]).None? && DeterminePeriod(texts) == Some(p) {
        var i :| FirstNaming(texts[1..], i, p);
        assert forall j :: 0 <= j < i + 1 ==> PeriodOfText(texts[j]).None? by {
          forall j | 0 <= j < i + 1 ensures PeriodOfText(texts[j]).None? {
            if j > 0 { assert texts[j] == texts[1..][j - 1]; }
          }
        }
        assert FirstNaming(texts, i + 1, p);
      }
      if exists i :: FirstNaming(texts, i, p) {
        var i :| FirstNaming(texts, i, p);
        if i > 0 {
          assert PeriodOfText(texts[0]).None?;
          assert PeriodOfText(texts[1..][i - 1]) == Some(p);
          assert forall j :: 0 <= j < i - 1 ==> PeriodOfText(texts[1..][j]).None? by {
            forall j | 0 <= j < i - 1 ensures PeriodOfText(texts[1..][j]).None? {
              assert texts[1..][j] == texts[j + 1];
            }
          }
          assert FirstNaming(texts[1..], i - 1, p);
        }
      }
    }
  }

  /** No period is found exactly when no text names one. */
  lemma {:induction false} DeterminePeriodNone(texts: seq<string>)
    ensures DeterminePeriod(texts).None? <==> forall i :: 0 <= i < |texts| ==> PeriodOfText(texts[i]).None?
  {
    if texts != [] {
      DeterminePeriodNone(texts[1..]);
      assert forall i :: 1 <= i < |texts| ==> texts[i] == texts[1..][i - 1];
    }
  }

  /** The page-level guess from the link text and the page title (an absent
      title counts as the empty text). */
  function PageGuess(linkText: string, title: Option<string>): (r: Option<Period>)
    ensures r != Some(Unknown)
    ensures PeriodOfText(linkText).Some? ==> r == PeriodOfText(linkText)
    ensures PeriodOfText(linkText).None? ==> r == PeriodOfText(title.GetOr(""))
  {
    var t := title.GetOr("");
    assert [linkText, t][1..] == [t];
    assert [t][1..] == [];
    assert DeterminePeriod([t]) == PeriodOfText(t);
    assert PeriodOfText(linkText).None? ==> DeterminePeriod([linkText, t]) == DeterminePeriod([t]);
    DeterminePeriod([linkText, t])
  }

  /** The period of one table: the page-level guess when there is one,
      else the period named by the nearest preceding header, else
      `Unknown`. */
  function TablePeriod(pageGuess: Option<Period>, header: Option<string>): (r: Period)
    ensures pageGuess.Some? ==> r == pageGuess.value
    ensures pageGuess.None? ==>
      var h := Lower(header.GetOr(""));
      (r == January <==> Contains(h, "jan"))
      && (r == July <==> !Contains(h, "jan") && Contains(h, "jul"))
      && (r == Unknown <==> !Contains(h, "jan") && !Contains(h, "jul"))
  {
    match pageGuess
    case Some(p) => p
    case None =>
      var t := header.GetOr("");
      assert [t][1..] == [];
      assert DeterminePeriod([t]) == PeriodOfText(t);
      DeterminePeriod([t]).GetOr(Unknown)
  }

  /** The period a table is filed under, from the link text, the page title
      and the preceding header: the first of them that names a period wins,
      and a table none of them names is `Unknown`. */
  lemma TablePeriodPrecedence(linkText: string, title: Option<string>, header: Option<string>)
    ensures TablePeriod(PageGuess(linkText, title), header)
         == if PeriodOfText(linkText).Some? then PeriodOfText(linkText).value
            else if PeriodOfText(title.GetOr("")).Some? then PeriodOfText(title.GetOr("")).value
            else if PeriodOfText(header.GetOr("")).Some? then PeriodOfText(header.GetOr("")).value
            else Unknown
  {
  }

  /** The scraper's age rewrite: `AgeLabel`, then surrounding whitespace is
      stripped. */
  function NormaliseAge(text: string): (r: string)
    ensures |r| <= |text|
    ensures r == [] || (!IsSpace(r[0]) && !IsSpace(r[|r| - 1]))
  {
    Strip(AgeLabel(text))
  }

  /** For every age written in digits `d`, "d jaar en ouder" becomes "d+"
      and "d jaar" becomes "d". */
  lemma NormaliseAgeAll(d: string)
    requires AllDigits(d)
    ensures NormaliseAge(d + " jaar en ouder") == d + "+"
    ensures NormaliseAge(d + " jaar") == d
  {
    AgeLabelAll(d);
    StripUnchanged(d + "+");
    StripUnchanged(d);
  }

  /** " jaar en ouder" becomes a plus sign. */
  lemma NormaliseAgeOlderExample()
    ensures NormaliseAge("21 jaar en ouder") == "21+"
  {
    var older := " jaar en ouder";
    assert "21 jaar en ouder" == "21" + (older + "");
    ReplaceOne("21", older, "+", "");
    assert "21" + ("+" + "") == "21+";
    ReplaceAbsent("21+", " jaar", "");
    StripUnchanged("21+");
  }

  /** A bare " jaar" is dropped. */
  lemma NormaliseAgeYearsExample()
    ensures NormaliseAge("18 jaar") == "18"
  {
    var year := " jaar";
    assert ReplaceAll("18 jaar", " jaar en ouder", "+") == "18 jaar";
    assert "18 jaar" == "18" + (year + "");
    ReplaceOne("18", year, "", "");
    assert "18" + ("" + "") == "18";
    StripUnchanged("18");
  }

  /** The adult rule of the scraper: the cleaned age names 21 and has a
      plus sign. */
  predicate IsAdultAge(age: string) {
    Contains(age, "21") && Contains(age, "+")
  }

  /** One record emitted by the scraper (the columns Year, Period, Age,
      IsAdult, Hourly_Statutory). */
  datatype ScrapedRecord = ScrapedRecord(year: int, period: Period, age: string, isAdult: bool, wage: real)

  /** The rules applied to one table row, given the stripped texts of its
      cells: a row with fewer than two cells or whose first cell holds no
      digit is skipped; the wage is read from the last cell and the row is
      emitted only when the cleaned wage is truthy (not null and not zero). */
  function ParseRow(cells: seq<string>, year: int, period: Period): (r: Option<ScrapedRecord>)
    ensures r.Some? ==> r.value.wage > 0.0 && r.value.year == year && r.value.period == period
  {
    if |cells| < 2 || !HasDigit(cells[0]) then None
    else
      var age := NormaliseAge(cells[0]);
      var wage := CleanMoney(Some(cells[|cells| - 1]));
      if wage.Some? && wage.value != 0.0
      then Some(ScrapedRecord(year, period, age, IsAdultAge(age), wage.value))
      else None
  }

  /** A row is emitted exactly when it has two cells, a digit in the first
      and a non-zero parseable wage in the last; the record carries that
      wage, which is positive, and the adult flag of its cleaned age. */
  lemma ParseRowSpec(cells: seq<string>, year: int, period: Period)
    ensures ParseRow(cells, year, period).Some? <==>
      |cells| >= 2 && HasDigit(cells[0])
      && CleanMoney(Some(cells[|cells| - 1])).Some? && CleanMoney(Some(cells[|cells| - 1])).value != 0.0
    ensures ParseRow(cells, year, period).Some? ==>
      var r := ParseRow(cells, year, period).value;
      r.wage > 0.0 && r.wage == CleanMoney(Some(cells[|cells| - 1])).value
      && r.age == NormaliseAge(cells[0]) && (r.isAdult <==> IsAdultAge(r.age))
      && r.year == year && r.period == period
  {
  }

  /** The records of one table: its first row (the header) is skipped and
      every other row goes through `ParseRow`, in order. */
  function ScrapeTable(rows: seq<seq<string>>, year: int, period: Period): (r: seq<ScrapedRecord>)
    ensures rows != [] ==> |r| < |rows|
    ensures forall x :: x in r ==> x.wage > 0.0 && x.year == year && x.period == period
  {
    if |rows| <= 1 then []
    else ScrapeRows(rows[1..], year, period)
  }

  /** The records one row contributes: its record, or none. */
  function RowRecords(cells: seq<string>, year: int, period: Period): (r: seq<ScrapedRecord>)
    ensures |r| <= 1
    ensures forall x :: x in r ==> x.wage > 0.0 && x.year == year && x.period == period
  {
    match ParseRow(cells, year, period) case Some(x) => [x] case None => []
  }

  /** Every row of a run of data rows goes through `ParseRow`, in order. */
  function ScrapeRows(rows: seq<seq<string>>, year: int, period: Period): (r: seq<ScrapedRecord>)
    ensures |r| <= |rows|
    ensures forall x :: x in r ==> x.wage > 0.0 && x.year == year && x.period == period
  {
    if rows == [] then []
    else
      RowRecords(rows[0], year, period) + ScrapeRows(rows[1..], year, period)
  }

  /** The emitted records are exactly the accepted data rows, and every one
      of them carries a positive wage. */
  lemma {:induction false} ScrapeRowsSpec(rows: seq<seq<string>>, year: int, period: Period)
    ensures |ScrapeRows(rows, year, period)| <= |rows|
    ensures forall r :: r in ScrapeRows(rows, year, period) <==>
      exists i :: 0 <= i < |rows| && ParseRow(rows[i], year, period) == Some(r)
    ensures forall r :: r in ScrapeRows(rows, year, period) ==> r.wage > 0.0 && r.year == year
  {
    if rows != [] {
      ScrapeRowsSpec(rows[1..], year, period);
      forall i | 0 <= i < |rows| { ParseRowSpec(rows[i], year, period); }
      forall r ensures r in ScrapeRows(rows, year, period) <==>
        exists i :: 0 <= i < |rows| && ParseRow(rows[i], year, period) == Some(r)
      {
        if exists i :: 0 <= i < |rows| && ParseRow(rows[i], year, period) == Some(r) {
          var i :| 0 <= i < |rows| && ParseRow(rows[i], year, period) == Some(r);
          if i > 0 { assert rows[1..][i - 1] == rows[i]; }
        }
        if r in ScrapeRows(rows[1..], year, period) {
          var i :| 0 <= i < |rows[1..]| && ParseRow(rows[1..][i], year, period) == Some(r);
          assert rows[i + 1] == rows[1..][i];
        }
      }
    }
  }

  /** Rows are handled one at a time: the records of two runs of rows are
      the records of the first followed by those of the second, so order
      and repetitions are kept. */
  lemma {:induction false} ScrapeRowsAppend(a: seq<seq<string>>, b: seq<seq<string>>, year: int, period: Period)
    ensures ScrapeRows(a + b, year, period) == ScrapeRows(a, year, period) + ScrapeRows(b, year, period)
    decreases |a|
  {
    if a == [] {
      assert a + b == b;
    } else {
      assert (a + b)[0] == a[0];
      assert (a + b)[1..] == a[1..] + b;
      ScrapeRowsAppend(a[1..], b, year, period);
      AppendAssoc(RowRecords(a[0], year, period), ScrapeRows(a[1..], year, period), ScrapeRows(b, year, period));
    }
  }

  lemma ScrapeTableSpec(rows: seq<seq<string>>, year: int, period: Period)
    ensures forall r :: r in ScrapeTable(rows, year, period) <==>
      exists i :: 1 <= i < |rows| && ParseRow(rows[i], year, period) == Some(r)
    ensures forall r :: r in ScrapeTable(rows, year, period) ==> r.wage > 0.0
  {
    if |rows| > 1 {
      ScrapeRowsSpec(rows[1..], year, period);
      forall r ensures r in ScrapeTable(rows, year, period) <==>
        exists i :: 1 <= i < |rows| && ParseRow(rows[i], year, period) == Some(r)
      {
        if exists i :: 1 <= i < |rows| && ParseRow(rows[i], year, period) == Some(r) {
          var i :| 1 <= i < |rows| && ParseRow(rows[i], year, period) == Some(r);
          assert rows[1..][i - 1] == rows[i];
        }
      }
    }
  }
}
