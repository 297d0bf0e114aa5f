# Dutch minimum-wage tracker — a Dafny model of its data pipeline

The tracker shows the Dutch statutory minimum wage from 2002 on, in nominal
terms and deflated by a price or contract-wage index. Behind the two
Streamlit dashboards (`app.py` and `mw_tracker/nl_mw_tracker.py`) sits a small
batch pipeline. Each of its stages turns one table of records into another.
This project models those stages and proves what they promise:

- **Text normalisers** (`text.dfy`, `scraper.dfy`, parts of `archive.dfy` and
  `pipeline.dfy`):
  - the scraper's `clean_money` and `determine_period`, and its per-row rules
    (row skip, age rewrite, adult flag, period fallback, wage acceptance);
  - the archive builder's `clean_currency`;
  - the euro cleaning of the latest scraped file in `load_data`.
- **Archive builder** (`archive.dfy`): `create_archive`. It has three parts:
  - weekly adult wages before 2019 become hourly adult and youth rows through
    two fixed youth-percentage tables ("staffels");
  - 2019–2023 tables are read in blocks of three workweek rows;
  - 2024+ tables are read per section.
- **Index series builder** (`indices.dfy`):
  - `parse_periods` classifies CBS period codes as yearly, January or July and
    keeps the last non-null yearly value per year;
  - `process_indices` builds the January/July skeleton of years, left-joins
    the CPI and CAO series, keeps the years from 2002 and orders the columns.
- **Loading** (`pipeline.dfy`): `load_data`. It concatenates the archive and
  the latest rows, left-joins the indices on (Year, Period), derives the Date,
  sorts by Date and forward-fills the four index columns independently.
- **Processing** (`metrics.dfy`, `tracker.dfy`):
  - the nominal wage by regime and workweek basis;
  - the effective index (primary column, else fallback);
  - the two-branch deflation;
  - the adult/youth selection with its Category label;
  - the youth age options and the growth calculator.

  `tracker.dfy` is the second dashboard, which only offers the yearly CPI as
  deflator.

Conventions of the model:
- A pandas null (NaN) is `None` in an `Option<real>`.
- A Python exception that aborts a stage is the `Err` of a `Result`.
- A file that may be absent is an `Option` input.
- Widget choices and the current year are parameters.
- Python's `float(s)` is `Text.PyFloat`: surrounding whitespace, an optional
  sign, digits and at most one dot.
- `round(x, 2)` is `Text.Round2`.

Where the code works by appending to lists or by assigning a column at a time,
the model has a method with that loop. Each such method is proved equal to a
function, and the properties are lemmas about the functions. The methods are:
- `Archive.BuildHistory`, `Archive.CleanSheetColumns`, `Archive.BuildBlocks`,
  `Archive.BuildSections`, `Archive.CreateArchive`;
- `Indices.BuildSkeleton`, `Indices.ProcessIndices`;
- `Pipeline.ForwardFill` (over an array), `Pipeline.LoadData`;
- `Metrics.AddWageColumns`, `Metrics.Process`.

The model follows the code on these points:
- In `create_archive`, a history row whose "YYYY-MM" field is not an integer
  makes `int()` raise and aborts the build (`Archive.HistoryStep`). It does not
  skip the row.
- In the 2019–2023 block path, a block without a 36, 38 or 40 hour row raises
  an IndexError on `.values[0]` (`Archive.BlockRecordsErr`).
- In `parse_periods`, a series without rows yields frames without columns. The
  later merge on Year then raises a KeyError (`Indices.EmptySeriesFails`).
- In `load_data`, a text cell of the latest file that `float()` rejects raises
  and aborts the load (`Pipeline.ConversionAborts`). It does not become null.
- `clean_currency` removes the mis-encoded byte sequence "â‚¬", not the euro
  sign. A cell holding a literal "€" therefore cleans to NaN
  (`Archive.EuroSignGivesNull`).

## Model

| member | source | states |
|---|---|---|
| Scraper.CleanMoney | mw_tracker/scraper.py:21-30 | a missing or empty text gives None; any value produced is never negative |
| Scraper.KeepOnlyDigitsAndCommas | mw_tracker/scraper.py:26 | the deletion `[^\d,]` leaves only digits and commas |
| Scraper.KeepCountsCommas | mw_tracker/scraper.py:26 | the deletion keeps every comma, so the number of commas is unchanged |
| Scraper.KeepHasDigit | mw_tracker/scraper.py:26 | the deleted text holds a digit exactly when the input did |
| Scraper.ReplaceCommaFacts | mw_tracker/scraper.py:26 | after `replace(',', '.')` the text is digits and dots, with as many dots as there were commas and the same digit presence |
| Scraper.ParseDigitsAndDots | mw_tracker/scraper.py:27-30 | `float()` of a digits-and-dots text succeeds exactly when it has a digit and at most one dot, and the value is then non-negative |
| Scraper.ParseWithDot | mw_tracker/scraper.py:27-30 | splitting a digits-and-dots text at its first dot: the part after the dot is all digits exactly when there is no second dot |
| Scraper.CleanMoneyDefined | mw_tracker/scraper.py:21-30 | a non-empty text yields a value exactly when it contains a digit and at most one comma; otherwise None, never an exception |
| Scraper.KeepAll | mw_tracker/scraper.py:26 | a text of digits and commas passes the deletion unchanged |
| Scraper.DropEuroSpace | mw_tracker/scraper.py:26 | the "€ " before an amount is deleted |
| Scraper.CleanMoneyCents | mw_tracker/scraper.py:21-30 | a text whose kept characters are whole digits, one comma and two digits cleans to whole + cents/100 |
| Scraper.CleanMoneyDutch | mw_tracker/scraper.py:21-30 | every Dutch amount "€ w.t,cc" (with or without a thousands dot) cleans to the value of the digits wt plus cc/100 |
| Scraper.CleanMoneyExample | mw_tracker/scraper.py:22 | "€ 13,27" cleans to 13.27 |
| Scraper.CleanMoneyThousandsExample | mw_tracker/scraper.py:25-28 | "€ 1.234,56" cleans to 1234.56 |
| Scraper.CleanMoneyNoDigitExample | mw_tracker/scraper.py:27-30 | a text without digits ("€ -") gives None |
| Scraper.CleanMoneyTwoCommasExample | mw_tracker/scraper.py:27-30 | a text with two commas ("1,2,3") gives None instead of raising |
| Scraper.JanuariHasJan | mw_tracker/scraper.py:39 | a text containing "januari" contains "jan", so the longer test never decides |
| Scraper.JuliHasJul | mw_tracker/scraper.py:41 | a text containing "juli" contains "jul" |
| Scraper.PeriodOfText | mw_tracker/scraper.py:38-42 | one text names January exactly when its lower-cased form contains "jan", July exactly when it contains "jul" but not "jan", and no period when it contains neither; never Unknown |
| Scraper.DeterminePeriod | mw_tracker/scraper.py:32-43 | the scan returns January, July or None, never Unknown, and None for an empty list |
| Scraper.DeterminePeriodFirstMatch | mw_tracker/scraper.py:37-42 | the result is period p exactly when some text names p and no earlier text names any period |
| Scraper.DeterminePeriodNone | mw_tracker/scraper.py:37-43 | None is returned exactly when no text names a period |
| Scraper.PageGuess | mw_tracker/scraper.py:90 | the page-level guess is the link text's period when it names one, else the title's (an absent title reads as ""), and never Unknown |
| Scraper.TablePeriod | mw_tracker/scraper.py:100-105 | a table takes the page-level guess when there is one; otherwise it is January exactly when the lower-cased header (an absent header reads as "") contains "jan", July exactly when it contains "jul" but not "jan", and Unknown when it contains neither |
| Scraper.TablePeriodPrecedence | mw_tracker/scraper.py:90-105 | a table's period is the first period named by the link text, the page title or the preceding header, in that order, and Unknown when none names one |
| Scraper.NormaliseAge | mw_tracker/scraper.py:123 | the cleaned age is no longer than the cell text and starts and ends with a non-space |
| Scraper.NormaliseAgeAll | mw_tracker/scraper.py:123 | for every age of digits d, "d jaar en ouder" becomes "d+" and "d jaar" becomes "d" |
| Scraper.NormaliseAgeOlderExample | mw_tracker/scraper.py:123 | "21 jaar en ouder" becomes "21+" |
| Scraper.NormaliseAgeYearsExample | mw_tracker/scraper.py:123 | "18 jaar" becomes "18" |
| Scraper.ParseRow | mw_tracker/scraper.py:113-136 | an emitted record has a positive wage and the table's year and period |
| Scraper.ParseRowSpec | mw_tracker/scraper.py:113-136 | a row yields a record exactly when it has at least two cells, a digit in the first cell and a non-zero parseable last cell; the record's wage is the cleaned last cell (positive), its age the rewritten first cell, IsAdult iff the age contains "21" and "+", and it has the table's year and period |
| Scraper.ScrapeRows | mw_tracker/scraper.py:112-136 | no more records than rows, each with a positive wage and the table's year and period |
| Scraper.ScrapeRowsAppend | mw_tracker/scraper.py:112-136 | rows are handled one at a time: the records of two runs of rows are those of the first followed by those of the second, so order and repetitions are kept |
| Scraper.ScrapeRowsSpec | mw_tracker/scraper.py:112-136 | the records of a run of rows are exactly the records of its accepted rows, no more records than rows, all with a positive wage and the page's year |
| Scraper.ScrapeTable | mw_tracker/scraper.py:110-136 | the header row yields nothing, so a non-empty table has fewer records than rows; each record has a positive wage and the table's year and period |
| Scraper.ScrapeTableSpec | mw_tracker/scraper.py:110-136 | the header row is skipped: a table's records are exactly those of its accepted rows after the first, each with a positive wage |
| Archive.CleanCurrency | mw_tracker/create_mw_archive.py:15-19 | null or "" gives NaN |
| Archive.ParsedChars | mw_tracker/create_mw_archive.py:18 | whatever `float()` accepts consists of digits, dots and signs once stripped |
| Archive.EuroSignGivesNull | mw_tracker/create_mw_archive.py:17-19 | a text holding a literal "€" is not rescued by the rewrite and cleans to NaN, without raising |
| Archive.CurrencyText | mw_tracker/create_mw_archive.py:17 | after the rewrite no space and no comma is left |
| Archive.SheetAmountText | mw_tracker/create_mw_archive.py:17 | the rewrite of a sheet amount "â‚¬ w.t,cc" is "wt.cc": the mis-encoded sign, the space and the thousands dot go, the comma becomes the point |
| Archive.CleanCurrencyDutch | mw_tracker/create_mw_archive.py:15-19 | every sheet amount "â‚¬ w.t,cc" (with or without a thousands dot) cleans to the value of the digits wt plus cc/100 |
| Archive.StaffelTables | mw_tracker/create_mw_archive.py:12-13 | the tables hold 8 ages (22 down to 15) and 7 ages (21 down to 15), every percentage lies in [0.30, 0.85] and the percentages fall strictly with age |
| Archive.HistoryStep | mw_tracker/create_mw_archive.py:27-49 | a field without a dash is skipped; the build fails (BadHistoryDate) exactly when the field has a dash and either of the first two dash-separated parts is not an integer; otherwise a year from 2019 on is skipped and an earlier year gives that month's `HistoryRows`; so 0, 8 or 9 rows, all before 2019 with a null statutory wage |
| Archive.HistoryRows | mw_tracker/create_mw_archive.py:34-49 | one month gives 9 rows in the pre-July-2017 regime and 8 after, all of that year and period with a null statutory wage, and only the first adult |
| Archive.HistoryRowRecords | mw_tracker/create_mw_archive.py:27-49 | the loop body for one history row produces the rows of `HistoryStep`: none without a dash or from 2019, an error on a non-integer field, else the month's rows |
| Archive.MonthRecords | mw_tracker/create_mw_archive.py:42-49 | the adult append followed by the staffel loop produces `HistoryRows` |
| Archive.BuildHistory | mw_tracker/create_mw_archive.py:24-49 | the history loop produces the rows of every history row in order, or the first error |
| Archive.HistoryRowsShape | mw_tracker/create_mw_archive.py:34-49 | one month gives 9 rows before July 2017 and 8 after; the first is the adult (23+ or 22+), then one non-adult row per staffel age; each hourly value is round(nominal·pct/h, 2) (pct 1 for the adult); Hourly_Statutory is null; month 1 is January, any other July |
| Archive.HistoryRowAt | mw_tracker/create_mw_archive.py:42-49 | row 0 is the adult row and row i is the row of staffel age i−1 with its percentage |
| Archive.CleanedCells | mw_tracker/create_mw_archive.py:54-56 | after cleaning, a listed column's cell holds `clean_currency` of its text, every other cell keeps its text, and the row's named fields are unchanged |
| Archive.CleanSheetColumns | mw_tracker/create_mw_archive.py:54-56 | the column-by-column cleaning loop yields the cleaned sheet |
| Archive.Years | mw_tracker/create_mw_archive.py:58 | every year of the sheet once, strictly increasing |
| Archive.YearRows | mw_tracker/create_mw_archive.py:60 | the rows of one year, and only those |
| Archive.YearRowsSnoc | mw_tracker/create_mw_archive.py:60 | a row added at the end of the sheet is added at the end of the selection exactly when it has the year |
| Archive.YearRowsOne | mw_tracker/create_mw_archive.py:60 | a single row is selected exactly when it has the year |
| Archive.YearRowsAppend | mw_tracker/create_mw_archive.py:60 | the selection distributes over concatenation, so it keeps sheet order and repeated rows |
| Archive.Labelled | mw_tracker/create_mw_archive.py:63 | the rows with a workweek label, and only those |
| Archive.LabelledOne | mw_tracker/create_mw_archive.py:63 | a single row is kept exactly when it has a label |
| Archive.LabelledSnoc | mw_tracker/create_mw_archive.py:63 | a row added at the end is added at the end of the labelled rows exactly when it has a label |
| Archive.LabelledAppend | mw_tracker/create_mw_archive.py:63 | the labelled rows distribute over concatenation, so they keep sheet order and repeated rows |
| Archive.Chunks | mw_tracker/create_mw_archive.py:64 | ⌈n/3⌉ blocks, each of one to three rows |
| Archive.ChunksFlatten | mw_tracker/create_mw_archive.py:64 | the blocks cover the labelled rows exactly, in order |
| Archive.AgeColumns | mw_tracker/create_mw_archive.py:68-69 | the age columns are exactly the columns whose name contains "jaar" or "21+" |
| Archive.AgeColumnsOne | mw_tracker/create_mw_archive.py:68-69 | a single column is kept exactly when its name contains "jaar" or "21+" |
| Archive.AgeColumnsSnoc | mw_tracker/create_mw_archive.py:68-69 | a column added at the end is added at the end of the age columns exactly when its name contains "jaar" or "21+" |
| Archive.AgeColumnsAppend | mw_tracker/create_mw_archive.py:68-69 | the age columns distribute over concatenation, so they keep the sheet's column order |
| Archive.FirstWithSpec | mw_tracker/create_mw_archive.py:77-79 | the row read for a workweek is in the block, its label contains the hours and no earlier row's label does (`.values[0]` is the first match); none exists exactly when no label contains them |
| Archive.AmountAt | mw_tracker/create_mw_archive.py:77-79 | a value is read only from a cell that holds a cleaned amount, and it is that amount |
| Archive.BlockStep | mw_tracker/create_mw_archive.py:65-81 | a block raises only MissingWorkweekRow; its rows have the year, the block's period and a null statutory wage |
| Archive.BlockRecords | mw_tracker/create_mw_archive.py:63-81 | the block path of a year raises only MissingWorkweekRow; its rows have that year and a null statutory wage |
| Archive.BlockRowRecords | mw_tracker/create_mw_archive.py:68-81 | the column loop of one block produces `BlockStep` |
| Archive.BuildBlocks | mw_tracker/create_mw_archive.py:63-81 | the block loop of one year produces `BlockRecords` |
| Archive.Distinct | mw_tracker/create_mw_archive.py:84 | `unique()`: the same values, none twice |
| Archive.DistinctFirstAppearance | mw_tracker/create_mw_archive.py:84 | `unique()` lists the values in the order of their first appearance |
| Archive.SectionMembers | mw_tracker/create_mw_archive.py:86 | the rows of one section, and only those |
| Archive.SectionMembersOne | mw_tracker/create_mw_archive.py:86 | a single row is kept exactly when it is in the section |
| Archive.SectionMembersSnoc | mw_tracker/create_mw_archive.py:86 | a row added at the end is added at the end of the section's rows exactly when it is in the section |
| Archive.SectionMembersAppend | mw_tracker/create_mw_archive.py:86-87 | the section's rows distribute over concatenation, so `iterrows()` visits them in sheet order with repeats kept |
| Archive.RowStep | mw_tracker/create_mw_archive.py:87-93 | a table row raises exactly when the hourly column is missing; otherwise one row of the section's year and period, null workweek columns, adult exactly for "21+" |
| Archive.SectionStep | mw_tracker/create_mw_archive.py:84-93 | a null section raises MissingSection; any other error is MissingHourlyColumn; the rows have the year and null workweek columns |
| Archive.SectionRecords | mw_tracker/create_mw_archive.py:84-93 | the section path of a year raises only MissingSection or MissingHourlyColumn; its rows have that year and null workweek columns |
| Archive.SectionRowRecords | mw_tracker/create_mw_archive.py:85-93 | the row loop of one section produces `SectionStep` |
| Archive.BuildSections | mw_tracker/create_mw_archive.py:84-93 | the section loop of one year produces `SectionRecords` |
| Archive.YearStep | mw_tracker/create_mw_archive.py:58-93 | a year after 2025 gives nothing; before 2024 only MissingWorkweekRow can be raised, from 2024 only MissingSection or MissingHourlyColumn; every row has that year and the archive shape |
| Archive.ScrapedRecords | mw_tracker/create_mw_archive.py:58-93 | the scraped part never raises BadHistoryDate and every row it yields has the archive shape |
| Archive.Archive | mw_tracker/create_mw_archive.py:21-95 | an error of the history part is the result; otherwise the history rows come first, a later error is not BadHistoryDate, and every row is from 2025 or before, per-workweek only before 2024, statutory only from 2024, and from 2019 adult exactly for 22+ in January 2019 and 21+ afterwards |
| Archive.CreateArchive | mw_tracker/create_mw_archive.py:21-93 | the whole build: history rows, then the scraped rows year by year, or the first error |
| Archive.BlockStepLayout | mw_tracker/create_mw_archive.py:65-81 | a block yields one row per age column in column order, with the column's age label, the period's adult flag, the values of the block's first 36/38/40-hour rows and a null statutory wage |
| Archive.BlockLayout | mw_tracker/create_mw_archive.py:63-81 | a year before 2024 yields (age columns × blocks) rows; row p is column p mod n of block p div n; block 0 is July, later blocks January |
| Archive.BlockEmpty | mw_tracker/create_mw_archive.py:68-69 | without age columns the block path yields nothing and raises nothing |
| Archive.BlockStepErr | mw_tracker/create_mw_archive.py:77-79 | a block raises exactly when the sheet has an age column and the block lacks a 36, 38 or 40 hour row |
| Archive.BlockRecordsErr | mw_tracker/create_mw_archive.py:63-81 | a year's block path raises exactly when the sheet has an age column and one of its blocks lacks a workweek row |
| Archive.NullSectionErr | mw_tracker/create_mw_archive.py:84-85 | a 2024+ row without a section makes the year raise (a null has no `lower()`) |
| Archive.NoHourlyErr | mw_tracker/create_mw_archive.py:92 | a year with rows but no "Minimumloon per uur" column raises |
| Archive.SectionsErrCause | mw_tracker/create_mw_archive.py:84-93 | the section path raises only for a null section or a missing hourly column |
| Archive.SectionRecordsErr | mw_tracker/create_mw_archive.py:84-93 | the section path of a year raises exactly when a row lacks a section, or the year has rows and the hourly column is missing |
| Archive.SectionStepLayout | mw_tracker/create_mw_archive.py:84-93 | a section yields one row per member row in order: January iff its lower-cased title contains "januari", adult iff the age is "21+", workweek columns null, the statutory wage from the hourly column |
| Archive.HistoryShape | mw_tracker/create_mw_archive.py:26-49 | every row derived from the history sheet is from before 2019 and has no statutory wage |
| Archive.HistoryStepShape | mw_tracker/create_mw_archive.py:27-49 | the rows of one history row are from before 2019 and have no statutory wage |
| Archive.BlockShape | mw_tracker/create_mw_archive.py:62-81 | block-path rows have a null statutory wage and the adult flag of the 2019 rule |
| Archive.SectionShape | mw_tracker/create_mw_archive.py:82-93 | section-path rows have null workweek columns and are adult exactly for "21+" |
| Indices.ToNumeric | mw_tracker/fetch_indices.py:33 | an empty cell is null, a number is kept, and a text yields a value only when it holds a digit |
| Indices.FirstFourDigits | mw_tracker/fetch_indices.py:39 | the year read from a code is below 10000 |
| Indices.FirstFourDigitsSpec | mw_tracker/fetch_indices.py:39 | `(\d{4})` finds a year exactly when the code has four consecutive digits, and then it reads the leftmost run |
| Indices.CodeRows | mw_tracker/fetch_indices.py:33-39 | each row gets its stripped lower-cased code, its coerced value and the year of its first four digits; the cast raises exactly when some code has no four-digit run |
| Indices.MonthOf | mw_tracker/fetch_indices.py:49-55 | a code is January, July or dropped, never Unknown |
| Indices.YearlyTable | mw_tracker/fetch_indices.py:42-46 | every year in the yearly table is the year of some yearly row |
| Indices.YearlyTableSpec | mw_tracker/fetch_indices.py:42-46 | the yearly table has an entry exactly for the years with a yearly row, holding the last non-null yearly value of that year (or null) |
| Indices.MonthlyRows | mw_tracker/fetch_indices.py:55-58 | the monthly table holds only January and July rows |
| Indices.MonthlyRowsSpec | mw_tracker/fetch_indices.py:49-58 | the monthly table has at most one row per input row, and a row is in it exactly when some input row is January or July with that year and value |
| Indices.ParsePeriods | mw_tracker/fetch_indices.py:25-26 | an empty input, and only an empty input, gives the two column-less frames |
| Indices.BuildSkeleton | mw_tracker/fetch_indices.py:94-98 | 2·(current+2−2002) keys, row i being year 2002 + i div 2, January on even and July on odd positions |
| Indices.AttachYearly | mw_tracker/fetch_indices.py:110-111 | the merge on Year keeps every row once, in order, and appends its year's yearly value or null |
| Indices.AttachMonthly | mw_tracker/fetch_indices.py:114 | the left merge on (Year, Period) keeps at least as many rows as its base, and none from an empty base |
| Indices.AttachData | mw_tracker/fetch_indices.py:107-117 | `attach_data` raises a KeyError exactly when the series had no rows; otherwise it keeps at least the base's rows |
| Indices.AttachMonthlyShape | mw_tracker/fetch_indices.py:114-115 | every output row of the monthly merge extends a base row of the same key by one value |
| Indices.FromStartYear | mw_tracker/fetch_indices.py:130 | the rows kept are exactly those from 2002 on |
| Indices.Select | mw_tracker/fetch_indices.py:136-137 | the columns are reordered to Year, Period, monthly_cao, monthly_cpi, yearly_cao, yearly_cpi, one output row per row |
| Indices.AttachDataShape | mw_tracker/fetch_indices.py:107-117 | every row after `attach_data` is a base row with its year's yearly value and one monthly value appended |
| Indices.IndexTable | mw_tracker/fetch_indices.py:73-137 | a code without a year in the CPI series raises; without a CAO column nothing is written; every saved row is from 2002 on |
| Indices.ProcessIndices | mw_tracker/fetch_indices.py:73-137 | the processing after the fetch: parse both series, stop when there is no CAO column, build the skeleton, attach CPI then CAO, filter and reorder |
| Indices.SkeletonRows | mw_tracker/fetch_indices.py:94-98 | every skeleton row is an empty January or July row of a year from 2002 to current+1 |
| Indices.IndexRowsYearly | mw_tracker/fetch_indices.py:107-130 | every saved row lies in the skeleton's years, and its yearly CPI and CAO are the yearly values of its year, so January and July of a year agree on them |
| Indices.AttachMonthlyUnique | mw_tracker/fetch_indices.py:114-115 | with unique (Year, Period) keys the monthly merge keeps every row exactly once, in order, with the matching value or null |
| Indices.FromStartYearAll | mw_tracker/fetch_indices.py:130 | a table whose rows are all from 2002 on is unchanged by the filter |
| Indices.AttachDataUnique | mw_tracker/fetch_indices.py:107-117 | with unique monthly keys `attach_data` keeps every row once and appends the yearly then the monthly value |
| Indices.JoinedSkeleton | mw_tracker/fetch_indices.py:119-123 | both merges keep the skeleton row for row, each row carrying the CPI then the CAO values |
| Indices.IndexRowsSkeleton | mw_tracker/fetch_indices.py:94-137 | with unique monthly keys the saved table is the skeleton: row i has the skeleton key and the matching monthly and yearly values of both series, null where absent |
| Indices.EmptySeriesFails | mw_tracker/fetch_indices.py:107-110 | a series without rows (column-less frames, lines 25-26) makes the merge on Year raise a KeyError |
| Indices.YearlyCode | mw_tracker/fetch_indices.py:42 | a year followed by "jj00" is yearly and names no month |
| Indices.BareYear | mw_tracker/fetch_indices.py:42 | a bare four-digit year is yearly and names no month |
| Indices.JanuaryCode | mw_tracker/fetch_indices.py:49-55 | a year followed by "mm01" is January and not yearly |
| Indices.JulyCode | mw_tracker/fetch_indices.py:49-55 | a year followed by "mm07" is July and not yearly |
| Indices.MonthNames | mw_tracker/fetch_indices.py:50-51 | a year followed by " januari" is January and by " juli" is July |
| Records.AgeLabel | mw_tracker/create_mw_archive.py:70 | the rewritten label is no longer than the text, and a text without spaces is unchanged |
| Records.AgeLabelAll | mw_tracker/create_mw_archive.py:70 | for every age of digits d, the label "d jaar en ouder" becomes "d+" and "d jaar" becomes "d", the forms the adult flag is matched on |
| Records.LastNonNull | mw_tracker/fetch_indices.py:46 | the value kept is one of the values, and it is null exactly when all are null |
| Records.LastNonNullAppend | mw_tracker/fetch_indices.py:46 | a later non-null value replaces the kept one and a later null keeps it |
| Pipeline.DropEuroAndDots | app.py:121 | the deletion leaves no euro sign and no dot and never lengthens the text |
| Pipeline.DropChars | app.py:121 | the `[€.]` deletion keeps exactly the characters other than euro signs and dots |
| Pipeline.CleanStatutoryCell | app.py:117-124 | a null cell stays null; a text cell fails exactly when `float()` rejects its rewritten text |
| Pipeline.CleanTextRows | app.py:117-124 | the column conversion fails exactly when some cell fails; otherwise every row is kept in order with its cleaned value |
| Pipeline.LatestRecords | app.py:117-125 | a numeric column passes unchanged, one record per row; a text column is cleaned |
| Pipeline.IndexMatches | app.py:134 | the index values matched are exactly those of index rows with the same (Year, Period) |
| Pipeline.JoinWage | app.py:134 | a wage row becomes at least one joined row, each with the same wage columns, and one row with null indices when nothing matches |
| Pipeline.LeftJoin | app.py:134 | the merge yields at least as many rows as wages, each carrying one of the wage rows |
| Pipeline.LeftJoinKeepsAll | app.py:134 | every wage row survives the left merge |
| Pipeline.LeftJoinUnique | app.py:134 | with unique index keys the merge keeps the wage rows one for one, in order, each with its matching index values or nulls |
| Pipeline.LeftJoinEmpty | app.py:128-134 | without an index file every wage row is kept once, with four null index columns |
| Pipeline.DateOf | app.py:137-138 | the Date is the 1st of month 01 for January and 07 for July of Year, and missing (NaT) for any other period |
| Pipeline.Merged | app.py:134-138 | the merged, dated table has at least one row per wage row, and every row carries one of the wage rows |
| Pipeline.Dated | app.py:137-138 | every joined row gets its Date; nothing else changes |
| Pipeline.InsertByDate | app.py:142 | one insertion step adds exactly the inserted row |
| Pipeline.InsertSorted | app.py:142 | inserting into a Date-ordered table keeps it ordered |
| Pipeline.SortByDate | app.py:142 | the result is ordered by Date (missing dates last) and is a permutation of the input |
| Pipeline.FFill | app.py:143 | the filled column has the same length |
| Pipeline.FFillSpec | app.py:143 | each filled cell is the nearest non-null value at or before it |
| Pipeline.FFillKeeps | app.py:143 | a non-null cell is unchanged |
| Pipeline.FFillLeading | app.py:143 | leading nulls stay null |
| Pipeline.FFillIdempotent | app.py:143 | filling twice equals filling once |
| Pipeline.FFillAllNull | app.py:143 | a column without values stays without values |
| Pipeline.ForwardFill | app.py:143 | the in-place scan carrying the last value leaves the array equal to `FFill` of its old contents |
| Pipeline.Put | app.py:143 | writing one index column changes that column and no other |
| Pipeline.WithColumn | app.py:143 | replacing one column keeps the rows' wages, dates and other columns |
| Pipeline.FillColumnEffect | app.py:141-143 | filling one column fills it, leaves the other three and the wage columns unchanged |
| Pipeline.FillIndependent | app.py:141-143 | the four columns are filled independently: each ends as `FFill` of its own input, and the wage rows and dates are unchanged |
| Pipeline.FillColumnInPlace | app.py:143 | filling one column through an array equals `FillColumn` |
| Pipeline.WageRows | app.py:111-125 | without a latest file the archive alone; with one, the archive rows then the latest rows in order, failing exactly when the latest cleaning fails |
| Pipeline.Load | app.py:102-145 | the result is "no archive" (None, and the app stops) exactly when the archive file is absent |
| Pipeline.LoadData | app.py:102-145 | the step-by-step load equals `Load` |
| Pipeline.SortWages | app.py:142 | sorting reorders the wage rows without adding or losing any |
| Pipeline.LoadedShape | app.py:134-143 | the loaded table is ordered by Date and holds the merged rows' wage rows, as many times each |
| Pipeline.LoadedWagesUnique | app.py:125-143 | with unique index keys, the loaded wage rows are exactly the archive and latest rows, as a multiset |
| Pipeline.FillKeepsNull | app.py:143 | filling a column of an all-null table keeps it all-null |
| Pipeline.SortKeepsNull | app.py:142 | sorting keeps a table's indices all-null |
| Pipeline.NoIndexFile | app.py:128-143 | without an index file all four index columns are null on every loaded row |
| Pipeline.ConversionAborts | app.py:117-124 | one text cell that `float()` rejects aborts the whole load |
| Pipeline.DropDutch | app.py:121 | deleting euro signs and dots from "€ w.t,cc" leaves " wt,cc" |
| Pipeline.DutchAmountText | app.py:121-122 | after the comma replacement a Dutch amount reads " wt.cc" |
| Pipeline.CleanDutchAmount | app.py:117-124 | every Dutch amount "€ w.t,cc" cleans to the value of wt plus cc/100 |
| Pipeline.CleanStatutoryExample | app.py:117-124 | "€ 1.234,56" cleans to 1234.56 |
| Pipeline.CleanStatutoryNoDigit | app.py:117-124 | a text without digits (such as "n.v.t.") makes the conversion fail |
| Metrics.AppDeflatorKey | app.py:229-235 | the key is "None" exactly when the first wage-type option is chosen, otherwise the session's deflator |
| Metrics.AppKeyOptions | app.py:229-235 | the two options give "None" and the session's deflator respectively |
| Metrics.NominalFrom2024 | app.py:238-239 | from 2024 the nominal wage is Hourly_Statutory, whatever the basis and the workweek columns |
| Metrics.NominalBefore2024 | app.py:238-239 | before 2024 the nominal wage is the basis's Hourly_{h}h column and Hourly_Statutory is not read |
| Metrics.NominalColumn | app.py:238-239 | one nominal wage per row |
| Metrics.Effective | app.py:255-256 | the effective index is present exactly when the primary or the fallback column is, and it is the primary when that is present |
| Metrics.EffectiveByDeflator | app.py:248-256 | Y_CPI and Y_CAO read their yearly column; M_CPI and M_CAO read the monthly column, else the yearly one |
| Metrics.EffectiveColumn | app.py:255-256 | one effective index per row |
| Metrics.Div | app.py:261 | a quotient exists exactly when both operands do and the divisor is not zero |
| Metrics.Ratio | app.py:261 | `Effective_Index / base` exists exactly when the index does |
| Metrics.DeflationBase | app.py:259-265 | the base is the last row's effective index when it is present and non-zero, otherwise 100; never zero |
| Metrics.DisplayColumn | app.py:259-265 | it fails (IndexError) exactly on an empty frame; otherwise each row is nominal / (effective / base) |
| Metrics.DivByRatio | app.py:261 | n / (e / base) equals n·base / e |
| Metrics.RebasedToLastRow | app.py:259-262 | with a usable current index c, the last row's display wage is its nominal wage and each row shows nominal·c / effective |
| Metrics.FallbackToIndexBase | app.py:263-265 | without a usable current index each row shows nominal·100 / effective |
| Metrics.PricedRows | app.py:238-266 | nominal wages never fail; deflation fails exactly on an empty frame; each row keeps its record and nominal wage |
| Metrics.NominalDisplay | app.py:243-244 | with key "None" the display wage equals the nominal wage on every row |
| Metrics.DeflatedDisplay | app.py:246-266 | with a deflator every row carries its effective index and the deflated display wage |
| Metrics.LastRowShowsNominal | app.py:259-261 | with a usable current index the last row's display wage is its nominal wage |
| Metrics.CategoryDistinct | app.py:277-281 | an adult and a youth row never share a Category, and two youth rows share one exactly when their ages agree |
| Metrics.AdultNotYouth | app.py:277-281 | the adult label is never a youth label |
| Metrics.Select | app.py:271-281 | every shown row is a row of the frame that passes the mask (IsAdult ∧ show_adult) ∨ (¬IsAdult ∧ Age ∈ selected), labelled with its Category |
| Metrics.SelectComplete | app.py:271-274 | every row passing the mask is shown |
| Metrics.SelectEmpty | app.py:271-285 | the selection is empty, and the warning shows, exactly when no row passes the mask |
| Metrics.NothingSelected | app.py:271-285 | hiding the adult wage with no youth age selected shows nothing |
| Metrics.View | app.py:238-281 | the view fails exactly when the wage columns fail |
| Metrics.AddWageColumns | app.py:238-266 | the column-at-a-time assignments equal `PricedRows` |
| Metrics.Process | app.py:238-281 | the processing block equals `View` |
| Metrics.Unique | app.py:195 | `unique()`: the same labels, each once |
| Metrics.InsertAge | app.py:196 | one insertion step adds exactly the inserted label |
| Metrics.InsertAgeSorted | app.py:196 | inserting into a key-ordered list keeps it ordered |
| Metrics.SortAges | app.py:196 | the sort is a permutation of its input |
| Metrics.SortAgesSorted | app.py:196 | the sorted ages are ordered by `int(x) if x.isdigit() else 0` |
| Metrics.WithoutAdultLabels | app.py:195 | the labels kept are exactly those other than "23+", "22+", "21+" and "Adult" |
| Metrics.AgeOptionsSpec | app.py:195-196 | the youth options are exactly the non-adult age labels of the frame, each once, ordered by integer value with non-numeric labels as 0 |
| Metrics.AgeOptionsMembers | app.py:195 | an option is an age of some row that is not an adult label, and every such age is an option |
| Metrics.GrowthPct | app.py:375-376 | a zero start gives 0; otherwise a defined pct satisfies start·(1 + pct/100) = end; it is undefined exactly when the start is missing or a non-zero start meets a missing end |
| Metrics.GrowthRoundTrip | app.py:375-376 | from a non-zero start, growth to itself is 0 and any growth percentage applied to the start is recovered |
| Metrics.FirstAt | app.py:368-374 | the row found has the chosen Category and date; none exists exactly when no shown row has both |
| Metrics.Calculator | app.py:368-376 | the metric appears exactly when both the start and the end row exist, and is then the growth between their display wages |
| Tracker.WageTypeOptions | mw_tracker/nl_mw_tracker.py:44 | two distinct wage-type options in each language (the Dutch pair at line 75) |
| Tracker.TrackerDeflatorKey | mw_tracker/nl_mw_tracker.py:158 | the key is Y_CPI exactly when the second option is chosen, otherwise "None" |
| Tracker.TrackerKeyOptions | mw_tracker/nl_mw_tracker.py:152-158 | the first option gives "None" and the second Y_CPI |
| Tracker.TrackerView | mw_tracker/nl_mw_tracker.py:158-225 | the view fails exactly when real wages are asked of an empty frame |
| Tracker.RealWagesByYearlyCpi | mw_tracker/nl_mw_tracker.py:187-210 | with "Real (CPI)" every row's effective index is its yearly CPI, and when the last yearly CPI is present and non-zero the last row shows its nominal wage |
| Tracker.NominalWagesShown | mw_tracker/nl_mw_tracker.py:182-189 | with "Nominal" every row shows its nominal wage |
| Text.Round2 | mw_tracker/create_mw_archive.py:43 | the rounded value is a whole number of cents and lies within half a cent of the input |
| Text.ReplaceCharPointwise | mw_tracker/scraper.py:26 | a one-character `replace` keeps the length and maps each character on its own |
| Text.PyFloat | mw_tracker/scraper.py:28 | `float()` accepts no text without a digit |
| Text.PyInt | mw_tracker/create_mw_archive.py:29-30 | `int()` accepts only a stripped text that holds a digit, and a negative value only with a leading minus |
| Text.ReplaceAll | mw_tracker/create_mw_archive.py:17 | `str.replace` with a replacement no longer than the pattern never lengthens the text, and replacing a pattern by itself changes nothing |
| Text.Strip | mw_tracker/scraper.py:123 | `strip()` yields a piece of the text that starts and ends with a non-space |
| Text.Lower | mw_tracker/scraper.py:38 | `lower()` keeps the length and lower-cases each character on its own |
| Text.ParseWholeCents | mw_tracker/scraper.py:28 | `float()` of whole digits, a dot and two digits is whole + cents/100 |

`mw_tracker/nl_mw_tracker.py` repeats the loading code of `app.py`. Lines
88-131 there correspond to lines 102-145 here, so the `Pipeline` rows cover
both files. Its nominal wage, deflation, selection and growth are the
`Metrics` members with the key chosen by `Tracker.TrackerDeflatorKey`.

## Left out

- The Streamlit interface: widgets, session state and callbacks,
  translations, the y-axis range, the chart and the policy-event markers.
  Widget values are parameters of the model.
- Network access:
  - the page retrieval, link scan, `20\d{2}` year match, `MIN_YEAR` filter
    and URL de-duplication of `scrape_latest`, and the sorting and saving of
    its output. The model starts from a table's cell texts, the link text,
    the page title and the header text;
  - the `cbsodata` requests, the CPI spending-category filter and the search
    for the CAO column. A missing CAO column is the `None` CAO input of
    `Indices.IndexTable`.
- File I/O (`os.path.exists`, `read_csv`, `to_csv`, logging, printing).
  Files are in-memory sequences, and an absent file is `None`.
- The `st.cache_data` memoisation. It has no behaviour of its own.
- Text.Round2: rounds halves upwards on exact reals. Python's `round`
  rounds halves to even on binary floats, so a value exactly halfway between
  two cents may differ.
- Text.PyFloat: accepts only an optional sign, ASCII digits and one dot,
  without surrounding whitespace beyond ASCII. Exponents, "inf", "nan",
  underscores and non-ASCII digits are not modelled.
- Text.Strip: removes the ASCII characters `str.isspace` accepts (space,
  tab, line feed, vertical tab, form feed, carriage return and the
  separators U+001C to U+001F) and no others. Python's `strip()` also
  removes Unicode whitespace such as U+0085 and U+00A0, which scraped cells
  can hold.
- Text.PyInt: accepts an optional sign and ASCII digits only. Underscores
  between digits and non-ASCII digits, which `int()` accepts, are not
  modelled.
- Text.Lower: folds ASCII letters only. `\d` and `isdigit` are modelled on
  ASCII digits only.
- Metrics.Div: a zero divisor gives null. IEEE arithmetic would give ±inf
  (or NaN for 0/0); the model does not carry infinities.
- Pipeline.SortByDate: states sortedness and permutation only. pandas' sort
  is not stable, so the order of rows with equal Dates is not stated.
- Metrics.SortAges: the order of labels with equal keys (for instance two
  non-numeric labels) is not stated.
- Metrics.PricedRows: `Effective_Index` does not exist without deflation. The
  model carries a null there.
- Archive.AmountAt: an age column outside the cleaned list (for example
  "21+") keeps its raw text in pandas. The model reads such a cell as null
  and does not model arithmetic on text.
- Archive.CleanedCells: the full `Sheet` keeps only the columns the builder
  reads. A missing "Fulltime werkweek in bedrijf", "Section" or "Leeftijd"
  column is modelled as a null cell, not a KeyError.
- The page fetch's own failures in `scrape_latest` (a page without a title, a
  request error) are caught there and skip the page. They are outside the
  modelled rules.
