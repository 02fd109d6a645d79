/** Cleaning of the paired revenue/capital expenditure table
    (pages/3_State_Revex_Capex.py): each fiscal year occupies two adjacent
    columns, revenue expenditure (REx) then capital expenditure (CEx), and
    only the first of the two carries the year heading that is used.  The
    table is turned into long records of (state, value, year, type, start
    year), sorted by start year and state. */
module RevexCapex {
  import opened Wrappers
  import opened Text
  import opened Numeric
  import opened Sorting
  import opened Matching
  import Reshape

  /** A row as pandas reads it: the `States` cell (missing when pandas read
      NaN) and the value cells (missing when pandas read NaN). */
  datatype RawRow = RawRow(state: Option<string>, cells: seq<Option<string>>)

  /** The paired table: the labels of the value columns after `States`,
      and the rows. */
  datatype PairedTable = PairedTable(labels: seq<string>, rows: seq<RawRow>)

  /** A data frame is rectangular: every row has a cell per column. */
  predicate WellFormed(t: PairedTable)
  {
    forall i :: 0 <= i < |t.rows| ==> |t.rows[i].cells| == |t.labels|
  }

  datatype StateRow = StateRow(state: string, cells: seq<Option<string>>)

  datatype ExpenditureType = REx | CEx

  /** One long-form record: the columns States, Value, Year, Type and
      Year_Start of the cleaned frame. */
  datatype Record = Record(state: string, value: Option<real>, year: string,
                           kind: Option<ExpenditureType>, yearStart: int)

  /** The exceptions the cleaning raises: `iloc[0]` on an empty frame, a
      column-name list of the wrong length, and `astype(int)` on a missing
      year. */
  datatype CleaningError =
    | NoSubHeaderRow
    | LengthMismatch(expected: nat, given: nat)
    | YearMissing(column: string)

  // ------------------------------------------------------------ row filters

  /** `dropna(subset=['States'])`. */
  function DropMissingStates(rows: seq<RawRow>): (r: seq<StateRow>)
    ensures forall x :: x in r <==> RawRow(Some(x.state), x.cells) in rows
    ensures |r| <= |rows|
  {
    if |rows| == 0 then []
    else
      var rest := DropMissingStates(rows[1..]);
      assert rows == [rows[0]] + rows[1..];
      match rows[0].state
      case None => rest
      case Some(s) => [StateRow(s, rows[0].cells)] + rest
  }

  /** `dropna` keeps the surviving rows in order and with their
      multiplicity: one more row adds its own survivor at the end. */
  lemma {:induction false} DropMissingStatesAppend(rows: seq<RawRow>, x: RawRow)
    ensures DropMissingStates(rows + [x]) ==
              DropMissingStates(rows) + (if x.state.Some? then [StateRow(x.state.value, x.cells)] else [])
  {
    if |rows| == 0 {
      assert rows + [x] == [x];
    } else {
      assert (rows + [x])[1..] == rows[1..] + [x];
      DropMissingStatesAppend(rows[1..], x);
    }
  }

  const GrandTotalNames: seq<string> := ["total", "all states", "india total", "grand total"]

  /** The heading names a grand-total row, ignoring case and surrounding
      whitespace. */
  predicate IsGrandTotal(name: string)
  {
    Lower(Strip(name)) in GrandTotalNames
  }

  /** Drops the grand-total rows. */
  function DropGrandTotals(rows: seq<StateRow>): (r: seq<StateRow>)
    ensures forall x :: x in r <==> x in rows && !IsGrandTotal(x.state)
    ensures |r| <= |rows|
  {
    if |rows| == 0 then []
    else
      var rest := DropGrandTotals(rows[1..]);
      assert rows == [rows[0]] + rows[1..];
      if IsGrandTotal(rows[0].state) then rest else [rows[0]] + rest
  }

  /** The boolean mask keeps the surviving rows in order and with their
      multiplicity: one more row adds itself at the end unless it is a
      grand total. */
  lemma {:induction false} DropGrandTotalsAppend(rows: seq<StateRow>, x: StateRow)
    ensures DropGrandTotals(rows + [x]) == DropGrandTotals(rows) + (if IsGrandTotal(x.state) then [] else [x])
  {
    if |rows| == 0 {
      assert rows + [x] == [x];
    } else {
      assert (rows + [x])[1..] == rows[1..] + [x];
      DropGrandTotalsAppend(rows[1..], x);
    }
  }

  /** Letter case and surrounding whitespace do not hide a grand total. */
  lemma GrandTotalExample()
    ensures IsGrandTotal(" Grand TOTAL ")
    ensures !IsGrandTotal("Goa")
  {
    PaddedGrandTotal();
    GoaNotGrandTotal();
  }

  lemma PaddedGrandTotal()
    ensures IsGrandTotal(" Grand TOTAL ")
  {
    StripExample();
    LowerExample();
    TotalByName(" Grand TOTAL ", "grand total");
    GrandTotalListed();
  }

  lemma GrandTotalListed()
    ensures "grand total" in GrandTotalNames
  {
    assert GrandTotalNames[3] == "grand total";
  }

  lemma GoaNotGrandTotal()
    ensures !IsGrandTotal("Goa")
  {
    GoaExample();
    NotAGrandTotal("goa");
    TotalByName("Goa", "goa");
  }

  lemma TotalByName(name: string, lowered: string)
    requires Lower(Strip(name)) == lowered
    ensures IsGrandTotal(name) <==> lowered in GrandTotalNames
  {
  }

  lemma NotAGrandTotal(lowered: string)
    requires |lowered| == 3
    ensures lowered !in GrandTotalNames
  {
  }

  lemma GoaExample()
    ensures Lower(Strip("Goa")) == "goa"
  {
    GoaStrip("Goa");
    GoaLower("Goa");
  }

  lemma GoaStrip(s: string)
    requires s == "Goa"
    ensures Strip(s) == s
  {
    assert !IsSpace(s[0]) && !IsSpace(s[2]);
    assert TrimLeft(s) == s;
    assert TrimRight(s) == s;
  }

  lemma GoaLower(s: string)
    requires s == "Goa"
    ensures Lower(s) == "goa"
  {
    var r := Lower(s);
    assert r[0] == 'g' && r[1] == 'o' && r[2] == 'a';
  }

  lemma StripExample()
    ensures Strip(" Grand TOTAL ") == "Grand TOTAL"
  {
    var w := "Grand TOTAL";
    assert " Grand TOTAL " == [' '] + w + [' '];
    StripPadded(w);
  }

  /** One space on either side of a word is stripped, and only that. */
  lemma StripPadded(w: string)
    requires |w| > 0 && !IsSpace(w[0]) && !IsSpace(w[|w| - 1])
    ensures Strip([' '] + w + [' ']) == w
  {
    var s := [' '] + w + [' '];
    assert s[1..] == w + [' '];
    assert TrimLeft(s) == w + [' '];
    assert (w + [' '])[..|w|] == w;
    assert TrimRight(w + [' ']) == TrimRight(w);
  }

  lemma LowerExample()
    ensures Lower("Grand TOTAL") == "grand total"
  {
    LowerGrandTotal("Grand TOTAL", "grand total");
  }

  lemma LowerGrandTotal(s: string, t: string)
    requires s == "Grand TOTAL" && t == "grand total"
    ensures Lower(s) == t
  {
    LowerFirstWord(s, t);
    LowerSecondWord(s, t);
  }

  lemma LowerFirstWord(s: string, t: string)
    requires s == "Grand TOTAL" && t == "grand total"
    ensures forall i :: 0 <= i < 6 ==> Lower(s)[i] == t[i]
  {
    var r := Lower(s);
    assert r[0] == t[0] && r[1] == t[1] && r[2] == t[2] && r[3] == t[3] && r[4] == t[4] && r[5] == t[5];
  }

  lemma LowerSecondWord(s: string, t: string)
    requires s == "Grand TOTAL" && t == "grand total"
    ensures forall i :: 6 <= i < 11 ==> Lower(s)[i] == t[i]
  {
    LowerLettersTO(s, t);
    LowerLettersTAL(s, t);
  }

  lemma LowerLettersTO(s: string, t: string)
    requires s == "Grand TOTAL" && t == "grand total"
    ensures forall i :: 6 <= i < 8 ==> Lower(s)[i] == t[i]
  {
    var r := Lower(s);
    assert r[6] == t[6] && r[7] == t[7];
  }

  lemma LowerLettersTAL(s: string, t: string)
    requires s == "Grand TOTAL" && t == "grand total"
    ensures forall i :: 8 <= i < 11 ==> Lower(s)[i] == t[i]
  {
    var r := Lower(s);
    assert r[8] == t[8] && r[9] == t[9] && r[10] == t[10];
  }

  /** The rows left once the missing states and grand totals are gone; the
      first of them is the REx/CEx sub-header. */
  function KeptRows(t: PairedTable): seq<StateRow>
  {
    DropGrandTotals(DropMissingStates(t.rows))
  }

  // ------------------------------------------------------- column renaming

  /** `[f"{year}_REx", f"{year}_CEx"]` for every other heading, the first of
      each pair. */
  function PairNames(labels: seq<string>): (r: seq<string>)
    ensures |r| == 2 * ((|labels| + 1) / 2)
    ensures forall k :: 0 <= k < (|labels| + 1) / 2 ==>
              r[2 * k] == labels[2 * k] + "_REx" && r[2 * k + 1] == labels[2 * k] + "_CEx"
  {
    if |labels| == 0 then []
    else
      var rest := if |labels| >= 2 then PairNames(labels[2..]) else [];
      PairCons(labels, rest);
      [labels[0] + "_REx", labels[0] + "_CEx"] + rest
  }

  /** Naming the first pair in front of the named remaining pairs names
      every pair. */
  lemma PairCons(labels: seq<string>, rest: seq<string>)
    requires |labels| > 0
    requires |labels| < 2 ==> rest == []
    requires |labels| >= 2 ==> |rest| == 2 * ((|labels| - 1) / 2)
    requires |labels| >= 2 ==> forall k :: 0 <= k < (|labels| - 1) / 2 ==>
               rest[2 * k] == labels[2..][2 * k] + "_REx" && rest[2 * k + 1] == labels[2..][2 * k] + "_CEx"
    ensures var r := [labels[0] + "_REx", labels[0] + "_CEx"] + rest;
            |r| == 2 * ((|labels| + 1) / 2)
            && forall k :: 0 <= k < (|labels| + 1) / 2 ==>
                 r[2 * k] == labels[2 * k] + "_REx" && r[2 * k + 1] == labels[2 * k] + "_CEx"
  {
    var r := [labels[0] + "_REx", labels[0] + "_CEx"] + rest;
    forall k | 1 <= k < (|labels| + 1) / 2
      ensures r[2 * k] == labels[2 * k] + "_REx" && r[2 * k + 1] == labels[2 * k] + "_CEx"
    {
      var j := k - 1;
      assert labels[2..][2 * j] == labels[2 * k];
      assert r[2 * k] == rest[2 * j] && r[2 * k + 1] == rest[2 * j + 1];
    }
  }

  /** The heading that column `c` takes its year from: the first of its pair. */
  function PairLabel(labels: seq<string>, c: nat): string
    requires c < |labels|
  {
    labels[c - c % 2]
  }

  function TypeSuffix(c: nat): string
  {
    if c % 2 == 0 then "_REx" else "_CEx"
  }

  /** Assigning the new column names: the list built from every other heading
      only fits when the value columns come in whole pairs. */
  function RenameColumns(labels: seq<string>): (r: Result<seq<string>, CleaningError>)
    ensures r.Success? <==> |labels| % 2 == 0
    ensures r.Success? ==> |r.value| == |labels|
    ensures r.Success? ==> forall c :: 0 <= c < |labels| ==>
              r.value[c] == PairLabel(labels, c) + TypeSuffix(c)
    ensures r.Failure? ==> r.error == LengthMismatch(|labels| + 1, |labels| + 2)
  {
    var names := PairNames(labels);
    if |names| != |labels| then Failure(LengthMismatch(|labels| + 1, |names| + 1))
    else
      assert forall c :: 0 <= c < |labels| && c % 2 == 0 ==> c == 2 * (c / 2);
      assert forall c :: 0 <= c < |labels| && c % 2 == 1 ==> c == 2 * (c / 2) + 1 && c - c % 2 == 2 * (c / 2);
      Success(names)
  }

  /** The second heading of each pair is never read. */
  lemma RenameIgnoresSecondLabels(a: seq<string>, b: seq<string>)
    requires |a| == |b|
    requires forall c :: 0 <= c < |a| && c % 2 == 0 ==> a[c] == b[c]
    ensures RenameColumns(a) == RenameColumns(b)
  {
    var ra, rb := RenameColumns(a), RenameColumns(b);
    if ra.Success? {
      forall c | 0 <= c < |a|
        ensures ra.value[c] == rb.value[c]
      {
        SamePairLabel(a, b, c);
      }
      assert ra.value == rb.value;
    }
  }

  lemma SamePairLabel(a: seq<string>, b: seq<string>, c: nat)
    requires |a| == |b| && c < |a|
    requires forall c :: 0 <= c < |a| && c % 2 == 0 ==> a[c] == b[c]
    ensures PairLabel(a, c) == PairLabel(b, c)
  {
    assert (c - c % 2) % 2 == 0;
  }

  /** Repeated year labels: each year's first column becomes REx, its second
      CEx. */
  lemma RenameExample()
    ensures RenameColumns(["2012-13", "2012-13", "2013-14", "2013-14"])
            == Success(["2012-13_REx", "2012-13_CEx", "2013-14_REx", "2013-14_CEx"])
  {
    var labels := ["2012-13", "2012-13", "2013-14", "2013-14"];
    var r := RenameColumns(labels);
    assert r.Success?;
    assert PairLabel(labels, 1) == labels[0] && PairLabel(labels, 3) == labels[2];
    assert r.value[0] == "2012-13_REx" && r.value[1] == "2012-13_CEx";
    assert r.value[2] == "2013-14_REx" && r.value[3] == "2013-14_CEx";
    assert r.value == ["2012-13_REx", "2012-13_CEx", "2013-14_REx", "2013-14_CEx"];
  }

  // -------------------------------------------------- year and type fields

  /** `\d{4}-\d{2}`. */
  predicate IsYearToken(s: string)
  {
    |s| == 7 && AllDigits(s[..4]) && s[4] == '-' && AllDigits(s[5..])
  }

  /** `REx|CEx`. */
  predicate IsTypeToken(s: string)
  {
    s == "REx" || s == "CEx"
  }

  /** `str.extract(r"(\d{4}-\d{2})")`. */
  function FindYear(heading: string): (r: Option<string>)
    ensures r.None? <==> forall j :: 0 <= j ==> !MatchAt(heading, 7, IsYearToken, j)
    ensures r.Some? ==> IsYearToken(r.value)
                        && exists j :: LeftmostAt(heading, 7, IsYearToken, j) && r.value == heading[j..j + 7]
  {
    Extract(heading, 7, IsYearToken)
  }

  /** `str.extract(r"(REx|CEx)")`. */
  function FindType(heading: string): (r: Option<ExpenditureType>)
    ensures r.None? <==> forall j :: 0 <= j ==> !MatchAt(heading, 3, IsTypeToken, j)
    ensures r.Some? ==> exists j :: LeftmostAt(heading, 3, IsTypeToken, j)
                                    && heading[j..j + 3] == (if r.value == REx then "REx" else "CEx")
  {
    match Extract(heading, 3, IsTypeToken)
    case None => None
    case Some(t) => Some(if t == "REx" then REx else CEx)
  }

  /** `Year.str[:4].astype(int)`: the start year of a year token. */
  function YearStart(year: string): (y: int)
    requires IsYearToken(year)
    ensures 0 <= y <= 9999
  {
    DigitsBound(year[..4]);
    DigitsValue(year[..4])
  }

  lemma {:induction false} DigitsBound(s: string)
    requires AllDigits(s)
    ensures DigitsValue(s) < Power10(|s|)
  {
    if |s| > 0 {
      DigitsBound(s[..|s| - 1]);
    }
  }

  function Power10(n: nat): nat
  {
    if n == 0 then 1 else 10 * Power10(n - 1)
  }

  /** A window that crosses into the `_` of a type suffix is never a year
      or type token, so the suffix adds no year and only its own type. */
  lemma SuffixWindows(heading: string, c: nat)
    ensures forall j :: 0 <= j < |heading| && |heading| < j + 7 ==> !MatchAt(heading + TypeSuffix(c), 7, IsYearToken, j)
    ensures forall j :: 0 <= j < |heading| && |heading| < j + 3 ==> !MatchAt(heading + TypeSuffix(c), 3, IsTypeToken, j)
  {
    var s := heading + TypeSuffix(c);
    assert s[|heading|] == '_';
    forall j | 0 <= j < |heading| && |heading| < j + 7
      ensures !MatchAt(s, 7, IsYearToken, j)
    {
      if j + 7 <= |s| {
        var w := s[j..j + 7];
        var p := |heading| - j;
        assert w[p] == '_';
        if p < 4 {
          assert w[..4][p] == '_';
        } else if p > 4 {
          assert w[5..][p - 5] == '_';
        }
      }
    }
    forall j | 0 <= j < |heading| && |heading| < j + 3
      ensures !MatchAt(s, 3, IsTypeToken, j)
    {
      if j + 3 <= |s| {
        assert s[j..j + 3][|heading| - j] == '_';
      }
    }
  }

  /** A renamed column carries the year of its pair's heading. */
  lemma YearOfRenamed(heading: string, c: nat)
    ensures FindYear(heading + TypeSuffix(c)) == FindYear(heading)
  {
    SuffixWindows(heading, c);
    ExtractAppend(heading, TypeSuffix(c), 7, IsYearToken);
    if FindYear(heading).None? {
      var b := TypeSuffix(c);
      assert forall j :: 0 <= j ==> !MatchAt(b, 7, IsYearToken, j);
    }
  }

  /** A renamed column's type is REx for the first of a pair and CEx for the
      second, unless the year heading itself already contains REx or CEx. */
  lemma TypeOfRenamed(heading: string, c: nat)
    requires Extract(heading, 3, IsTypeToken).None?
    ensures FindType(heading + TypeSuffix(c)) == Some(if c % 2 == 0 then REx else CEx)
  {
    SuffixWindows(heading, c);
    ExtractAppend(heading, TypeSuffix(c), 3, IsTypeToken);
    SuffixType(c);
  }

  /** The suffix on its own names its type. */
  lemma SuffixType(c: nat)
    ensures Extract(TypeSuffix(c), 3, IsTypeToken) == Some(if c % 2 == 0 then "REx" else "CEx")
  {
    if c % 2 == 0 {
      RExSuffix();
    } else {
      CExSuffix();
    }
  }

  lemma RExSuffix()
    ensures Extract("_REx", 3, IsTypeToken) == Some("REx")
  {
    var b := "_REx";
    assert !IsTypeToken(b[0..3]) by { assert b[0..3][0] == '_'; }
    assert b[1..4] == "REx";
  }

  lemma CExSuffix()
    ensures Extract("_CEx", 3, IsTypeToken) == Some("CEx")
  {
    var b := "_CEx";
    assert !IsTypeToken(b[0..3]) by { assert b[0..3][0] == '_'; }
    assert b[1..4] == "CEx";
  }

  lemma RenamedHasType(heading: string, c: nat)
    ensures FindType(heading + TypeSuffix(c)).Some?
  {
    SuffixWindows(heading, c);
    ExtractAppend(heading, TypeSuffix(c), 3, IsTypeToken);
    SuffixType(c);
  }

  // ------------------------------------------------------- record building

  function ToRecord(m: Reshape.Melted<Option<real>>): (r: Record)
    requires FindYear(m.variable).Some?
    ensures r.state == m.id && r.value == m.value
    ensures IsYearToken(r.year) && r.yearStart == DigitsValue(r.year[..4])
  {
    var year := FindYear(m.variable).value;
    Record(m.id, m.value, year, FindType(m.variable), YearStart(year))
  }

  /** Year, Type and Year_Start for every melted record; a column without
      a year makes the integer conversion raise. */
  function ToRecords(ms: seq<Reshape.Melted<Option<real>>>): (r: Result<seq<Record>, CleaningError>)
    ensures r.Success? <==> forall k :: 0 <= k < |ms| ==> FindYear(ms[k].variable).Some?
    ensures r.Success? ==> |r.value| == |ms|
    ensures r.Success? ==> forall k :: 0 <= k < |ms| ==> r.value[k] == ToRecord(ms[k])
    ensures r.Failure? ==> exists k :: 0 <= k < |ms| && r.error == YearMissing(ms[k].variable) && FindYear(ms[k].variable).None?
  {
    match Reshape.FirstRejected(ms, (m: Reshape.Melted<Option<real>>) => FindYear(m.variable).Some?)
    case Some(k) => Failure(YearMissing(ms[k].variable))
    case None => Success(seq(|ms|, k requires 0 <= k < |ms| => ToRecord(ms[k])))
  }

  // ----------------------------------------------------------- the pipeline

  function CleanRow(row: StateRow): (r: seq<Option<real>>)
    ensures |r| == |row.cells|
    ensures forall j :: 0 <= j < |r| ==> r[j] == CleanPairedCell(row.cells[j])
  {
    seq(|row.cells|, j requires 0 <= j < |row.cells| => CleanPairedCell(row.cells[j]))
  }

  function States(rows: seq<StateRow>): (r: seq<string>)
    ensures |r| == |rows| && forall i :: 0 <= i < |rows| ==> r[i] == rows[i].state
  {
    seq(|rows|, i requires 0 <= i < |rows| => rows[i].state)
  }

  function CleanRows(rows: seq<StateRow>): (r: seq<seq<Option<real>>>)
    ensures |r| == |rows| && forall i :: 0 <= i < |rows| ==> r[i] == CleanRow(rows[i])
  {
    seq(|rows|, i requires 0 <= i < |rows| => CleanRow(rows[i]))
  }

  lemma KeptRowsShape(t: PairedTable)
    requires WellFormed(t)
    ensures forall i :: 0 <= i < |KeptRows(t)| ==> |KeptRows(t)[i].cells| == |t.labels|
  {
    var named := DropMissingStates(t.rows);
    forall i | 0 <= i < |KeptRows(t)|
      ensures |KeptRows(t)[i].cells| == |t.labels|
    {
      var x := KeptRows(t)[i];
      assert x in KeptRows(t);
      assert RawRow(Some(x.state), x.cells) in t.rows;
    }
  }

  /** The state rows below the sub-header row (which `iloc[0]` consumes). */
  function Body(t: PairedTable): (r: seq<StateRow>)
    requires WellFormed(t) && |KeptRows(t)| > 0
    ensures |r| == |KeptRows(t)| - 1
    ensures forall i :: 0 <= i < |r| ==> r[i] == KeptRows(t)[i + 1] && |r[i].cells| == |t.labels|
  {
    KeptRowsShape(t);
    KeptRows(t)[1..]
  }

  /** The body melted to long form under the renamed columns. */
  function MeltedBody(t: PairedTable): seq<Reshape.Melted<Option<real>>>
    requires WellFormed(t) && |KeptRows(t)| > 0 && |t.labels| % 2 == 0
  {
    Reshape.Melt(States(Body(t)), RenameColumns(t.labels).value, CleanRows(Body(t)))
  }

  /** The cleaned rows melted into records, before sorting. */
  function Unsorted(t: PairedTable): (r: Result<seq<Record>, CleaningError>)
    requires WellFormed(t)
    ensures |KeptRows(t)| == 0 ==> r == Failure(NoSubHeaderRow)
    ensures |KeptRows(t)| > 0 && |t.labels| % 2 == 1 ==> r == Failure(LengthMismatch(|t.labels| + 1, |t.labels| + 2))
    ensures r.Success? ==> |r.value| == |t.labels| * (|KeptRows(t)| - 1)
    ensures r.Failure? && |KeptRows(t)| > 0 && |t.labels| % 2 == 0 ==>
              exists c :: 0 <= c < |t.labels| && r.error == YearMissing(PairLabel(t.labels, c) + TypeSuffix(c))
                          && FindYear(PairLabel(t.labels, c) + TypeSuffix(c)).None?
  {
    if |KeptRows(t)| == 0 then Failure(NoSubHeaderRow)
    else
      match RenameColumns(t.labels)
      case Failure(e) => Failure(e)
      case Success(_) =>
        MeltedBodyHeadings(t);
        ToRecords(MeltedBody(t))
  }

  /** Every melted entry carries the renamed heading of one value column. */
  lemma MeltedBodyHeadings(t: PairedTable)
    requires WellFormed(t) && |KeptRows(t)| > 0 && |t.labels| % 2 == 0
    ensures |MeltedBody(t)| == |t.labels| * |Body(t)|
    ensures forall k :: 0 <= k < |MeltedBody(t)| ==>
              exists c :: 0 <= c < |t.labels| && MeltedBody(t)[k].variable == PairLabel(t.labels, c) + TypeSuffix(c)
  {
    forall k | 0 <= k < |MeltedBody(t)|
      ensures exists c :: 0 <= c < |t.labels| && MeltedBody(t)[k].variable == PairLabel(t.labels, c) + TypeSuffix(c)
    {
      var c, i := MeltedBodyOrigin(t, k);
    }
  }

  predicate RecordLe(a: Record, b: Record)
  {
    a.yearStart < b.yearStart || (a.yearStart == b.yearStart && LexLe(a.state, b.state))
  }

  lemma RecordLeIsTotalPreorder()
    ensures TotalPreorder(RecordLe)
  {
    forall a: Record, b: Record
      ensures RecordLe(a, b) || RecordLe(b, a)
    {
      LexLeTotal(a.state, b.state);
    }
    forall a: Record, b: Record, c: Record | RecordLe(a, b) && RecordLe(b, c)
      ensures RecordLe(a, c)
    {
      if a.yearStart == b.yearStart == c.yearStart {
        LexLeTransitive(a.state, b.state, c.state);
      }
    }
  }

  /** The whole cleaning of the paired table. */
  function CleanRevexCapex(t: PairedTable): (r: Result<seq<Record>, CleaningError>)
    requires WellFormed(t)
    ensures Unsorted(t).Failure? ==> r == Unsorted(t)
    ensures r.Success? ==> SortedBy(r.value, RecordLe)
    ensures r.Success? ==> multiset(r.value) == multiset(Unsorted(t).value)
  {
    match Unsorted(t)
    case Failure(e) => Failure(e)
    case Success(records) =>
      RecordLeIsTotalPreorder();
      Success(SortBy(records, RecordLe))
  }

  // ------------------------------------------------------------ properties

  /** The multi-key sort is stable: records with the same (Year_Start,
      States) keep their melted order, so a pair's REx record precedes its
      CEx record. */
  lemma CleanRevexCapexStable(t: PairedTable, x: Record)
    requires WellFormed(t) && CleanRevexCapex(t).Success?
    ensures Level(CleanRevexCapex(t).value, x, RecordLe) == Level(Unsorted(t).value, x, RecordLe)
  {
    RecordLeIsTotalPreorder();
    SortByStable(Unsorted(t).value, x, RecordLe);
  }

  /** The error cases: no row left for the sub-header, value columns not in
      whole pairs, or a pair label without a year while there are rows to
      convert.  Otherwise the cleaning succeeds. */
  lemma CleanRevexCapexErrors(t: PairedTable)
    requires WellFormed(t)
    ensures |KeptRows(t)| == 0 ==> CleanRevexCapex(t) == Failure(NoSubHeaderRow)
    ensures |KeptRows(t)| > 0 && |t.labels| % 2 == 1 ==>
              CleanRevexCapex(t) == Failure(LengthMismatch(|t.labels| + 1, |t.labels| + 2))
    ensures |KeptRows(t)| > 0 && |t.labels| % 2 == 0 ==>
              (CleanRevexCapex(t).Success? <==> |KeptRows(t)| == 1 || AllPairsDated(t.labels))
  {
    if |KeptRows(t)| == 0 {
      assert Unsorted(t) == Failure(NoSubHeaderRow);
    } else if |t.labels| % 2 == 1 {
      assert Unsorted(t) == Failure(LengthMismatch(|t.labels| + 1, |t.labels| + 2));
    } else {
      MeltedBodyDated(t);
    }
  }

  /** Every pair of value columns carries a year in its first label. */
  predicate AllPairsDated(labels: seq<string>)
  {
    forall k :: 0 <= k < |labels| && k % 2 == 0 ==> FindYear(labels[k]).Some?
  }

  /** The melted entry of body row `i` and value column `c`. */
  lemma MeltedBodyAt(t: PairedTable, c: nat, i: nat)
    requires WellFormed(t) && |KeptRows(t)| > 0 && |t.labels| % 2 == 0
    requires c < |t.labels| && i < |Body(t)|
    ensures Reshape.Position(c, i, |Body(t)|) < |MeltedBody(t)|
    ensures MeltedBody(t)[Reshape.Position(c, i, |Body(t)|)]
              == Reshape.Melted(Body(t)[i].state, PairLabel(t.labels, c) + TypeSuffix(c),
                                CleanPairedCell(Body(t)[i].cells[c]))
  {
    var body := Body(t);
    assert CleanRows(body)[i][c] == CleanPairedCell(body[i].cells[c]);
  }

  /** Every melted entry comes from one body row and one value column. */
  lemma MeltedBodyOrigin(t: PairedTable, k: nat) returns (c: nat, i: nat)
    requires WellFormed(t) && |KeptRows(t)| > 0 && |t.labels| % 2 == 0
    requires k < |MeltedBody(t)|
    ensures c < |t.labels| && i < |Body(t)| && k == Reshape.Position(c, i, |Body(t)|)
    ensures MeltedBody(t)[k]
              == Reshape.Melted(Body(t)[i].state, PairLabel(t.labels, c) + TypeSuffix(c),
                                CleanPairedCell(Body(t)[i].cells[c]))
  {
    var body := Body(t);
    c, i := Reshape.MeltOrigin(States(body), RenameColumns(t.labels).value, CleanRows(body), k);
    MeltedBodyAt(t, c, i);
  }

  lemma MeltedBodyDated(t: PairedTable)
    requires WellFormed(t) && |KeptRows(t)| > 0 && |t.labels| % 2 == 0
    ensures (forall k :: 0 <= k < |MeltedBody(t)| ==> FindYear(MeltedBody(t)[k].variable).Some?)
            <==> |KeptRows(t)| == 1 || AllPairsDated(t.labels)
  {
    if |Body(t)| == 0 {
      EmptyMeltedBody(t);
    } else if AllPairsDated(t.labels) {
      DatedMeltedBody(t);
    } else {
      var k := UndatedMeltedBody(t);
    }
  }

  lemma EmptyMeltedBody(t: PairedTable)
    requires WellFormed(t) && |KeptRows(t)| > 0 && |t.labels| % 2 == 0
    requires |Body(t)| == 0
    ensures |MeltedBody(t)| == 0
  {
    assert |MeltedBody(t)| == |t.labels| * 0;
  }

  /** A pair whose first heading has no year leaves a melted entry without
      one, as soon as there is a body row. */
  lemma UndatedMeltedBody(t: PairedTable) returns (k: nat)
    requires WellFormed(t) && |KeptRows(t)| > 0 && |t.labels| % 2 == 0
    requires |Body(t)| > 0 && !AllPairsDated(t.labels)
    ensures k < |MeltedBody(t)| && FindYear(MeltedBody(t)[k].variable).None?
  {
    var c :| 0 <= c < |t.labels| && c % 2 == 0 && FindYear(t.labels[c]).None?;
    PairLabelEven(t.labels, c);
    YearOfRenamed(t.labels[c], c);
    MeltedBodyAt(t, c, 0);
    k := Reshape.Position(c, 0, |Body(t)|);
    assert MeltedBody(t)[k].variable == t.labels[c] + TypeSuffix(c);
  }

  lemma PairLabelEven(labels: seq<string>, c: nat)
    requires c < |labels| && c % 2 == 0
    ensures PairLabel(labels, c) == labels[c]
  {
  }

  lemma DatedMeltedBody(t: PairedTable)
    requires WellFormed(t) && |KeptRows(t)| > 0 && |t.labels| % 2 == 0
    requires AllPairsDated(t.labels)
    ensures forall k :: 0 <= k < |MeltedBody(t)| ==> FindYear(MeltedBody(t)[k].variable).Some?
  {
    forall k | 0 <= k < |MeltedBody(t)|
      ensures FindYear(MeltedBody(t)[k].variable).Some?
    {
      var c, i := MeltedBodyOrigin(t, k);
      YearOfRenamed(PairLabel(t.labels, c), c);
      PairLabelDated(t.labels, c);
    }
  }

  lemma PairLabelDated(labels: seq<string>, c: nat)
    requires AllPairsDated(labels) && c < |labels|
    ensures FindYear(PairLabel(labels, c)).Some?
  {
    assert (c - c % 2) % 2 == 0;
  }

  /** The record of body row `i` and value column `c`, as it stands before
      the final sort. */
  lemma UnsortedRecord(t: PairedTable, i: nat, c: nat)
    requires WellFormed(t) && Unsorted(t).Success?
    requires i + 1 < |KeptRows(t)| && c < |t.labels|
    ensures Reshape.Position(c, i, |Body(t)|) < |Unsorted(t).value|
    ensures var x := Unsorted(t).value[Reshape.Position(c, i, |Body(t)|)];
      var row := Body(t)[i];
      && x.state == row.state
      && x.value == CleanPairedCell(row.cells[c])
      && Some(x.year) == FindYear(PairLabel(t.labels, c))
      && x.yearStart == DigitsValue(x.year[..4])
      && (Extract(PairLabel(t.labels, c), 3, IsTypeToken).None? ==>
            x.kind == Some(if c % 2 == 0 then REx else CEx))
  {
    MeltedBodyAt(t, c, i);
    var k := Reshape.Position(c, i, |Body(t)|);
    var m := MeltedBody(t)[k];
    var row := Body(t)[i];
    var heading := PairLabel(t.labels, c);
    assert m == Reshape.Melted(row.state, heading + TypeSuffix(c), CleanPairedCell(row.cells[c]));
    assert FindYear(m.variable).Some?;
    assert Unsorted(t).value[k] == ToRecord(m);
    RenamedRecord(row.state, heading, c, CleanPairedCell(row.cells[c]));
  }

  /** The record built from a renamed column keeps the original label's year
      and, when that label names no type, takes the suffix's type. */
  lemma RenamedRecord(state: string, heading: string, c: nat, v: Option<real>)
    requires FindYear(heading + TypeSuffix(c)).Some?
    ensures var x := ToRecord(Reshape.Melted(state, heading + TypeSuffix(c), v));
      && x.state == state && x.value == v
      && Some(x.year) == FindYear(heading)
      && (Extract(heading, 3, IsTypeToken).None? ==> x.kind == Some(if c % 2 == 0 then REx else CEx))
  {
    YearOfRenamed(heading, c);
    if Extract(heading, 3, IsTypeToken).None? {
      TypeOfRenamed(heading, c);
    }
  }

  /** One record per (value column, state row): the cleaned frame has
      (value columns) * (kept rows - 1) records. */
  lemma CleanRevexCapexSize(t: PairedTable)
    requires WellFormed(t) && CleanRevexCapex(t).Success?
    ensures |CleanRevexCapex(t).value| == |t.labels| * (|KeptRows(t)| - 1)
  {
    assert |multiset(CleanRevexCapex(t).value)| == |multiset(Unsorted(t).value)|;
    assert |Unsorted(t).value| == |MeltedBody(t)|;
  }

  /** Every output record names a state that was present and is not a grand
      total, carries a `dddd-dd` year whose first four digits are its start
      year, and has a type. */
  lemma CleanRevexCapexRecords(t: PairedTable)
    requires WellFormed(t) && CleanRevexCapex(t).Success?
    ensures forall x :: x in CleanRevexCapex(t).value ==>
              && !IsGrandTotal(x.state)
              && (exists cells :: RawRow(Some(x.state), cells) in t.rows)
              && IsYearToken(x.year) && x.yearStart == DigitsValue(x.year[..4])
              && x.kind.Some?
  {
    forall x | x in CleanRevexCapex(t).value
      ensures !IsGrandTotal(x.state)
      ensures exists cells :: RawRow(Some(x.state), cells) in t.rows
      ensures IsYearToken(x.year) && x.yearStart == DigitsValue(x.year[..4])
      ensures x.kind.Some?
    {
      UnsortedOrigin(t, x);
    }
  }

  lemma UnsortedOrigin(t: PairedTable, x: Record)
    requires WellFormed(t) && Unsorted(t).Success? && x in multiset(Unsorted(t).value)
    ensures !IsGrandTotal(x.state)
    ensures exists cells :: RawRow(Some(x.state), cells) in t.rows
    ensures IsYearToken(x.year) && x.yearStart == DigitsValue(x.year[..4])
    ensures x.kind.Some?
  {
    var u := Unsorted(t).value;
    var k :| 0 <= k < |u| && u[k] == x;
    var c, i := MeltedBodyOrigin(t, k);
    var row := Body(t)[i];
    assert row in KeptRows(t);
    assert RawRow(Some(row.state), row.cells) in t.rows;
    RenamedHasType(PairLabel(t.labels, c), c);
  }
}
