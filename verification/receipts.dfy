/** The revenue-receipts page: `load_finances` (commas stripped and every
    value column coerced to a number or missing, the first column left as
    read), then the state filter, the melt to (state, year, value), the
    integer year from the first four characters of the column heading and the
    state's initials. */
module Receipts {
  import opened Wrappers
  import opened Text
  import Numeric
  import Reshape
  import Registry

  /** One row of the raw wide table: the first column (`States`) and the
      value cells, missing when the CSV cell was empty. */
  datatype WideRow = WideRow(state: Option<string>, cells: seq<Option<string>>)

  datatype WideTable = WideTable(labels: seq<string>, rows: seq<WideRow>)

  predicate WellFormed(t: WideTable)
  {
    forall i :: 0 <= i < |t.rows| ==> |t.rows[i].cells| == |t.labels|
  }

  datatype FinanceRow = FinanceRow(state: Option<string>, values: seq<Option<real>>)

  datatype Finances = Finances(labels: seq<string>, rows: seq<FinanceRow>)

  function CoerceRow(row: WideRow): (r: FinanceRow)
    ensures r.state == row.state && |r.values| == |row.cells|
    ensures forall j :: 0 <= j < |row.cells| ==> r.values[j] == Numeric.CoerceCell(row.cells[j])
  {
    FinanceRow(row.state, seq(|row.cells|, j requires 0 <= j < |row.cells| => Numeric.CoerceCell(row.cells[j])))
  }

  /** `load_finances`: every column after the first is coerced; the first
      column and the column labels are kept as read. */
  function LoadFinances(t: WideTable): (r: Finances)
    ensures r.labels == t.labels && |r.rows| == |t.rows|
    ensures forall i :: 0 <= i < |t.rows| ==> r.rows[i] == CoerceRow(t.rows[i])
  {
    Finances(t.labels, seq(|t.rows|, i requires 0 <= i < |t.rows| => CoerceRow(t.rows[i])))
  }

  /** Nothing raises: the first column is kept, an empty cell stays
      missing, and a cell becomes a number exactly when it is a numeral once
      its commas are removed (a cell without commas: when it is a numeral
      as it stands). */
  lemma LoadFinancesCoerces(t: WideTable, i: nat, j: nat)
    requires WellFormed(t) && i < |t.rows| && j < |t.labels|
    ensures LoadFinances(t).rows[i].state == t.rows[i].state
    ensures |LoadFinances(t).rows[i].values| == |t.labels|
    ensures t.rows[i].cells[j].None? ==> LoadFinances(t).rows[i].values[j].None?
    ensures t.rows[i].cells[j].Some? ==>
              (LoadFinances(t).rows[i].values[j].Some? <==> Numeric.IsNumeral(RemoveChar(t.rows[i].cells[j].value, ',')))
    ensures t.rows[i].cells[j].Some? && ',' !in t.rows[i].cells[j].value ==>
              (LoadFinances(t).rows[i].values[j].Some? <==> Numeric.IsNumeral(t.rows[i].cells[j].value))
  {
    var cell := t.rows[i].cells[j];
    if cell.Some? && ',' !in cell.value {
      RemoveCharAbsent(cell.value, ',');
    }
  }

  // ---------------------------------------------------------------- page 1

  /** `data[data['States'].isin(states)]`: a missing state is never in the
      selection. */
  function SelectStates(rows: seq<FinanceRow>, selected: seq<string>): (r: seq<FinanceRow>)
    ensures forall x :: x in r <==> x in rows && x.state.Some? && x.state.value in selected
    ensures forall x :: x in r ==> x.state.Some?
  {
    if |rows| == 0 then []
    else
      var rest := SelectStates(rows[1..], selected);
      assert rows == [rows[0]] + rows[1..];
      if rows[0].state.Some? && rows[0].state.value in selected then [rows[0]] + rest else rest
  }

  /** The `isin` mask keeps the selected rows in order and with their
      multiplicity: one more row adds itself at the end when its state is
      selected. */
  lemma {:induction false} SelectStatesAppend(rows: seq<FinanceRow>, selected: seq<string>, x: FinanceRow)
    ensures SelectStates(rows + [x], selected) ==
              SelectStates(rows, selected) + (if x.state.Some? && x.state.value in selected then [x] else [])
  {
    if |rows| == 0 {
      assert rows + [x] == [x];
    } else {
      assert (rows + [x])[1..] == rows[1..] + [x];
      SelectStatesAppend(rows[1..], selected, x);
    }
  }

  function StateNames(rows: seq<FinanceRow>): (r: seq<string>)
    requires forall x :: x in rows ==> x.state.Some?
    ensures |r| == |rows| && forall i :: 0 <= i < |rows| ==> r[i] == rows[i].state.value
  {
    seq(|rows|, i requires 0 <= i < |rows| => assert rows[i] in rows; rows[i].state.value)
  }

  function Values(rows: seq<FinanceRow>): (r: seq<seq<Option<real>>>)
    ensures |r| == |rows| && forall i :: 0 <= i < |rows| ==> r[i] == rows[i].values
  {
    seq(|rows|, i requires 0 <= i < |rows| => rows[i].values)
  }

  /** `heading.str[:4]`: at most the first four characters. */
  function FirstFour(heading: string): (r: string)
    ensures |r| == (if |heading| < 4 then |heading| else 4) && r == heading[..|r|]
  {
    if |heading| < 4 then heading else heading[..4]
  }

  /** `.astype(int)` accepts the heading's first four characters (all of it
      when shorter): a non-empty run of ASCII decimal digits. */
  predicate YearReadable(heading: string)
  {
    |FirstFour(heading)| > 0 && AllDigits(FirstFour(heading))
  }

  datatype ReceiptError = BadYear(heading: string)

  /** One long-form row of page 1. */
  datatype Receipt = Receipt(state: string, year: int, value: Option<real>, initial: Option<string>)

  function ToReceipt(m: Reshape.Melted<Option<real>>): (r: Receipt)
    requires YearReadable(m.variable)
    ensures r.state == m.id && r.value == m.value
    ensures r.initial == Registry.InitialOf(m.id)
  {
    Receipt(m.id, DigitsValue(FirstFour(m.variable)), m.value, Registry.InitialOf(m.id))
  }

  /** The `Year` column: every heading converts, or the first that does
      not is reported. */
  function ToReceipts(ms: seq<Reshape.Melted<Option<real>>>): (r: Result<seq<Receipt>, ReceiptError>)
    ensures r.Success? <==> forall k :: 0 <= k < |ms| ==> YearReadable(ms[k].variable)
    ensures r.Success? ==> |r.value| == |ms| && forall k :: 0 <= k < |ms| ==> r.value[k] == ToReceipt(ms[k])
    ensures r.Failure? ==> exists k :: 0 <= k < |ms| && r.error == BadYear(ms[k].variable) && !YearReadable(ms[k].variable)
  {
    match Reshape.FirstRejected(ms, (m: Reshape.Melted<Option<real>>) => YearReadable(m.variable))
    case Some(k) => Failure(BadYear(ms[k].variable))
    case None => Success(seq(|ms|, k requires 0 <= k < |ms| => ToReceipt(ms[k])))
  }

  predicate Rectangular(f: Finances)
  {
    forall i :: 0 <= i < |f.rows| ==> |f.rows[i].values| == |f.labels|
  }

  function Selected(f: Finances, selected: seq<string>): (r: seq<FinanceRow>)
    requires Rectangular(f)
    ensures forall x :: x in r <==> x in f.rows && x.state.Some? && x.state.value in selected
    ensures forall x :: x in r ==> x.state.Some?
    ensures forall i :: 0 <= i < |r| ==> |r[i].values| == |f.labels|
  {
    var r := SelectStates(f.rows, selected);
    assert forall i :: 0 <= i < |r| ==> r[i] in f.rows;
    r
  }

  function MeltedReceipts(f: Finances, selected: seq<string>): seq<Reshape.Melted<Option<real>>>
    requires Rectangular(f)
  {
    var rows := Selected(f, selected);
    Reshape.Melt(StateNames(rows), f.labels, Values(rows))
  }

  /** The page's long table: selected states, melted, with integer years and
      initials. */
  function ReceiptsLong(f: Finances, selected: seq<string>): (r: Result<seq<Receipt>, ReceiptError>)
    requires Rectangular(f)
    ensures r.Success? ==> |r.value| == |f.labels| * |Selected(f, selected)|
    ensures r.Failure? ==> exists c :: 0 <= c < |f.labels| && r.error == BadYear(f.labels[c])
                                         && !YearReadable(f.labels[c])
  {
    MeltedHeadings(f, selected);
    ToReceipts(MeltedReceipts(f, selected))
  }

  /** Every melted record carries one of the frame's column headings. */
  lemma MeltedHeadings(f: Finances, selected: seq<string>)
    requires Rectangular(f)
    ensures |MeltedReceipts(f, selected)| == |f.labels| * |Selected(f, selected)|
    ensures forall k :: 0 <= k < |MeltedReceipts(f, selected)| ==>
              exists c :: 0 <= c < |f.labels| && MeltedReceipts(f, selected)[k].variable == f.labels[c]
  {
    var rows := Selected(f, selected);
    var ms := MeltedReceipts(f, selected);
    forall k | 0 <= k < |ms|
      ensures exists c :: 0 <= c < |f.labels| && ms[k].variable == f.labels[c]
    {
      var c, i := Reshape.MeltOrigin(StateNames(rows), f.labels, Values(rows), k);
    }
  }

  lemma LoadedRectangular(t: WideTable)
    requires WellFormed(t)
    ensures Rectangular(LoadFinances(t))
  {
  }

  /** The year conversion raises exactly when some state is kept and some
      column heading has a non-digit among its first four characters, or is
      empty. */
  lemma ReceiptsLongErrors(f: Finances, selected: seq<string>)
    requires Rectangular(f)
    ensures ReceiptsLong(f, selected).Success? <==>
              |Selected(f, selected)| == 0 || forall c :: 0 <= c < |f.labels| ==> YearReadable(f.labels[c])
  {
    var rows := Selected(f, selected);
    var ms := MeltedReceipts(f, selected);
    if |rows| > 0 {
      if forall c :: 0 <= c < |f.labels| ==> YearReadable(f.labels[c]) {
        forall k | 0 <= k < |ms|
          ensures YearReadable(ms[k].variable)
        {
          var c, i := Reshape.MeltOrigin(StateNames(rows), f.labels, Values(rows), k);
        }
      } else {
        var c :| 0 <= c < |f.labels| && !YearReadable(f.labels[c]);
        assert ms[Reshape.Position(c, 0, |rows|)].variable == f.labels[c];
      }
    } else {
      assert |ms| == |f.labels| * 0 == 0;
    }
  }

  /** The receipt of kept row `i` and year column `c`: one per (state,
      column), column by column, carrying the coerced value, the heading's
      first four digits as the year and the registry initials. */
  lemma ReceiptAt(f: Finances, selected: seq<string>, c: nat, i: nat)
    requires Rectangular(f) && forall k :: 0 <= k < |f.labels| ==> YearReadable(f.labels[k])
    requires c < |f.labels| && i < |Selected(f, selected)|
    ensures ReceiptsLong(f, selected).Success?
    ensures |ReceiptsLong(f, selected).value| == |f.labels| * |Selected(f, selected)|
    ensures Reshape.Position(c, i, |Selected(f, selected)|) < |ReceiptsLong(f, selected).value|
    ensures var x := ReceiptsLong(f, selected).value[Reshape.Position(c, i, |Selected(f, selected)|)];
            var row := Selected(f, selected)[i];
            && Some(x.state) == row.state && x.state in selected
            && x.value == row.values[c]
            && YearReadable(f.labels[c]) && x.year == DigitsValue(FirstFour(f.labels[c]))
            && x.initial == Registry.InitialOf(x.state)
  {
    ReceiptsLongErrors(f, selected);
    var rows := Selected(f, selected);
    var ms := MeltedReceipts(f, selected);
    var out := ReceiptsLong(f, selected).value;
    assert rows[i] in rows;
    var k := Reshape.Position(c, i, |rows|);
    assert ms[k] == Reshape.Melted(rows[i].state.value, f.labels[c], rows[i].values[c]);
    assert out[k] == ToReceipt(ms[k]);
  }

  /** Every receipt belongs to a selected state, and the initials are
      present exactly for the 28 registry states. */
  lemma ReceiptsSelected(f: Finances, selected: seq<string>)
    requires Rectangular(f) && ReceiptsLong(f, selected).Success?
    ensures forall x :: x in ReceiptsLong(f, selected).value ==>
              x.state in selected && (x.initial.Some? <==> x.state in Registry.IndianStates)
  {
    var out := ReceiptsLong(f, selected).value;
    forall x | x in out
      ensures x.state in selected && x.initial == Registry.InitialOf(x.state)
    {
      var k :| 0 <= k < |out| && out[k] == x;
      ReceiptFromSelected(f, selected, k);
    }
  }

  lemma ReceiptFromSelected(f: Finances, selected: seq<string>, k: nat)
    requires Rectangular(f) && ReceiptsLong(f, selected).Success?
    requires k < |ReceiptsLong(f, selected).value|
    ensures ReceiptsLong(f, selected).value[k].state in selected
    ensures ReceiptsLong(f, selected).value[k].initial == Registry.InitialOf(ReceiptsLong(f, selected).value[k].state)
  {
    var rows := Selected(f, selected);
    var ms := MeltedReceipts(f, selected);
    var c, i := Reshape.MeltOrigin(StateNames(rows), f.labels, Values(rows), k);
    assert rows[i] in rows;
    assert ms[k].id == rows[i].state.value;
    assert ReceiptsLong(f, selected).value[k] == ToReceipt(ms[k]);
  }

  lemma YearExample()
    ensures YearReadable("2012-13") && DigitsValue(FirstFour("2012-13")) == 2012
  {
    var p := FirstFour("2012-13");
    assert p == "2012";
    assert AllDigits(p) by {
      assert IsDigit(p[0]) && IsDigit(p[1]) && IsDigit(p[2]) && IsDigit(p[3]);
    }
    assert DigitsValue(p[..1]) == 2;
    assert DigitsValue(p[..2]) == 20 by { assert p[..2][..1] == p[..1]; }
    assert DigitsValue(p[..3]) == 201 by { assert p[..3][..2] == p[..2]; }
    assert p[..4] == p;
  }
}
