/** Wide-to-long reshaping: pandas' `DataFrame.melt` with one identifier
    column.  pandas stacks the value columns one after another, so the
    record for row `i` and value column `j` sits at position
    `j * rows + i`. */
module Reshape {
  import opened Wrappers

  /** One melted cell: the identifier of its row, the label of its column
      and the cell itself. */
  datatype Melted<V> = Melted(id: string, variable: string, value: V)

  /** A grid whose every row has one cell per column label. */
  predicate Rectangular<V>(names: seq<string>, cells: seq<seq<V>>)
  {
    forall i :: 0 <= i < |cells| ==> |cells[i]| == |names|
  }

  function Column<V>(ids: seq<string>, names: seq<string>, cells: seq<seq<V>>, j: nat): (r: seq<Melted<V>>)
    requires |cells| == |ids| && Rectangular(names, cells) && j < |names|
    ensures |r| == |ids|
    ensures forall i :: 0 <= i < |ids| ==> r[i] == Melted(ids[i], names[j], cells[i][j])
  {
    seq(|ids|, i requires 0 <= i < |ids| => Melted(ids[i], names[j], cells[i][j]))
  }

  /** The columns from `j` on, stacked. */
  function MeltFrom<V>(ids: seq<string>, names: seq<string>, cells: seq<seq<V>>, j: nat): seq<Melted<V>>
    requires |cells| == |ids| && Rectangular(names, cells) && j <= |names|
    decreases |names| - j
  {
    if j == |names| then [] else Column(ids, names, cells, j) + MeltFrom(ids, names, cells, j + 1)
  }

  /** Where column `c` starts in the melted output: `c * rows`, built up
      by repeated addition. */
  function Offset(c: nat, rows: nat): nat
  {
    if c == 0 then 0 else Offset(c - 1, rows) + rows
  }

  /** Where the cell of row `i`, column `c` lands in the melted output. */
  function Position(c: nat, i: nat, rows: nat): nat
  {
    Offset(c, rows) + i
  }

  lemma {:induction false} OffsetIsProduct(c: nat, rows: nat)
    ensures Offset(c, rows) == c * rows
  {
    if c > 0 {
      OffsetIsProduct(c - 1, rows);
      assert (c - 1) * rows + rows == c * rows;
    }
  }

  lemma {:induction false} MeltFromLength<V>(ids: seq<string>, names: seq<string>, cells: seq<seq<V>>, j: nat)
    requires |cells| == |ids| && Rectangular(names, cells) && j <= |names|
    ensures |MeltFrom(ids, names, cells, j)| == Offset(|names| - j, |ids|)
    decreases |names| - j
  {
    if j < |names| {
      MeltFromLength(ids, names, cells, j + 1);
    }
  }

  lemma {:induction false} MeltFromAt<V>(ids: seq<string>, names: seq<string>, cells: seq<seq<V>>, j: nat, d: nat, i: nat)
    requires |cells| == |ids| && Rectangular(names, cells) && j + d < |names| && i < |ids|
    ensures Offset(d, |ids|) + i < |MeltFrom(ids, names, cells, j)|
    ensures MeltFrom(ids, names, cells, j)[Offset(d, |ids|) + i] == Melted(ids[i], names[j + d], cells[i][j + d])
    decreases d
  {
    var col := Column(ids, names, cells, j);
    var rest := MeltFrom(ids, names, cells, j + 1);
    assert MeltFrom(ids, names, cells, j) == col + rest;
    if d > 0 {
      MeltFromAt(ids, names, cells, j + 1, d - 1, i);
      assert j + 1 + (d - 1) == j + d;
    } else {
      MeltFromLength(ids, names, cells, j + 1);
    }
  }

  /** `melt`: exactly one record per (row, value column), column by column. */
  function Melt<V>(ids: seq<string>, names: seq<string>, cells: seq<seq<V>>): (r: seq<Melted<V>>)
    requires |cells| == |ids| && Rectangular(names, cells)
    ensures |r| == |names| * |ids|
    ensures forall c, i :: 0 <= c < |names| && 0 <= i < |ids| ==>
              Position(c, i, |ids|) < |r| && r[Position(c, i, |ids|)] == Melted(ids[i], names[c], cells[i][c])
  {
    MeltFromLength(ids, names, cells, 0);
    OffsetIsProduct(|names|, |ids|);
    var r := MeltFrom(ids, names, cells, 0);
    forall c, i | 0 <= c < |names| && 0 <= i < |ids|
      ensures Position(c, i, |ids|) < |r| && r[Position(c, i, |ids|)] == Melted(ids[i], names[c], cells[i][c])
    {
      MeltFromAt(ids, names, cells, 0, c, i);
      assert 0 + c == c;
    }
    r
  }

  /** Every melted record comes from one cell of the grid. */
  lemma MeltOrigin<V>(ids: seq<string>, names: seq<string>, cells: seq<seq<V>>, k: nat)
    returns (c: nat, i: nat)
    requires |cells| == |ids| && Rectangular(names, cells) && k < |Melt(ids, names, cells)|
    ensures c < |names| && i < |ids| && k == Position(c, i, |ids|)
    ensures Melt(ids, names, cells)[k] == Melted(ids[i], names[c], cells[i][c])
  {
    OffsetIsProduct(|names|, |ids|);
    c := ColumnAt(k, |ids|, |names|);
    i := k - Offset(c, |ids|);
  }

  /** The column that melted position `k` falls in. */
  lemma {:induction false} ColumnAt(k: nat, n: nat, m: nat) returns (c: nat)
    requires k < Offset(m, n)
    ensures c < m && Offset(c, n) <= k < Offset(c, n) + n
  {
    if Offset(m - 1, n) > k {
      c := ColumnAt(k, n, m - 1);
    } else {
      c := m - 1;
    }
  }

  /** The position of the first record a column conversion rejects, if
      any: where a cast such as `.astype(int)` raises. */
  function FirstRejected<T>(s: seq<T>, ok: T -> bool): (r: Option<nat>)
    ensures r.None? <==> forall k :: 0 <= k < |s| ==> ok(s[k])
    ensures r.Some? ==> r.value < |s| && !ok(s[r.value])
    ensures r.Some? ==> forall k :: 0 <= k < r.value ==> ok(s[k])
  {
    if |s| == 0 then None
    else if !ok(s[0]) then Some(0)
    else
      match FirstRejected(s[1..], ok)
      case None => TailAccepted(s, ok); None
      case Some(k) => TailPrefixAccepted(s, ok, k); Some(k + 1)
  }

  lemma TailAccepted<T>(s: seq<T>, ok: T -> bool)
    requires |s| > 0 && ok(s[0])
    requires forall k :: 0 <= k < |s[1..]| ==> ok(s[1..][k])
    ensures forall k :: 0 <= k < |s| ==> ok(s[k])
  {
    forall k | 0 < k < |s|
      ensures ok(s[k])
    {
      assert s[1..][k - 1] == s[k];
    }
  }

  lemma TailPrefixAccepted<T>(s: seq<T>, ok: T -> bool, j: nat)
    requires |s| > 0 && ok(s[0]) && j < |s[1..]|
    requires !ok(s[1..][j])
    requires forall k :: 0 <= k < j ==> ok(s[1..][k])
    ensures !ok(s[j + 1])
    ensures forall k :: 0 <= k < j + 1 ==> ok(s[k])
  {
    assert s[1..][j] == s[j + 1];
    forall k | 0 < k < j + 1
      ensures ok(s[k])
    {
      assert s[1..][k - 1] == s[k];
    }
  }
}
