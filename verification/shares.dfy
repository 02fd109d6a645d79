/** Percentage shares of long-form (state, year, component, value) rows, as
    the expenditure dashboard computes them: a group-wise transform with a
    zero-sum guard, the two tab views that apply it, and the tab-3 ordering
    of states by one component's share. */
module Shares {
  import opened Wrappers
  import opened Text
  import opened Sorting
  import Palette

  /** One long-form row: a state's value of one component in one year.
      A missing value is `None`. */
  datatype Entry = Entry(state: string, year: string, component: string, value: Option<real>)

  function StateOf(e: Entry): string
  {
    e.state
  }

  function StateYear(e: Entry): (string, string)
  {
    (e.state, e.year)
  }

  // ---------------------------------------------------------------- filters

  /** Boolean-mask row selection: the rows satisfying `keep`, in order. */
  function Filter(rows: seq<Entry>, keep: Entry -> bool): (r: seq<Entry>)
    ensures forall x :: x in r <==> x in rows && keep(x)
    ensures |r| <= |rows|
  {
    if |rows| == 0 then []
    else
      var last := rows[|rows| - 1];
      assert rows == rows[..|rows| - 1] + [last];
      Filter(rows[..|rows| - 1], keep) + (if keep(last) then [last] else [])
  }

  /** Selection distributes over concatenation, so the kept rows stay in
      their order and keep their multiplicity. */
  lemma {:induction false} FilterConcat(a: seq<Entry>, b: seq<Entry>, keep: Entry -> bool)
    ensures Filter(a + b, keep) == Filter(a, keep) + Filter(b, keep)
  {
    if |b| == 0 {
      assert a + b == a;
    } else {
      var front := b[..|b| - 1];
      var last := b[|b| - 1];
      var tail := if keep(last) then [last] else [];
      assert (a + b)[..|a + b| - 1] == a + front;
      assert (a + b)[|a + b| - 1] == last;
      assert Filter(a + b, keep) == Filter(a + front, keep) + tail;
      assert Filter(b, keep) == Filter(front, keep) + tail;
      FilterConcat(a, front, keep);
      assert Filter(a, keep) + Filter(front, keep) + tail == Filter(a, keep) + (Filter(front, keep) + tail);
    }
  }

  // ----------------------------------------------------------- group sums

  /** What one row adds to the sum of group `k`: its value when it belongs
      to the group and is present (a missing value is skipped). */
  function Contribution<K(==)>(e: Entry, key: Entry -> K, k: K): real
  {
    if key(e) == k && e.value.Some? then e.value.value else 0.0
  }

  /** The sum of the present values of the rows whose key is `k`. */
  function GroupSum<K(==)>(rows: seq<Entry>, key: Entry -> K, k: K): real
  {
    if |rows| == 0 then 0.0
    else GroupSum(rows[..|rows| - 1], key, k) + Contribution(rows[|rows| - 1], key, k)
  }

  /** `x` as a percentage of `total`. */
  function Percent(x: real, total: real): real
    requires total != 0.0
  {
    x / total * 100.0
  }

  lemma PercentAdd(a: real, b: real, t: real)
    requires t != 0.0
    ensures Percent(a + b, t) == Percent(a, t) + Percent(b, t)
  {
  }

  lemma PercentZero(t: real)
    requires t != 0.0
    ensures Percent(0.0, t) == 0.0
  {
  }

  /** `p` is `v` as a percentage of `total`: scaled back by the total it
      gives 100 times the value. */
  predicate PercentOf(p: real, v: real, total: real)
  {
    p * total == 100.0 * v
  }

  lemma PercentScales(x: real, t: real)
    requires t != 0.0
    ensures PercentOf(Percent(x, t), x, t)
  {
  }

  lemma PercentWhole(t: real)
    requires t != 0.0
    ensures Percent(t, t) == 100.0
  {
  }

  /** The share of one value in a group whose present values sum to
      `total`: the value's percentage of the total when the total is
      positive (missing stays missing), otherwise 0 for every row. */
  function GuardedShare(v: Option<real>, total: real): (r: Option<real>)
    ensures total <= 0.0 ==> r == Some(0.0)
    ensures total > 0.0 ==> (r.Some? <==> v.Some?)
    ensures total > 0.0 && v.Some? ==> r.value == Percent(v.value, total)
  {
    if total > 0.0 then
      match v
      case None => None
      case Some(x) => Some(Percent(x, total))
    else Some(0.0)
  }

  /** The share row `e` gets when the shares are computed over `rows`. */
  function ShareOf<K(==)>(rows: seq<Entry>, key: Entry -> K, e: Entry): Option<real>
  {
    GuardedShare(e.value, GroupSum(rows, key, key(e)))
  }

  /** One share per input row, in row order. */
  function PercentageShare<K(==)>(rows: seq<Entry>, key: Entry -> K): (r: seq<Option<real>>)
    ensures |r| == |rows|
    ensures forall i :: 0 <= i < |rows| ==> r[i] == ShareOf(rows, key, rows[i])
  {
    seq(|rows|, i requires 0 <= i < |rows| => ShareOf(rows, key, rows[i]))
  }

  /** The sum of the present shares of the rows whose key is `k`. */
  function GroupShareSum<K(==)>(rows: seq<Entry>, shares: seq<Option<real>>, key: Entry -> K, k: K): real
    requires |shares| == |rows|
  {
    if |rows| == 0 then 0.0
    else
      var n := |rows| - 1;
      GroupShareSum(rows[..n], shares[..n], key, k)
        + (if key(rows[n]) == k && shares[n].Some? then shares[n].value else 0.0)
  }

  /** Every share of group `k` is the guarded share of its value in
      `total`. */
  predicate Scaled<K(==)>(rows: seq<Entry>, shares: seq<Option<real>>, key: Entry -> K, k: K, total: real)
    requires |shares| == |rows|
  {
    forall i :: 0 <= i < |rows| && key(rows[i]) == k ==> shares[i] == GuardedShare(rows[i].value, total)
  }

  lemma {:induction false} ScaledSum<K>(rows: seq<Entry>, shares: seq<Option<real>>, key: Entry -> K, k: K, total: real)
    requires |shares| == |rows| && Scaled(rows, shares, key, k, total) && total > 0.0
    ensures GroupShareSum(rows, shares, key, k) == Percent(GroupSum(rows, key, k), total)
  {
    if |rows| == 0 {
      PercentZero(total);
    } else {
      var n := |rows| - 1;
      assert Scaled(rows[..n], shares[..n], key, k, total) by {
        forall i | 0 <= i < n
          ensures rows[..n][i] == rows[i] && shares[..n][i] == shares[i]
        {
        }
      }
      ScaledSum(rows[..n], shares[..n], key, k, total);
      var c := Contribution(rows[n], key, k);
      var add := if key(rows[n]) == k && shares[n].Some? then shares[n].value else 0.0;
      if key(rows[n]) == k {
        assert shares[n] == GuardedShare(rows[n].value, total);
      }
      if c == 0.0 {
        PercentZero(total);
      }
      assert add == Percent(c, total);
      PercentAdd(GroupSum(rows[..n], key, k), c, total);
    }
  }

  lemma SharesScaled<K>(rows: seq<Entry>, key: Entry -> K, k: K)
    requires GroupSum(rows, key, k) > 0.0
    ensures Scaled(rows, PercentageShare(rows, key), key, k, GroupSum(rows, key, k))
  {
    var total := GroupSum(rows, key, k);
    var shares := PercentageShare(rows, key);
    forall i | 0 <= i < |rows| && key(rows[i]) == k
      ensures shares[i] == GuardedShare(rows[i].value, total)
    {
    }
  }

  /** In every group with a positive sum the shares add up to exactly 100. */
  lemma ShareTotal<K>(rows: seq<Entry>, key: Entry -> K, k: K)
    requires GroupSum(rows, key, k) > 0.0
    ensures GroupShareSum(rows, PercentageShare(rows, key), key, k) == 100.0
  {
    SharesScaled(rows, key, k);
    ScaledSum(rows, PercentageShare(rows, key), key, k, GroupSum(rows, key, k));
    PercentWhole(GroupSum(rows, key, k));
  }

  /** In a group whose sum is zero or negative every row's share is 0. */
  lemma ShareGuard<K>(rows: seq<Entry>, key: Entry -> K, i: nat)
    requires i < |rows| && GroupSum(rows, key, key(rows[i])) <= 0.0
    ensures PercentageShare(rows, key)[i] == Some(0.0)
  {
  }

  /** A group's sum only looks at the group's rows: dropping rows outside it
      (and regrouping by a key that picks the same rows) changes nothing. */
  lemma {:induction false} GroupSumFilter<K, L>(rows: seq<Entry>, keep: Entry -> bool,
                                               key: Entry -> K, k: K, key': Entry -> L, k': L)
    requires forall x :: x in rows ==> ((keep(x) && key(x) == k) <==> key'(x) == k')
    ensures GroupSum(Filter(rows, keep), key, k) == GroupSum(rows, key', k')
  {
    if |rows| > 0 {
      var n := |rows| - 1;
      var last := rows[n];
      assert last in rows;
      assert forall x :: x in rows[..n] ==> x in rows;
      GroupSumFilter(rows[..n], keep, key, k, key', k');
      LastFiltered(rows, keep, key, k, key', k');
    }
  }

  /** The step of `GroupSumFilter`: the last row adds the same to both sums. */
  lemma LastFiltered<K, L>(rows: seq<Entry>, keep: Entry -> bool,
                           key: Entry -> K, k: K, key': Entry -> L, k': L)
    requires |rows| > 0
    requires (keep(rows[|rows| - 1]) && key(rows[|rows| - 1]) == k) <==> key'(rows[|rows| - 1]) == k'
    requires GroupSum(Filter(rows[..|rows| - 1], keep), key, k) == GroupSum(rows[..|rows| - 1], key', k')
    ensures GroupSum(Filter(rows, keep), key, k) == GroupSum(rows, key', k')
  {
    var n := |rows| - 1;
    var last := rows[n];
    var front := Filter(rows[..n], keep);
    if keep(last) {
      assert Filter(rows, keep) == front + [last];
      GroupSumSnoc(front, last, key, k);
    } else {
      assert Filter(rows, keep) == front;
    }
  }

  lemma GroupSumSnoc<K>(rows: seq<Entry>, e: Entry, key: Entry -> K, k: K)
    ensures GroupSum(rows + [e], key, k) == GroupSum(rows, key, k) + Contribution(e, key, k)
  {
    assert (rows + [e])[..|rows|] == rows;
  }

  // ------------------------------------------------------------- the tabs

  function OfStates(selected: seq<string>): Entry -> bool
  {
    (e: Entry) => e.state in selected
  }

  function OfYear(year: string): Entry -> bool
  {
    (e: Entry) => e.year == year
  }

  /** Tab 1: the rows of the selected states, with shares per (state, year). */
  function Tab1Rows(rows: seq<Entry>, selected: seq<string>): seq<Entry>
  {
    Filter(rows, OfStates(selected))
  }

  /** Tab 3: the rows of one year, with shares per state. */
  function Tab3Rows(rows: seq<Entry>, year: string): seq<Entry>
  {
    Filter(rows, OfYear(year))
  }

  /** Narrowing tab 1 to some states does not change any (state, year)
      share: each row's share is the one it has in the full table. */
  lemma Tab1SharesLocal(rows: seq<Entry>, selected: seq<string>)
    ensures forall i :: 0 <= i < |Tab1Rows(rows, selected)| ==>
              PercentageShare(Tab1Rows(rows, selected), StateYear)[i]
                == ShareOf(rows, StateYear, Tab1Rows(rows, selected)[i])
  {
    var view := Tab1Rows(rows, selected);
    forall i | 0 <= i < |view|
      ensures ShareOf(view, StateYear, view[i]) == ShareOf(rows, StateYear, view[i])
    {
      var e := view[i];
      assert e in view;
      GroupSumFilter(rows, OfStates(selected), StateYear, StateYear(e), StateYear, StateYear(e));
    }
  }

  /** Tab 3 groups one year's rows by state alone; that is the same as the
      full table's (state, year) share. */
  lemma Tab3SharesLocal(rows: seq<Entry>, year: string)
    ensures forall i :: 0 <= i < |Tab3Rows(rows, year)| ==>
              PercentageShare(Tab3Rows(rows, year), StateOf)[i]
                == ShareOf(rows, StateYear, Tab3Rows(rows, year)[i])
  {
    var view := Tab3Rows(rows, year);
    forall i | 0 <= i < |view|
      ensures ShareOf(view, StateOf, view[i]) == ShareOf(rows, StateYear, view[i])
    {
      var e := view[i];
      assert e in view;
      GroupSumFilter(rows, OfYear(year), StateOf, e.state, StateYear, StateYear(e));
    }
  }

  // ------------------------------------------------------ tab-3 ordering

  /** A tab-3 row together with its share. */
  datatype Shared = Shared(entry: Entry, share: Option<real>)

  function Tab3Frame(rows: seq<Entry>, year: string): (r: seq<Shared>)
    ensures |r| == |Tab3Rows(rows, year)|
    ensures forall i :: 0 <= i < |r| ==>
              r[i] == Shared(Tab3Rows(rows, year)[i], ShareOf(rows, StateYear, Tab3Rows(rows, year)[i]))
  {
    var view := Tab3Rows(rows, year);
    var shares := PercentageShare(view, StateOf);
    Tab3SharesLocal(rows, year);
    seq(|view|, i requires 0 <= i < |view| => Shared(view[i], shares[i]))
  }

  function SharedFilter(frame: seq<Shared>, component: string): (r: seq<Shared>)
    ensures forall x :: x in r <==> x in frame && x.entry.component == component
  {
    if |frame| == 0 then []
    else (if frame[0].entry.component == component then [frame[0]] else []) + SharedFilter(frame[1..], component)
  }

  /** Descending by share with missing shares last (`ascending=False`,
      `na_position='last'`). */
  predicate ShareDescLe(a: Shared, b: Shared)
  {
    b.share.None? || (a.share.Some? && a.share.value >= b.share.value)
  }

  lemma ShareDescLeIsTotalPreorder()
    ensures TotalPreorder(ShareDescLe)
  {
  }

  function States(s: seq<Shared>): (r: seq<string>)
    ensures |r| == |s| && forall i :: 0 <= i < |s| ==> r[i] == s[i].entry.state
  {
    seq(|s|, i requires 0 <= i < |s| => s[i].entry.state)
  }

  /** The rows of `component`, highest share first. */
  function ComponentRanking(frame: seq<Shared>, component: string): (r: seq<Shared>)
    ensures SortedBy(r, ShareDescLe)
    ensures multiset(r) == multiset(SharedFilter(frame, component))
  {
    ShareDescLeIsTotalPreorder();
    SortBy(SharedFilter(frame, component), ShareDescLe)
  }

  datatype OrderError = DuplicateCategories

  /** The state order used as the categories of an ordered categorical;
      categories must be unique, so a state with two rows of the component
      in this year is an error. */
  function StateOrder(frame: seq<Shared>, component: string): (r: Result<seq<string>, OrderError>)
    ensures r.Success? <==> Palette.NoDuplicates(States(ComponentRanking(frame, component)))
    ensures r.Success? ==> r.value == States(ComponentRanking(frame, component))
  {
    var order := States(ComponentRanking(frame, component));
    if Palette.NoDuplicates(order) then Success(order) else Failure(DuplicateCategories)
  }

  /** The category code of a state; states outside the categories get none. */
  function Rank(order: seq<string>, state: string): Option<nat>
  {
    if state in order then Some(Palette.FirstIndex(order, state)) else None
  }

  /** A row of the sorted tab-3 frame.  The `state` column is missing where
      `pd.Categorical` found the state outside its categories. */
  datatype Tab3Row = Tab3Row(state: Option<string>, year: string, component: string,
                             value: Option<real>, share: Option<real>)

  function AsRow(x: Shared, state: Option<string>): Tab3Row
  {
    Tab3Row(state, x.entry.year, x.entry.component, x.entry.value, x.share)
  }

  /** The frame with its `state` column as plain strings. */
  function PlainRows(frame: seq<Shared>): (r: seq<Tab3Row>)
    ensures |r| == |frame|
    ensures forall i :: 0 <= i < |frame| ==> r[i] == AsRow(frame[i], Some(frame[i].entry.state))
  {
    seq(|frame|, i requires 0 <= i < |frame| => AsRow(frame[i], Some(frame[i].entry.state)))
  }

  /** `pd.Categorical(state, categories=order)`: a state that is not a
      category becomes missing. */
  function Categorize(order: seq<string>, state: string): (r: Option<string>)
    ensures r.Some? <==> state in order
    ensures r.Some? ==> r.value == state
  {
    if state in order then Some(state) else None
  }

  /** The frame after its `state` column is made an ordered categorical. */
  function CategoricalRows(frame: seq<Shared>, order: seq<string>): (r: seq<Tab3Row>)
    ensures |r| == |frame|
    ensures forall i :: 0 <= i < |frame| ==> r[i] == AsRow(frame[i], Categorize(order, frame[i].entry.state))
  {
    seq(|frame|, i requires 0 <= i < |frame| => AsRow(frame[i], Categorize(order, frame[i].entry.state)))
  }

  /** The category code of a row's state; a missing state has none. */
  function CodeOf(order: seq<string>, a: Tab3Row): (r: Option<nat>)
    ensures r.Some? <==> a.state.Some? && a.state.value in order
    ensures r.Some? ==> r == Rank(order, a.state.value)
  {
    if a.state.Some? then Rank(order, a.state.value) else None
  }

  /** Ascending by (category code, component), missing codes last. */
  predicate RankLe(order: seq<string>, a: Tab3Row, b: Tab3Row)
  {
    var ra := CodeOf(order, a);
    var rb := CodeOf(order, b);
    if ra.Some? && rb.Some? then
      ra.value < rb.value || (ra.value == rb.value && LexLe(a.component, b.component))
    else if ra.Some? then true
    else if rb.Some? then false
    else LexLe(a.component, b.component)
  }

  lemma RankLeIsTotalPreorder(order: seq<string>)
    ensures TotalPreorder((a, b) => RankLe(order, a, b))
  {
    var le := (a, b) => RankLe(order, a, b);
    forall a: Tab3Row, b: Tab3Row
      ensures le(a, b) || le(b, a)
    {
      LexLeTotal(a.component, b.component);
    }
    forall a: Tab3Row, b: Tab3Row, c: Tab3Row | le(a, b) && le(b, c)
      ensures le(a, c)
    {
      var ra, rb, rc := CodeOf(order, a), CodeOf(order, b), CodeOf(order, c);
      if ra == rb && rb == rc {
        LexLeTransitive(a.component, b.component, c.component);
      }
    }
  }

  /** Ascending by (state, component), missing states last. */
  predicate StateComponentLe(a: Tab3Row, b: Tab3Row)
  {
    if a.state == b.state then LexLe(a.component, b.component)
    else if a.state.None? then false
    else if b.state.None? then true
    else LexLe(a.state.value, b.state.value)
  }

  lemma StateComponentLeIsTotalPreorder()
    ensures TotalPreorder(StateComponentLe)
  {
    forall a: Tab3Row, b: Tab3Row
      ensures StateComponentLe(a, b) || StateComponentLe(b, a)
    {
      LexLeTotal(a.component, b.component);
      if a.state.Some? && b.state.Some? {
        LexLeTotal(a.state.value, b.state.value);
      }
    }
    forall a: Tab3Row, b: Tab3Row, c: Tab3Row | StateComponentLe(a, b) && StateComponentLe(b, c)
      ensures StateComponentLe(a, c)
    {
      StateComponentStep(a, b, c);
    }
  }

  lemma StateComponentStep(a: Tab3Row, b: Tab3Row, c: Tab3Row)
    requires StateComponentLe(a, b) && StateComponentLe(b, c)
    ensures StateComponentLe(a, c)
  {
    var sa, sb, sc := a.state, b.state, c.state;
    if sa == sb && sb == sc {
      LexLeTransitive(a.component, b.component, c.component);
    } else if sa != sb && sb != sc && sa.Some? && sb.Some? && sc.Some? {
      LexLeTransitive(sa.value, sb.value, sc.value);
      if sa == sc {
        LexLeAntisymmetric(sa.value, sb.value);
      }
    }
  }

  /** The tab-3 row order.  `sortComponent` is the widget's choice, whose
      first option is the string "None": that string means no component is
      chosen, so a component named "None" cannot be sorted by.  Without a
      component the rows go by (state, component); with one, the state
      column becomes an ordered categorical over the component's share
      ranking (states outside it become missing and go last) and the rows go
      by (category, component). */
  function Tab3Order(frame: seq<Shared>, sortComponent: string): (r: Result<seq<Tab3Row>, OrderError>)
    ensures sortComponent == "None" ==> r.Success?
    ensures sortComponent == "None" ==>
              SortedBy(r.value, StateComponentLe) && multiset(r.value) == multiset(PlainRows(frame))
    ensures sortComponent != "None" ==> (r.Success? <==> StateOrder(frame, sortComponent).Success?)
    ensures sortComponent != "None" && r.Success? ==>
              var order := StateOrder(frame, sortComponent).value;
              SortedBy(r.value, (a, b) => RankLe(order, a, b))
              && multiset(r.value) == multiset(CategoricalRows(frame, order))
  {
    if sortComponent == "None" then
      StateComponentLeIsTotalPreorder();
      Success(SortBy(PlainRows(frame), StateComponentLe))
    else
      match StateOrder(frame, sortComponent)
      case Failure(e) => Failure(e)
      case Success(order) =>
        RankLeIsTotalPreorder(order);
        Success(SortBy(CategoricalRows(frame, order), (a, b) => RankLe(order, a, b)))
  }

  /** Both tab-3 sorts are multi-key and therefore stable: rows with the
      same sort key keep the order of the frame. */
  lemma Tab3OrderStable(frame: seq<Shared>, sortComponent: string, x: Tab3Row)
    requires Tab3Order(frame, sortComponent).Success?
    ensures sortComponent == "None" ==>
              Level(Tab3Order(frame, sortComponent).value, x, StateComponentLe)
              == Level(PlainRows(frame), x, StateComponentLe)
    ensures sortComponent != "None" ==>
              var order := StateOrder(frame, sortComponent).value;
              Level(Tab3Order(frame, sortComponent).value, x, (a, b) => RankLe(order, a, b))
              == Level(CategoricalRows(frame, order), x, (a, b) => RankLe(order, a, b))
  {
    if sortComponent == "None" {
      StateComponentLeIsTotalPreorder();
      SortByStable(PlainRows(frame), x, StateComponentLe);
    } else {
      var order := StateOrder(frame, sortComponent).value;
      RankLeIsTotalPreorder(order);
      SortByStable(CategoricalRows(frame, order), x, (a, b) => RankLe(order, a, b));
    }
  }

  /** With a component chosen, a row keeps its state exactly when the state
      is a category; every other row is still there, with its state
      missing. */
  lemma Tab3MissingStates(frame: seq<Shared>, component: string, k: nat)
    requires component != "None" && Tab3Order(frame, component).Success?
    requires k < |frame|
    ensures var order := StateOrder(frame, component).value;
            var row := AsRow(frame[k], Categorize(order, frame[k].entry.state));
            row in Tab3Order(frame, component).value
            && (row.state.None? <==> frame[k].entry.state !in order)
  {
    var order := StateOrder(frame, component).value;
    var rows := CategoricalRows(frame, order);
    assert rows[k] in multiset(rows);
  }

  /** A state whose share of the chosen component is higher comes earlier in
      the categories than a state whose share is lower or missing. */
  lemma HigherShareRanksFirst(frame: seq<Shared>, component: string, x: Shared, y: Shared)
    requires StateOrder(frame, component).Success?
    requires x in frame && y in frame && x.entry.component == component && y.entry.component == component
    requires x.share.Some? && (y.share.None? || x.share.value > y.share.value)
    ensures Rank(StateOrder(frame, component).value, x.entry.state).Some?
    ensures Rank(StateOrder(frame, component).value, y.entry.state).Some?
    ensures Rank(StateOrder(frame, component).value, x.entry.state).value
            < Rank(StateOrder(frame, component).value, y.entry.state).value
  {
    var ranked := ComponentRanking(frame, component);
    var order := States(ranked);
    var p, q := HigherShareEarlier(frame, component, x, y);
    assert order[p] == x.entry.state && order[q] == y.entry.state;
    DistinctIndex(order, p);
    DistinctIndex(order, q);
  }

  /** In the ranking, the row with the higher share sits earlier. */
  lemma HigherShareEarlier(frame: seq<Shared>, component: string, x: Shared, y: Shared) returns (p: nat, q: nat)
    requires x in frame && y in frame && x.entry.component == component && y.entry.component == component
    requires x.share.Some? && (y.share.None? || x.share.value > y.share.value)
    ensures p < q < |ComponentRanking(frame, component)|
    ensures ComponentRanking(frame, component)[p] == x && ComponentRanking(frame, component)[q] == y
  {
    var ranked := ComponentRanking(frame, component);
    assert x in multiset(SharedFilter(frame, component)) && y in multiset(SharedFilter(frame, component));
    assert x in multiset(ranked) && y in multiset(ranked);
    p :| 0 <= p < |ranked| && ranked[p] == x;
    q :| 0 <= q < |ranked| && ranked[q] == y;
    ShareDescLeIsTotalPreorder();
    HigherShareNotBelow(x, y);
    SortedBefore(ranked, ShareDescLe, p, q);
  }

  lemma EarlierRankNotBelow(order: seq<string>, a: Tab3Row, b: Tab3Row)
    requires CodeOf(order, a).Some? && CodeOf(order, b).Some?
    requires CodeOf(order, a).value < CodeOf(order, b).value
    ensures !RankLe(order, b, a)
  {
  }

  lemma HigherShareNotBelow(x: Shared, y: Shared)
    requires x.share.Some? && (y.share.None? || x.share.value > y.share.value)
    ensures !ShareDescLe(y, x)
  {
  }

  lemma DistinctIndex(s: seq<string>, i: nat)
    requires Palette.NoDuplicates(s) && i < |s|
    ensures Palette.FirstIndex(s, s[i]) == i
  {
    assert s[i] !in s[..i];
    Palette.FirstIndexAt(s, i);
  }

  /** With a sort component chosen, every row of a state with a higher share
      of it is placed before every row of a state with a lower one. */
  lemma Tab3HigherShareFirst(frame: seq<Shared>, component: string, x: Shared, y: Shared, i: nat, j: nat)
    requires component != "None" && Tab3Order(frame, component).Success?
    requires x in frame && y in frame && x.entry.component == component && y.entry.component == component
    requires x.share.Some? && (y.share.None? || x.share.value > y.share.value)
    requires i < |Tab3Order(frame, component).value| && j < |Tab3Order(frame, component).value|
    requires Tab3Order(frame, component).value[i].state == Some(x.entry.state)
    requires Tab3Order(frame, component).value[j].state == Some(y.entry.state)
    ensures i < j
  {
    var order := StateOrder(frame, component).value;
    var out := Tab3Order(frame, component).value;
    HigherShareRanksFirst(frame, component, x, y);
    RankLeIsTotalPreorder(order);
    EarlierRankNotBelow(order, out[i], out[j]);
    SortedBefore(out, (a, b) => RankLe(order, a, b), i, j);
  }

  /** In a sorted sequence, `s[q]` not sorting at or before `s[p]` puts
      `p` before `q`. */
  lemma SortedBefore<T(!new)>(s: seq<T>, le: (T, T) -> bool, p: nat, q: nat)
    requires TotalPreorder(le) && SortedBy(s, le) && p < |s| && q < |s|
    requires !le(s[q], s[p])
    ensures p < q
  {
  }
}
