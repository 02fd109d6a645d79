/** The revenue-components page: fiscal-year categories ordered by start
    year, the fixed component catalogue, the unguarded per-(state, year)
    percentage, the latest-year headline and the "Total"-free raw view. */
module RevenueComponents {
  import opened Wrappers
  import opened Text
  import opened Sorting
  import Numeric
  import Palette
  import opened Shares

  datatype ComponentsError =
    | BadYearLabel(year: string)   // `int(year.split('-')[0])` raises
    | NoYears                      // `categories[-1]` on no categories

  // ---------------------------------------------------------- fiscal years

  /** `year.split('-')[0]`: everything before the first '-'. */
  function YearPrefix(year: string): (r: string)
    ensures '-' !in r
    ensures r == year || (|r| < |year| && year[|r|] == '-')
    ensures year[..|r|] == r
  {
    year[..Numeric.IndexOf(year, '-')]
  }

  /** The prefix reads as a non-negative integer (unsigned decimal digits). */
  predicate ValidYear(year: string)
  {
    |YearPrefix(year)| > 0 && AllDigits(YearPrefix(year))
  }

  /** The start year, `int(year.split('-')[0])`. */
  function StartYear(year: string): nat
    requires ValidYear(year)
  {
    DigitsValue(YearPrefix(year))
  }

  /** The sort key; the categories are only sorted once every label is
      valid, so the value given to an invalid label never matters. */
  function YearKey(year: string): int
  {
    if ValidYear(year) then StartYear(year) else -1
  }

  /** Ascending by start year. */
  predicate YearLe(a: string, b: string)
  {
    YearKey(a) <= YearKey(b)
  }

  function YearColumn(rows: seq<Entry>): (r: seq<string>)
    ensures |r| == |rows| && forall i :: 0 <= i < |rows| ==> r[i] == rows[i].year
  {
    seq(|rows|, i requires 0 <= i < |rows| => rows[i].year)
  }

  /** The first label whose prefix is not an integer, if any. */
  function FirstInvalid(years: seq<string>): (r: Option<string>)
    ensures r.None? <==> forall i :: 0 <= i < |years| ==> ValidYear(years[i])
    ensures r.Some? ==> r.value in years && !ValidYear(r.value)
  {
    if |years| == 0 then None
    else if !ValidYear(years[0]) then Some(years[0])
    else
      var rest := FirstInvalid(years[1..]);
      assert forall i :: 1 <= i < |years| ==> years[i] == years[1..][i - 1];
      rest
  }

  /** A permutation of a duplicate-free sequence is duplicate-free. */
  lemma PermutationKeepsDistinct<T>(s: seq<T>, r: seq<T>)
    requires Palette.NoDuplicates(s) && multiset(r) == multiset(s)
    ensures Palette.NoDuplicates(r)
  {
    forall i, j | 0 <= i < j < |r|
      ensures r[i] != r[j]
    {
      if r[i] == r[j] {
        CountTwice(r, i, j);
        CountOnce(s, r[i]);
      }
    }
  }

  lemma CountTwice<T>(r: seq<T>, i: nat, j: nat)
    requires i < j < |r| && r[i] == r[j]
    ensures multiset(r)[r[i]] >= 2
  {
    assert r == r[..j] + r[j..];
    assert r[..j][i] == r[i];
    assert r[j..][0] == r[j];
    assert multiset(r) == multiset(r[..j]) + multiset(r[j..]);
  }

  lemma {:induction false} CountOnce<T>(s: seq<T>, x: T)
    requires Palette.NoDuplicates(s)
    ensures multiset(s)[x] <= 1
  {
    if |s| > 0 {
      assert s == [s[0]] + s[1..];
      assert Palette.NoDuplicates(s[1..]) by {
        forall i, j | 0 <= i < j < |s[1..]|
          ensures s[1..][i] != s[1..][j]
        {
          assert s[1..][i] == s[i + 1] && s[1..][j] == s[j + 1];
        }
      }
      CountOnce(s[1..], x);
      assert s[0] !in s[1..] by {
        forall k | 0 <= k < |s[1..]|
          ensures s[1..][k] != s[0]
        {
          assert s[1..][k] == s[k + 1];
        }
      }
      assert multiset(s) == multiset{s[0]} + multiset(s[1..]);
    }
  }

  /** `sorted(df['Year'].unique(), key=lambda x: int(x.split('-')[0]))`:
      the distinct years in first-appearance order, then stably sorted by
      start year; a label without an integer prefix raises. */
  function YearCategories(rows: seq<Entry>): (r: Result<seq<string>, ComponentsError>)
    ensures r.Success? <==> forall i :: 0 <= i < |rows| ==> ValidYear(rows[i].year)
    ensures r.Failure? ==> r.error.BadYearLabel? && !ValidYear(r.error.year)
                           && exists i :: 0 <= i < |rows| && rows[i].year == r.error.year
    ensures r.Success? ==> SortedBy(r.value, YearLe)
    ensures r.Success? ==> Palette.NoDuplicates(r.value)
    ensures r.Success? ==> forall y :: y in r.value <==> exists i :: 0 <= i < |rows| && rows[i].year == y
  {
    var years := Palette.Unique(YearColumn(rows));
    match FirstInvalid(years)
    case Some(bad) =>
      assert bad in YearColumn(rows);
      Failure(BadYearLabel(bad))
    case None =>
      ColumnInUnique(rows);
      YearLeIsTotalPreorder();
      var sorted := SortBy(years, YearLe);
      SortedYears(years);
      Success(sorted)
  }

  lemma YearLeIsTotalPreorder()
    ensures TotalPreorder(YearLe)
  {
  }

  lemma ColumnInUnique(rows: seq<Entry>)
    ensures forall i :: 0 <= i < |rows| ==> rows[i].year in Palette.Unique(YearColumn(rows))
  {
    forall i | 0 <= i < |rows|
      ensures rows[i].year in Palette.Unique(YearColumn(rows))
    {
      assert YearColumn(rows)[i] == rows[i].year;
    }
  }

  /** Sorting the distinct years keeps them distinct and keeps the set. */
  lemma SortedYears(years: seq<string>)
    requires TotalPreorder(YearLe) && Palette.NoDuplicates(years)
    ensures Palette.NoDuplicates(SortBy(years, YearLe))
    ensures forall y :: y in SortBy(years, YearLe) <==> y in years
  {
    var sorted := SortBy(years, YearLe);
    PermutationKeepsDistinct(years, sorted);
    forall y
      ensures y in sorted <==> y in years
    {
      assert y in sorted <==> y in multiset(sorted);
      assert y in years <==> y in multiset(years);
    }
  }

  /** Years with the same start year keep their first-appearance order. */
  lemma YearCategoriesStable(rows: seq<Entry>, y: string)
    requires YearCategories(rows).Success?
    ensures Level(YearCategories(rows).value, y, YearLe) == Level(Palette.Unique(YearColumn(rows)), y, YearLe)
  {
    assert TotalPreorder(YearLe);
    SortByStable(Palette.Unique(YearColumn(rows)), y, YearLe);
  }

  lemma YearPrefixExample()
    ensures ValidYear("2012-13") && StartYear("2012-13") == 2012
  {
    var y := "2012-13";
    assert y[4] == '-' && '-' !in y[..4];
    assert Numeric.IndexOf(y, '-') == 4;
    var p := y[..4];
    assert p == "2012";
    assert AllDigits(p) by {
      assert IsDigit(p[0]) && IsDigit(p[1]) && IsDigit(p[2]) && IsDigit(p[3]);
    }
    assert DigitsValue(p[..1]) == 2;
    assert DigitsValue(p[..2]) == 20 by { assert p[..2][..1] == p[..1]; }
    assert DigitsValue(p[..3]) == 201 by { assert p[..3][..2] == p[..2]; }
    assert p[..4] == p;
  }

  // ------------------------------------------------------------ catalogue

  const ValidComponents: seq<string> := [
    "States' Own Tax",
    "Share in Union Taxes",
    "Grants in Aid - CSS",
    "Grants in Aid - Others",
    "Non Tax Rev - Int, Div, Profit",
    "Non Tax Rev - Others"
  ]

  function IsCatalogued(e: Entry): bool
  {
    e.component in ValidComponents
  }

  /** `df[df['Components'].isin(valid_components)]`. */
  function KeepCatalogued(rows: seq<Entry>): (r: seq<Entry>)
    ensures forall x :: x in r <==> x in rows && x.component in ValidComponents
  {
    Filter(rows, IsCatalogued)
  }

  /** The `isin` mask keeps catalogued rows in order and with their
      multiplicity. */
  lemma KeepCataloguedAppend(rows: seq<Entry>, x: Entry)
    ensures KeepCatalogued(rows + [x]) ==
              KeepCatalogued(rows) + (if x.component in ValidComponents then [x] else [])
  {
    assert (rows + [x])[..|rows|] == rows;
  }

  /** The code of a component in the ordered categorical: its catalogue
      position; a component outside the catalogue has none. */
  function ComponentCode(component: string): (r: Option<nat>)
    ensures r.Some? <==> component in ValidComponents
    ensures r.Some? ==> r.value < |ValidComponents| && ValidComponents[r.value] == component
  {
    if component in ValidComponents then Some(Palette.FirstIndex(ValidComponents, component)) else None
  }

  /** Catalogue order, the order the ordered categorical imposes. */
  predicate ComponentLe(a: string, b: string)
  {
    ComponentCode(a).Some? && ComponentCode(b).Some? && ComponentCode(a).value <= ComponentCode(b).value
  }

  /** After the filter every component has a catalogue code, so catalogue
      order compares any two of them. */
  lemma CataloguedAreOrdered(rows: seq<Entry>)
    ensures forall x, y :: x in KeepCatalogued(rows) && y in KeepCatalogued(rows) ==>
              ComponentLe(x.component, y.component) || ComponentLe(y.component, x.component)
  {
  }

  /** Catalogue order is not alphabetical: "Share in Union Taxes" comes
      before "Grants in Aid - CSS" although it sorts after it as a string. */
  lemma CatalogueIsNotAlphabetical()
    ensures ComponentLe("Share in Union Taxes", "Grants in Aid - CSS")
    ensures !ComponentLe("Grants in Aid - CSS", "Share in Union Taxes")
    ensures LexLe("Grants in Aid - CSS", "Share in Union Taxes")
    ensures !LexLe("Share in Union Taxes", "Grants in Aid - CSS")
  {
    var share, grants := ValidComponents[1], ValidComponents[2];
    assert ValidComponents[0] != share by { assert ValidComponents[0][1] != share[1]; }
    assert ValidComponents[0] != grants by { assert ValidComponents[0][0] != grants[0]; }
    assert share != grants by { assert share[0] != grants[0]; }
    assert Palette.FirstIndex(ValidComponents, share) == 1;
    assert Palette.FirstIndex(ValidComponents, grants) == 2;
    assert grants[0] == 'G' && share[0] == 'S';
  }

  // ------------------------------------------------------------- percent

  /** `Value / groupby(['State', 'Year'])['Value'].transform('sum') * 100`
      with no guard: a missing value, or a zero group sum (division by zero
      gives inf or nan), yields no number. */
  function UnguardedPercent(rows: seq<Entry>): (r: seq<Option<real>>)
    ensures |r| == |rows|
    ensures forall i :: 0 <= i < |rows| ==>
              (r[i].Some? <==> rows[i].value.Some? && GroupSum(rows, StateYear, StateYear(rows[i])) != 0.0)
  {
    seq(|rows|, i requires 0 <= i < |rows| =>
      var total := GroupSum(rows, StateYear, StateYear(rows[i]));
      match rows[i].value
      case None => None
      case Some(v) => if total == 0.0 then None else Some(Percent(v, total)))
  }

  /** Each number is the row's value as a percentage of its (state, year)
      total. */
  lemma UnguardedPercentScales(rows: seq<Entry>, i: nat)
    requires i < |rows| && UnguardedPercent(rows)[i].Some?
    ensures PercentOf(UnguardedPercent(rows)[i].value, rows[i].value.value,
                      GroupSum(rows, StateYear, StateYear(rows[i])))
  {
    PercentAt(rows, i);
    PercentScales(rows[i].value.value, GroupSum(rows, StateYear, StateYear(rows[i])));
  }

  /** A present percentage is the row's value over its group's non-zero sum. */
  lemma PercentAt(rows: seq<Entry>, i: nat)
    requires i < |rows| && UnguardedPercent(rows)[i].Some?
    ensures rows[i].value.Some? && GroupSum(rows, StateYear, StateYear(rows[i])) != 0.0
    ensures UnguardedPercent(rows)[i].value == Percent(rows[i].value.value, GroupSum(rows, StateYear, StateYear(rows[i])))
  {
  }

  /** Against the dashboard's guarded share: equal on groups with a positive
      sum; on a zero-sum group the guard gives 0 where this page gives no
      number; on a negative-sum group this page still divides. */
  lemma PercentVersusGuardedShare(rows: seq<Entry>, i: nat)
    requires i < |rows|
    ensures var total := GroupSum(rows, StateYear, StateYear(rows[i]));
      && (total > 0.0 ==> UnguardedPercent(rows)[i] == PercentageShare(rows, StateYear)[i])
      && (total == 0.0 ==> UnguardedPercent(rows)[i] == None && PercentageShare(rows, StateYear)[i] == Some(0.0))
      && (total < 0.0 && rows[i].value.Some? ==>
            UnguardedPercent(rows)[i] == Some(Percent(rows[i].value.value, total))
            && PercentageShare(rows, StateYear)[i] == Some(0.0))
  {
  }

  /** Where the group sum is positive the page's percentages of a
      (state, year) add up to 100. */
  lemma UnguardedPercentTotal(rows: seq<Entry>, k: (string, string))
    requires GroupSum(rows, StateYear, k) > 0.0
    ensures GroupShareSum(rows, UnguardedPercent(rows), StateYear, k) == 100.0
  {
    SameOnGroup(rows, UnguardedPercent(rows), PercentageShare(rows, StateYear), k);
    ShareTotal(rows, StateYear, k);
  }

  lemma SameOnGroup(rows: seq<Entry>, a: seq<Option<real>>, b: seq<Option<real>>, k: (string, string))
    requires |a| == |rows| && |b| == |rows|
    requires a == UnguardedPercent(rows) && b == PercentageShare(rows, StateYear) && GroupSum(rows, StateYear, k) > 0.0
    ensures GroupShareSum(rows, a, StateYear, k) == GroupShareSum(rows, b, StateYear, k)
  {
    forall i | 0 <= i < |rows| && StateYear(rows[i]) == k
      ensures a[i] == b[i]
    {
      PercentVersusGuardedShare(rows, i);
    }
    AgreeOnGroup(rows, a, b, k);
  }

  /** Two share columns that agree on a group's rows have the same group
      total. */
  lemma {:induction false} AgreeOnGroup(rows: seq<Entry>, a: seq<Option<real>>, b: seq<Option<real>>, k: (string, string))
    requires |a| == |rows| && |b| == |rows|
    requires forall i :: 0 <= i < |rows| && StateYear(rows[i]) == k ==> a[i] == b[i]
    ensures GroupShareSum(rows, a, StateYear, k) == GroupShareSum(rows, b, StateYear, k)
  {
    if |rows| > 0 {
      var n := |rows| - 1;
      forall i | 0 <= i < n && StateYear(rows[..n][i]) == k
        ensures a[..n][i] == b[..n][i]
      {
        assert rows[..n][i] == rows[i];
      }
      AgreeOnGroup(rows[..n], a[..n], b[..n], k);
    }
  }

  // ----------------------------------------------------- loaded page data

  /** What `load_data` returns: the catalogued rows, the ordered year
      categories (computed before the component filter) and each kept row's
      percentage. */
  datatype PageData = PageData(rows: seq<Entry>, years: seq<string>, percent: seq<Option<real>>)

  function LoadData(long: seq<Entry>): (r: Result<PageData, ComponentsError>)
    ensures r.Success? <==> YearCategories(long).Success?
    ensures r.Success? ==> r.value.years == YearCategories(long).value
    ensures r.Success? ==> forall x :: x in r.value.rows <==> x in long && x.component in ValidComponents
    ensures r.Success? ==> r.value.rows == KeepCatalogued(long)
    ensures r.Success? ==> |r.value.percent| == |r.value.rows|
    ensures r.Success? ==> r.value.percent == UnguardedPercent(r.value.rows)
  {
    var years :- YearCategories(long);
    var kept := KeepCatalogued(long);
    Success(PageData(kept, years, UnguardedPercent(kept)))
  }

  // ------------------------------------------------------------ headline

  /** `int(x)` on a float: truncation toward zero. */
  function TruncateTowardZero(x: real): (r: int)
    ensures x >= 0.0 ==> 0 <= r && r as real <= x < r as real + 1.0
    ensures x < 0.0 ==> r <= 0 && r as real - 1.0 < x <= r as real
  {
    if x >= 0.0 then x.Floor else -((-x).Floor)
  }

  function YearOf(e: Entry): string
  {
    e.year
  }

  /** The last year category, and the integer part of that year's value
      total (missing values skipped); no categories raise. */
  function Headline(data: PageData): (r: Result<(string, int), ComponentsError>)
    ensures r.Failure? <==> |data.years| == 0
    ensures r.Success? ==> r.value.0 == data.years[|data.years| - 1]
    ensures r.Success? ==> var total := GroupSum(data.rows, YearOf, r.value.0);
              TruncateTowardZero(total) == r.value.1
  {
    if |data.years| == 0 then Failure(NoYears)
    else
      var latest := data.years[|data.years| - 1];
      Success((latest, TruncateTowardZero(GroupSum(data.rows, YearOf, latest))))
  }

  /** The latest year is the one with the largest start year. */
  lemma HeadlineIsLatest(long: seq<Entry>)
    requires LoadData(long).Success? && Headline(LoadData(long).value).Success?
    ensures forall y :: y in LoadData(long).value.years ==> YearLe(y, Headline(LoadData(long).value).value.0)
  {
    var years := LoadData(long).value.years;
    SortedLast(years);
  }

  lemma SortedLast(years: seq<string>)
    requires SortedBy(years, YearLe) && |years| > 0
    ensures forall y :: y in years ==> YearLe(y, years[|years| - 1])
  {
    forall y | y in years
      ensures YearLe(y, years[|years| - 1])
    {
      var j :| 0 <= j < |years| && years[j] == y;
      if j < |years| - 1 {
        assert YearLe(years[j], years[|years| - 1]);
      }
    }
  }

  // ------------------------------------------------------------ raw view

  function MentionsNoTotal(e: Entry): bool
  {
    !ContainsIgnoreCase(e.component, "Total") && !ContainsIgnoreCase(e.state, "Total")
  }

  /** Tab 4: one year's rows, without any row whose component or state
      contains "Total" in any letter case. */
  function RawView(rows: seq<Entry>, year: string): (r: seq<Entry>)
    ensures forall x :: x in r <==>
              x in rows && x.year == year
              && !Contains(Lower(x.component), "total") && !Contains(Lower(x.state), "total")
  {
    LowerTotal();
    Filter(Filter(rows, OfYear(year)), MentionsNoTotal)
  }

  /** The view keeps its rows in order and with their multiplicity: one
      more row is appended exactly when it is shown. */
  lemma RawViewAppend(rows: seq<Entry>, year: string, x: Entry)
    ensures RawView(rows + [x], year) == RawView(rows, year) +
              (if x.year == year && !Contains(Lower(x.component), "total") && !Contains(Lower(x.state), "total")
               then [x] else [])
  {
    LowerTotal();
    assert (rows + [x])[..|rows|] == rows;
    var shown := if x.year == year then [x] else [];
    assert Filter(rows + [x], OfYear(year)) == Filter(rows, OfYear(year)) + shown;
    FilterConcat(Filter(rows, OfYear(year)), shown, MentionsNoTotal);
    assert Filter([x], MentionsNoTotal) == (if MentionsNoTotal(x) then [x] else []) by {
      assert [x][..0] == [];
    }
  }

  lemma LowerTotal()
    ensures Lower("Total") == "total"
  {
    var t := "Total";
    assert Lower(t)[0] == LowerChar('T') == 't';
    assert Lower(t)[1..] == t[1..];
  }
}
