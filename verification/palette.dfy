/** Colour palettes (utils/utils.py `get_distinct_colors`): the
    concatenated plotting palettes are de-duplicated keeping first
    occurrences, then cycled to the requested length.  The palette
    contents are foreign data and are a parameter here. */
module Palette {
  import opened Wrappers

  datatype PaletteError = EmptyPalette

  predicate NoDuplicates<T(==)>(s: seq<T>)
  {
    forall i, j :: 0 <= i < j < |s| ==> s[i] != s[j]
  }

  /** Position of the first occurrence of `x` in `s`. */
  function FirstIndex<T(==)>(s: seq<T>, x: T): (k: nat)
    requires x in s
    ensures k < |s| && s[k] == x
    ensures forall m :: 0 <= m < k ==> s[m] != x
  {
    if s[0] == x then 0 else 1 + FirstIndex(s[1..], x)
  }

  lemma FirstIndexBefore<T>(s: seq<T>, i: nat, x: T)
    requires i <= |s| && x in s[..i]
    ensures FirstIndex(s, x) < i
  {
    var j :| 0 <= j < i && s[..i][j] == x;
    assert s[j] == x;
  }

  lemma FirstIndexAt<T>(s: seq<T>, i: nat)
    requires i < |s| && s[i] !in s[..i]
    ensures FirstIndex(s, s[i]) == i
  {
    assert forall m :: 0 <= m < i ==> s[..i][m] == s[m];
  }

  /** Order-preserving de-duplication (`Series.unique`, or the `seen`-set
      loop): each element once, where it first occurs. */
  function Unique<T(==,!new)>(s: seq<T>): (r: seq<T>)
    ensures NoDuplicates(r)
    ensures forall x :: x in r <==> x in s
  {
    if |s| == 0 then []
    else
      var x := s[|s| - 1];
      var front := Unique(s[..|s| - 1]);
      assert s == s[..|s| - 1] + [x];
      if x in front then front else front + [x]
  }

  /** Appending an element extends the de-duplication exactly when the
      element is new. */
  lemma UniqueSnoc<T(!new)>(s: seq<T>, x: T)
    ensures Unique(s + [x]) == if x in s then Unique(s) else Unique(s) + [x]
  {
    assert (s + [x])[..|s|] == s;
  }

  /** One more element of the input extends the de-duplicated prefix
      exactly when the element is new. */
  lemma UniqueStep<T(!new)>(s: seq<T>, i: nat)
    requires i < |s|
    ensures Unique(s[..i + 1]) == if s[i] in s[..i] then Unique(s[..i]) else Unique(s[..i]) + [s[i]]
  {
    assert s[..i + 1] == s[..i] + [s[i]];
    UniqueSnoc(s[..i], s[i]);
  }

  /** The first occurrence of `x` before position `n` is its first
      occurrence in the whole sequence. */
  lemma FirstIndexPrefix<T>(s: seq<T>, n: nat, x: T)
    requires n <= |s| && x in s[..n]
    ensures FirstIndex(s, x) == FirstIndex(s[..n], x)
  {
    var k := FirstIndex(s[..n], x);
    FirstIndexBefore(s, n, x);
    assert s[..n][FirstIndex(s, x)] == x;
    assert s[k] == x;
  }

  /** `Unique` lists the elements in the order of their first occurrence. */
  lemma {:induction false} UniqueInOrder<T(!new)>(s: seq<T>)
    ensures forall a, b :: 0 <= a < b < |Unique(s)| ==>
              FirstIndex(s, Unique(s)[a]) < FirstIndex(s, Unique(s)[b])
  {
    if |s| > 0 {
      var n := |s| - 1;
      var u := Unique(s[..n]);
      UniqueInOrder(s[..n]);
      LiftOrder(s, n);
      if s[n] !in u {
        FirstIndexAt(s, n);
        assert Unique(s) == u + [s[n]];
        SnocOrder(s, n);
      } else {
        assert s == s[..n] + [s[n]];
      }
    }
  }

  /** First occurrences inside a prefix keep their order and their
      positions in the whole sequence. */
  lemma LiftOrder<T(!new)>(s: seq<T>, n: nat)
    requires n <= |s|
    requires forall a, b :: 0 <= a < b < |Unique(s[..n])| ==>
               FirstIndex(s[..n], Unique(s[..n])[a]) < FirstIndex(s[..n], Unique(s[..n])[b])
    ensures forall y :: y in Unique(s[..n]) ==> y in s && FirstIndex(s, y) < n
    ensures forall a, b :: 0 <= a < b < |Unique(s[..n])| ==>
              FirstIndex(s, Unique(s[..n])[a]) < FirstIndex(s, Unique(s[..n])[b])
  {
    var u := Unique(s[..n]);
    forall y | y in u
      ensures y in s && FirstIndex(s, y) == FirstIndex(s[..n], y) < n
    {
      FirstIndexPrefix(s, n, y);
    }
  }

  /** A new last element first occurs after every earlier one. */
  lemma SnocOrder<T(!new)>(s: seq<T>, n: nat)
    requires n == |s| - 1 && FirstIndex(s, s[n]) == n
    requires forall y :: y in Unique(s[..n]) ==> y in s && FirstIndex(s, y) < n
    requires forall a, b :: 0 <= a < b < |Unique(s[..n])| ==>
               FirstIndex(s, Unique(s[..n])[a]) < FirstIndex(s, Unique(s[..n])[b])
    ensures forall a, b :: 0 <= a < b < |Unique(s[..n])| + 1 ==>
              FirstIndex(s, (Unique(s[..n]) + [s[n]])[a]) < FirstIndex(s, (Unique(s[..n]) + [s[n]])[b])
  {
    var u := Unique(s[..n]);
    var v := u + [s[n]];
    forall a, b | 0 <= a < b < |v|
      ensures FirstIndex(s, v[a]) < FirstIndex(s, v[b])
    {
      assert u[a] in u;
      if b < |u| {
        assert u[b] in u;
      }
      SnocPair(s, u, a, b);
    }
  }

  lemma SnocPair<T(!new)>(s: seq<T>, u: seq<T>, a: nat, b: nat)
    requires |s| > 0 && FirstIndex(s, s[|s| - 1]) == |s| - 1
    requires a < b <= |u| && u[a] in s && FirstIndex(s, u[a]) < |s| - 1
    requires b < |u| ==> u[b] in s && FirstIndex(s, u[a]) < FirstIndex(s, u[b])
    ensures FirstIndex(s, (u + [s[|s| - 1]])[a]) < FirstIndex(s, (u + [s[|s| - 1]])[b])
  {
    var v := u + [s[|s| - 1]];
    assert v[a] == u[a];
    if b < |u| {
      assert v[b] == u[b];
    } else {
      assert v[b] == s[|s| - 1];
    }
  }

  /** The de-duplicated palette: every colour once, in the order of its
      first occurrence. */
  method Distinct<T(==,!new)>(colors: seq<T>) returns (distinct: seq<T>)
    ensures distinct == Unique(colors)
    ensures NoDuplicates(distinct)
    ensures forall x :: x in distinct <==> x in colors
    ensures forall a, b :: 0 <= a < b < |distinct| ==>
              FirstIndex(colors, distinct[a]) < FirstIndex(colors, distinct[b])
  {
    var seen: set<T> := {};
    distinct := [];
    var i := 0;
    while i < |colors|
      invariant 0 <= i <= |colors|
      invariant forall x :: x in seen <==> x in colors[..i]
      invariant distinct == Unique(colors[..i])
    {
      var color := colors[i];
      UniqueStep(colors, i);
      if color !in seen {
        seen := seen + {color};
        distinct := distinct + [color];
      }
      i := i + 1;
    }
    assert colors[..i] == colors;
    UniqueInOrder(colors);
  }

  /** `[distinct[i % len(distinct)] for i in range(n)]`: the palette cycled
      to `n` entries; an empty palette raises when `n > 0`. */
  function Cycle<T>(distinct: seq<T>, n: int): (r: Result<seq<T>, PaletteError>)
    ensures r.Success? <==> n <= 0 || |distinct| > 0
    ensures r.Success? ==> |r.value| == (if n > 0 then n else 0)
    ensures r.Success? ==> forall i :: 0 <= i < |r.value| ==> r.value[i] == distinct[i % |distinct|]
  {
    if n <= 0 then Success([])
    else if |distinct| == 0 then Failure(EmptyPalette)
    else Success(seq(n, i requires 0 <= i => distinct[i % |distinct|]))
  }

  /** Every colour of the cycled palette is a palette colour. */
  lemma CycleInPalette<T>(distinct: seq<T>, n: int)
    requires Cycle(distinct, n).Success?
    ensures forall i :: 0 <= i < |Cycle(distinct, n).value| ==> Cycle(distinct, n).value[i] in distinct
  {
  }

  /** Once `n` reaches the palette size every palette colour is used. */
  lemma CycleCovers<T>(distinct: seq<T>, n: int)
    requires Cycle(distinct, n).Success? && n >= |distinct|
    ensures forall x :: x in distinct ==> x in Cycle(distinct, n).value
  {
    var r := Cycle(distinct, n).value;
    forall x | x in distinct
      ensures x in r
    {
      var j :| 0 <= j < |distinct| && distinct[j] == x;
      assert j % |distinct| == j;
      assert r[j] == x;
    }
  }

  /** Up to the palette size the cycle repeats no colour. */
  lemma CycleNoRepeat<T>(distinct: seq<T>, n: int)
    requires NoDuplicates(distinct) && n <= |distinct|
    ensures Cycle(distinct, n).Success?
    ensures NoDuplicates(Cycle(distinct, n).value)
  {
    var r := Cycle(distinct, n).value;
    forall i, j | 0 <= i < j < |r|
      ensures r[i] != r[j]
    {
      CycleStart(distinct, n, i);
      CycleStart(distinct, n, j);
    }
  }

  /** Within the first round the cycle is the palette itself. */
  lemma CycleStart<T>(distinct: seq<T>, n: int, i: int)
    requires n <= |distinct| && 0 <= i < n
    ensures Cycle(distinct, n).Success? && Cycle(distinct, n).value[i] == distinct[i]
  {
    assert i % |distinct| == i;
  }

  /** `get_distinct_colors(n)` over a given concatenated palette: the
      de-duplicated palette cycled to `n` colours, so no colour repeats
      while `n` does not exceed the number of distinct colours. */
  method GetDistinctColors<T(==,!new)>(palette: seq<T>, n: int) returns (r: Result<seq<T>, PaletteError>)
    ensures r == Cycle(Unique(palette), n)
    ensures r.Success? <==> n <= 0 || |palette| > 0
    ensures r.Success? ==> |r.value| == (if n > 0 then n else 0)
    ensures r.Success? ==> forall i :: 0 <= i < |r.value| ==> r.value[i] in palette
    ensures r.Success? && n > 0 ==> r.value[0] == palette[0]
    ensures n <= |Unique(palette)| ==> r.Success? && NoDuplicates(r.value)
  {
    var distinct := Distinct(palette);
    assert |distinct| > 0 ==> distinct[0] in palette;
    if |palette| > 0 {
      assert palette[0] in distinct;
      var j :| 0 <= j < |distinct| && distinct[j] == palette[0];
      assert FirstIndex(palette, palette[0]) == 0;
      assert j == 0;
    }
    r := Cycle(distinct, n);
    if r.Success? {
      CycleInPalette(distinct, n);
    }
    if n <= |distinct| {
      CycleNoRepeat(distinct, n);
    }
  }
}
