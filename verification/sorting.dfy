/** Stable sorting by a total preorder: the behaviour of pandas'
    `sort_values` on several columns (a stable lexicographic sort) and of
    Python's `sorted`. */
module Sorting {

  /** `le` is a total preorder: every pair is comparable and `le` chains. */
  ghost predicate TotalPreorder<T(!new)>(le: (T, T) -> bool)
  {
    && (forall a, b :: le(a, b) || le(b, a))
    && (forall a, b, c :: le(a, b) && le(b, c) ==> le(a, c))
  }

  /** Non-decreasing under `le`, comparing every pair of positions. */
  predicate SortedBy<T>(s: seq<T>, le: (T, T) -> bool)
  {
    forall i, j :: 0 <= i < j < |s| ==> le(s[i], s[j])
  }

  predicate Equivalent<T>(a: T, b: T, le: (T, T) -> bool)
  {
    le(a, b) && le(b, a)
  }

  /** The elements of `s` that sort level with `x`, in their order in `s`. */
  function Level<T>(s: seq<T>, x: T, le: (T, T) -> bool): seq<T>
  {
    if |s| == 0 then []
    else (if Equivalent(s[0], x, le) then [s[0]] else []) + Level(s[1..], x, le)
  }

  /** Insert `x` in front of the first element it does not sort after. */
  function Insert<T(!new)>(x: T, s: seq<T>, le: (T, T) -> bool): (r: seq<T>)
    requires TotalPreorder(le) && SortedBy(s, le)
    ensures SortedBy(r, le)
    ensures multiset(r) == multiset(s) + multiset{x}
  {
    if |s| == 0 then [x]
    else if le(x, s[0]) then [x] + s
    else
      var rest := Insert(x, s[1..], le);
      InsertCons(x, s, rest, le);
      [s[0]] + rest
  }

  /** Keeping the head in front of the tail with `x` inserted keeps the
      order and the contents. */
  lemma InsertCons<T(!new)>(x: T, s: seq<T>, rest: seq<T>, le: (T, T) -> bool)
    requires TotalPreorder(le) && SortedBy(s, le) && |s| > 0 && !le(x, s[0])
    requires SortedBy(rest, le) && multiset(rest) == multiset(s[1..]) + multiset{x}
    ensures SortedBy([s[0]] + rest, le)
    ensures multiset([s[0]] + rest) == multiset(s) + multiset{x}
  {
    assert s == [s[0]] + s[1..];
    HeadBelow(x, s, rest, le);
  }

  /** The head of a sorted `s` that `x` sorts after is below every element
      of `x` added to the rest of `s`. */
  lemma HeadBelow<T(!new)>(x: T, s: seq<T>, rest: seq<T>, le: (T, T) -> bool)
    requires TotalPreorder(le) && SortedBy(s, le) && |s| > 0 && !le(x, s[0])
    requires multiset(rest) == multiset(s[1..]) + multiset{x}
    ensures forall j :: 0 <= j < |rest| ==> le(s[0], rest[j])
  {
    forall j | 0 <= j < |rest|
      ensures le(s[0], rest[j])
    {
      var y := rest[j];
      assert y in multiset(rest);
      if y != x {
        assert y in multiset(s[1..]);
        var i :| 0 <= i < |s[1..]| && s[1..][i] == y;
        assert s[i + 1] == y;
      }
    }
  }

  /** Stable insertion sort. */
  function SortBy<T(!new)>(s: seq<T>, le: (T, T) -> bool): (r: seq<T>)
    requires TotalPreorder(le)
    ensures SortedBy(r, le)
    ensures multiset(r) == multiset(s)
    ensures |r| == |s|
  {
    if |s| == 0 then []
    else
      assert s == [s[0]] + s[1..];
      Insert(s[0], SortBy(s[1..], le), le)
  }

  lemma {:induction false} LevelInsert<T(!new)>(y: T, s: seq<T>, x: T, le: (T, T) -> bool)
    requires TotalPreorder(le) && SortedBy(s, le)
    ensures Level(Insert(y, s, le), x, le)
            == (if Equivalent(y, x, le) then [y] else []) + Level(s, x, le)
  {
    if |s| == 0 {
      LevelCons(y, s, x, le);
    } else if le(y, s[0]) {
      LevelCons(y, s, x, le);
    } else {
      assert SortedBy(s[1..], le);
      LevelInsert(y, s[1..], x, le);
      LevelPast(y, s, x, le);
    }
  }

  /** Inserting past the head: the head's level entry comes first, and it
      cannot share a level with `y`. */
  lemma LevelPast<T(!new)>(y: T, s: seq<T>, x: T, le: (T, T) -> bool)
    requires TotalPreorder(le) && SortedBy(s, le) && |s| > 0 && !le(y, s[0])
    requires Level(Insert(y, s[1..], le), x, le) == (if Equivalent(y, x, le) then [y] else []) + Level(s[1..], x, le)
    ensures Level(Insert(y, s, le), x, le) == (if Equivalent(y, x, le) then [y] else []) + Level(s, x, le)
  {
    var rest := Insert(y, s[1..], le);
    assert Insert(y, s, le) == [s[0]] + rest;
    if Equivalent(y, x, le) {
      NotAbove(y, x, s[0], le);
    }
    LevelShift(y, s, rest, x, le);
  }

  /** Putting the head of `s` back in front of `rest`, where `y` and the
      head never share a level. */
  lemma LevelShift<T>(y: T, s: seq<T>, rest: seq<T>, x: T, le: (T, T) -> bool)
    requires |s| > 0 && !(Equivalent(y, x, le) && Equivalent(s[0], x, le))
    requires Level(rest, x, le) == (if Equivalent(y, x, le) then [y] else []) + Level(s[1..], x, le)
    ensures Level([s[0]] + rest, x, le) == (if Equivalent(y, x, le) then [y] else []) + Level(s, x, le)
  {
    var ss := if Equivalent(s[0], x, le) then [s[0]] else [];
    var ys := if Equivalent(y, x, le) then [y] else [];
    var tail := Level(s[1..], x, le);
    LevelCons(s[0], rest, x, le);
    LevelCons(s[0], s[1..], x, le);
    assert [s[0]] + s[1..] == s;
    if ys == [] {
      assert ys + (ss + tail) == ss + tail;
      assert ys + tail == tail;
    } else {
      assert ss == [];
      assert ss + tail == tail;
      assert ss + (ys + tail) == ys + tail;
    }
  }

  lemma LevelCons<T>(y: T, s: seq<T>, x: T, le: (T, T) -> bool)
    ensures Level([y] + s, x, le) == (if Equivalent(y, x, le) then [y] else []) + Level(s, x, le)
  {
    assert ([y] + s)[1..] == s;
  }

  /** What sorts level with or below `y` is not above anything `y` is not
      below. */
  lemma NotAbove<T(!new)>(y: T, x: T, z: T, le: (T, T) -> bool)
    requires TotalPreorder(le) && le(y, x) && !le(y, z)
    ensures !le(x, z)
  {
  }

  /** Sorting keeps the relative order of elements that sort level. */
  lemma {:induction false} SortByStable<T(!new)>(s: seq<T>, x: T, le: (T, T) -> bool)
    requires TotalPreorder(le)
    ensures Level(SortBy(s, le), x, le) == Level(s, x, le)
  {
    if |s| > 0 {
      SortByStable(s[1..], x, le);
      LevelInsert(s[0], SortBy(s[1..], le), x, le);
    }
  }
}
