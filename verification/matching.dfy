/** Leftmost pattern search, the behaviour of pandas' `str.extract` with a
    fixed-width pattern: the first window of `s` the pattern accepts. */
module Matching {
  import opened Wrappers
  import opened Text

  /** `p` accepts the window of width `w` that starts at `j`. */
  predicate MatchAt(s: string, w: nat, p: string -> bool, j: int)
  {
    0 <= j && j + w <= |s| && p(s[j..j + w])
  }

  /** The window at `j` is accepted and no accepted window starts before it. */
  predicate LeftmostAt(s: string, w: nat, p: string -> bool, j: int)
  {
    MatchAt(s, w, p, j) && forall i :: 0 <= i < j ==> !MatchAt(s, w, p, i)
  }

  /** The leftmost start `j >= i` of an accepted window. */
  function FirstMatch(s: string, w: nat, p: string -> bool, i: nat): (r: Option<nat>)
    ensures r.Some? ==> i <= r.value && MatchAt(s, w, p, r.value)
    ensures r.Some? ==> forall j :: i <= j < r.value ==> !MatchAt(s, w, p, j)
    ensures r.None? ==> forall j :: i <= j ==> !MatchAt(s, w, p, j)
    decreases |s| - i
  {
    if i + w > |s| then None
    else if p(s[i..i + w]) then Some(i)
    else FirstMatch(s, w, p, i + 1)
  }

  /** The matched text itself, or missing. */
  function Extract(s: string, w: nat, p: string -> bool): (r: Option<string>)
    ensures r.Some? ==> |r.value| == w && p(r.value)
    ensures r.Some? ==> exists j :: LeftmostAt(s, w, p, j) && r.value == s[j..j + w]
    ensures r.None? <==> forall j :: 0 <= j ==> !MatchAt(s, w, p, j)
  {
    match FirstMatch(s, w, p, 0)
    case None => None
    case Some(j) =>
      assert LeftmostAt(s, w, p, j);
      Some(s[j..j + w])
  }

  /** Appending text that creates no new accepted window in front of the
      first old one does not change what is extracted; when the old text
      has no match, the first match of the appended part is found. */
  lemma ExtractAppend(a: string, b: string, w: nat, p: string -> bool)
    requires forall j :: 0 <= j < |a| && |a| < j + w ==> !MatchAt(a + b, w, p, j)
    ensures Extract(a, w, p).Some? ==> Extract(a + b, w, p) == Extract(a, w, p)
    ensures Extract(a, w, p).None? ==> Extract(a + b, w, p) == Extract(b, w, p)
  {
    if FirstMatch(a, w, p, 0).Some? {
      FoundInLeft(a, b, w, p);
    } else if FirstMatch(b, w, p, 0).Some? {
      FoundInRight(a, b, w, p);
    } else {
      FoundNowhere(a, b, w, p);
    }
  }

  /** Windows that lie inside `a` match in `a + b` exactly when in `a`. */
  lemma LeftWindows(a: string, b: string, w: nat, p: string -> bool)
    ensures forall j :: 0 <= j && j + w <= |a| ==> (MatchAt(a + b, w, p, j) <==> MatchAt(a, w, p, j))
  {
    forall j | 0 <= j && j + w <= |a|
      ensures MatchAt(a + b, w, p, j) <==> MatchAt(a, w, p, j)
    {
      assert (a + b)[j..j + w] == a[j..j + w];
    }
  }

  /** Windows that lie inside `b` match in `a + b` exactly when in `b`. */
  lemma RightWindow(a: string, b: string, w: nat, p: string -> bool, j: nat)
    requires j + w <= |b|
    ensures MatchAt(a + b, w, p, |a| + j) <==> MatchAt(b, w, p, j)
  {
    SliceRight(a, b, j, w);
  }

  lemma FoundInLeft(a: string, b: string, w: nat, p: string -> bool)
    requires FirstMatch(a, w, p, 0).Some?
    ensures Extract(a + b, w, p) == Extract(a, w, p)
  {
    var s := a + b;
    var j := FirstMatch(a, w, p, 0).value;
    LeftWindows(a, b, w, p);
    var rs := FirstMatch(s, w, p, 0);
    assert MatchAt(s, w, p, j);
    assert rs.Some? && rs.value == j;
    assert s[j..j + w] == a[j..j + w];
  }

  /** With no match in `a` and none straddling the join, nothing starts
      inside `a`. */
  lemma NoEarlyMatch(a: string, b: string, w: nat, p: string -> bool, k: nat)
    requires forall j :: 0 <= j < |a| && |a| < j + w ==> !MatchAt(a + b, w, p, j)
    requires FirstMatch(a, w, p, 0).None? && k < |a|
    ensures !MatchAt(a + b, w, p, k)
  {
    if k + w <= |a| {
      LeftWindows(a, b, w, p);
    }
  }

  lemma FoundInRight(a: string, b: string, w: nat, p: string -> bool)
    requires forall j :: 0 <= j < |a| && |a| < j + w ==> !MatchAt(a + b, w, p, j)
    requires FirstMatch(a, w, p, 0).None? && FirstMatch(b, w, p, 0).Some?
    ensures Extract(a + b, w, p) == Extract(b, w, p)
  {
    var s := a + b;
    var j := FirstMatch(b, w, p, 0).value;
    var m := |a| + j;
    RightWindow(a, b, w, p, j);
    NothingBefore(a, b, w, p, j);
    FirstMatchIs(s, w, p, m);
    ExtractShift(a, b, w, p, j);
  }

  lemma ExtractShift(a: string, b: string, w: nat, p: string -> bool, j: nat)
    requires FirstMatch(a + b, w, p, 0) == Some(|a| + j) && FirstMatch(b, w, p, 0) == Some(j)
    ensures Extract(a + b, w, p) == Extract(b, w, p)
  {
    SliceRight(a, b, j, w);
    ExtractAt(a + b, w, p, |a| + j);
    ExtractAt(b, w, p, j);
  }

  /** Nothing in `a + b` matches before the first match of `b`. */
  lemma NothingBefore(a: string, b: string, w: nat, p: string -> bool, j: nat)
    requires forall j :: 0 <= j < |a| && |a| < j + w ==> !MatchAt(a + b, w, p, j)
    requires FirstMatch(a, w, p, 0).None? && FirstMatch(b, w, p, 0) == Some(j)
    ensures forall i :: 0 <= i < |a| + j ==> !MatchAt(a + b, w, p, i)
  {
    forall i | 0 <= i < |a| + j
      ensures !MatchAt(a + b, w, p, i)
    {
      NothingAt(a, b, w, p, j, i);
    }
  }

  lemma NothingAt(a: string, b: string, w: nat, p: string -> bool, j: nat, i: nat)
    requires forall j :: 0 <= j < |a| && |a| < j + w ==> !MatchAt(a + b, w, p, j)
    requires FirstMatch(a, w, p, 0).None? && FirstMatch(b, w, p, 0) == Some(j)
    requires i < |a| + j
    ensures !MatchAt(a + b, w, p, i)
  {
    if i < |a| {
      NoEarlyMatch(a, b, w, p, i);
    } else {
      NoMatchInRight(a, b, w, p, j, i - |a|);
    }
  }

  lemma NoMatchInRight(a: string, b: string, w: nat, p: string -> bool, j: nat, i: nat)
    requires FirstMatch(b, w, p, 0) == Some(j) && i < j
    ensures !MatchAt(a + b, w, p, |a| + i)
  {
    if i + w <= |b| {
      RightWindow(a, b, w, p, i);
    }
  }

  /** The leftmost accepted window is the one with nothing accepted before
      it. */
  lemma FirstMatchIs(s: string, w: nat, p: string -> bool, m: nat)
    requires MatchAt(s, w, p, m) && forall i :: 0 <= i < m ==> !MatchAt(s, w, p, i)
    ensures FirstMatch(s, w, p, 0) == Some(m)
  {
  }

  lemma SliceRight(a: string, b: string, j: nat, w: nat)
    requires j + w <= |b|
    ensures (a + b)[|a| + j..|a| + j + w] == b[j..j + w]
  {
  }

  lemma ExtractAt(s: string, w: nat, p: string -> bool, k: nat)
    requires FirstMatch(s, w, p, 0) == Some(k)
    ensures Extract(s, w, p) == Some(s[k..k + w])
  {
  }

  lemma FoundNowhere(a: string, b: string, w: nat, p: string -> bool)
    requires forall j :: 0 <= j < |a| && |a| < j + w ==> !MatchAt(a + b, w, p, j)
    requires FirstMatch(a, w, p, 0).None? && FirstMatch(b, w, p, 0).None?
    ensures Extract(a + b, w, p).None?
  {
    forall k | 0 <= k
      ensures !MatchAt(a + b, w, p, k)
    {
      NoMatchAnywhere(a, b, w, p, k);
    }
  }

  /** With no match in either part and none straddling the join, no window
      of `a + b` is accepted. */
  lemma NoMatchAnywhere(a: string, b: string, w: nat, p: string -> bool, k: nat)
    requires forall j :: 0 <= j < |a| && |a| < j + w ==> !MatchAt(a + b, w, p, j)
    requires FirstMatch(a, w, p, 0).None? && FirstMatch(b, w, p, 0).None?
    ensures !MatchAt(a + b, w, p, k)
  {
    if k < |a| {
      NoEarlyMatch(a, b, w, p, k);
    } else if k + w <= |a + b| {
      RightWindow(a, b, w, p, k - |a|);
      assert !MatchAt(b, w, p, k - |a|);
    }
  }
}
