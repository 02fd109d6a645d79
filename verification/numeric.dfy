/** Numeric cleaning of table cells: `pd.to_numeric(..., errors="coerce")`
    after stripping thousands separators.  A cell becomes a real number or
    explicit-missing (`None`); it never raises.

    The number grammar is a stated subset of what pandas accepts: an
    optional sign, decimal digits, and an optional fraction after one dot,
    with at least one digit in all. */
module Numeric {
  import opened Wrappers
  import opened Text

  /** The value of fraction digits `d1 d2 ...` read as `0.d1d2...`. */
  function FractionValue(s: string): (r: real)
    requires AllDigits(s)
    ensures 0.0 <= r < 1.0
  {
    if |s| == 0 then 0.0 else (DigitValue(s[0]) as real + FractionValue(s[1..])) / 10.0
  }

  /** Position of the first `c` in `s`, or `|s|` when there is none. */
  function IndexOf(s: string, c: char): (k: nat)
    ensures k <= |s|
    ensures c !in s[..k]
    ensures k < |s| ==> s[k] == c
  {
    if |s| == 0 then 0
    else if s[0] == c then 0
    else 1 + IndexOf(s[1..], c)
  }

  predicate IsSign(c: char)
  {
    c == '-' || c == '+'
  }

  /** The unsigned part of a numeral: everything after a leading sign. */
  function Unsigned(s: string): string
  {
    if |s| > 0 && IsSign(s[0]) then s[1..] else s
  }

  function WholePart(s: string): string
  {
    var body := Unsigned(s);
    body[..IndexOf(body, '.')]
  }

  function FractionPart(s: string): string
  {
    var body := Unsigned(s);
    var k := IndexOf(body, '.');
    if k < |body| then body[k + 1..] else ""
  }

  /** Text accepted as a number: sign?, digits, optional `.digits`, and at
      least one digit overall. */
  predicate IsNumeral(s: string)
  {
    AllDigits(WholePart(s)) && AllDigits(FractionPart(s))
    && |WholePart(s)| + |FractionPart(s)| > 0
  }

  /** Parse a numeral; anything else is missing (the `errors="coerce"`
      behaviour of `pd.to_numeric`). */
  function ParseDecimal(s: string): (r: Option<real>)
    ensures r.Some? <==> IsNumeral(s)
  {
    if IsNumeral(s) then
      var magnitude := DigitsValue(WholePart(s)) as real + FractionValue(FractionPart(s));
      Some(if |s| > 0 && s[0] == '-' then -magnitude else magnitude)
    else
      None
  }

  /** A numeral holds a digit, and nothing but digits, dots and one
      leading sign. */
  lemma NumeralShape(s: string)
    requires IsNumeral(s)
    ensures exists i :: 0 <= i < |s| && IsDigit(s[i])
    ensures forall i :: 0 <= i < |s| ==> IsDigit(s[i]) || s[i] == '.' || (i == 0 && IsSign(s[i]))
  {
    var body := Unsigned(s);
    var off := |s| - |body|;
    var k := IndexOf(body, '.');
    assert body == s[off..];
    if |WholePart(s)| > 0 {
      assert IsDigit(s[off]);
    } else {
      assert IsDigit(s[off + k + 1]);
    }
    forall i | 0 <= i < |s|
      ensures IsDigit(s[i]) || s[i] == '.' || (i == 0 && IsSign(s[i]))
    {
      NumeralChar(s, i);
    }
  }

  lemma NumeralChar(s: string, i: nat)
    requires IsNumeral(s) && i < |s|
    ensures IsDigit(s[i]) || s[i] == '.' || (i == 0 && IsSign(s[i]))
  {
    if |s| > 0 && IsSign(s[0]) {
      if i > 0 {
        assert s[i] == Unsigned(s)[i - 1];
        BodyChar(s, i - 1);
      }
    } else {
      BodyChar(s, i);
    }
  }

  /** After the sign, a numeral holds digits and the dot only. */
  lemma BodyChar(s: string, j: nat)
    requires IsNumeral(s) && j < |Unsigned(s)|
    ensures IsDigit(Unsigned(s)[j]) || Unsigned(s)[j] == '.'
  {
    var body := Unsigned(s);
    var k := IndexOf(body, '.');
    if j < k {
      assert body[j] == WholePart(s)[j];
    } else if j > k {
      assert body[j] == FractionPart(s)[j - k - 1];
    }
  }

  // ------------------------------------------------------------ rendering

  function DigitChar(d: nat): (c: char)
    requires d < 10
    ensures IsDigit(c) && DigitValue(c) == d
  {
    ('0' as int + d) as char
  }

  /** The decimal rendering of a natural number, without leading zeros. */
  function ShowNat(n: nat): (s: string)
    ensures |s| > 0 && AllDigits(s)
    ensures DigitsValue(s) == n
  {
    if n < 10 then [DigitChar(n)]
    else
      var prefix := ShowNat(n / 10);
      var s := prefix + [DigitChar(n % 10)];
      assert s[..|s| - 1] == prefix;
      s
  }

  /** A digit string written with a comma between every group of three
      digits, counted from the right, the way the source tables print
      amounts ("12,345"). */
  function GroupThousands(ds: string): string
    requires AllDigits(ds)
    decreases |ds|
  {
    if |ds| <= 3 then ds else GroupThousands(ds[..|ds| - 3]) + "," + ds[|ds| - 3..]
  }

  lemma {:induction false} UngroupThousands(ds: string)
    requires AllDigits(ds)
    ensures RemoveChar(GroupThousands(ds), ',') == ds
    decreases |ds|
  {
    DigitsHaveNoComma(ds);
    if |ds| <= 3 {
      RemoveCharAbsent(ds, ',');
    } else {
      var head := ds[..|ds| - 3];
      var tail := ds[|ds| - 3..];
      assert AllDigits(head) && AllDigits(tail);
      var g := GroupThousands(head);
      assert GroupThousands(ds) == (g + ",") + tail;
      calc {
        RemoveChar((g + ",") + tail, ',');
        { RemoveCharAppend(g + ",", tail, ','); }
        RemoveChar(g + ",", ',') + RemoveChar(tail, ',');
        { RemoveCharAppend(g, ",", ','); }
        RemoveChar(g, ',') + RemoveChar(",", ',') + RemoveChar(tail, ',');
        { UngroupThousands(head); DigitsHaveNoComma(tail); RemoveCharAbsent(tail, ','); }
        head + RemoveChar(",", ',') + tail;
        { assert RemoveChar(",", ',') == ""; }
        head + tail;
      }
      assert head + tail == ds;
    }
  }

  lemma DigitsHaveNoComma(ds: string)
    requires AllDigits(ds)
    ensures ',' !in ds && '.' !in ds
  {
    forall i | 0 <= i < |ds|
      ensures ds[i] != ',' && ds[i] != '.'
    {
      assert IsDigit(ds[i]);
    }
  }

  // ------------------------------------------------------- parse lemmas

  lemma DotFree(ds: string)
    requires AllDigits(ds)
    ensures '.' !in ds && IndexOf(ds, '.') == |ds|
  {
    DigitsHaveNoComma(ds);
    IndexOfAbsent(ds, '.');
  }

  lemma {:induction false} IndexOfAbsent(s: string, c: char)
    requires c !in s
    ensures IndexOf(s, c) == |s|
  {
    if |s| > 0 {
      IndexOfAbsent(s[1..], c);
    }
  }

  /** The parse of a sign-free text whose whole and fraction parts are known. */
  lemma ParseUnsigned(s: string, whole: string, frac: string)
    requires |s| > 0 && !IsSign(s[0])
    requires WholePart(s) == whole && FractionPart(s) == frac
    requires AllDigits(whole) && AllDigits(frac) && |whole| > 0
    ensures ParseDecimal(s) == Some(DigitsValue(whole) as real + FractionValue(frac))
  {
  }

  /** A fixed-point numeral `ds.fs` parses to its exact value. */
  lemma ParseFixedPoint(ds: string, fs: string)
    requires AllDigits(ds) && AllDigits(fs) && |ds| > 0
    ensures ParseDecimal(ds + "." + fs) == Some(DigitsValue(ds) as real + FractionValue(fs))
  {
    FixedPointParts(ds, fs);
    ParseUnsigned(ds + "." + fs, ds, fs);
  }

  lemma FixedPointParts(ds: string, fs: string)
    requires AllDigits(ds) && |ds| > 0
    ensures |ds + "." + fs| > 0 && !IsSign((ds + "." + fs)[0])
    ensures WholePart(ds + "." + fs) == ds && FractionPart(ds + "." + fs) == fs
  {
    var tail := "." + fs;
    var s := ds + tail;
    DotFree(ds);
    assert IsDigit(ds[0]) && s[0] == ds[0];
    assert Unsigned(s) == s;
    IndexOfPrefix(ds, tail, '.');
    assert IndexOf(tail, '.') == 0;
    assert s[..|ds|] == ds;
    assert s[|ds| + 1..] == fs;
    assert ds + "." + fs == s;
  }

  lemma {:induction false} IndexOfPrefix(a: string, b: string, c: char)
    requires c !in a
    ensures IndexOf(a + b, c) == |a| + IndexOf(b, c)
  {
    if |a| > 0 {
      assert (a + b)[1..] == a[1..] + b;
      IndexOfPrefix(a[1..], b, c);
    } else {
      assert a + b == b;
    }
  }

  /** A plain digit string parses to its integer value. */
  lemma ParseDigits(ds: string)
    requires AllDigits(ds) && |ds| > 0
    ensures ParseDecimal(ds) == Some(DigitsValue(ds) as real)
  {
    DigitsParts(ds);
    FractionOfNothing();
    ParseUnsigned(ds, ds, "");
  }

  lemma FractionOfNothing()
    ensures AllDigits("") && FractionValue("") == 0.0
  {
  }

  lemma DigitsParts(ds: string)
    requires AllDigits(ds) && |ds| > 0
    ensures !IsSign(ds[0]) && WholePart(ds) == ds && FractionPart(ds) == ""
  {
    DotFree(ds);
    assert IsDigit(ds[0]);
    assert Unsigned(ds) == ds;
  }

  /** Printing a natural number and parsing it back gives the number. */
  lemma ParseShowNat(n: nat)
    ensures ParseDecimal(ShowNat(n)) == Some(n as real)
  {
    ParseDigits(ShowNat(n));
  }

  /** A leading minus negates the value of an unsigned numeral. */
  lemma ParseNegative(s: string)
    requires |s| > 0 && !IsSign(s[0])
    ensures ParseDecimal("-" + s).Some? <==> ParseDecimal(s).Some?
    ensures ParseDecimal(s).Some? ==> ParseDecimal("-" + s) == Some(-ParseDecimal(s).value)
  {
    NegativeParts(s);
  }

  lemma NegativeParts(s: string)
    requires |s| > 0 && !IsSign(s[0])
    ensures ("-" + s)[0] == '-' && s[0] != '-'
    ensures WholePart("-" + s) == WholePart(s) && FractionPart("-" + s) == FractionPart(s)
  {
    var t := "-" + s;
    assert t[1..] == s;
    assert Unsigned(t) == s == Unsigned(s);
  }

  /** A leading plus sign changes nothing. */
  lemma ParsePositive(s: string)
    requires |s| > 0 && !IsSign(s[0])
    ensures ParseDecimal("+" + s) == ParseDecimal(s)
  {
    PositiveParts(s);
  }

  lemma PositiveParts(s: string)
    requires |s| > 0 && !IsSign(s[0])
    ensures ("+" + s)[0] != '-' && s[0] != '-'
    ensures WholePart("+" + s) == WholePart(s) && FractionPart("+" + s) == FractionPart(s)
  {
    var t := "+" + s;
    assert t[1..] == s;
    assert Unsigned(t) == s == Unsigned(s);
  }

  /** A numeral with no whole digits, such as ".5", is its fraction. */
  lemma ParseFraction(fs: string)
    requires AllDigits(fs) && |fs| > 0
    ensures ParseDecimal("." + fs) == Some(FractionValue(fs))
  {
    FractionParts(fs);
  }

  lemma FractionParts(fs: string)
    requires AllDigits(fs)
    ensures ("." + fs)[0] != '-' && AllDigits("") && DigitsValue("") == 0
    ensures WholePart("." + fs) == "" && FractionPart("." + fs) == fs
  {
    var t := "." + fs;
    assert !IsSign(t[0]) && Unsigned(t) == t;
    assert IndexOf(t, '.') == 0;
    assert t[1..] == fs;
  }

  // -------------------------------------------------------- cell cleaning

  /** `astype(str)`: a cell pandas read as NaN becomes the text "nan". */
  function AsStr(cell: Option<string>): string
  {
    match cell
    case None => "nan"
    case Some(t) => t
  }

  /** The explicit placeholders of the paired table: "-", an en dash and
      the empty string. */
  predicate IsMissingMarker(t: string)
  {
    t == "-" || t == "\U{2013}" || t == ""
  }

  /** Cleaning of one value cell of the paired revenue/capital table:
      drop commas, strip, map placeholders to missing, coerce. */
  function CleanPairedCell(cell: Option<string>): (r: Option<real>)
    ensures IsMissingMarker(Strip(RemoveChar(AsStr(cell), ','))) ==> r == None
    ensures r.Some? ==> IsNumeral(Strip(RemoveChar(AsStr(cell), ',')))
  {
    var t := Strip(RemoveChar(AsStr(cell), ','));
    if IsMissingMarker(t) then None else ParseDecimal(t)
  }

  /** Cleaning of one later-column cell of the simple wide table: drop
      commas, coerce (no strip, no placeholder map). */
  function CoerceCell(cell: Option<string>): (r: Option<real>)
    ensures r.Some? <==> IsNumeral(RemoveChar(AsStr(cell), ','))
    ensures cell.None? ==> r.None?
  {
    ParseDecimal(RemoveChar(AsStr(cell), ','))
  }

  lemma MarkersAreNotNumerals(t: string)
    requires IsMissingMarker(t)
    ensures !IsNumeral(t)
  {
    if t == "-" {
      assert Unsigned(t) == "";
    } else if t == "\U{2013}" {
      assert !IsDigit(t[0]) && !IsSign(t[0]);
      assert Unsigned(t) == t;
      assert IndexOf(t, '.') == 1;
      assert WholePart(t) == t;
    }
  }

  /** The placeholder map is subsumed by coercion: none of the placeholders
      is a numeral, so coercing directly gives the same cell. */
  lemma PlaceholderMapRedundant(cell: Option<string>)
    ensures CleanPairedCell(cell) == ParseDecimal(Strip(RemoveChar(AsStr(cell), ',')))
  {
    var t := Strip(RemoveChar(AsStr(cell), ','));
    if IsMissingMarker(t) {
      MarkersAreNotNumerals(t);
    }
  }

  /** A comma-grouped amount with a fraction cleans to its exact value,
      whatever whitespace surrounds it. */
  lemma CleanGroupedAmount(ds: string, fs: string)
    requires AllDigits(ds) && AllDigits(fs) && |ds| > 0
    ensures CleanPairedCell(Some(GroupThousands(ds) + "." + fs))
            == Some(DigitsValue(ds) as real + FractionValue(fs))
  {
    var raw := GroupThousands(ds) + "." + fs;
    var t := ds + "." + fs;
    UngroupAmount(ds, fs);
    ParseFixedPoint(ds, fs);
    CleanNumeral(raw, t);
  }

  lemma UngroupAmount(ds: string, fs: string)
    requires AllDigits(ds) && AllDigits(fs) && |ds| > 0
    ensures Strip(RemoveChar(GroupThousands(ds) + "." + fs, ',')) == ds + "." + fs
  {
    RemoveCommasAmount(ds, fs);
    AmountHasNoSpace(ds, fs);
    StripNoSpace(ds + "." + fs);
  }

  lemma RemoveCommasAmount(ds: string, fs: string)
    requires AllDigits(ds) && AllDigits(fs)
    ensures RemoveChar(GroupThousands(ds) + "." + fs, ',') == ds + "." + fs
  {
    var g := GroupThousands(ds);
    calc {
      RemoveChar((g + ".") + fs, ',');
      { RemoveCharAppend(g + ".", fs, ','); }
      RemoveChar(g + ".", ',') + RemoveChar(fs, ',');
      { RemoveCharAppend(g, ".", ','); }
      RemoveChar(g, ',') + RemoveChar(".", ',') + RemoveChar(fs, ',');
      { UngroupThousands(ds); DigitsHaveNoComma(fs); RemoveCharAbsent(fs, ','); RemoveCharAbsent(".", ','); }
      ds + "." + fs;
    }
  }

  lemma AmountHasNoSpace(ds: string, fs: string)
    requires AllDigits(ds) && AllDigits(fs)
    ensures forall i :: 0 <= i < |ds + "." + fs| ==> !IsSpace((ds + "." + fs)[i])
  {
    var t := ds + "." + fs;
    forall i | 0 <= i < |t|
      ensures !IsSpace(t[i])
    {
      if i < |ds| {
        assert IsDigit(ds[i]);
      } else if i > |ds| {
        assert IsDigit(fs[i - |ds| - 1]);
      }
    }
  }

  /** A cell whose cleaned text is `t`, longer than any placeholder, is
      the parse of `t`. */
  lemma CleanNumeral(raw: string, t: string)
    requires Strip(RemoveChar(raw, ',')) == t && |t| > 1
    ensures CleanPairedCell(Some(raw)) == ParseDecimal(t)
  {
  }

  /** A comma-grouped whole amount cleans to its value in both loaders. */
  lemma CleanGroupedWhole(n: nat)
    ensures CleanPairedCell(Some(GroupThousands(ShowNat(n)))) == Some(n as real)
    ensures CoerceCell(Some(GroupThousands(ShowNat(n)))) == Some(n as real)
  {
    var ds := ShowNat(n);
    UngroupThousands(ds);
    ParseShowNat(n);
    PairedDigits(ds, GroupThousands(ds));
  }

  /** A cell whose commas hide a digit string cleans to that digit
      string's parse. */
  lemma PairedDigits(ds: string, raw: string)
    requires AllDigits(ds) && |ds| > 0 && RemoveChar(raw, ',') == ds
    ensures CleanPairedCell(Some(raw)) == ParseDecimal(ds)
  {
    DigitsNoSpace(ds);
    StripNoSpace(ds);
    assert IsDigit(ds[0]);
  }

  lemma DigitsNoSpace(ds: string)
    requires AllDigits(ds)
    ensures forall i :: 0 <= i < |ds| ==> !IsSpace(ds[i])
  {
    forall i | 0 <= i < |ds|
      ensures !IsSpace(ds[i])
    {
      assert IsDigit(ds[i]);
    }
  }

  lemma StripNoSpace(t: string)
    requires forall i :: 0 <= i < |t| ==> !IsSpace(t[i])
    ensures Strip(t) == t
  {
  }

  lemma Digits12345()
    ensures AllDigits("12345") && AllDigits("50")
    ensures GroupThousands("12345") == "12,345"
    ensures DigitsValue("12345") == 12345
  {
    var ds := "12345";
    assert IsDigit(ds[0]) && IsDigit(ds[1]) && IsDigit(ds[2]) && IsDigit(ds[3]) && IsDigit(ds[4]);
    assert IsDigit("50"[0]) && IsDigit("50"[1]);
    assert ds[..2] == "12" && ds[2..] == "345";
    assert GroupThousands("12") == "12";
    Value12345();
  }

  lemma Value12345()
    requires AllDigits("12345")
    ensures DigitsValue("12345") == 12345
  {
    assert "12345"[..4] == "1234";
    assert "1234"[..3] == "123";
    assert "123"[..2] == "12";
    assert "12"[..1] == "1";
    assert "1"[..0] == "";
  }

  lemma Fraction50()
    requires AllDigits("50")
    ensures FractionValue("50") == 0.5
  {
    assert "50"[1..] == "0";
    assert "0"[1..] == "";
  }

  /** "12,345.50" becomes 12345.5. */
  lemma CleanPairedExample()
    ensures CleanPairedCell(Some("12,345.50")) == Some(12345.5)
  {
    Digits12345();
    Fraction50();
    CleanGroupedAmount("12345", "50");
    AmountText();
  }

  lemma AmountText()
    ensures "12,345" + "." + "50" == "12,345.50"
  {
  }

  /** A text that is already clean: no comma and no surrounding space. */
  lemma CleanText(t: string)
    requires ',' !in t
    requires forall i :: 0 <= i < |t| ==> !IsSpace(t[i])
    ensures Strip(RemoveChar(t, ',')) == t
  {
    RemoveCharAbsent(t, ',');
    StripNoSpace(t);
  }

  /** A word that starts with a letter is not a numeral. */
  lemma WordIsNotNumeral(t: string)
    requires |t| > 0 && '.' !in t && !IsDigit(t[0]) && !IsSign(t[0])
    ensures !IsNumeral(t)
  {
    assert Unsigned(t) == t;
    IndexOfAbsent(t, '.');
    assert WholePart(t) == t;
  }

  /** The recognised missing tokens. */
  predicate IsMissingToken(t: string)
  {
    IsMissingMarker(t) || t == "nan" || t == "None"
  }

  /** Every placeholder, "nan" and "None" clean to missing in the paired
      table, and so does a cell pandas read as NaN. */
  lemma MissingTokensAreMissing(cell: Option<string>)
    requires cell.None? || IsMissingToken(cell.value)
    ensures CleanPairedCell(cell) == None
  {
    var t := AsStr(cell);
    assert AsStr(Some(t)) == t;
    if IsMissingMarker(t) {
      MarkerCell(t);
    } else {
      WordShape(t);
      WordCell(t);
    }
  }

  /** A word: starts with a letter, and has no dot, comma or whitespace. */
  predicate PlainWord(t: string)
  {
    && |t| > 0 && !IsDigit(t[0]) && !IsSign(t[0]) && '.' !in t && ',' !in t
    && forall i :: 0 <= i < |t| ==> !IsSpace(t[i])
  }

  lemma WordShape(t: string)
    requires t == "nan" || t == "None"
    ensures PlainWord(t)
  {
    if t == "nan" {
      assert !IsSpace(t[0]) && !IsSpace(t[1]) && !IsSpace(t[2]);
    } else {
      assert !IsSpace(t[0]) && !IsSpace(t[1]) && !IsSpace(t[2]) && !IsSpace(t[3]);
    }
  }

  /** A plain word cleans to missing. */
  lemma WordCell(t: string)
    requires PlainWord(t)
    ensures CleanPairedCell(Some(t)) == None
  {
    CleanText(t);
    WordIsNotNumeral(t);
    SkipNonNumeral(t);
  }

  lemma MarkerCell(t: string)
    requires IsMissingMarker(t)
    ensures CleanPairedCell(Some(t)) == None
  {
    CleanMissingToken(t);
    SkipMarker(t);
  }

  lemma SkipMarker(t: string)
    requires Strip(RemoveChar(t, ',')) == t && IsMissingMarker(t)
    ensures CleanPairedCell(Some(t)) == None
  {
  }

  lemma SkipNonNumeral(t: string)
    requires Strip(RemoveChar(t, ',')) == t && !IsNumeral(t)
    ensures CleanPairedCell(Some(t)) == None
  {
  }

  lemma CleanMissingToken(t: string)
    requires IsMissingToken(t)
    ensures Strip(RemoveChar(t, ',')) == t
  {
    if t == "nan" {
      assert !IsSpace(t[0]) && !IsSpace(t[1]) && !IsSpace(t[2]);
    } else if t == "None" {
      assert !IsSpace(t[0]) && !IsSpace(t[1]) && !IsSpace(t[2]) && !IsSpace(t[3]);
    } else if t == "-" || t == "\U{2013}" {
      assert !IsSpace(t[0]);
    }
    CleanText(t);
  }

  /** The same tokens are missing in the simple wide table. */
  lemma MissingTokensAreMissingCoerced(cell: Option<string>)
    requires cell.None? || IsMissingToken(cell.value)
    ensures CoerceCell(cell) == None
  {
    var t := AsStr(cell);
    assert ',' !in t;
    RemoveCharAbsent(t, ',');
    if t == "nan" || t == "None" {
      WordIsNotNumeral(t);
    } else {
      MarkersAreNotNumerals(t);
    }
  }

  /** "1,234" becomes 1234 when commas are stripped before coercion. */
  lemma CoerceExample()
    ensures CoerceCell(Some("1,234")) == Some(1234.0)
  {
    Digits1234();
    UngroupThousands("1234");
    ParseDigits("1234");
  }

  lemma Digits1234()
    ensures AllDigits("1234") && GroupThousands("1234") == "1,234"
    ensures DigitsValue("1234") == 1234
  {
    var ds := "1234";
    assert IsDigit(ds[0]) && IsDigit(ds[1]) && IsDigit(ds[2]) && IsDigit(ds[3]);
    assert ds[..1] == "1" && ds[1..] == "234";
    assert ds[..3] == "123";
    assert "123"[..2] == "12";
    assert "12"[..1] == "1";
    assert "1"[..0] == "";
  }
}
