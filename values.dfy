/** The decimal value cleaner: every comma becomes a point, then the text
    is read as a number; text that is not one gives None. */
module Values {
  import opened Options
  import opened Digits

  /** `str.replace(",", ".")`. */
  function ReplaceCommas(s: string): (r: string)
    ensures |r| == |s|
    ensures forall i :: 0 <= i < |s| ==> r[i] == if s[i] == ',' then '.' else s[i]
  {
    if s == [] then [] else ReplaceCommas(s[..|s| - 1]) + [if s[|s| - 1] == ',' then '.' else s[|s| - 1]]
  }

  /** The position of the first point of `u`, or `|u|` when it has none. */
  function DotIndex(u: string): (k: nat)
    ensures k <= |u|
    ensures k < |u| ==> u[k] == '.'
    ensures forall i :: 0 <= i < k ==> u[i] != '.'
  {
    if u == [] || u[0] == '.' then 0 else 1 + DotIndex(u[1..])
  }

  /** An unsigned decimal: digits, optionally followed by a point and more
      digits, with at least one digit on either side of the point. */
  function ParseUnsigned(u: string): Option<real> {
    var k := DotIndex(u);
    var whole := u[..k];
    if !AllDigits(whole) then None
    else if k == |u| then (if |whole| > 0 then Some(Number(whole) as real) else None)
    else
      var frac := u[k + 1..];
      if AllDigits(frac) && |whole| + |frac| > 0
      then Some(Number(whole) as real + Fraction(frac))
      else None
  }

  /** The value of the digits after the point. */
  function Fraction(frac: string): real
    requires AllDigits(frac)
  {
    Number(frac) as real / Pow10(|frac|) as real
  }

  /** Python's `float` on plain decimal spellings: an optional sign, then an
      unsigned decimal. The empty text is rejected, and the sign of the
      number is the leading minus: only a text that starts with one reads
      as negative, and no such text reads as positive. */
  function ParseDecimal(t: string): (r: Option<real>)
    ensures r.Some? ==> |t| > 0
    ensures r.Some? && r.value < 0.0 ==> t[0] == '-'
    ensures r.Some? && t[0] == '-' ==> r.value <= 0.0
  {
    if |t| > 0 && (t[0] == '+' || t[0] == '-') then
      UnsignedNonNegative(t[1..]);
      match ParseUnsigned(t[1..])
      case None => None
      case Some(v) => Some(if t[0] == '-' then -v else v)
    else
      UnsignedNonNegative(t);
      ParseUnsigned(t)
  }

  /** An unsigned decimal reads as a number that is not negative. */
  lemma UnsignedNonNegative(u: string)
    ensures ParseUnsigned(u).Some? ==> ParseUnsigned(u).value >= 0.0
  {
    var k := DotIndex(u);
    if ParseUnsigned(u).Some? && k < |u| {
      var frac := u[k + 1..];
      assert Fraction(frac) >= 0.0;
    }
  }

  /** `clean_value`: None for a null cell, otherwise the number the text
      spells once its commas are points, or None. */
  function CleanValue(text: Option<string>): (r: Option<real>)
    ensures text.None? ==> r.None?
  {
    match text
    case None => None
    case Some(s) => ParseDecimal(ReplaceCommas(s))
  }

  // ---- The accepted language, stated on characters ----

  /** Only digits and points, at most one point, at least one digit. */
  predicate IsUnsignedShape(u: string) {
    && (forall i :: 0 <= i < |u| ==> IsDigit(u[i]) || u[i] == '.')
    && (forall i, j :: 0 <= i < j < |u| && u[i] == '.' ==> u[j] != '.')
    && (exists i :: 0 <= i < |u| && IsDigit(u[i]))
  }

  predicate IsDecimalShape(t: string) {
    if |t| > 0 && (t[0] == '+' || t[0] == '-') then IsUnsignedShape(t[1..]) else IsUnsignedShape(t)
  }

  lemma UnsignedAcceptsExactlyShape(u: string)
    ensures ParseUnsigned(u).Some? <==> IsUnsignedShape(u)
  {
    var k := DotIndex(u);
    if ParseUnsigned(u).Some? {
      if k == |u| {
        assert IsDigit(u[0]);
      } else {
        var frac := u[k + 1..];
        assert forall i :: k < i < |u| ==> u[i] == frac[i - k - 1];
        if k > 0 {
          assert IsDigit(u[0]);
        } else {
          assert IsDigit(u[k + 1]);
        }
      }
    }
    if IsUnsignedShape(u) {
      var i :| 0 <= i < |u| && IsDigit(u[i]);
      if k < |u| {
        var frac := u[k + 1..];
        assert forall j :: 0 <= j < |frac| ==> frac[j] == u[k + 1 + j];
        assert i != k;
      }
    }
  }

  /** `ParseDecimal` accepts exactly the texts of decimal shape. */
  lemma DecimalAcceptsExactlyShape(t: string)
    ensures ParseDecimal(t).Some? <==> IsDecimalShape(t)
  {
    if |t| > 0 && (t[0] == '+' || t[0] == '-') {
      UnsignedAcceptsExactlyShape(t[1..]);
    } else {
      UnsignedAcceptsExactlyShape(t);
    }
  }

  /** `clean_value` gives a number exactly when the text, commas read as
      points, has decimal shape. */
  lemma CleanValueAcceptsExactlyShape(s: string)
    ensures CleanValue(Some(s)).Some? <==> IsDecimalShape(ReplaceCommas(s))
  {
    DecimalAcceptsExactlyShape(ReplaceCommas(s));
  }

  /** Commas and points are interchangeable anywhere in the text. */
  lemma SeparatorInsensitive(s: string, t: string)
    requires |s| == |t|
    requires forall i :: 0 <= i < |s| ==> s[i] == t[i] || (s[i] in ",." && t[i] in ",.")
    ensures CleanValue(Some(s)) == CleanValue(Some(t))
  {
    assert ReplaceCommas(s) == ReplaceCommas(t);
  }

  // ---- What the fixture generator writes (`f"{v:.2f}"`) ----

  function Abs(c: int): nat {
    if c < 0 then -c else c
  }

  /** The two-decimal spelling of `c` hundredths with `sep` as the decimal
      separator: a sign for a negative number, at least one integer digit,
      the separator, then exactly two digits. */
  function Hundredths(c: int, sep: char): (t: string)
    ensures |t| >= 4 && t[|t| - 3] == sep
    ensures IsDigit(t[|t| - 2]) && IsDigit(t[|t| - 1])
    ensures c < 0 <==> t[0] == '-'
  {
    (if c < 0 then "-" else "") + Decimal(Abs(c) / 100) + [sep] + Padded(Abs(c) % 100, 2)
  }

  lemma ReadUnsignedHundredths(n: nat)
    ensures ParseUnsigned(Decimal(n / 100) + "." + Padded(n % 100, 2)) == Some(n as real / 100.0)
  {
    var w, f := Decimal(n / 100), Padded(n % 100, 2);
    ReadUnsignedSplit(w, f);
    assert Number(w) == n / 100 by { NumberDecimal(n / 100); }
    FractionOfPadded(n % 100);
    HundredthsAsReal(n);
  }

  lemma FractionOfPadded(m: nat)
    requires m < 100
    ensures Fraction(Padded(m, 2)) == m as real / 100.0
  {
    var f := Padded(m, 2);
    assert Number(f) == m by {
      NumberPadded(m, 2);
      ModUnique(m, Pow10(2), 0, m);
    }
    assert Pow10(|f|) == 100;
  }

  lemma SplitAtPoint(w: string, f: string)
    requires AllDigits(w) && AllDigits(f)
    ensures DotIndex(w + "." + f) == |w|
    ensures (w + "." + f)[..|w|] == w && (w + "." + f)[|w| + 1..] == f
  {
    var u := w + "." + f;
    assert u[|w|] == '.';
    assert forall i :: 0 <= i < |w| ==> u[i] == w[i];
  }

  lemma HundredthsAsReal(n: nat)
    ensures (n / 100) as real + (n % 100) as real / 100.0 == n as real / 100.0
  {
    assert n == 100 * (n / 100) + n % 100;
    assert n as real == 100.0 * (n / 100) as real + (n % 100) as real;
  }

  lemma CommasOfHundredths(c: int, sep: char)
    requires sep == '.' || sep == ','
    ensures ReplaceCommas(Hundredths(c, sep)) == Hundredths(c, '.')
  {
    var sign: string := if c < 0 then "-" else "";
    var w, f := Decimal(Abs(c) / 100), Padded(Abs(c) % 100, 2);
    var s, t := Hundredths(c, sep), Hundredths(c, '.');
    assert s == sign + w + [sep] + f && t == sign + w + ['.'] + f;
    var r := ReplaceCommas(s);
    forall i | 0 <= i < |s|
      ensures r[i] == t[i]
    {
      if i < |sign| {
      } else if i < |sign| + |w| {
        assert s[i] == w[i - |sign|];
      } else if i == |sign| + |w| {
      } else {
        assert s[i] == f[i - |sign| - |w| - 1];
      }
    }
  }

  /** A text starting with a digit is read unsigned. */
  lemma ReadUnsignedText(t: string, v: real)
    requires |t| > 0 && IsDigit(t[0]) && ParseUnsigned(t) == Some(v)
    ensures ParseDecimal(t) == Some(v)
  {
  }

  /** A minus followed by an unsigned decimal reads as its opposite. */
  lemma ReadNegatedText(t: string, body: string, v: real)
    requires |t| > 0 && t[0] == '-' && t[1..] == body && ParseUnsigned(body) == Some(v)
    ensures ParseDecimal(t) == Some(-v)
  {
  }

  /** The point spelling of `c` hundredths is a minus, when `c` is
      negative, followed by the unsigned spelling of `|c|` hundredths. */
  lemma HundredthsSplit(c: int, t: string)
    requires t == Hundredths(c, '.')
    ensures var body := Decimal(Abs(c) / 100) + "." + Padded(Abs(c) % 100, 2);
      && (c < 0 ==> |t| > 0 && t[0] == '-' && t[1..] == body)
      && (c >= 0 ==> t == body && IsDigit(t[0]))
  {
    var w := Decimal(Abs(c) / 100);
    var body := w + "." + Padded(Abs(c) % 100, 2);
    assert body[0] == w[0];
    if c < 0 {
      assert t == "-" + body;
    }
  }

  /** The point spelling of `c` hundredths reads back as `c / 100`. */
  lemma ReadHundredthsText(c: int, t: string)
    requires t == Hundredths(c, '.')
    ensures ParseDecimal(t) == Some(c as real / 100.0)
  {
    var n := Abs(c);
    var body := Decimal(n / 100) + "." + Padded(n % 100, 2);
    HundredthsSplit(c, t);
    ReadUnsignedHundredths(n);
    if c < 0 {
      ReadNegatedText(t, body, n as real / 100.0);
    } else {
      ReadUnsignedText(t, n as real / 100.0);
    }
  }

  /** Reading the generator's spelling of `c` hundredths, with either
      separator, gives `c / 100`. */
  lemma CleanValueReadsHundredths(c: int, sep: char)
    requires sep == '.' || sep == ','
    ensures CleanValue(Some(Hundredths(c, sep))) == Some(c as real / 100.0)
  {
    CommasOfHundredths(c, sep);
    ReadHundredthsText(c, Hundredths(c, '.'));
  }

  /** A text whose first character after the optional sign is neither a
      digit nor a point is not a number. */
  lemma RejectsNonNumericStart(s: string)
    requires |s| > 1 || (|s| == 1 && s[0] != '+' && s[0] != '-')
    requires var k := if s[0] == '+' || s[0] == '-' then 1 else 0;
      s[k] != ',' && s[k] != '.' && !IsDigit(s[k])
    ensures CleanValue(Some(s)).None?
  {
    CleanValueAcceptsExactlyShape(s);
  }

  /** The junk tokens the generator injects are rejected. */
  lemma JunkTokensRejected()
    ensures CleanValue(None).None?
    ensures CleanValue(Some("erreur")).None?
    ensures CleanValue(Some("N/A")).None?
    ensures CleanValue(Some("---")).None?
    ensures CleanValue(Some("null")).None?
  {
    RejectsNonNumericStart("erreur");
    RejectsNonNumericStart("N/A");
    RejectsNonNumericStart("---");
    RejectsNonNumericStart("null");
  }

  lemma ReadUnsignedSplit(w: string, f: string)
    requires AllDigits(w) && AllDigits(f) && |w| > 0
    ensures ParseUnsigned(w + "." + f) == Some(Number(w) as real + Fraction(f))
  {
    var u := w + "." + f;
    SplitAtPoint(w, f);
    var k := DotIndex(u);
    assert k == |w| && k < |u|;
    assert u[..k] == w && u[k + 1..] == f;
  }

  lemma PointExample()
    ensures ParseDecimal("12.5") == Some(12.5)
  {
    assert ParseUnsigned("12.5") == Some(12.5) by {
      assert "12.5" == "12" + "." + "5";
      ReadUnsignedSplit("12", "5");
      assert "12"[..1] == "1" && "1"[..0] == "" && "5"[..0] == "";
      assert Number("12") == 12 && Number("5") == 5 && Pow10(1) == 10;
      assert Fraction("5") == 0.5;
    }
  }

  /** A decimal comma and a decimal point read alike. */
  lemma CommaExample()
    ensures CleanValue(Some("12,5")) == CleanValue(Some("12.5")) == Some(12.5)
  {
    SeparatorInsensitive("12,5", "12.5");
    assert ReplaceCommas("12.5") == "12.5";
    PointExample();
  }
}
