/** Star and fork counts as a list page renders them ("532", "1.2k"),
    turned into integers the way `parse_number_with_suffix` does.

    Python's `float` is replaced by exact decimal arithmetic: a prefix
    before "k" is a numeral `digits[.digits]` or `.digits`, and the value is
    the truncation of that number times 1000. */
module CountParsing {
  import opened Results
  import opened Text

  /** A decimal numeral split at its point: at least one digit in all. */
  datatype Decimal = Decimal(whole: string, fraction: string)

  function Pow10(n: nat): (r: nat)
    ensures r >= 1
  {
    if n == 0 then 1 else 10 * Pow10(n - 1)
  }

  /** Reads `digits`, `digits.digits`, `digits.` or `.digits`; anything
      else is rejected.  An accepted text is its whole part, a point and
      its fraction, or its whole part alone. */
  function ParseDecimal(s: string): (r: Option<Decimal>)
    ensures r.Some? ==> IsDigits(r.value.whole) && IsDigits(r.value.fraction)
    ensures r.Some? ==> |r.value.whole| + |r.value.fraction| > 0
    ensures r.Some? ==> s == r.value.whole + "." + r.value.fraction || (r.value.fraction == "" && s == r.value.whole)
  {
    var parts := Split(s, '.');
    JoinSplit(s, '.');
    if |parts| == 1 && |s| > 0 && IsDigits(s) then Some(Decimal(s, ""))
    else if |parts| == 2 && IsDigits(parts[0]) && IsDigits(parts[1]) && |parts[0]| + |parts[1]| > 0 then
      assert parts[1..] == [parts[1]];
      Some(Decimal(parts[0], parts[1]))
    else None
  }

  /** n zero digits. */
  function Zeros(n: nat): (r: string)
    ensures |r| == n && IsDigits(r)
  {
    seq(n, _ => '0')
  }

  /** The first three digits after the point, padded with zeros: the
      thousandths that survive truncation. */
  function Thousandths(fraction: string): (r: string)
    requires IsDigits(fraction)
    ensures |r| == 3 && IsDigits(r)
  {
    if |fraction| >= 3 then fraction[..3] else fraction + Zeros(3 - |fraction|)
  }

  /** `int(float(numeral) * 1000)`, computed exactly: whole thousands plus
      the truncated thousandths. */
  function Thousands(d: Decimal): nat
    requires IsDigits(d.whole) && IsDigits(d.fraction)
  {
    DigitsValue(d.whole) * 1000 + DigitsValue(Thousandths(d.fraction))
  }

  predicate EndsWithK(t: string) {
    |t| > 0 && t[|t| - 1] == 'k'
  }

  /** `parse_number_with_suffix`: never fails, answers 0 for anything it
      cannot read; in particular a positive count needs a digit. */
  function ParseNumberWithSuffix(text: string): (n: nat)
    ensures n > 0 ==> HasDigit(text)
  {
    if text == "" || text == "0" then 0
    else
      assert !HasDigit(text) ==> NoReading(text) by {
        if !HasDigit(text) {
          NoDigitUnreadable(text);
        }
      }
      var t := Strip(Lower(text));
      if EndsWithK(t) then
        match ParseDecimal(Strip(t[..|t| - 1]))
        case Some(d) => Thousands(d)
        case None => 0
      else if t != "" && IsDigits(t) then DigitsValue(t)
      else 0
  }

  /** Python's `str(n)` reads back as n: the parser inverts decimal rendering. */
  lemma {:induction false} ParseRendered(n: nat)
    ensures ParseNumberWithSuffix(NatToDecimal(n)) == n
  {
    ParsePlainDigits(NatToDecimal(n));
  }

  /** A plain run of digits reads as its decimal value, "532" as 532. */
  lemma {:induction false} ParsePlainDigits(s: string)
    requires s != [] && IsDigits(s)
    ensures ParseNumberWithSuffix(s) == DigitsValue(s)
  {
    DigitsAreLower(s);
    DigitsAreTrimmed(s);
  }

  /** Any text that lower-cases and strips to "w.fk" ("1.2k", " 1.2K ")
      reads as the truncation of w.f x 1000, i.e.
      floor((w * 10^|f| + f) * 1000 / 10^|f|). */
  lemma {:induction false} ParseKilo(text: string, w: string, f: string)
    requires IsDigits(w) && IsDigits(f) && |w| + |f| > 0
    requires Strip(Lower(text)) == w + "." + f + "k"
    ensures ParseNumberWithSuffix(text)
         == (DigitsValue(w) * Pow10(|f|) + DigitsValue(f)) * 1000 / Pow10(|f|)
  {
    var t := w + "." + f + "k";
    assert text != "" && text != "0" by {
      assert |Strip(Lower(text))| <= |text|;
    }
    NumeralParses(w, f);
    KiloBranch(text, t, Decimal(w, f));
    ThousandsValue(w, f);
  }

  /** A text that normalises to a numeral followed by "k" reads as its thousands. */
  lemma {:induction false} KiloBranch(text: string, t: string, d: Decimal)
    requires text != "" && text != "0"
    requires Strip(Lower(text)) == t && EndsWithK(t)
    requires IsDigits(d.whole) && IsDigits(d.fraction)
    requires ParseDecimal(Strip(t[..|t| - 1])) == Some(d)
    ensures ParseNumberWithSuffix(text) == Thousands(d)
  {
  }

  /** `Thousands` is the truncated value of the numeral times 1000. */
  lemma {:induction false} ThousandsValue(w: string, f: string)
    requires IsDigits(w) && IsDigits(f)
    ensures Thousands(Decimal(w, f))
         == (DigitsValue(w) * Pow10(|f|) + DigitsValue(f)) * 1000 / Pow10(|f|)
  {
    var W, F, P := DigitsValue(w), DigitsValue(f), Pow10(|f|);
    ThousandthsValue(f);
    KiloArithmetic(W, DigitsValue(Thousandths(f)), F, P);
  }

  /** The padded first three digits are floor(0.f x 1000). */
  lemma {:induction false} ThousandthsValue(f: string)
    requires IsDigits(f)
    ensures DigitsValue(Thousandths(f)) == DigitsValue(f) * 1000 / Pow10(|f|)
  {
    var n := |f|;
    if n <= 3 {
      ThousandthsPadded(f);
      Pow10Add(3 - n, n);
      Pow10Three();
      ExactScale(DigitsValue(f), Pow10(3 - n), Pow10(n));
    } else {
      ThousandthsCut(f);
      Pow10Add(n - 3, 3);
      Pow10Three();
      TruncatedScale(DigitsValue(f), DigitsValue(Thousandths(f)), DigitsValue(f[3..]), Pow10(n - 3), Pow10(n));
    }
  }

  lemma {:induction false} Pow10Three()
    ensures Pow10(3) == 1000
  {
  }

  /** A short fraction is padded with zeros, scaling its value. */
  lemma {:induction false} ThousandthsPadded(f: string)
    requires IsDigits(f) && |f| <= 3
    ensures DigitsValue(Thousandths(f)) == DigitsValue(f) * Pow10(3 - |f|)
  {
    var z := Zeros(3 - |f|);
    assert Thousandths(f) == f + z by {
      if |f| == 3 { assert f + z == f; }
    }
    DigitsConcat(f, z);
    ZerosValue(3 - |f|);
  }

  /** A long fraction is cut after three digits; the cut-off tail is less than one unit. */
  lemma {:induction false} ThousandthsCut(f: string)
    requires IsDigits(f) && |f| > 3
    ensures IsDigits(f[3..])
    ensures DigitsValue(f) == DigitsValue(Thousandths(f)) * Pow10(|f| - 3) + DigitsValue(f[3..])
    ensures DigitsValue(f[3..]) < Pow10(|f| - 3)
  {
    assert f == f[..3] + f[3..];
    DigitsConcat(f[..3], f[3..]);
    DigitsBound(f[3..]);
  }

  lemma {:induction false} ExactScale(x: nat, q: nat, p: nat)
    requires p > 0 && q * p == 1000
    ensures x * 1000 / p == x * q
  {
    assert x * 1000 == (x * q) * p;
    DivUnique(x * 1000, p, x * q, 0);
  }

  lemma {:induction false} TruncatedScale(x: nat, a: nat, b: nat, r: nat, p: nat)
    requires x == a * r + b && b < r && p == r * 1000
    ensures x * 1000 / p == a
  {
    assert x * 1000 == a * p + b * 1000;
    DivUnique(x * 1000, p, a, b * 1000);
  }

  lemma {:induction false} ZerosValue(n: nat)
    ensures DigitsValue(Zeros(n)) == 0
  {
    if n > 0 {
      ZerosValue(n - 1);
      assert Zeros(n)[..n - 1] == Zeros(n - 1);
    }
  }

  /** Reading a numeral split in two: the head shifted by the tail's length, plus the tail. */
  lemma {:induction false} DigitsConcat(a: string, b: string)
    requires IsDigits(a) && IsDigits(b)
    ensures IsDigits(a + b)
    ensures DigitsValue(a + b) == DigitsValue(a) * Pow10(|b|) + DigitsValue(b)
  {
    if b == [] {
      assert a + b == a;
    } else {
      var b' := b[..|b| - 1];
      DigitsConcat(a, b');
      assert (a + b)[..|a + b| - 1] == a + b';
      var x := DigitsValue(a) * Pow10(|b'|);
      assert x * 10 == DigitsValue(a) * Pow10(|b|);
    }
  }

  lemma {:induction false} DigitsBound(s: string)
    requires IsDigits(s)
    ensures DigitsValue(s) < Pow10(|s|)
  {
    if s != [] {
      DigitsBound(s[..|s| - 1]);
    }
  }

  lemma {:induction false} Pow10Add(m: nat, n: nat)
    ensures Pow10(m + n) == Pow10(m) * Pow10(n)
  {
    if n > 0 {
      Pow10Add(m, n - 1);
      assert Pow10(m + n) == 10 * Pow10(m + n - 1);
    }
  }

  lemma {:induction false} KiloArithmetic(W: nat, T: nat, F: nat, P: nat)
    requires P > 0 && T == F * 1000 / P
    ensures W * 1000 + T == (W * P + F) * 1000 / P
  {
    assert (W * P + F) * 1000 == (W * 1000) * P + F * 1000;
    DivAddMultiple(W * 1000, F * 1000, P);
  }

  /** Lower-casing and stripping leave "w.fk" as it is, and a "K" becomes "k". */
  lemma {:induction false} KiloTextNormalised(w: string, f: string, k: char)
    requires IsDigits(w) && IsDigits(f) && |w| + |f| > 0
    requires k == 'k' || k == 'K'
    ensures Strip(Lower(w + "." + f + [k])) == w + "." + f + "k"
  {
    DigitsAreLower(w);
    DigitsAreLower(f);
    LowerConcat(w, ".");
    LowerConcat(w + ".", f);
    LowerConcat(w + "." + f, [k]);
    assert Lower(".") == ".";
    assert Lower([k]) == "k";
    var pk := w + "." + f + "k";
    assert IsTrimmed(pk, IsSpace) by {
      if |w| > 0 { assert pk[0] == w[0]; } else { assert pk[0] == '.'; }
    }
    StripTrimmed(pk, IsSpace);
  }

  /** The text before the suffix is read as the numeral w.f. */
  lemma {:induction false} NumeralParses(w: string, f: string)
    requires IsDigits(w) && IsDigits(f) && |w| + |f| > 0
    ensures var pk := w + "." + f + "k";
      EndsWithK(pk) && ParseDecimal(Strip(pk[..|pk| - 1])) == Some(Decimal(w, f))
  {
    var p := w + "." + f;
    var pk := p + "k";
    assert pk[..|pk| - 1] == p;
    assert IsTrimmed(p, IsSpace) by {
      if |w| > 0 { assert p[0] == w[0]; } else { assert p[0] == '.'; }
      if |f| > 0 { assert p[|p| - 1] == f[|f| - 1]; } else { assert p[|p| - 1] == '.'; }
    }
    StripTrimmed(p, IsSpace);
    assert Join([w, f], ".") == p;
    assert '.' !in w by { assert forall i :: 0 <= i < |w| ==> w[i] != '.'; }
    assert '.' !in f by { assert forall i :: 0 <= i < |f| ==> f[i] != '.'; }
    SplitJoin([w, f], '.');
  }

  lemma {:induction false} MulStep(a: int, b: int, p: nat)
    requires a < b
    ensures a * p + p <= b * p
  {
    var d := b - a;
    assert b * p == a * p + d * p;
    assert d * p == p + (d - 1) * p;
  }

  /** Euclidean division is unique: x = d * p + r with 0 <= r < p fixes x / p. */
  lemma {:induction false} DivUnique(x: int, p: int, d: int, r: int)
    requires p > 0 && 0 <= r < p && x == d * p + r
    ensures x / p == d
  {
    var q := x / p;
    assert x == q * p + x % p;
    if q > d {
      MulStep(d, q, p);
    } else if q < d {
      MulStep(q, d, p);
    }
  }

  lemma {:induction false} DivAddMultiple(a: nat, b: nat, p: nat)
    requires p > 0
    ensures (a * p + b) / p == a + b / p
  {
    var q, m := b / p, b % p;
    assert b == q * p + m;
    assert a * p + b == (a + q) * p + m;
    DivUnique(a * p + b, p, a + q, m);
  }

  /** A whole number of thousands, "12k" or "12K", reads as 12000. */
  lemma {:induction false} ParseWholeKilo(text: string, w: string)
    requires w != [] && IsDigits(w)
    requires Strip(Lower(text)) == w + "k"
    ensures ParseNumberWithSuffix(text) == DigitsValue(w) * 1000
  {
    var t := w + "k";
    assert text != "" && text != "0" by {
      assert |Strip(Lower(text))| <= |text|;
    }
    assert t[..|t| - 1] == w;
    WholeNumeralParses(w);
    WholeThousands(w);
    KiloBranch(text, t, Decimal(w, ""));
  }

  /** A run of digits is read as a numeral without a fraction. */
  lemma {:induction false} WholeNumeralParses(w: string)
    requires w != [] && IsDigits(w)
    ensures ParseDecimal(Strip(w)) == Some(Decimal(w, ""))
  {
    DigitsAreTrimmed(w);
    assert '.' !in w by { assert forall i :: 0 <= i < |w| ==> w[i] != '.'; }
    SplitWithoutSeparator(w, '.');
  }

  lemma {:induction false} WholeThousands(w: string)
    requires IsDigits(w)
    ensures Thousands(Decimal(w, "")) == DigitsValue(w) * 1000
  {
    assert Thousandths("") == Zeros(3);
    ZerosValue(3);
  }

  predicate HasDigit(s: string) {
    exists i :: 0 <= i < |s| && IsDigit(s[i])
  }

  lemma {:induction false} NoDigitInSlice(s: string, a: nat, b: nat)
    requires a <= b <= |s| && !HasDigit(s)
    ensures !HasDigit(s[a..b])
  {
    forall i | 0 <= i < b - a ensures !IsDigit(s[a..b][i]) {
      assert s[a..b][i] == s[a + i];
    }
  }

  lemma {:induction false} NoDigitStripped(s: string)
    requires !HasDigit(s)
    ensures !HasDigit(Strip(s))
  {
    var t := TrimStart(s, IsSpace);
    NoDigitInSlice(s, |s| - |t|, |s|);
    NoDigitInSlice(t, 0, |TrimEnd(t, IsSpace)|);
  }

  lemma {:induction false} NoDigitLowered(s: string)
    requires !HasDigit(s)
    ensures !HasDigit(Lower(s))
  {
    forall i | 0 <= i < |s| ensures !IsDigit(Lower(s)[i]) {
      assert !IsDigit(s[i]);
    }
  }

  /** Whatever the numeral reader accepts holds a digit. */
  lemma {:induction false} DecimalHasDigit(s: string)
    requires ParseDecimal(s).Some?
    ensures HasDigit(s)
  {
    var parts := Split(s, '.');
    JoinSplit(s, '.');
    if |parts| == 2 {
      var w, f := parts[0], parts[1];
      assert s == w + "." + f;
      if |w| > 0 {
        assert s[0] == w[0];
      } else {
        assert s[1] == f[0];
      }
    } else {
      assert IsDigit(s[0]);
    }
  }

  /** Neither branch of the parser accepts the trimmed, lowered text. */
  predicate NoReading(text: string) {
    var t := Strip(Lower(text));
    && (EndsWithK(t) ==> ParseDecimal(Strip(t[..|t| - 1])).None?)
    && !(t != "" && IsDigits(t))
  }

  /** A text without a single digit is read by neither branch. */
  lemma {:induction false} NoDigitUnreadable(text: string)
    requires !HasDigit(text)
    ensures NoReading(text)
  {
    NoDigitLowered(text);
    NoDigitStripped(Lower(text));
    var t := Strip(Lower(text));
    if EndsWithK(t) {
      NoDigitInSlice(t, 0, |t| - 1);
      NoDigitStripped(t[..|t| - 1]);
      if ParseDecimal(Strip(t[..|t| - 1])).Some? {
        DecimalHasDigit(Strip(t[..|t| - 1]));
      }
    }
    if t != "" {
      assert !IsDigit(t[0]);
    }
  }

  /** Text that neither branch can read counts 0: a "k" text whose
      stripped prefix is not a numeral, and any other text that is not all
      digits. */
  lemma {:induction false} UnreadableReadsZero(text: string)
    ensures var t := Strip(Lower(text));
      EndsWithK(t) && ParseDecimal(Strip(t[..|t| - 1])).None? ==> ParseNumberWithSuffix(text) == 0
    ensures var t := Strip(Lower(text));
      !EndsWithK(t) && !(t != "" && IsDigits(t)) ==> ParseNumberWithSuffix(text) == 0
  {
  }

  /** "12x" holds digits but is not a number: it reads as 0. */
  lemma {:induction false} ExampleTrailingLetter()
    ensures ParseNumberWithSuffix("12x") == 0
  {
    var x := "12x";
    assert IsLower(x) && IsTrimmed(x, IsSpace);
    LowerOfLower(x);
    StripTrimmed(x, IsSpace);
    assert !IsDigit(x[2]);
    UnreadableReadsZero(x);
  }

  /** "1.2.3k" has two points before the "k": it reads as 0. */
  lemma {:induction false} ExampleTwoPoints()
    ensures ParseNumberWithSuffix("1.2.3k") == 0
  {
    var k := "1.2.3k";
    assert IsLower(k) && IsTrimmed(k, IsSpace);
    LowerOfLower(k);
    StripTrimmed(k, IsSpace);
    TwoPointsRejected();
    assert k[..|k| - 1] == "1.2.3";
    UnreadableReadsZero(k);
  }

  lemma {:induction false} TwoPointsRejected()
    ensures ParseDecimal(Strip("1.2.3")) == None
  {
    assert IsTrimmed("1.2.3", IsSpace);
    StripTrimmed("1.2.3", IsSpace);
    assert Join(["1", "2", "3"], ".") == "1.2.3";
    SplitJoin(["1", "2", "3"], '.');
  }

  /** The scraper's own example: "1.2k" reads as 1200. */
  lemma {:induction false} ExampleKilo()
    ensures ParseNumberWithSuffix("1.2k") == 1200
  {
    ExampleKiloText();
    ExampleKiloNumeral();
    ExampleKiloValue();
    KiloBranch("1.2k", "1.2k", Decimal("1", "2"));
  }

  lemma {:induction false} ExampleKiloText()
    ensures Strip(Lower("1.2k")) == "1.2k" && EndsWithK("1.2k")
  {
    assert IsLower("1.2k");
    LowerOfLower("1.2k");
    StripTrimmed("1.2k", IsSpace);
  }

  lemma {:induction false} ExampleKiloNumeral()
    ensures ParseDecimal(Strip("1.2k"[..3])) == Some(Decimal("1", "2"))
  {
    assert "1.2k"[..3] == "1.2";
    assert Strip("1.2") == "1.2";
    SplitAfterPiece("1", "2", '.');
    SplitWithoutSeparator("2", '.');
    assert "1" + "." + "2" == "1.2";
    assert Split("1.2", '.') == ["1", "2"];
  }

  lemma {:induction false} ExampleKiloValue()
    ensures Thousands(Decimal("1", "2")) == 1200
  {
    assert Thousandths("2") == "200";
    assert "200"[..2] == "20" && "20"[..1] == "2";
    assert DigitsValue("200") == 200;
  }

  lemma {:induction false} ExamplePlain()
    ensures ParseNumberWithSuffix("532") == 532
  {
    ParsePlainDigits("532");
    ExamplePlainValue();
  }

  lemma {:induction false} ExamplePlainValue()
    ensures DigitsValue("532") == 532
  {
    assert "532"[..2] == "53" && "53"[..1] == "5";
  }

  /** The empty text and "0" short-circuit to 0. */
  lemma {:induction false} ExampleZero()
    ensures ParseNumberWithSuffix("") == 0 && ParseNumberWithSuffix("0") == 0
  {
  }
}
