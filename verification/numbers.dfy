/** Exact decimal numbers standing in for the float64 values pandas produces,
    with the text conversions the job relies on: `astype(str)` of a number and
    the numeric parse inside `pd.to_numeric`. */
module Numbers {
  import opened Wrappers

  /** The number `mantissa / 10^scale`. Different representations may denote the
      same number (`Decimal(10, 1)` and `Decimal(1, 0)`); `SameValue` relates them. */
  datatype Decimal = Decimal(mantissa: int, scale: nat)

  function Pow10(n: nat): (r: nat)
    ensures r >= 1
  {
    if n == 0 then 1 else 10 * Pow10(n - 1)
  }

  /** Two representations denote the same number. */
  predicate SameValue(a: Decimal, b: Decimal) {
    a.mantissa * Pow10(b.scale) == b.mantissa * Pow10(a.scale)
  }

  /** The shortest representation of its number: no trailing zero after the point. */
  predicate IsCanonical(d: Decimal) {
    d.scale == 0 || d.mantissa % 10 != 0
  }

  /** Removes trailing zeros after the point, keeping the number. */
  function Normalize(d: Decimal): (r: Decimal)
    ensures IsCanonical(r) && SameValue(d, r)
    decreases d.scale
  {
    if d.scale > 0 && d.mantissa % 10 == 0 then
      var shorter := Decimal(d.mantissa / 10, d.scale - 1);
      var r := Normalize(shorter);
      assert SameValue(d, r) by {
        assert d.mantissa == 10 * shorter.mantissa;
        ScaleUp(d.mantissa, shorter.mantissa, r.mantissa, Pow10(r.scale), Pow10(shorter.scale));
      }
      r
    else
      d
  }

  lemma {:induction false} Pow10Add(x: nat, y: nat)
    ensures Pow10(x + y) == Pow10(x) * Pow10(y)
    decreases x
  {
    if x > 0 {
      Pow10Add(x - 1, y);
    }
  }

  lemma MulCancel(a: int, b: int, c: int)
    requires c > 0 && a * c == b * c
    ensures a == b
  {
    assert (a - b) * c == 0;
  }

  /** Multiplying both sides of `sm * pr == rm * ps` by ten, with `dm` ten times `sm`. */
  lemma ScaleUp(dm: int, sm: int, rm: int, pr: int, ps: int)
    requires dm == 10 * sm && sm * pr == rm * ps
    ensures dm * pr == rm * (10 * ps)
  {
    calc {
      dm * pr;
      10 * (sm * pr);
      10 * (rm * ps);
      rm * (10 * ps);
    }
  }

  lemma MulSwap(x: int, y: int, z: int)
    ensures (x * y) * z == (x * z) * y
  {
  }

  /** Cross-multiplied equality is transitive when the middle factor is positive. */
  lemma CrossTransitive(ma: int, mb: int, mc: int, pa: int, pb: int, pc: int)
    requires pb > 0 && ma * pb == mb * pa && mb * pc == mc * pb
    ensures ma * pc == mc * pa
  {
    MulSwap(ma, pc, pb);
    MulSwap(mb, pa, pc);
    MulSwap(mc, pb, pa);
    assert (ma * pc) * pb == (mc * pa) * pb;
    MulCancel(ma * pc, mc * pa, pb);
  }

  lemma SameValueTransitive(a: Decimal, b: Decimal, c: Decimal)
    requires SameValue(a, b) && SameValue(b, c)
    ensures SameValue(a, c)
  {
    CrossTransitive(a.mantissa, b.mantissa, c.mantissa, Pow10(a.scale), Pow10(b.scale), Pow10(c.scale));
  }

  /** A number has exactly one canonical representation. */
  lemma CanonicalUnique(a: Decimal, b: Decimal)
    requires IsCanonical(a) && IsCanonical(b) && SameValue(a, b)
    ensures a == b
  {
    if a.scale <= b.scale {
      CanonicalUniqueOrdered(a, b);
    } else {
      CanonicalUniqueOrdered(b, a);
    }
  }

  lemma CanonicalUniqueOrdered(a: Decimal, b: Decimal)
    requires IsCanonical(a) && IsCanonical(b) && SameValue(a, b)
    requires a.scale <= b.scale
    ensures a == b
  {
    var k := b.scale - a.scale;
    Pow10Add(a.scale, k);
    var pa := Pow10(a.scale);
    calc {
      a.mantissa * Pow10(k) * pa;
      a.mantissa * (pa * Pow10(k));
      a.mantissa * Pow10(b.scale);
      b.mantissa * pa;
    }
    MulCancel(a.mantissa * Pow10(k), b.mantissa, pa);
    if k > 0 {
      ScaledIsMultipleOfTen(a.mantissa, k);
    }
  }

  lemma ScaledIsMultipleOfTen(x: int, k: nat)
    requires k > 0
    ensures (x * Pow10(k)) % 10 == 0
  {
    var y := x * Pow10(k - 1);
    assert Pow10(k) == 10 * Pow10(k - 1);
    assert x * Pow10(k) == 10 * y;
  }

  /** Two representations denote the same number exactly when they normalise alike;
      this is the equality pandas and the document store apply to numbers. */
  lemma SameValueIffNormal(a: Decimal, b: Decimal)
    ensures SameValue(a, b) <==> Normalize(a) == Normalize(b)
  {
    var na, nb := Normalize(a), Normalize(b);
    if SameValue(a, b) {
      SameValueTransitive(na, a, b);
      SameValueTransitive(na, b, nb);
      CanonicalUnique(na, nb);
    }
    if na == nb {
      SameValueTransitive(a, na, b);
    }
  }

  predicate IsDigit(c: char) {
    '0' <= c <= '9'
  }

  predicate AllDigits(s: string) {
    forall i :: 0 <= i < |s| ==> IsDigit(s[i])
  }

  function DigitValue(c: char): (d: nat)
    requires IsDigit(c)
    ensures d < 10
  {
    c as int - '0' as int
  }

  function DigitChar(d: nat): (c: char)
    requires d < 10
    ensures IsDigit(c) && DigitValue(c) == d
  {
    (d + '0' as int) as char
  }

  /** The number a string of decimal digits denotes. */
  function DigitsValue(s: string): nat
    requires AllDigits(s)
    decreases |s|
  {
    if |s| == 0 then 0 else 10 * DigitsValue(s[..|s| - 1]) + DigitValue(s[|s| - 1])
  }

  /** The decimal digits of `n`, without leading zeros. */
  function NatDigits(n: nat): (s: string)
    ensures |s| >= 1 && AllDigits(s)
    decreases n
  {
    if n < 10 then [DigitChar(n)] else NatDigits(n / 10) + [DigitChar(n % 10)]
  }

  lemma {:induction false} NatDigitsValue(n: nat)
    ensures DigitsValue(NatDigits(n)) == n
    decreases n
  {
    if n >= 10 {
      var s := NatDigits(n);
      assert s[..|s| - 1] == NatDigits(n / 10);
      NatDigitsValue(n / 10);
    }
  }

  function Zeros(k: nat): (s: string)
    ensures |s| == k && forall i :: 0 <= i < k ==> s[i] == '0'
  {
    if k == 0 then "" else "0" + Zeros(k - 1)
  }

  lemma {:induction false} ZerosPrefixValue(k: nat, s: string)
    requires AllDigits(s)
    ensures AllDigits(Zeros(k) + s) && DigitsValue(Zeros(k) + s) == DigitsValue(s)
    decreases |s| + k
  {
    var t := Zeros(k) + s;
    if |s| > 0 {
      assert t[..|t| - 1] == Zeros(k) + s[..|s| - 1];
      ZerosPrefixValue(k, s[..|s| - 1]);
    } else if k > 0 {
      assert t[..|t| - 1] == Zeros(k - 1) + s;
      ZerosPrefixValue(k - 1, s);
    }
  }

  /** The digits of `n`, padded with leading zeros to at least `width` characters. */
  function PaddedDigits(n: nat, width: nat): (s: string)
    ensures AllDigits(s) && |s| >= width && |s| >= 1 && DigitsValue(s) == n
  {
    var d := NatDigits(n);
    NatDigitsValue(n);
    if |d| >= width then d
    else
      ZerosPrefixValue(width - |d|, d);
      Zeros(width - |d|) + d
  }

  /** The unsigned text of a magnitude at a scale: at least `scale + 1` digits,
      with a point before the last `scale` of them when the scale is positive. */
  function FormatMagnitude(m: nat, scale: nat): (s: string)
    ensures |s| > 0 && IsDigit(s[0]) && IsDigit(s[|s| - 1])
  {
    var digits := PaddedDigits(m, scale + 1);
    var cut := |digits| - scale;
    if scale == 0 then digits else digits[..cut] + "." + digits[cut..]
  }

  /** `str()` of a number: an optional minus sign followed by the text of its magnitude. */
  function FormatDecimal(d: Decimal): (s: string)
    ensures |s| > 0 && IsDigit(s[|s| - 1]) && (IsDigit(s[0]) || s[0] == '-')
  {
    if d.mantissa < 0 then "-" + FormatMagnitude(-d.mantissa, d.scale)
    else FormatMagnitude(d.mantissa, d.scale)
  }

  /** Position of the first `c` in `s`, or `|s|` when there is none. */
  function IndexOf(s: string, c: char): (i: nat)
    ensures i <= |s| && (i < |s| ==> s[i] == c)
    ensures forall j :: 0 <= j < i ==> s[j] != c
    decreases |s|
  {
    if |s| == 0 || s[0] == c then 0 else 1 + IndexOf(s[1..], c)
  }

  /** Characters an unsigned decimal literal is made of. */
  predicate IsDecimalChar(c: char) {
    IsDigit(c) || c == '.'
  }

  /** The digits before the first point of an unsigned literal. */
  function WholePart(body: string): string {
    body[..IndexOf(body, '.')]
  }

  /** The characters after the first point of an unsigned literal; empty without a point. */
  function FracPart(body: string): string {
    var dot := IndexOf(body, '.');
    if dot < |body| then body[dot + 1..] else ""
  }

  /** The reading of an unsigned literal: digits with at most one point and at
      least one digit; the scale is the number of digits after the point. */
  function ParseMagnitude(body: string): (r: Option<Decimal>)
    ensures r.Some? ==> |body| > 0 && r.value.mantissa >= 0
    ensures r.Some? ==> forall i :: 0 <= i < |body| ==> IsDecimalChar(body[i])
  {
    var whole, frac := WholePart(body), FracPart(body);
    if AllDigits(whole) && AllDigits(frac) && |whole| + |frac| > 0 then
      LiteralChars(body);
      assert AllDigits(whole + frac);
      Some(Decimal(DigitsValue(whole + frac), |frac|))
    else
      None
  }

  lemma LiteralChars(body: string)
    requires AllDigits(WholePart(body)) && AllDigits(FracPart(body))
    ensures forall i :: 0 <= i < |body| ==> IsDecimalChar(body[i])
  {
    var dot := IndexOf(body, '.');
    forall i | 0 <= i < |body|
      ensures IsDecimalChar(body[i])
    {
      if i < dot {
        assert body[i] == WholePart(body)[i];
      } else if i > dot {
        assert body[i] == FracPart(body)[i - dot - 1];
      }
    }
  }

  /** The numeric parse of `pd.to_numeric`, restricted to plain decimal literals:
      an optional sign in front of an unsigned literal. Anything else has no
      numeric reading. */
  function ParseDecimal(s: string): (r: Option<Decimal>)
    ensures r.Some? ==> |s| > 0
    ensures r.Some? ==> forall i :: 1 <= i < |s| ==> IsDecimalChar(s[i])
    ensures r.Some? ==> IsDecimalChar(s[0]) || s[0] == '-' || s[0] == '+'
  {
    if |s| > 0 && (s[0] == '-' || s[0] == '+') then
      var m := ParseMagnitude(s[1..]);
      if m.None? then None
      else
        TailChars(s);
        if s[0] == '-' then Some(Decimal(-m.value.mantissa, m.value.scale)) else m
    else
      ParseMagnitude(s)
  }

  lemma TailChars(s: string)
    requires |s| > 0 && ParseMagnitude(s[1..]).Some?
    ensures forall i :: 1 <= i < |s| ==> IsDecimalChar(s[i])
  {
    forall i | 1 <= i < |s|
      ensures IsDecimalChar(s[i])
    {
      assert s[i] == s[1..][i - 1];
    }
  }

  lemma ParseFormatMagnitude(m: nat, scale: nat)
    ensures ParseMagnitude(FormatMagnitude(m, scale)) == Some(Decimal(m, scale))
  {
    var digits := PaddedDigits(m, scale + 1);
    if scale == 0 {
      assert FormatMagnitude(m, scale) == digits;
      ParseAllDigits(digits);
    } else {
      var cut := |digits| - scale;
      assert FormatMagnitude(m, scale) == digits[..cut] + "." + digits[cut..];
      ParseSplitDigits(digits, cut);
    }
  }

  lemma ParseAllDigits(digits: string)
    requires |digits| > 0 && AllDigits(digits)
    ensures ParseMagnitude(digits) == Some(Decimal(DigitsValue(digits), 0))
  {
    var dot := IndexOf(digits, '.');
    assert dot == |digits|;
    assert digits[..dot] + "" == digits;
  }

  lemma ParseSplitDigits(digits: string, cut: nat)
    requires AllDigits(digits) && 0 < cut < |digits|
    ensures ParseMagnitude(digits[..cut] + "." + digits[cut..])
         == Some(Decimal(DigitsValue(digits), |digits| - cut))
  {
    var whole, frac := digits[..cut], digits[cut..];
    SplitParts(digits, cut);
    DigitSlices(digits, cut);
    CutRejoins(digits, cut);
    ParseParts(whole + "." + frac, whole, frac);
  }

  lemma CutRejoins<T>(s: seq<T>, k: nat)
    requires k <= |s|
    ensures s[..k] + s[k..] == s
  {
  }

  /** Both sides of a cut through a digit string are digit strings. */
  lemma DigitSlices(digits: string, cut: nat)
    requires AllDigits(digits) && cut <= |digits|
    ensures AllDigits(digits[..cut]) && AllDigits(digits[cut..])
  {
    forall i | 0 <= i < |digits| - cut
      ensures IsDigit(digits[cut..][i])
    {
      assert digits[cut..][i] == digits[cut + i];
    }
  }

  /** A literal whose parts before and after the point are digits reads as
      their concatenation, scaled by the length of the fractional part. */
  lemma ParseParts(body: string, whole: string, frac: string)
    requires WholePart(body) == whole && FracPart(body) == frac
    requires AllDigits(whole) && AllDigits(frac) && |whole| + |frac| > 0
    ensures ParseMagnitude(body) == Some(Decimal(DigitsValue(whole + frac), |frac|))
  {
  }

  lemma SplitParts(digits: string, cut: nat)
    requires AllDigits(digits) && 0 < cut < |digits|
    ensures var body := digits[..cut] + "." + digits[cut..];
      WholePart(body) == digits[..cut] && FracPart(body) == digits[cut..]
  {
    var whole, frac := digits[..cut], digits[cut..];
    var body := whole + "." + frac;
    forall j | 0 <= j < cut
      ensures body[j] != '.'
    {
      assert body[j] == whole[j];
      assert IsDigit(digits[j]);
    }
    IndexOfFirst(body, '.', cut);
    assert body[..cut] == whole;
    assert body[cut + 1..] == frac;
  }

  lemma IndexOfFirst(s: string, c: char, k: nat)
    requires k < |s| && s[k] == c
    requires forall j :: 0 <= j < k ==> s[j] != c
    ensures IndexOf(s, c) == k
  {
  }

  /** Parsing the text of a number gives the number back, in the same representation. */
  lemma ParseFormat(d: Decimal)
    ensures ParseDecimal(FormatDecimal(d)) == Some(d)
  {
    if d.mantissa < 0 {
      ParseFormatNegative(d);
    } else {
      ParseFormatMagnitude(d.mantissa, d.scale);
    }
  }

  lemma ParseFormatNegative(d: Decimal)
    requires d.mantissa < 0
    ensures ParseDecimal(FormatDecimal(d)) == Some(d)
  {
    var m: nat := -d.mantissa;
    var body := FormatMagnitude(m, d.scale);
    assert FormatDecimal(d) == "-" + body;
    ParseFormatMagnitude(m, d.scale);
    ParseNegated(body);
  }

  lemma ParseNegated(body: string)
    requires ParseMagnitude(body).Some?
    ensures var m := ParseMagnitude(body).value;
      ParseDecimal("-" + body) == Some(Decimal(-m.mantissa, m.scale))
  {
    var s := "-" + body;
    assert s[0] == '-';
    assert s[1..] == body;
  }
}
