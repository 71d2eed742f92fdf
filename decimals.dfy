/**
  * Exact decimals as quiz answers are compared: a sign, an integer coefficient and a power of
  * ten. The sign is kept apart from the coefficient because a decimal zero carries a sign of its
  * own ("-0.0" splits with a negative sign).
  */
module Decimals {
  import opened Wrappers
  import opened Digits

  /** `(-1)^negative * coefficient * 10^exponent`. */
  datatype Decimal = Decimal(negative: bool, coefficient: nat, exponent: int)

  /** The value of the text "0.0", used wherever an answer field is blank or a number does not parse. */
  const Zero: Decimal := Decimal(false, 0, -1)

  function Pow10(e: nat): (r: nat)
    ensures r >= 1
  {
    if e == 0 then 1 else 10 * Pow10(e - 1)
  }

  lemma {:induction false} Pow10Add(a: nat, b: nat)
    ensures Pow10(a + b) == Pow10(a) * Pow10(b)
  {
    if a > 0 {
      Pow10Add(a - 1, b);
      assert Pow10(a + b) == 10 * Pow10(a - 1 + b);
    }
  }

  function Min(a: int, b: int): int {
    if a <= b then a else b
  }

  function SignedCoefficient(d: Decimal): int {
    if d.negative then -(d.coefficient as int) else d.coefficient
  }

  /** The value of `d` counted in units of `10^e`, for an `e` no larger than its exponent. */
  function Num(d: Decimal, e: int): int
    requires e <= d.exponent
  {
    SignedCoefficient(d) * Pow10(d.exponent - e)
  }

  /** A finer unit counts `10^k` times as many. */
  lemma {:induction false} NumShift(d: Decimal, e: int, k: nat)
    requires e <= d.exponent
    ensures Num(d, e - k) == Pow10(k) * Num(d, e)
  {
    Pow10Add(k, d.exponent - e);
    assert d.exponent - (e - k) == k + (d.exponent - e);
    Commute(SignedCoefficient(d), Pow10(k), Pow10(d.exponent - e));
  }

  lemma Commute(c: int, p: int, q: int)
    ensures c * (p * q) == p * (c * q)
  {
  }

  /** Exact comparison `a <= b`, in the units of the finer of the two. */
  predicate AtMost(a: Decimal, b: Decimal) {
    var e := Min(a.exponent, b.exponent);
    Num(a, e) <= Num(b, e)
  }

  /** Exact equality of value (a zero equals a zero whatever its sign). */
  predicate SameValue(a: Decimal, b: Decimal) {
    var e := Min(a.exponent, b.exponent);
    Num(a, e) == Num(b, e)
  }

  lemma {:induction false} ScaleOrder(p: int, x: int, y: int)
    requires p >= 1
    ensures x <= y <==> p * x <= p * y
    ensures x == y <==> p * x == p * y
  {
    assert p * y - p * x == p * (y - x);
    if x < y {
      assert p * (y - x) >= y - x;
    } else if y < x {
      assert p * (x - y) >= x - y;
      assert p * x - p * y == p * (x - y);
    }
  }

  /** Comparisons do not depend on the unit they are counted in. */
  lemma {:induction false} CompareInAnyUnit(a: Decimal, b: Decimal, e: int)
    requires e <= a.exponent && e <= b.exponent
    ensures AtMost(a, b) <==> Num(a, e) <= Num(b, e)
    ensures SameValue(a, b) <==> Num(a, e) == Num(b, e)
  {
    var m := Min(a.exponent, b.exponent);
    NumShift(a, m, m - e);
    NumShift(b, m, m - e);
    assert m - (m - e) == e;
    ScaleOrder(Pow10(m - e), Num(a, m), Num(b, m));
  }

  /** Moving `k` trailing zeros from the coefficient into the exponent keeps the value. */
  lemma {:induction false} ShiftValue(negative: bool, m: nat, k: nat, x: int)
    ensures SameValue(Decimal(negative, m * Pow10(k), x), Decimal(negative, m, x + k))
  {
    var a := Decimal(negative, m * Pow10(k), x);
    var b := Decimal(negative, m, x + k);
    assert SignedCoefficient(a) == SignedCoefficient(b) * Pow10(k);
    NumShift(b, x + k, k);
    assert Num(a, x) == SignedCoefficient(a);
  }

  // ---------------------------------------------------------------- parsing

  /** Index of the first character of `s` satisfying `p`, or `|s|` when there is none. */
  function FindFirst(s: string, p: char -> bool): (i: nat)
    ensures i <= |s|
    ensures i < |s| ==> p(s[i])
    ensures forall j :: 0 <= j < i ==> !p(s[j])
  {
    if s == [] then 0 else if p(s[0]) then 0 else 1 + FindFirst(s[1..], p)
  }

  predicate IsExponentMarker(c: char) {
    c == 'e' || c == 'E'
  }

  predicate IsPoint(c: char) {
    c == '.'
  }

  /**
    * The digits of a mantissa `int[.frac]`: a point must be followed by a digit, and a mantissa
    * without a point needs at least one digit.
    */
  function ParseMantissa(m: string): (r: Option<(nat, nat)>)
  {
    var dot := FindFirst(m, IsPoint);
    var whole := m[..dot];
    var frac := if dot < |m| then m[dot + 1..] else [];
    if AllDigits(whole) && AllDigits(frac) && (if dot < |m| then |frac| >= 1 else |whole| >= 1) then
      Some((DigitsToNat(whole + frac), |frac|))
    else None
  }

  /** An unsigned number `mantissa[e exponent]` as coefficient and exponent. */
  function ParseUnsigned(body: string): (r: Option<(nat, int)>)
  {
    var mark := FindFirst(body, IsExponentMarker);
    var exponent := if mark < |body| then ParseInt(body[mark + 1..]) else Some(0);
    match (ParseMantissa(body[..mark]), exponent)
    case (Some((c, places)), Some(e)) => Some((c, e - places))
    case _ => None
  }

  /**
    * Text to decimal, as `BigDecimal(text)` reads it: an optional sign, digits with at most one
    * decimal point, and an optional exponent `e`/`E` with an optional sign; anything else fails.
    */
  function ParseDecimal(s: string): (r: Option<Decimal>)
  {
    var negative := |s| >= 1 && s[0] == '-';
    var body := if |s| >= 1 && (s[0] == '-' || s[0] == '+') then s[1..] else s;
    WithSign(negative, ParseUnsigned(body))
  }

  function WithSign(negative: bool, u: Option<(nat, int)>): Option<Decimal> {
    match u
    case Some((c, e)) => Some(Decimal(negative, c, e))
    case None => None
  }

  /** Scientific text of a decimal: sign, coefficient digits, `e`, exponent. */
  function Format(d: Decimal): (s: string)
    ensures |s| >= 3
  {
    (if d.negative then "-" else "") + Scientific(d.coefficient, d.exponent)
  }

  /** The unsigned part of the text: coefficient digits, `e`, exponent. */
  function Scientific(c: nat, e: int): (s: string)
    ensures |s| >= 3 && IsDigit(s[0])
  {
    var digits := NatToDigits(c);
    assert IsDigit(digits[0]);
    digits + "e" + IntToText(e)
  }

  lemma {:induction false} FindFirstAt(a: string, c: char, b: string, p: char -> bool)
    requires forall i :: 0 <= i < |a| ==> !p(a[i])
    requires p(c)
    ensures FindFirst(a + [c] + b, p) == |a|
  {
    if a != [] {
      assert (a + [c] + b)[1..] == a[1..] + [c] + b;
      FindFirstAt(a[1..], c, b, p);
    }
  }

  lemma {:induction false} FindFirstNone(a: string, p: char -> bool)
    requires forall i :: 0 <= i < |a| ==> !p(a[i])
    ensures FindFirst(a, p) == |a|
  {
    if a != [] {
      FindFirstNone(a[1..], p);
    }
  }

  lemma {:induction false} UnsignedFormat(c: nat, e: int)
    ensures ParseUnsigned(Scientific(c, e)) == Some((c, e))
  {
    var digits := NatToDigits(c);
    var exp := IntToText(e);
    var body := Scientific(c, e);
    assert body == digits + ['e'] + exp;
    FindFirstAt(digits, 'e', exp, IsExponentMarker);
    assert body[..|digits|] == digits;
    assert body[|digits| + 1..] == exp;
    IntTextRoundTrip(e);
    FindFirstNone(digits, IsPoint);
    assert digits[..|digits|] + [] == digits;
    DigitsRoundTrip(c);
  }

  /** A leading minus marks the number negative; an unsigned body starts with a digit. */
  lemma {:induction false} ParseSign(negative: bool, body: string)
    requires |body| >= 1 && IsDigit(body[0])
    ensures ParseDecimal((if negative then "-" else "") + body) == WithSign(negative, ParseUnsigned(body))
  {
    var s := (if negative then "-" else "") + body;
    if negative {
      assert s[0] == '-' && s[1..] == body;
    } else {
      assert s == body && s[0] != '-' && s[0] != '+';
    }
  }

  /** Every decimal reads back from its text exactly, sign of zero included. */
  lemma {:induction false} ParseFormat(d: Decimal)
    ensures ParseDecimal(Format(d)) == Some(d)
  {
    UnsignedFormat(d.coefficient, d.exponent);
    ParseSign(d.negative, Scientific(d.coefficient, d.exponent));
  }

  /** A mantissa with a point reads the digits on both sides as one number, scaled by those after it. */
  lemma {:induction false} MantissaWithPoint(whole: string, frac: string)
    requires AllDigits(whole) && AllDigits(frac) && |frac| >= 1
    ensures ParseMantissa(whole + "." + frac) == Some((DigitsToNat(whole + frac), |frac|))
  {
    var m := whole + "." + frac;
    assert m == whole + ['.'] + frac;
    FindFirstAt(whole, '.', frac, IsPoint);
    assert m[..|whole|] == whole;
    assert m[|whole| + 1..] == frac;
  }

  /** Without an exponent marker the mantissa's own scale is the exponent. */
  lemma {:induction false} UnsignedWithoutExponent(body: string)
    requires forall i :: 0 <= i < |body| ==> !IsExponentMarker(body[i])
    ensures ParseMantissa(body).None? ==> ParseUnsigned(body) == None
    ensures ParseMantissa(body).Some? ==>
      ParseUnsigned(body) == Some((ParseMantissa(body).value.0, 0 - ParseMantissa(body).value.1))
  {
    FindFirstNone(body, IsExponentMarker);
    assert body[..|body|] == body;
  }

  lemma {:induction false} NoExponentMarker(whole: string, frac: string)
    requires AllDigits(whole) && AllDigits(frac)
    ensures var body := whole + "." + frac;
      forall i :: 0 <= i < |body| ==> !IsExponentMarker(body[i])
  {
    var body := whole + "." + frac;
    forall i | 0 <= i < |body|
      ensures !IsExponentMarker(body[i])
    {
      if i < |whole| {
        assert body[i] == whole[i];
      } else if i > |whole| {
        assert body[i] == frac[i - |whole| - 1];
      }
    }
  }

  lemma {:induction false} UnsignedPoint(whole: string, frac: string)
    requires AllDigits(whole) && AllDigits(frac) && |whole| >= 1 && |frac| >= 1
    ensures ParseUnsigned(whole + "." + frac) == Some((DigitsToNat(whole + frac), -|frac|))
  {
    NoExponentMarker(whole, frac);
    UnsignedWithoutExponent(whole + "." + frac);
    MantissaWithPoint(whole, frac);
  }

  /** Plain positional notation `whole.frac` reads as its digits scaled by those after the point. */
  lemma {:induction false} PointNumber(whole: string, frac: string)
    requires AllDigits(whole) && AllDigits(frac) && |whole| >= 1 && |frac| >= 1
    ensures ParseDecimal(whole + "." + frac) == Some(Decimal(false, DigitsToNat(whole + frac), -|frac|))
  {
    var body := whole + "." + frac;
    assert body[0] == whole[0];
    ParseUnsignedText(body);
    UnsignedPoint(whole, frac);
  }

  /** A signed positional number `[-]whole.frac`. */
  lemma {:induction false} SignedPointNumber(negative: bool, whole: string, frac: string)
    requires AllDigits(whole) && AllDigits(frac) && |whole| >= 1 && |frac| >= 1
    ensures ParseDecimal((if negative then "-" else "") + (whole + "." + frac)) ==
      Some(Decimal(negative, DigitsToNat(whole + frac), -|frac|))
  {
    var body := whole + "." + frac;
    assert body[0] == whole[0];
    ParseSign(negative, body);
    UnsignedPoint(whole, frac);
  }

  /** A point with no digit after it makes the text unreadable, as `BigDecimal("5.")` is. */
  lemma {:induction false} TrailingPoint(whole: string)
    requires AllDigits(whole)
    ensures ParseDecimal(whole + ".") == None
  {
    var body := whole + ".";
    assert body == whole + ['.'] + [];
    NoExponentMarker(whole, "");
    UnsignedWithoutExponent(body);
    FindFirstAt(whole, '.', [], IsPoint);
    assert body[|whole| + 1..] == [];
    if whole != [] {
      assert body[0] == whole[0];
      ParseUnsignedText(body);
    }
  }

  /** Text that starts with a digit has no sign and reads as positive. */
  lemma ParseUnsignedText(body: string)
    requires |body| >= 1 && IsDigit(body[0])
    ensures ParseDecimal(body) == WithSign(false, ParseUnsigned(body))
  {
  }

  // ---------------------------------------------------------------- split

  /** `BigDecimal#split` without the base: sign, significant digits, exponent of `0.digits * 10^exponent`. */
  datatype SplitForm = SplitForm(sign: int, digits: string, exponent: int)

  /** A positive coefficient with its trailing zeros counted off: `c == m * 10^k` and `m` ends in no zero. */
  function StripZeros(c: nat): (r: (nat, nat))
    requires c > 0
    ensures r.0 > 0 && r.0 % 10 != 0 && c == r.0 * Pow10(r.1)
  {
    if c % 10 != 0 then (c, 0)
    else
      var t := StripZeros(c / 10);
      (t.0, t.1 + 1)
  }

  function Split(d: Decimal): (r: SplitForm)
  {
    var sign := if d.negative then -1 else 1;
    if d.coefficient == 0 then SplitForm(sign, "0", 0)
    else
      var t := StripZeros(d.coefficient);
      var digits := NatToDigits(t.0);
      SplitForm(sign, digits, |digits| + d.exponent + t.1)
  }

  /** The last digit of the text of `m` is `m`'s last decimal digit. */
  lemma LastDigit(m: nat)
    ensures var s := NatToDigits(m); DigitValue(s[|s| - 1]) == m % 10
  {
  }

  /** A digit string whose first digit is not zero has exactly as many digits as its number. */
  lemma {:induction false} DigitsMagnitude(s: string)
    requires AllDigits(s) && |s| >= 1 && s[0] != '0'
    ensures Pow10(|s| - 1) <= DigitsToNat(s) < Pow10(|s|)
  {
    if |s| > 1 {
      var p := s[..|s| - 1];
      assert p[0] == s[0];
      DigitsMagnitude(p);
      var v := DigitsToNat(p);
      assert DigitsToNat(s) == v * 10 + DigitValue(s[|s| - 1]);
      assert Pow10(|s|) == 10 * Pow10(|p|);
      assert Pow10(|s| - 1) == Pow10(|p|);
    }
  }

  /**
    * What a split means: the sign is that of the decimal; the digits are the significant ones,
    * starting with a non-zero digit and carrying no trailing zero (except the single "0" of
    * zero); and `0.digits * 10^exponent` is the decimal's value, so that for a non-zero decimal
    * `10^(exponent - 1) <= |value| < 10^exponent`.
    */
  lemma {:induction false} SplitValue(d: Decimal)
    ensures var r := Split(d);
      (r.sign == -1 <==> d.negative) && (r.sign == 1 <==> !d.negative) &&
      AllDigits(r.digits) && |r.digits| >= 1 &&
      (d.coefficient == 0 <==> r.digits == "0") &&
      (r.digits[|r.digits| - 1] != '0' || r.digits == "0")
    ensures var r := Split(d);
      d.coefficient > 0 ==> r.digits[0] != '0' && Pow10(|r.digits| - 1) <= DigitsToNat(r.digits) < Pow10(|r.digits|)
    ensures var r := Split(d);
      SameValue(d, Decimal(d.negative, DigitsToNat(r.digits), r.exponent - |r.digits|))
  {
    if d.coefficient > 0 {
      var t := StripZeros(d.coefficient);
      var digits := NatToDigits(t.0);
      LastDigit(t.0);
      DigitsRoundTrip(t.0);
      DigitsMagnitude(digits);
      ShiftValue(d.negative, t.0, t.1, d.exponent);
      assert d.exponent + t.1 == |digits| + d.exponent + t.1 - |digits|;
    }
  }

  /**
    * The split's exponent is the decimal exponent of the value: counted in any unit `10^e` fine
    * enough for both the decimal and its last significant digit, a non-zero decimal's magnitude
    * lies in `[10^(exponent - 1), 10^exponent)`.
    */
  lemma {:induction false} SplitMagnitude(d: Decimal, e: int)
    requires d.coefficient > 0
    requires e <= d.exponent && e <= Split(d).exponent - |Split(d).digits|
    ensures Pow10(Split(d).exponent - 1 - e) <= d.coefficient * Pow10(d.exponent - e) < Pow10(Split(d).exponent - e)
  {
    var t := StripZeros(d.coefficient);
    var digits := NatToDigits(t.0);
    DigitsRoundTrip(t.0);
    DigitsMagnitude(digits);
    var k: nat := t.1 + d.exponent - e;
    Pow10Add(t.1, d.exponent - e);
    assert d.coefficient * Pow10(d.exponent - e) == t.0 * Pow10(k) by {
      Associate(t.0, Pow10(t.1), Pow10(d.exponent - e));
    }
    ScaleBounds(Pow10(|digits| - 1), t.0, Pow10(|digits|), Pow10(k));
    Pow10Add(|digits| - 1, k);
    Pow10Add(|digits|, k);
  }

  lemma ScaleBounds(lo: nat, m: nat, hi: nat, p: nat)
    requires lo <= m < hi
    ensures lo * p <= m * p && (p > 0 ==> m * p < hi * p)
  {
  }

  lemma {:induction false} Times10(m: nat, i: nat)
    requires i > 0
    ensures m * Pow10(i) == 10 * (m * Pow10(i - 1))
  {
    var p := Pow10(i - 1);
    assert Pow10(i) == 10 * p;
    assert m * (10 * p) == 10 * (m * p);
  }

  /** A positive power of ten times anything ends in a zero. */
  lemma {:induction false} NoFactorTen(m: nat, i: nat, n: nat)
    requires i > 0 && n % 10 != 0
    ensures m * Pow10(i) != n
  {
    Times10(m, i);
    var q := m * Pow10(i - 1);
    assert m * Pow10(i) == 10 * q;
  }

  /** A power of ten times a number that ends in no zero determines both factors. */
  lemma {:induction false} PowerFactors(m1: nat, i: nat, m2: nat, j: nat)
    requires m1 % 10 != 0 && m2 % 10 != 0
    requires m1 * Pow10(i) == m2 * Pow10(j)
    ensures i == j && m1 == m2
  {
    if i > 0 && j > 0 {
      Times10(m1, i);
      Times10(m2, j);
      PowerFactors(m1, i - 1, m2, j - 1);
    } else if i > 0 {
      NoFactorTen(m1, i, m2);
      assert false;
    } else if j > 0 {
      NoFactorTen(m2, j, m1);
      assert false;
    }
  }

  lemma {:induction false} StrippedScale(c: nat, x: nat)
    requires c > 0
    ensures c * Pow10(x) == StripZeros(c).0 * Pow10(StripZeros(c).1 + x)
  {
    var t := StripZeros(c);
    Pow10Add(t.1, x);
    Associate(t.0, Pow10(t.1), Pow10(x));
  }

  lemma Associate(m: int, p: int, q: int)
    ensures (m * p) * q == m * (p * q)
  {
  }

  /** Same sign and value: the coefficients agree once scaled to the finer exponent. */
  lemma {:induction false} SameCoefficients(a: Decimal, b: Decimal)
    requires a.negative == b.negative && SameValue(a, b)
    ensures var e := Min(a.exponent, b.exponent);
      a.coefficient * Pow10(a.exponent - e) == b.coefficient * Pow10(b.exponent - e)
  {
    var e := Min(a.exponent, b.exponent);
    var pa, pb := Pow10(a.exponent - e), Pow10(b.exponent - e);
    var ca, cb := a.coefficient as int, b.coefficient as int;
    if a.negative {
      assert -ca * pa == -cb * pb;
      assert (-ca) * pa == -(ca * pa) && (-cb) * pb == -(cb * pb);
    }
  }

  /** Equal scaled coefficients have the same stripped digits and the same total exponent. */
  lemma {:induction false} StrippedAgree(ca: nat, xa: nat, cb: nat, xb: nat)
    requires ca > 0 && cb > 0 && ca * Pow10(xa) == cb * Pow10(xb)
    ensures StripZeros(ca).0 == StripZeros(cb).0 && StripZeros(ca).1 + xa == StripZeros(cb).1 + xb
  {
    var ta, tb := StripZeros(ca), StripZeros(cb);
    StrippedScale(ca, xa);
    StrippedScale(cb, xb);
    PowerFactors(ta.0, ta.1 + xa, tb.0, tb.1 + xb);
  }

  /** Decimals of the same sign and value split alike, whatever their representation. */
  lemma {:induction false} SplitCanonical(a: Decimal, b: Decimal)
    requires a.negative == b.negative && SameValue(a, b)
    ensures Split(a) == Split(b)
  {
    var e := Min(a.exponent, b.exponent);
    SameCoefficients(a, b);
    var xa: nat, xb: nat := a.exponent - e, b.exponent - e;
    if a.coefficient == 0 || b.coefficient == 0 {
      ZeroScaled(a.coefficient, xa, b.coefficient, xb);
    } else {
      StrippedAgree(a.coefficient, xa, b.coefficient, xb);
      var ta, tb := StripZeros(a.coefficient), StripZeros(b.coefficient);
      assert a.exponent + ta.1 == b.exponent + tb.1;
    }
  }

  /** A scaled coefficient is zero only when the coefficient is. */
  lemma ZeroScaled(ca: nat, xa: nat, cb: nat, xb: nat)
    requires ca * Pow10(xa) == cb * Pow10(xb) && (ca == 0 || cb == 0)
    ensures ca == 0 && cb == 0
  {
    ProductZero(ca, xa);
    ProductZero(cb, xb);
  }

  lemma ProductZero(c: nat, x: nat)
    ensures c * Pow10(x) == 0 ==> c == 0
  {
    PositiveProduct(c, Pow10(x));
  }

  lemma PositiveProduct(c: nat, p: nat)
    requires p >= 1
    ensures c * p == 0 ==> c == 0
  {
    if c != 0 {
      assert c * p >= p by {
        assert c * p == (c - 1) * p + p;
      }
    }
  }
}
