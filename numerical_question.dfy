/**
  * Grading of a numerical quiz question: the quiz taker's text is read as an exact decimal in
  * the quiz taker's locale, and the question's answers are tried in weight order, each by its
  * own rule (exact value with a margin, leading significant digits, or a range), the first
  * answer that matches deciding the grade.
  */
module NumericalQuestion {
  import opened Wrappers
  import opened Digits
  import opened Decimals

  // ---------------------------------------------------------------- exact arithmetic

  function Abs(n: int): nat {
    if n < 0 then -n else n
  }

  function Max(a: int, b: int): int {
    if a >= b then a else b
  }

  /** The decimal of `n` units of `10^e`. */
  function FromUnits(n: int, e: int): (r: Decimal)
    ensures r.exponent == e && Num(r, e) == n
  {
    Decimal(n < 0, Abs(n), e)
  }

  /** Exact sum, in the finer unit of the two. */
  function Add(a: Decimal, b: Decimal): (r: Decimal)
    ensures r.exponent == Min(a.exponent, b.exponent)
    ensures Num(r, r.exponent) == Num(a, r.exponent) + Num(b, r.exponent)
  {
    var e := Min(a.exponent, b.exponent);
    FromUnits(Num(a, e) + Num(b, e), e)
  }

  /** Exact difference, in the finer unit of the two. */
  function Sub(a: Decimal, b: Decimal): (r: Decimal)
    ensures r.exponent == Min(a.exponent, b.exponent)
    ensures Num(r, r.exponent) == Num(a, r.exponent) - Num(b, r.exponent)
  {
    var e := Min(a.exponent, b.exponent);
    FromUnits(Num(a, e) - Num(b, e), e)
  }

  /** `x.between?(lo, hi)`: both ends inclusive. */
  predicate Between(x: Decimal, lo: Decimal, hi: Decimal) {
    AtMost(lo, x) && AtMost(x, hi)
  }

  /** A sum counted in any unit finer than both operands. */
  lemma {:induction false} AddInUnit(a: Decimal, b: Decimal, e: int)
    requires e <= a.exponent && e <= b.exponent
    ensures Num(Add(a, b), e) == Num(a, e) + Num(b, e)
  {
    var m := Min(a.exponent, b.exponent);
    var k := m - e;
    assert m - k == e;
    var r := Add(a, b);
    NumShift(r, m, k);
    NumShift(a, m, k);
    NumShift(b, m, k);
    Distribute(Pow10(k), Num(a, m), Num(b, m));
  }

  /** A difference counted in any unit finer than both operands. */
  lemma {:induction false} SubInUnit(a: Decimal, b: Decimal, e: int)
    requires e <= a.exponent && e <= b.exponent
    ensures Num(Sub(a, b), e) == Num(a, e) - Num(b, e)
  {
    var m := Min(a.exponent, b.exponent);
    var k := m - e;
    assert m - k == e;
    var r := Sub(a, b);
    NumShift(r, m, k);
    NumShift(a, m, k);
    NumShift(b, m, k);
    Distribute(Pow10(k), Num(a, m), -Num(b, m));
  }

  lemma Distribute(p: int, u: int, v: int)
    ensures p * (u + v) == p * u + p * v
  {
  }

  // ---------------------------------------------------------------- FlexRange

  /** A closed range whose ends were given in either order. */
  datatype FlexRange = FlexRange(low: Decimal, high: Decimal)

  /** `FlexRange.new(a, b)`: the two ends sorted. */
  function NewFlexRange(a: Decimal, b: Decimal): (r: FlexRange)
    ensures AtMost(r.low, r.high)
    ensures (r.low == a && r.high == b) || (r.low == b && r.high == a)
  {
    if AtMost(a, b) then FlexRange(a, b) else FlexRange(b, a)
  }

  /** `cover?`: both ends inclusive. */
  predicate Cover(r: FlexRange, x: Decimal) {
    Between(x, r.low, r.high)
  }

  /** A range covers exactly what lies between the smaller and the larger of its two ends. */
  lemma {:induction false} FlexRangeCovers(a: Decimal, b: Decimal, x: Decimal, e: int)
    requires e <= a.exponent && e <= b.exponent && e <= x.exponent
    ensures Cover(NewFlexRange(a, b), x) <==>
      Min(Num(a, e), Num(b, e)) <= Num(x, e) <= Max(Num(a, e), Num(b, e))
  {
    CompareInAnyUnit(a, b, e);
    CompareInAnyUnit(a, x, e);
    CompareInAnyUnit(x, a, e);
    CompareInAnyUnit(b, x, e);
    CompareInAnyUnit(x, b, e);
  }

  /** The order in which the ends are given does not matter. */
  lemma {:induction false} FlexRangeSymmetric(a: Decimal, b: Decimal, x: Decimal)
    ensures Cover(NewFlexRange(a, b), x) == Cover(NewFlexRange(b, a), x)
  {
    var e := Min(Min(a.exponent, b.exponent), x.exponent);
    FlexRangeCovers(a, b, x, e);
    FlexRangeCovers(b, a, x, e);
  }

  // ---------------------------------------------------------------- i18n_decimal

  /** `s.gsub(pat, rep)` with a literal pattern: every occurrence, left to right, replaced. */
  function ReplaceAll(s: string, pat: string, rep: string): string
    decreases |s|
  {
    if pat == [] then
      if s == [] then rep else rep + [s[0]] + ReplaceAll(s[1..], pat, rep)
    else if |s| < |pat| then s
    else if s[..|pat|] == pat then rep + ReplaceAll(s[|pat|..], pat, rep)
    else [s[0]] + ReplaceAll(s[1..], pat, rep)
  }

  /** Reference for a one-character pattern: each character mapped on its own. */
  function ReplaceEach(s: string, c: char, rep: string): string {
    if s == [] then [] else (if s[0] == c then rep else [s[0]]) + ReplaceEach(s[1..], c, rep)
  }

  lemma {:induction false} ReplaceOneChar(s: string, c: char, rep: string)
    ensures ReplaceAll(s, [c], rep) == ReplaceEach(s, c, rep)
  {
    if s != [] {
      ReplaceOneChar(s[1..], c, rep);
      if s[0] == c {
        assert s[..1] == [c];
      } else {
        assert s[..1] != [c];
      }
    }
  }

  /** After replacing a character by text without it, the character is gone. */
  lemma {:induction false} ReplaceEachRemoves(s: string, c: char, rep: string)
    requires c !in rep
    ensures c !in ReplaceEach(s, c, rep)
  {
    if s != [] {
      ReplaceEachRemoves(s[1..], c, rep);
    }
  }

  /** Text without the character is left as it is. */
  lemma {:induction false} ReplaceEachAbsent(s: string, c: char, rep: string)
    requires c !in s
    ensures ReplaceEach(s, c, rep) == s
  {
    if s != [] {
      ReplaceEachAbsent(s[1..], c, rep);
    }
  }

  /** Replacing character by character works piece by piece. */
  lemma {:induction false} ReplaceEachConcat(a: string, b: string, c: char, rep: string)
    ensures ReplaceEach(a + b, c, rep) == ReplaceEach(a, c, rep) + ReplaceEach(b, c, rep)
  {
    if a == [] {
      assert a + b == b;
    } else {
      assert (a + b)[1..] == a[1..] + b;
      ReplaceEachConcat(a[1..], b, c, rep);
    }
  }

  /** The quiz taker's text with the locale's grouping delimiter removed and its separator made a point. */
  function Normalize(text: string, separator: string, delimiter: string): string {
    ReplaceAll(ReplaceAll(text, delimiter, ""), separator, ".")
  }

  /** `i18n_decimal`: the normalized text read as a decimal, or "0.0" when it does not parse. */
  function I18nDecimal(text: string, separator: string, delimiter: string): (r: Decimal)
    ensures ParseDecimal(Normalize(text, separator, delimiter)).Some? ==>
      r == ParseDecimal(Normalize(text, separator, delimiter)).value
    ensures ParseDecimal(Normalize(text, separator, delimiter)).None? ==> r == Zero
  {
    match ParseDecimal(Normalize(text, separator, delimiter))
    case Some(d) => d
    case None => Zero
  }

  /** With one-character locale marks, the delimiter is dropped and the separator becomes the point. */
  lemma {:induction false} NormalizeOneChar(text: string, separator: char, delimiter: char)
    requires separator != delimiter
    ensures Normalize(text, [separator], [delimiter]) == ReplaceEach(ReplaceEach(text, delimiter, ""), separator, ".")
    ensures delimiter !in Normalize(text, [separator], [delimiter]) || delimiter == '.'
    ensures separator !in Normalize(text, [separator], [delimiter]) || separator == '.'
  {
    ReplaceOneChar(text, delimiter, "");
    var t := ReplaceEach(text, delimiter, "");
    ReplaceOneChar(t, separator, ".");
    ReplaceEachRemoves(text, delimiter, "");
    if separator != '.' {
      ReplaceEachRemoves(t, separator, ".");
    }
    if delimiter != '.' {
      ReplaceEachKeepsOut(t, separator, ".", delimiter);
    }
  }

  lemma {:induction false} ReplaceEachKeepsOut(s: string, c: char, rep: string, d: char)
    requires d !in s && d !in rep
    ensures d !in ReplaceEach(s, c, rep)
  {
    if s != [] {
      ReplaceEachKeepsOut(s[1..], c, rep, d);
    }
  }

  /** In a locale writing "." and ",", the scientific text of any decimal reads back as that decimal. */
  lemma {:induction false} I18nDecimalFormat(d: Decimal)
    ensures I18nDecimal(Format(d), ".", ",") == d
  {
    FormatHasNoMarks(d);
    PlainText(Format(d));
    ParseFormat(d);
  }

  /** Text without commas is left alone by the "." and "," locale. */
  lemma {:induction false} PlainText(text: string)
    requires ',' !in text
    ensures Normalize(text, ".", ",") == text
  {
    ReplaceOneChar(text, ',', "");
    ReplaceEachAbsent(text, ',', "");
    ReplaceOneChar(text, '.', ".");
    ReplaceEachSame(text, '.');
  }

  lemma {:induction false} ReplaceEachSame(s: string, c: char)
    ensures ReplaceEach(s, c, [c]) == s
  {
    if s != [] {
      ReplaceEachSame(s[1..], c);
    }
  }

  lemma {:induction false} FormatHasNoMarks(d: Decimal)
    ensures ',' !in Format(d)
  {
    var digits := NatToDigits(d.coefficient);
    var exp := IntToText(d.exponent);
    var expDigits := NatToDigits(if d.exponent < 0 then -d.exponent else d.exponent);
    assert ',' !in digits;
    assert ',' !in expDigits;
    assert exp == expDigits || exp == "-" + expDigits;
    assert Scientific(d.coefficient, d.exponent) == digits + "e" + exp;
    assert ',' !in Scientific(d.coefficient, d.exponent);
  }

  lemma {:induction false} NormalizeLocaleNumber(whole: string, frac: string, separator: char, delimiter: char)
    requires AllDigits(whole) && AllDigits(frac)
    requires !IsDigit(separator) && !IsDigit(delimiter) && separator != delimiter
    ensures Normalize(whole + [separator] + frac, [separator], [delimiter]) == whole + "." + frac
  {
    var s := whole + [separator] + frac;
    NormalizeOneChar(s, separator, delimiter);
    assert delimiter !in whole && delimiter !in frac && separator !in whole && separator !in frac;
    ReplaceEachConcat(whole + [separator], frac, delimiter, "");
    ReplaceEachConcat(whole, [separator], delimiter, "");
    ReplaceEachAbsent(whole, delimiter, "");
    ReplaceEachAbsent(frac, delimiter, "");
    ReplaceEachAbsent([separator], delimiter, "");
    ReplaceEachConcat(whole + [separator], frac, separator, ".");
    ReplaceEachConcat(whole, [separator], separator, ".");
    ReplaceEachAbsent(whole, separator, ".");
    ReplaceEachAbsent(frac, separator, ".");
  }

  /**
    * Digits written with the locale's separator read as those digits scaled by the ones after
    * the separator.
    */
  lemma {:induction false} LocaleNumber(whole: string, frac: string, separator: char, delimiter: char)
    requires AllDigits(whole) && AllDigits(frac) && |whole| >= 1 && |frac| >= 1
    requires !IsDigit(separator) && !IsDigit(delimiter) && separator != delimiter
    ensures I18nDecimal(whole + [separator] + frac, [separator], [delimiter]) ==
      Decimal(false, DigitsToNat(whole + frac), -|frac|)
  {
    NormalizeLocaleNumber(whole, frac, separator, delimiter);
    PointNumber(whole, frac);
  }

  /** Digits ending in the locale's separator, with nothing after it, are unreadable and read as zero. */
  lemma {:induction false} TrailingSeparator(whole: string, separator: char, delimiter: char)
    requires AllDigits(whole)
    requires !IsDigit(separator) && !IsDigit(delimiter) && separator != delimiter
    ensures I18nDecimal(whole + [separator], [separator], [delimiter]) == Zero
  {
    NormalizeLocaleNumber(whole, "", separator, delimiter);
    assert whole + [separator] + "" == whole + [separator];
    assert whole + "." + "" == whole + ".";
    TrailingPoint(whole);
  }

  lemma {:induction false} NormalizeDropsDelimiter(a: string, b: string, separator: char, delimiter: char)
    requires separator != delimiter
    ensures Normalize(a + [delimiter] + b, [separator], [delimiter]) == Normalize(a + b, [separator], [delimiter])
  {
    NormalizeOneChar(a + [delimiter] + b, separator, delimiter);
    NormalizeOneChar(a + b, separator, delimiter);
    ReplaceEachConcat(a + [delimiter], b, delimiter, "");
    ReplaceEachConcat(a, [delimiter], delimiter, "");
    ReplaceEachConcat(a, b, delimiter, "");
    assert ReplaceEach([delimiter], delimiter, "") == "";
    var ra := ReplaceEach(a, delimiter, "");
    assert ra + "" == ra;
  }

  /** A grouping delimiter anywhere in the text does not change the number read. */
  lemma {:induction false} DelimiterIgnored(a: string, b: string, separator: char, delimiter: char)
    requires separator != delimiter
    ensures I18nDecimal(a + [delimiter] + b, [separator], [delimiter]) == I18nDecimal(a + b, [separator], [delimiter])
  {
    NormalizeDropsDelimiter(a, b, separator, delimiter);
  }

  // ---------------------------------------------------------------- answers

  /** How an answer decides whether a number matches it. */
  datatype Rule =
    | Exact(exact: Option<Decimal>, margin: Option<Decimal>)
    | Precision(approximate: Option<Decimal>, precision: int)
    | Range(start: Decimal, end: Decimal)

  /** One answer of the question; a blank `exact`, `margin` or `approximate` is `None`. */
  datatype Answer = Answer(id: int, weight: Option<int>, rule: Rule)

  function OrZero(d: Option<Decimal>): Decimal {
    if d.Some? then d.value else Zero
  }

  /** Exact answer: the number lies within the margin of the exact value, both ends included. */
  predicate ExactMatch(x: Decimal, exact: Decimal, margin: Decimal) {
    Between(x, Sub(exact, margin), Add(exact, margin))
  }

  /** An exact answer matches iff the distance to the exact value is at most the margin. */
  lemma {:induction false} ExactMatchDistance(x: Decimal, exact: Decimal, margin: Decimal, e: int)
    requires e <= x.exponent && e <= exact.exponent && e <= margin.exponent
    ensures ExactMatch(x, exact, margin) <==> Abs(Num(x, e) - Num(exact, e)) <= Num(margin, e)
  {
    AddInUnit(exact, margin, e);
    SubInUnit(exact, margin, e);
    CompareInAnyUnit(Sub(exact, margin), x, e);
    CompareInAnyUnit(x, Add(exact, margin), e);
  }

  /** `s[0, n]`: the first `n` characters, or nil for a negative `n`. */
  function Truncate(s: string, n: int): Option<string> {
    if n < 0 then None else Some(s[..Min(n, |s|)])
  }

  /** Precision answer: same sign, same first `precision` significant digits, same exponent. */
  predicate PrecisionMatch(x: Decimal, approximate: Option<Decimal>, precision: int) {
    var s := Split(x);
    var t := Split(OrZero(approximate));
    s.sign == t.sign && Truncate(s.digits, precision) == Truncate(t.digits, precision) && s.exponent == t.exponent
  }

  /** A negative precision compares only sign and exponent. */
  lemma PrecisionNegative(x: Decimal, approximate: Option<Decimal>, precision: int)
    requires precision < 0
    ensures PrecisionMatch(x, approximate, precision) <==>
      Split(x).sign == Split(OrZero(approximate)).sign && Split(x).exponent == Split(OrZero(approximate)).exponent
  {
  }

  /** With precision covering every significant digit, a match means exactly the same signed value. */
  lemma {:induction false} PrecisionFull(x: Decimal, approximate: Option<Decimal>, precision: int)
    requires precision >= |Split(x).digits| && precision >= |Split(OrZero(approximate)).digits|
    ensures PrecisionMatch(x, approximate, precision) <==>
      x.negative == OrZero(approximate).negative && SameValue(x, OrZero(approximate))
  {
    var a := OrZero(approximate);
    if PrecisionMatch(x, approximate, precision) {
      SplitsAgree(x, a, precision);
    }
    if x.negative == a.negative && SameValue(x, a) {
      SplitCanonical(x, a);
    }
  }

  lemma {:induction false} SplitsAgree(x: Decimal, a: Decimal, precision: int)
    requires precision >= |Split(x).digits| && precision >= |Split(a).digits|
    requires Split(x).sign == Split(a).sign && Split(x).exponent == Split(a).exponent
    requires Truncate(Split(x).digits, precision) == Truncate(Split(a).digits, precision)
    ensures x.negative == a.negative && SameValue(x, a)
  {
    var s := Split(x);
    var t := Split(a);
    SplitValue(x);
    SplitValue(a);
    assert s.digits[..|s.digits|] == s.digits && t.digits[..|t.digits|] == t.digits;
    var c := Decimal(x.negative, DigitsToNat(s.digits), s.exponent - |s.digits|);
    assert c == Decimal(a.negative, DigitsToNat(t.digits), t.exponent - |t.digits|);
    SameValueTransitive(x, c, a);
  }

  /** Any precision accepts a number of the same sign and value as the approximate answer. */
  lemma {:induction false} PrecisionSameValue(x: Decimal, approximate: Option<Decimal>, precision: int)
    requires x.negative == OrZero(approximate).negative && SameValue(x, OrZero(approximate))
    ensures PrecisionMatch(x, approximate, precision)
  {
    SplitCanonical(x, OrZero(approximate));
  }

  lemma {:induction false} SameValueTransitive(a: Decimal, b: Decimal, c: Decimal)
    requires SameValue(a, b) && SameValue(c, b)
    ensures SameValue(a, c)
  {
    var e := Min(Min(a.exponent, b.exponent), c.exponent);
    CompareInAnyUnit(a, b, e);
    CompareInAnyUnit(c, b, e);
    CompareInAnyUnit(a, c, e);
  }

  /** Whether a number matches an answer, by the answer's rule. */
  predicate Matches(a: Answer, x: Decimal) {
    match a.rule
    case Exact(exact, margin) => ExactMatch(x, OrZero(exact), OrZero(margin))
    case Precision(approximate, precision) => PrecisionMatch(x, approximate, precision)
    case Range(start, end) => Cover(NewFlexRange(start, end), x)
  }

  /** The test `find` applies to each answer. */
  function MatcherFor(x: Decimal): (p: Answer -> bool)
    ensures forall a :: p(a) == Matches(a, x)
  {
    a => Matches(a, x)
  }

  /**
    * What it means for `find` to accept an answer: an exact answer within its margin of the
    * number, a range around it, and an approximate answer of the same sign and exponent, which
    * an equal value always has.
    */
  lemma {:induction false} MatcherMeaning(x: Decimal, a: Answer)
    ensures a.rule.Exact? ==>
      var exact := OrZero(a.rule.exact);
      var margin := OrZero(a.rule.margin);
      var e := Min(Min(x.exponent, exact.exponent), margin.exponent);
      (MatcherFor(x)(a) <==> Abs(Num(x, e) - Num(exact, e)) <= Num(margin, e))
    ensures a.rule.Range? ==>
      var e := Min(Min(a.rule.start.exponent, a.rule.end.exponent), x.exponent);
      (MatcherFor(x)(a) <==>
        Min(Num(a.rule.start, e), Num(a.rule.end, e)) <= Num(x, e) <= Max(Num(a.rule.start, e), Num(a.rule.end, e)))
    ensures a.rule.Precision? && MatcherFor(x)(a) ==>
      Split(x).sign == Split(OrZero(a.rule.approximate)).sign &&
      Split(x).exponent == Split(OrZero(a.rule.approximate)).exponent
    ensures a.rule.Precision? ==>
      var s := Split(x);
      var t := Split(OrZero(a.rule.approximate));
      var n := a.rule.precision;
      (MatcherFor(x)(a) <==>
        s.sign == t.sign && s.exponent == t.exponent &&
        (n < 0 || s.digits[..Min(n, |s.digits|)] == t.digits[..Min(n, |t.digits|)]))
    ensures (a.rule.Precision? && x.negative == OrZero(a.rule.approximate).negative &&
      SameValue(x, OrZero(a.rule.approximate))) ==> MatcherFor(x)(a)
  {
    match a.rule
    case Exact(exact, margin) =>
      var e := Min(Min(x.exponent, OrZero(exact).exponent), OrZero(margin).exponent);
      ExactMatchDistance(x, OrZero(exact), OrZero(margin), e);
    case Range(start, end) =>
      var e := Min(Min(start.exponent, end.exponent), x.exponent);
      FlexRangeCovers(start, end, x, e);
    case Precision(approximate, precision) =>
      if x.negative == OrZero(approximate).negative && SameValue(x, OrZero(approximate)) {
        PrecisionSameValue(x, approximate, precision);
      }
  }

  // ---------------------------------------------------------------- answer order

  /** `weight || CanvasSort::First`: a missing weight sorts before every weight. */
  predicate WeightLe(a: Option<int>, b: Option<int>) {
    a.None? || (b.Some? && a.value <= b.value)
  }

  predicate SortedByWeight(xs: seq<Answer>) {
    forall i, j :: 0 <= i < j < |xs| ==> WeightLe(xs[i].weight, xs[j].weight)
  }

  /** `a` placed before the first answer it does not outweigh. */
  function Insert(a: Answer, xs: seq<Answer>): (r: seq<Answer>)
    ensures multiset(r) == multiset(xs) + multiset{a}
  {
    if xs == [] then [a]
    else if WeightLe(a.weight, xs[0].weight) then [a] + xs
    else
      assert xs == [xs[0]] + xs[1..];
      [xs[0]] + Insert(a, xs[1..])
  }

  lemma {:induction false} InsertSorted(a: Answer, xs: seq<Answer>)
    requires SortedByWeight(xs)
    ensures SortedByWeight(Insert(a, xs))
  {
    if xs != [] && !WeightLe(a.weight, xs[0].weight) {
      var rest := Insert(a, xs[1..]);
      InsertSorted(a, xs[1..]);
      forall j | 0 <= j < |rest|
        ensures WeightLe(xs[0].weight, rest[j].weight)
      {
        assert rest[j] in multiset(rest);
        if rest[j] != a {
          assert rest[j] in multiset(xs[1..]);
          var k :| 0 <= k < |xs[1..]| && xs[1..][k] == rest[j];
          assert xs[k + 1] == rest[j];
        }
      }
      var r := [xs[0]] + rest;
      forall i, j | 0 <= i < j < |r|
        ensures WeightLe(r[i].weight, r[j].weight)
      {
        if i > 0 {
          assert r[i] == rest[i - 1] && r[j] == rest[j - 1];
        } else {
          assert r[j] == rest[j - 1];
        }
      }
    }
  }

  /** `answers`: the question's answers in ascending weight, missing weights first. */
  function SortByWeight(xs: seq<Answer>): (r: seq<Answer>)
    ensures SortedByWeight(r)
    ensures multiset(r) == multiset(xs)
  {
    if xs == [] then []
    else
      assert xs == [xs[0]] + xs[1..];
      var rest := SortByWeight(xs[1..]);
      InsertSorted(xs[0], rest);
      Insert(xs[0], rest)
  }

  /** `find`: the position of the first element, in the given order, that satisfies `p`. */
  function FirstWhere<T>(xs: seq<T>, p: T -> bool): (r: Option<nat>)
    ensures r.Some? ==> r.value < |xs| && p(xs[r.value])
    ensures r.Some? ==> forall j :: 0 <= j < r.value ==> !p(xs[j])
    ensures r.None? <==> forall j :: 0 <= j < |xs| ==> !p(xs[j])
  {
    if xs == [] then None
    else if p(xs[0]) then Some(0)
    else match FirstWhere(xs[1..], p)
      case None => None
      case Some(i) => Some(i + 1)
  }

  // ---------------------------------------------------------------- grading

  /** What `correct_answer_parts` returns: nil for no answer, otherwise whether it matched. */
  datatype Outcome = NoAnswer | Graded(correct: bool)

  /** The locale's decimal separator and grouping delimiter. */
  datatype Locale = Locale(separator: string, delimiter: string)

  /** Rails `blank?` on text: empty or white space only. */
  predicate IsBlank(s: string) {
    forall i :: 0 <= i < |s| ==> IsSpace(s[i])
  }

  /** ASCII white space: space, tab, line feed, vertical tab, form feed, carriage return. */
  predicate IsSpace(c: char) {
    c == ' ' || '\t' <= c <= '\r'
  }

  /** The quiz taker's response being graded. */
  class UserAnswer {
    var answerText: Option<string>
    var answerId: Option<int>

    constructor (answerText: Option<string>)
      ensures this.answerText == answerText && answerId == None
    {
      this.answerText := answerText;
      answerId := None;
    }

    /**
      * `correct_answer_parts`: nil without text, false for blank text; otherwise whether any answer,
      * tried in weight order, matches the number read from the text, recording the first match's id.
      */
    method CorrectAnswerParts(answers: seq<Answer>, locale: Locale) returns (r: Outcome)
      modifies this
      ensures answerText == old(answerText)
      ensures old(answerText).None? ==> r == NoAnswer && answerId == old(answerId)
      ensures old(answerText).Some? && IsBlank(old(answerText).value) ==> r == Graded(false) && answerId == old(answerId)
      ensures old(answerText).Some? && !IsBlank(old(answerText).value) ==>
        var x := I18nDecimal(old(answerText).value, locale.separator, locale.delimiter);
        var sorted := SortByWeight(answers);
        var m := FirstWhere(sorted, MatcherFor(x));
        r == Graded(m.Some?) && answerId == (if m.Some? then Some(sorted[m.value].id) else old(answerId))
    {
      if answerText.None? {
        return NoAnswer;
      }
      var text := answerText.value;
      if IsBlank(text) {
        return Graded(false);
      }
      var x := I18nDecimal(text, locale.separator, locale.delimiter);
      var sorted := SortByWeight(answers);
      var m := Find(sorted, MatcherFor(x));
      if m.Some? {
        answerId := Some(sorted[m.value].id);
      }
      return Graded(m.Some?);
    }
  }

  /** `find` as a scan from the front, stopping at the first element that satisfies `p`. */
  method Find<T>(xs: seq<T>, p: T -> bool) returns (r: Option<nat>)
    ensures r == FirstWhere(xs, p)
  {
    var i := 0;
    while i < |xs| && !p(xs[i])
      invariant 0 <= i <= |xs|
      invariant forall j :: 0 <= j < i ==> !p(xs[j])
    {
      i := i + 1;
    }
    if i < |xs| {
      FirstWhereAt(xs, p, i);
      return Some(i);
    }
    return None;
  }

  /** An element satisfying `p` after only elements that do not is what `find` returns. */
  lemma {:induction false} FirstWhereAt<T>(xs: seq<T>, p: T -> bool, i: nat)
    requires i < |xs| && p(xs[i])
    requires forall j :: 0 <= j < i ==> !p(xs[j])
    ensures FirstWhere(xs, p) == Some(i)
  {
    if i > 0 {
      assert !p(xs[0]);
      FirstWhereAt(xs[1..], p, i - 1);
    }
  }
}
