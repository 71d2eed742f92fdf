/**
  * Worked cases of numerical grading: the tolerance boundary that motivates exact decimals,
  * significant-digit precision, ranges given backwards, unreadable text, and graded responses.
  */
module NumericalScenarios {
  import opened Wrappers
  import opened Digits
  import opened Decimals
  import opened NumericalQuestion

  lemma DigitsOf1172()
    ensures DigitsToNat("1172") == 1172
  {
    assert "1172"[..3] == "117";
    assert "117"[..2] == "11";
    assert "11"[..1] == "1";
    assert "1"[..0] == "";
  }

  /** "-11.72" reads as exactly -1172 hundredths. */
  lemma ParseExample()
    ensures ParseDecimal("-11.72") == Some(Decimal(true, 1172, -2))
  {
    SignedPointNumber(true, "11", "72");
    assert "-" + ("11" + "." + "72") == "-11.72";
    assert "11" + "72" == "1172";
    DigitsOf1172();
  }

  lemma ToleranceUnits()
    ensures Num(Decimal(true, 1172, -2), -2) == -1172
    ensures Num(Decimal(true, 117, -1), -2) == -1170
    ensures Num(Decimal(false, 2, -2), -2) == 2
    ensures Num(Decimal(true, 11721, -3), -3) == -11721
    ensures Num(Decimal(true, 117, -1), -3) == -11700
    ensures Num(Decimal(false, 2, -2), -3) == 20
  {
  }

  /** -11.72 lies exactly on the lower edge of -11.7 with a margin of 0.02, and is accepted. */
  lemma ToleranceBoundary()
    ensures ExactMatch(Decimal(true, 1172, -2), Decimal(true, 117, -1), Decimal(false, 2, -2))
    ensures !ExactMatch(Decimal(true, 11721, -3), Decimal(true, 117, -1), Decimal(false, 2, -2))
  {
    ExactMatchDistance(Decimal(true, 1172, -2), Decimal(true, 117, -1), Decimal(false, 2, -2), -2);
    ExactMatchDistance(Decimal(true, 11721, -3), Decimal(true, 117, -1), Decimal(false, 2, -2), -3);
    ToleranceUnits();
  }

  lemma SplitPi()
    ensures Split(Decimal(false, 314159, -5)) == SplitForm(1, "314159", 1)
  {
    assert StripZeros(314159) == (314159, 0);
    assert NatToDigits(314159) == "314159";
  }

  lemma SplitThreeDigits()
    ensures Split(Decimal(false, 314, -2)) == SplitForm(1, "314", 1)
    ensures Split(Decimal(false, 314, -1)) == SplitForm(1, "314", 2)
  {
    assert StripZeros(314) == (314, 0);
    assert NatToDigits(314) == "314";
  }

  /** 3.14159 agrees with 3.14 to three significant digits but not to four, and 31.4 never does. */
  lemma PrecisionDigits()
    ensures PrecisionMatch(Decimal(false, 314159, -5), Some(Decimal(false, 314, -2)), 3)
    ensures !PrecisionMatch(Decimal(false, 314159, -5), Some(Decimal(false, 314, -2)), 4)
    ensures !PrecisionMatch(Decimal(false, 314, -1), Some(Decimal(false, 314, -2)), 3)
  {
    SplitPi();
    SplitThreeDigits();
    Truncations();
  }

  lemma Truncations()
    ensures Truncate("314159", 3) == Some("314") && Truncate("314", 3) == Some("314")
    ensures Truncate("314159", 4) == Some("3141") && Truncate("314", 4) == Some("314")
  {
    assert "314159"[..3] == "314" && "314159"[..4] == "3141" && "314"[..3] == "314";
  }

  /** A range written from 5 down to 1 covers 3 and both of its ends. */
  lemma BackwardsRange()
    ensures Cover(NewFlexRange(Decimal(false, 5, 0), Decimal(false, 1, 0)), Decimal(false, 3, 0))
    ensures Cover(NewFlexRange(Decimal(false, 5, 0), Decimal(false, 1, 0)), Decimal(false, 10, -1))
    ensures !Cover(NewFlexRange(Decimal(false, 5, 0), Decimal(false, 1, 0)), Decimal(false, 51, -1))
  {
  }

  /** Text that is not a number reads as zero. */
  lemma NotANumber()
    ensures I18nDecimal("abc", ".", ",") == Zero
  {
    PlainText("abc");
    Unreadable();
  }

  lemma Unreadable()
    ensures ParseDecimal("abc") == None
  {
    UnsignedWithoutExponent("abc");
    FindFirstNone("abc", IsPoint);
  }

  /** "4" reads as four. */
  lemma ReadFour()
    ensures I18nDecimal("4", ".", ",") == Decimal(false, 4, 0)
  {
    PlainText("4");
    ParseFour();
  }

  lemma ParseFour()
    ensures ParseDecimal("4") == Some(Decimal(false, 4, 0))
  {
    ParseUnsignedText("4");
    UnsignedWithoutExponent("4");
    FindFirstNone("4", IsPoint);
    assert "4"[..1] + [] == "4";
    assert "4"[..0] == "";
    assert DigitsToNat("4") == 4;
  }

  const Heavy: Answer := Answer(1, Some(50), Range(Decimal(false, 0, 0), Decimal(false, 10, 0)))
  const Light: Answer := Answer(2, None, Exact(Some(Decimal(false, 4, 0)), None))

  /** The answer without a weight is tried first, and it accepts four. */
  lemma LightFirst()
    ensures SortByWeight([Heavy, Light]) == [Light, Heavy]
    ensures Matches(Light, Decimal(false, 4, 0))
  {
    ExactMatchDistance(Decimal(false, 4, 0), Decimal(false, 4, 0), Zero, -1);
  }

  /** Trying the answers in weight order stops at the first one, which has id 2. */
  lemma LightFound()
    ensures var sorted := SortByWeight([Heavy, Light]);
      FirstWhere(sorted, MatcherFor(Decimal(false, 4, 0))) == Some(0) && sorted[0].id == 2
  {
    LightFirst();
    FirstWhereAt([Light, Heavy], MatcherFor(Decimal(false, 4, 0)), 0);
  }

  /** The text "4" read in the "." and "," locale is first matched by the answer with id 2. */
  lemma FourFindsLight(text: string, answers: seq<Answer>)
    requires text == "4" && answers == [Heavy, Light]
    ensures var sorted := SortByWeight(answers);
      var m := FirstWhere(sorted, MatcherFor(I18nDecimal(text, ".", ",")));
      m.Some? && sorted[m.value].id == 2
  {
    ReadFour();
    LightFound();
  }

  /** No text is no answer; blank text is a wrong answer. */
  method GradeMissingAndBlank() returns (unanswered: Outcome, blank: Outcome)
    ensures unanswered == NoAnswer && blank == Graded(false)
  {
    var none := new UserAnswer(None);
    unanswered := none.CorrectAnswerParts([Heavy, Light], Locale(".", ","));
    var spaces := new UserAnswer(Some("  "));
    assert IsBlank("  ");
    blank := spaces.CorrectAnswerParts([Heavy, Light], Locale(".", ","));
  }

  /** Both answers accept 4: the one without a weight is tried first and is the one recorded. */
  method GradeByWeight(text: string, answers: seq<Answer>) returns (graded: Outcome, id: Option<int>)
    requires text == "4" && answers == [Heavy, Light]
    ensures graded == Graded(true) && id == Some(2)
  {
    FourFindsLight(text, answers);
    var four := new UserAnswer(Some(text));
    assert !IsBlank(text);
    graded := four.CorrectAnswerParts(answers, Locale(".", ","));
    id := four.answerId;
  }
}
