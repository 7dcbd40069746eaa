/**
 * The pool-quotation agent: a three-step script (length, width, e-mail) and
 * the price tool, `length * width * 520`.
 */
module PoolQuotation {
  import opened Wrappers
  import opened Numbers
  import opened Values
  import opened Validators
  import opened Steps
  import opened ScriptEngine

  const PricePerSquareMetre := 520

  const LengthStep := Step("What is the length of your pool (in meters)?", "length", Float,
                           [Range(Some(IntV(1)), Some(IntV(15)))])
  const WidthStep := Step("What is the width of your pool (in meters)?", "width", Float,
                          [Range(Some(IntV(1)), Some(IntV(10)))])
  const EmailStep := Step("Please provide your email address:", "email", Str, [Regex(EmailPattern)])

  /** The steps `get_script` lists, in order. */
  const PoolSteps := [LengthStep, WidthStep, EmailStep]

  /** `get_script()`: a new script at its first step, nothing collected. */
  method GetScript() returns (s: Script)
    ensures fresh(s) && s.steps == PoolSteps && s.Snapshot() == Fresh && s.Valid()
  {
    s := new Script(PoolSteps);
  }

  /** The e-mail step's pattern is what `re.compile(r".+@.+\..+")` compiles to. */
  lemma EmailStepPattern()
    ensures CompilePattern(".+@.+\\..+") == Some(EmailStep.validators[0].pattern)
  {
    CompileEmailPattern();
  }

  /** `_calculate_pool_price(length, width)`, on exact reals. */
  function PoolPrice(length: real, width: real): (price: real)
    ensures length >= 0.0 && width >= 0.0 ==> price >= 0.0
  {
    length * width * PricePerSquareMetre as real
  }

  /** The price grows with either dimension. */
  lemma PoolPriceMonotone(l1: real, w1: real, l2: real, w2: real)
    requires 0.0 <= l1 <= l2 && 0.0 <= w1 <= w2
    ensures PoolPrice(l1, w1) <= PoolPrice(l2, w2)
  {
    assert l1 * w1 <= l2 * w1 <= l2 * w2;
  }

  lemma PoolStepsDistinct()
    ensures DistinctVariables(PoolSteps)
  {
  }

  /** A length answer is accepted iff it parses as a number between 1 and 15 inclusive. */
  lemma LengthAccepted(raw: string)
    ensures AssignStep(PoolSteps, Fresh, raw).next.index == 1 <==>
      (ParseDecimal(raw).Some? && 1.0 <= ToReal(ParseDecimal(raw).value) <= 15.0)
  {
    AssignAdvances(PoolSteps, Fresh, raw);
    match ParseDecimal(raw)
    case None =>
    case Some(d) => RangeOnNumbers(Some(IntV(1)), Some(IntV(15)), FloatV(d));
  }

  /**
   * Once both dimensions are collected they are floats within their ranges,
   * so the quoted price lies between 520 and 78000.
   */
  lemma CollectedPrice(st: State)
    requires Collected(PoolSteps, st) && st.index >= 2
    ensures "length" in st.values && "width" in st.values
    ensures st.values["length"].FloatV? && st.values["width"].FloatV?
    ensures var l := ToReal(st.values["length"].d);
            var w := ToReal(st.values["width"].d);
            1.0 <= l <= 15.0 && 1.0 <= w <= 10.0 &&
            520.0 <= PoolPrice(l, w) <= 78000.0
  {
    assert PoolSteps[0].variable == "length" && PoolSteps[1].variable == "width";
    var lv := st.values["length"];
    var wv := st.values["width"];
    assert Acceptable(PoolSteps[0], lv) && Acceptable(PoolSteps[1], wv);
    assert Passes(PoolSteps[0].validators[0], lv) && Passes(PoolSteps[1].validators[0], wv);
    RangeOnNumbers(Some(IntV(1)), Some(IntV(15)), lv);
    RangeOnNumbers(Some(IntV(1)), Some(IntV(10)), wv);
    var l := ToReal(lv.d);
    var w := ToReal(wv.d);
    PoolPriceMonotone(1.0, 1.0, l, w);
    PoolPriceMonotone(l, w, 15.0, 10.0);
  }

  /** Both bounds of the length's range are inclusive: 1 and 15 pass, 0.999 and 15.001 do not. */
  lemma LengthBounds()
    ensures Passes(LengthStep.validators[0], FloatV(Decimal(1, 0)))
    ensures Passes(LengthStep.validators[0], FloatV(Decimal(15, 0)))
    ensures !Passes(LengthStep.validators[0], FloatV(Decimal(999, 3)))
    ensures !Passes(LengthStep.validators[0], FloatV(Decimal(15001, 3)))
  {
    var range := LengthStep.validators[0];
    assert Pow10(3) == 1000;
    RangeOnNumbers(range.min, range.max, FloatV(Decimal(1, 0)));
    RangeOnNumbers(range.min, range.max, FloatV(Decimal(15, 0)));
    RangeOnNumbers(range.min, range.max, FloatV(Decimal(999, 3)));
    RangeOnNumbers(range.min, range.max, FloatV(Decimal(15001, 3)));
  }

  /** A length of 20 is refused with the upper bound's message, and the script stays at the first step. */
  lemma LengthTooLong()
    ensures AssignStep(PoolSteps, Fresh, "20") == Transition(Answer("\U{274C} Value must be \U{2264} 15"), Fresh)
  {
    var v := FloatV(Decimal(20, 0));
    ParseTwenty();
    TwentyAboveFifteen();
    UpperBoundFifteen();
    AssignRefused(PoolSteps, Fresh, "20", v, UpperBoundMessage + "15");
  }

  lemma UpperBoundFifteen()
    ensures Cross + (UpperBoundMessage + "15") == "\U{274C} Value must be \U{2264} 15"
  {
  }

  lemma ParseTwenty()
    ensures Parse("20", Float) == Some(FloatV(Decimal(20, 0)))
  {
    assert DigitsValue("20") == 20 by { assert "20"[..1] == "2"; }
    ParseDecimalOfDigits("20");
  }

  lemma TwentyAboveFifteen()
    ensures FirstFailure(LengthStep.validators, FloatV(Decimal(20, 0))) == FailedWith(UpperBoundMessage + "15")
  {
    RangeAboveMax(Some(IntV(1)), IntV(15), FloatV(Decimal(20, 0)));
    assert Show(IntV(15)) == "15" by {
      assert NatToString(15) == NatToString(1) + [DigitChar(5)];
    }
  }

  /** A length of 5 is stored as the float 5.0. */
  lemma LengthFive()
    ensures AssignStep(PoolSteps, Fresh, "5") ==
      Transition(Answer("Added: length = 5.0"), State(1, map["length" := FloatV(Decimal(5, 0))]))
  {
    var v := FloatV(Decimal(5, 0));
    ParseFive();
    FiveWithinLength();
    AddedLengthFive();
    AssignAccepted(PoolSteps, Fresh, "5");
  }

  lemma ParseFive()
    ensures Parse("5", Float) == Some(FloatV(Decimal(5, 0)))
  {
    ParseDecimalOfDigits("5");
  }

  lemma FiveWithinLength()
    ensures Passes(LengthStep.validators[0], FloatV(Decimal(5, 0)))
  {
    RangeOnNumbers(Some(IntV(1)), Some(IntV(15)), FloatV(Decimal(5, 0)));
  }

  lemma AddedLengthFive()
    ensures AddedMessage("length", FloatV(Decimal(5, 0))) == "Added: length = 5.0"
  {
    assert NatToString(5) == "5";
    assert ShowDecimal(Decimal(5, 0)) == "5.0";
    assert Show(FloatV(Decimal(5, 0))) == "5.0";
  }

  /** Text where a length is expected names the expected type. */
  lemma LengthNotANumber()
    ensures AssignStep(PoolSteps, Fresh, "abc") == Transition(Answer("\U{274C} Expected a float."), Fresh)
  {
    ParseAbc();
    ExpectedFloat();
    AssignParseFailure(PoolSteps, Fresh, "abc");
  }

  lemma ParseAbc()
    ensures Parse("abc", Float) == None
  {
    ParseDecimalOfNonNumeric("abc");
  }

  lemma ExpectedFloat()
    ensures ExpectedMessage(Float) == "\U{274C} Expected a float."
  {
  }

  lemma WidthFour(st: State)
    requires st.index == 1
    ensures AssignStep(PoolSteps, st, "4").next == State(2, st.values["width" := FloatV(Decimal(4, 0))])
  {
    ParseFour();
    FourWithinWidth();
    AssignAccepted(PoolSteps, st, "4");
  }

  lemma ParseFour()
    ensures Parse("4", Float) == Some(FloatV(Decimal(4, 0)))
  {
    ParseDecimalOfDigits("4");
  }

  lemma FourWithinWidth()
    ensures Passes(WidthStep.validators[0], FloatV(Decimal(4, 0)))
  {
    RangeOnNumbers(Some(IntV(1)), Some(IntV(10)), FloatV(Decimal(4, 0)));
  }

  lemma EmailGiven(st: State)
    requires st.index == 2
    ensures AssignStep(PoolSteps, st, "a@b.co").next == State(3, st.values["email" := StrV("a@b.co")])
  {
    EmailWellFormed();
    AssignAccepted(PoolSteps, st, "a@b.co");
  }

  lemma EmailWellFormed()
    ensures Passes(EmailStep.validators[0], StrV("a@b.co"))
  {
    EmailExamples();
  }

  /** Three good answers complete the script and the prompt becomes the completion sentinel. */
  lemma FullRun()
    ensures Run(PoolSteps, Fresh, ["5", "4", "a@b.co"]) ==
      State(3, map["length" := FloatV(Decimal(5, 0)), "width" := FloatV(Decimal(4, 0)), "email" := StrV("a@b.co")])
    ensures PromptAt(PoolSteps, Run(PoolSteps, Fresh, ["5", "4", "a@b.co"])) == AllDone
  {
    var raws := ["5", "4", "a@b.co"];
    LengthFive();
    var s1 := AssignStep(PoolSteps, Fresh, "5").next;
    WidthFour(s1);
    var s2 := AssignStep(PoolSteps, s1, "4").next;
    EmailGiven(s2);
    var s3 := AssignStep(PoolSteps, s2, "a@b.co").next;
    assert Run(PoolSteps, s3, []) == s3;
    assert Run(PoolSteps, s2, raws[2..]) == s3;
    assert Run(PoolSteps, s1, raws[1..]) == s3;
  }
}
