/**
 * The array_max test cases, one lemma per expectation or group of
 * expectations, each expectation an ensures.
 * Every non-null result is established from the order's definition alone
 * through ArrayMaxIs.
 */
module ArrayMaxTests {
  import opened Wrappers
  import opened ElementOrder
  import opened ArrayMaximum

  lemma BooleanCases()
    ensures ArrayMax([Some(true), Some(false)], BoolLess) == Some(true)
    ensures ArrayMax([Some(true)], BoolLess) == Some(true)
    ensures ArrayMax([Some(false)], BoolLess) == Some(false)
    ensures ArrayMax([], BoolLess) == None
    ensures ArrayMax([Some(true), Some(false), Some(true), None], BoolLess) == Some(true)
    ensures ArrayMax([None, Some(true), Some(false), Some(true)], BoolLess) == Some(true)
    ensures ArrayMax([Some(false), Some(false), Some(false)], BoolLess) == Some(false)
    ensures ArrayMax([Some(true), Some(true), Some(true)], BoolLess) == Some(true)
  {
    BoolLessIsStrictTotal();
    ArrayMaxIs([Some(true), Some(false)], BoolLess, true);
    ArrayMaxIs([Some(true)], BoolLess, true);
    ArrayMaxIs([Some(false)], BoolLess, false);
    ArrayMaxIs([Some(true), Some(false), Some(true), None], BoolLess, true);
    ArrayMaxIs([None, Some(true), Some(false), Some(true)], BoolLess, true);
    ArrayMaxIs([Some(false), Some(false), Some(false)], BoolLess, false);
    ArrayMaxIs([Some(true), Some(true), Some(true)], BoolLess, true);
  }

  lemma VarcharCases()
    ensures ArrayMax([Some("red"), Some("blue")], StringLess) == Some("red")
    ensures ArrayMax([None, Some("blue"), Some("yellow"), Some("orange")], StringLess) == Some("yellow")
    ensures ArrayMax([], StringLess) == None
    ensures ArrayMax([None], StringLess) == None
  {
    StringLessIsStrictTotal();
    ArrayMaxIs([Some("red"), Some("blue")], StringLess, "red");
    ArrayMaxIs([None, Some("blue"), Some("yellow"), Some("orange")], StringLess, "yellow");
  }

  /** Strings longer than the inline threshold compare by content the same way. */
  lemma LongVarcharPair()
    ensures ArrayMax([Some("red shiny car ahead"), Some("blue clear sky above")], StringLess)
         == Some("red shiny car ahead")
  {
    StringLessIsStrictTotal();
    ArrayMaxIs([Some("red shiny car ahead"), Some("blue clear sky above")], StringLess,
               "red shiny car ahead");
  }

  lemma LongVarcharWithNull()
    ensures ArrayMax([None, Some("blue clear sky above"), Some("yellow rose flowers"),
                      Some("orange beautiful sunset")], StringLess)
         == Some("yellow rose flowers")
  {
    StringLessIsStrictTotal();
    ArrayMaxIs([None, Some("blue clear sky above"), Some("yellow rose flowers"),
                Some("orange beautiful sunset")], StringLess, "yellow rose flowers");
  }

  lemma LongVarcharEmpty()
    ensures ArrayMax([], StringLess) == None
  {
  }

  lemma LongVarcharTriple()
    ensures ArrayMax([Some("red shiny car ahead"), Some("purple is an elegant color"),
                      Some("green plants make us happy")], StringLess)
         == Some("red shiny car ahead")
  {
    StringLessIsStrictTotal();
    ArrayMaxIs([Some("red shiny car ahead"), Some("purple is an elegant color"),
                Some("green plants make us happy")], StringLess, "red shiny car ahead");
  }

  lemma DateCases()
    ensures ArrayMax([Some(Epoch), Some(Aug23Of2023)], IntLess) == Some(Aug23Of2023)
    ensures ArrayMax([], IntLess) == None
    ensures ArrayMax([Some(Epoch), None], IntLess) == Some(Epoch)
  {
    IntLessIsStrictTotal();
    ArrayMaxIs([Some(Epoch), Some(Aug23Of2023)], IntLess, Aug23Of2023);
    ArrayMaxIs([Some(Epoch), None], IntLess, Epoch);
  }

  lemma TimestampCases()
    ensures ArrayMax([Some(FromMicros(0)), Some(FromMicros(1))], TimestampLess) == Some(FromMicros(1))
    ensures ArrayMax([Some(FromMicros(0)), Some(FromMicros(1)), Some(TimestampMax), Some(TimestampMin)],
                     TimestampLess) == Some(TimestampMax)
    ensures ArrayMax([], TimestampLess) == None
    ensures ArrayMax([Some(FromMicros(0)), None], TimestampLess) == Some(FromMicros(0))
  {
    TimestampLessIsStrictTotal();
    ArrayMaxIs([Some(FromMicros(0)), Some(FromMicros(1))], TimestampLess, FromMicros(1));
    ArrayMaxIs([Some(FromMicros(0)), Some(FromMicros(1)), Some(TimestampMax), Some(TimestampMin)],
               TimestampLess, TimestampMax);
    ArrayMaxIs([Some(FromMicros(0)), None], TimestampLess, FromMicros(0));
  }

  // The typed test over every integral width, one lemma per expectation.

  /** The width's minimum and maximum among ascending values: the maximum wins. */
  lemma IntegralAscending(w: IntWidth)
    ensures ArrayMax([Some(MinValue(w)), Some(0), Some(1), Some(2), Some(3), Some(MaxValue(w))], IntLess)
         == Some(MaxValue(w))
  {
    IntLessIsStrictTotal();
    var lo, hi := MinValue(w), MaxValue(w);
    ArrayMaxIs([Some(lo), Some(0), Some(1), Some(2), Some(3), Some(hi)], IntLess, hi);
  }

  /** The same boundaries in descending order: the maximum still wins. */
  lemma IntegralDescending(w: IntWidth)
    ensures ArrayMax([Some(MaxValue(w)), Some(3), Some(2), Some(1), Some(0), Some(-1), Some(MinValue(w))],
                     IntLess) == Some(MaxValue(w))
  {
    IntLessIsStrictTotal();
    var lo, hi := MinValue(w), MaxValue(w);
    ArrayMaxIs([Some(hi), Some(3), Some(2), Some(1), Some(0), Some(-1), Some(lo)], IntLess, hi);
  }

  lemma IntegralTrailingNull(w: IntWidth)
    ensures ArrayMax([Some(101), Some(102), Some(103), Some(MaxValue(w)), None], IntLess)
         == Some(MaxValue(w))
  {
    IntLessIsStrictTotal();
    var hi := MaxValue(w);
    ArrayMaxIs([Some(101), Some(102), Some(103), Some(hi), None], IntLess, hi);
  }

  /** All negative: -1 is the greatest, not some sentinel. */
  lemma IntegralNegatives(w: IntWidth)
    ensures ArrayMax([None, Some(-1), Some(-2), Some(-3), Some(MinValue(w))], IntLess) == Some(-1)
  {
    IntLessIsStrictTotal();
    var lo := MinValue(w);
    ArrayMaxIs([None, Some(-1), Some(-2), Some(-3), Some(lo)], IntLess, -1);
  }

  lemma IntegralEmptyOrNull()
    ensures ArrayMax([], IntLess) == None
    ensures ArrayMax([None], IntLess) == None
  {
  }

  /** The typed test over REAL and DOUBLE. */
  lemma FloatingPointCases(w: FloatWidth)
    ensures ArrayMax([Some(Num(0.0000)), Some(Num(0.00001))], FloatLess) == Some(Num(0.00001))
    ensures ArrayMax([None, Some(Num(1.1)), Some(Num(1.11)), Some(Num(-2.2)), Some(Num(-1.0)),
                      Some(Num(Lowest(w)))], FloatLess) == Some(Num(1.11))
    ensures ArrayMax([], FloatLess) == None
    ensures ArrayMax([Some(Num(Lowest(w))), Some(Num(1.1)), Some(Num(1.22222)), Some(Num(1.33)), None],
                     FloatLess) == Some(Num(1.33))
    ensures ArrayMax([Some(Num(-0.00001)), Some(Num(-0.0002)), Some(Num(0.0001))], FloatLess) == Some(Num(0.0001))
    ensures ArrayMax([Some(Num(Lowest(w))), Some(Num(-0.0001)), Some(Num(-0.0002)), Some(Num(-0.0003)),
                      Some(Num(MaxFinite(w))), Some(NaN)], FloatLess) == Some(NaN)
  {
    FloatLessIsStrictTotal();
    var lo, hi := Lowest(w), MaxFinite(w);
    assert ArrayMax([Some(Num(0.0000)), Some(Num(0.00001))], FloatLess) == Some(Num(0.00001)) by {
      ArrayMaxIs([Some(Num(0.0000)), Some(Num(0.00001))], FloatLess, Num(0.00001));
    }
    assert ArrayMax([None, Some(Num(1.1)), Some(Num(1.11)), Some(Num(-2.2)), Some(Num(-1.0)), Some(Num(lo))],
                    FloatLess) == Some(Num(1.11)) by {
      ArrayMaxIs([None, Some(Num(1.1)), Some(Num(1.11)), Some(Num(-2.2)), Some(Num(-1.0)), Some(Num(lo))],
                 FloatLess, Num(1.11));
    }
    assert ArrayMax([Some(Num(lo)), Some(Num(1.1)), Some(Num(1.22222)), Some(Num(1.33)), None],
                    FloatLess) == Some(Num(1.33)) by {
      ArrayMaxIs([Some(Num(lo)), Some(Num(1.1)), Some(Num(1.22222)), Some(Num(1.33)), None],
                 FloatLess, Num(1.33));
    }
    assert ArrayMax([Some(Num(-0.00001)), Some(Num(-0.0002)), Some(Num(0.0001))], FloatLess)
        == Some(Num(0.0001)) by {
      ArrayMaxIs([Some(Num(-0.00001)), Some(Num(-0.0002)), Some(Num(0.0001))], FloatLess, Num(0.0001));
    }
    assert ArrayMax([Some(Num(lo)), Some(Num(-0.0001)), Some(Num(-0.0002)), Some(Num(-0.0003)),
                     Some(Num(hi)), Some(NaN)], FloatLess) == Some(NaN) by {
      NaNDominates([Some(Num(lo)), Some(Num(-0.0001)), Some(Num(-0.0002)), Some(Num(-0.0003)),
                    Some(Num(hi)), Some(NaN)]);
    }
  }
}
