/** The calculator's expressions and results from the repository's tests, and expressions
    that show how chains of equal or rising rank nest to the right while a lower-ranked
    operator closes the chain on its left. Each is worked out through Nest: the glyphs
    spaced out give the units, and the units' value is built up from the innermost operator
    outwards with NestJoin. */
module CalculatorExamples {
  import opened Wrappers
  import opened Exceptions
  import opened Tokenization
  import Rpn
  import opened Calculator
  import opened Precedence
  import opened GrammarScan

  /** The number token of the digit `c` at position `at`. */
  function Digit(at: nat, c: char): Rpn.Tok {
    Token(at, Rpn.Num, [c])
  }

  /** The operator token of type `k` written `c` at position `at`. */
  function Op(at: nat, k: Rpn.TokenType, c: char): Rpn.Tok {
    Token(at, k, [c])
  }

  /** `Convert.ToInt32` of a single digit. */
  lemma ToInt32Digit(c: char)
    requires '0' <= c <= '9'
    ensures Rpn.ToInt32([c]) == Success(c as int - '0' as int)
  {
    assert Rpn.AllDigits([c]);
    assert Rpn.DecimalValue([c]) == c as int - '0' as int by {
      assert [c][..0] == [];
    }
  }

  /** A lone digit is an operand worth its digit. */
  lemma DigitNests(at: nat, c: char)
    requires '1' <= c <= '9'
    ensures InfixAt([Digit(at, c)]) && Nest([Digit(at, c)]) == Success(c as int - '0' as int)
  {
    NestOperand(Digit(at, c));
    ToInt32Digit(c);
  }

  /** Calc of a spaced expression whose units are infix is their Nest value. */
  lemma CalcByNest(cs: string, e: string, units: seq<Rpn.Tok>, v: Result<int, Exception>)
    requires Glyphs(cs) && Spaced(cs) == e && Units(cs, 0) == units
    requires InfixAt(units) && Nest(units) == v
    ensures Calc(e) == v
  {
    CalcSpacedIsNest(cs);
  }

  /** The operator table applies `n op m` with `m` the top of the stack: 5 2 - is 3. */
  lemma CalcOperandOrder()
    ensures Rpn.Calc([Token(0, Rpn.Num, "5"), Token(2, Rpn.Num, "2"), Token(4, Rpn.Sub, "-")]) == Success(3)
  {
    var ts := [Token(0, Rpn.Num, "5"), Token(2, Rpn.Num, "2"), Token(4, Rpn.Sub, "-")];
    assert ts[1..][1..][1..] == [];
    ToInt32Digit('5');
    ToInt32Digit('2');
    assert [] + [5] == [5];
    assert [5] + [2] == [5, 2];
    assert [5, 2][..0] + [3] == [3];
    Rpn.WrapInRange(3);
  }

  /** The empty expression is 0 (Test/CalculatorTests.cs:26). */
  lemma CalcEmpty()
    ensures Calc("") == Success(0)
  {
    CalcIsNest("");
    assert Lex("", 0) == [];
  }

  /** "1" is 1 (Test/CalculatorTests.cs:27). */
  lemma CalcOne()
    ensures Calc("1") == Success(1)
  {
    var n1 := Digit(0, '1');
    DigitNests(0, '1');
    CalcByNest("1", "1", [n1], Success(1));
  }

  /** "1 + 2 + 3 + 4" is 1 + (2 + (3 + 4)) = 10 (Test/CalculatorTests.cs:28). */
  lemma CalcSum()
    ensures Calc("1 + 2 + 3 + 4") == Success(10)
  {
    UnitsSum();
    NestSum();
    CalcByNest("1+2+3+4", "1 + 2 + 3 + 4", SumUnits, Success(10));
  }

  const SumUnits := [Digit(0, '1')] + [Op(2, Rpn.Add, '+')] + ([Digit(4, '2')] + [Op(6, Rpn.Add, '+')] + ([Digit(8, '3')] + [Op(10, Rpn.Add, '+')] + [Digit(12, '4')]))

  lemma UnitsSum()
    ensures Glyphs("1+2+3+4") && Spaced("1+2+3+4") == "1 + 2 + 3 + 4" && Units("1+2+3+4", 0) == SumUnits
  {
  }

  lemma NestSum()
    ensures InfixAt(SumUnits) && Nest(SumUnits) == Success(10)
  {
    var n1, n2, n3, n4 := Digit(0, '1'), Digit(4, '2'), Digit(8, '3'), Digit(12, '4');
    var o1, o2, o3 := Op(2, Rpn.Add, '+'), Op(6, Rpn.Add, '+'), Op(10, Rpn.Add, '+');
    DigitNests(0, '1'); DigitNests(4, '2'); DigitNests(8, '3'); DigitNests(12, '4');
    NestJoin([n3], o3, [n4], 3, 4);
    Rpn.WrapInRange(7);
    NestJoin([n2], o2, [n3] + [o3] + [n4], 2, 7);
    Rpn.WrapInRange(9);
    NestJoin([n1], o1, [n2] + [o2] + ([n3] + [o3] + [n4]), 1, 9);
    Rpn.WrapInRange(10);
  }

  /** "1 * 2 + 3 * 4" is (1 * 2) + (3 * 4) = 14 (Test/CalculatorTests.cs:29). */
  lemma CalcProducts()
    ensures Calc("1 * 2 + 3 * 4") == Success(14)
  {
    UnitsProducts();
    NestProducts();
    CalcByNest("1*2+3*4", "1 * 2 + 3 * 4", ProductsUnits, Success(14));
  }

  const ProductsUnits := [Digit(0, '1')] + [Op(2, Rpn.Mul, '*')] + [Digit(4, '2')] + [Op(6, Rpn.Add, '+')] + ([Digit(8, '3')] + [Op(10, Rpn.Mul, '*')] + [Digit(12, '4')])

  lemma UnitsProducts()
    ensures Glyphs("1*2+3*4") && Spaced("1*2+3*4") == "1 * 2 + 3 * 4" && Units("1*2+3*4", 0) == ProductsUnits
  {
  }

  lemma NestProducts()
    ensures InfixAt(ProductsUnits) && Nest(ProductsUnits) == Success(14)
  {
    var n1, n2, n3, n4 := Digit(0, '1'), Digit(4, '2'), Digit(8, '3'), Digit(12, '4');
    var o1, o2, o3 := Op(2, Rpn.Mul, '*'), Op(6, Rpn.Add, '+'), Op(10, Rpn.Mul, '*');
    DigitNests(0, '1'); DigitNests(4, '2'); DigitNests(8, '3'); DigitNests(12, '4');
    NestJoin([n1], o1, [n2], 1, 2);
    Rpn.WrapInRange(2);
    NestJoin([n3], o3, [n4], 3, 4);
    Rpn.WrapInRange(12);
    NestJoin([n1] + [o1] + [n2], o2, [n3] + [o3] + [n4], 2, 12);
    Rpn.WrapInRange(14);
  }

  /** "1 + 2 * 3 + 4" is 1 + ((2 * 3) + 4) = 11 (Test/CalculatorTests.cs:30). */
  lemma CalcInnerProduct()
    ensures Calc("1 + 2 * 3 + 4") == Success(11)
  {
    UnitsInnerProduct();
    NestInnerProduct();
    CalcByNest("1+2*3+4", "1 + 2 * 3 + 4", InnerProductUnits, Success(11));
  }

  const InnerProductUnits := [Digit(0, '1')] + [Op(2, Rpn.Add, '+')] + ([Digit(4, '2')] + [Op(6, Rpn.Mul, '*')] + [Digit(8, '3')] + [Op(10, Rpn.Add, '+')] + [Digit(12, '4')])

  lemma UnitsInnerProduct()
    ensures Glyphs("1+2*3+4") && Spaced("1+2*3+4") == "1 + 2 * 3 + 4" && Units("1+2*3+4", 0) == InnerProductUnits
  {
  }

  lemma NestInnerProduct()
    ensures InfixAt(InnerProductUnits) && Nest(InnerProductUnits) == Success(11)
  {
    var n1, n2, n3, n4 := Digit(0, '1'), Digit(4, '2'), Digit(8, '3'), Digit(12, '4');
    var o1, o2, o3 := Op(2, Rpn.Add, '+'), Op(6, Rpn.Mul, '*'), Op(10, Rpn.Add, '+');
    DigitNests(0, '1'); DigitNests(4, '2'); DigitNests(8, '3'); DigitNests(12, '4');
    NestJoin([n2], o2, [n3], 2, 3);
    Rpn.WrapInRange(6);
    NestJoin([n2] + [o2] + [n3], o3, [n4], 6, 4);
    Rpn.WrapInRange(10);
    NestJoin([n1], o1, [n2] + [o2] + [n3] + [o3] + [n4], 1, 10);
    Rpn.WrapInRange(11);
  }

  /** "1 - 2 + 3 - 4" is (1 - 2) + (3 - 4) = -2: Sub outranks Add (Test/CalculatorTests.cs:31). */
  lemma CalcDifferences()
    ensures Calc("1 - 2 + 3 - 4") == Success(-2)
  {
    UnitsDifferences();
    NestDifferences();
    CalcByNest("1-2+3-4", "1 - 2 + 3 - 4", DifferencesUnits, Success(-2));
  }

  const DifferencesUnits := [Digit(0, '1')] + [Op(2, Rpn.Sub, '-')] + [Digit(4, '2')] + [Op(6, Rpn.Add, '+')] + ([Digit(8, '3')] + [Op(10, Rpn.Sub, '-')] + [Digit(12, '4')])

  lemma UnitsDifferences()
    ensures Glyphs("1-2+3-4") && Spaced("1-2+3-4") == "1 - 2 + 3 - 4" && Units("1-2+3-4", 0) == DifferencesUnits
  {
  }

  lemma NestDifferences()
    ensures InfixAt(DifferencesUnits) && Nest(DifferencesUnits) == Success(-2)
  {
    var n1, n2, n3, n4 := Digit(0, '1'), Digit(4, '2'), Digit(8, '3'), Digit(12, '4');
    var o1, o2, o3 := Op(2, Rpn.Sub, '-'), Op(6, Rpn.Add, '+'), Op(10, Rpn.Sub, '-');
    DigitNests(0, '1'); DigitNests(4, '2'); DigitNests(8, '3'); DigitNests(12, '4');
    NestJoin([n1], o1, [n2], 1, 2);
    NestJoin([n3], o3, [n4], 3, 4);
    Rpn.WrapInRange(-1);
    NestJoin([n1] + [o1] + [n2], o2, [n3] + [o3] + [n4], -1, -1);
    Rpn.WrapInRange(-2);
  }

  /** "1 / 2 * 3 / 4" is (1 / 2) * (3 / 4) = 0 * 0: Div outranks Mul (Test/CalculatorTests.cs:32). */
  lemma CalcQuotients()
    ensures Calc("1 / 2 * 3 / 4") == Success(0)
  {
    UnitsQuotients();
    NestQuotients();
    CalcByNest("1/2*3/4", "1 / 2 * 3 / 4", QuotientsUnits, Success(0));
  }

  const QuotientsUnits := [Digit(0, '1')] + [Op(2, Rpn.Div, '/')] + [Digit(4, '2')] + [Op(6, Rpn.Mul, '*')] + ([Digit(8, '3')] + [Op(10, Rpn.Div, '/')] + [Digit(12, '4')])

  lemma UnitsQuotients()
    ensures Glyphs("1/2*3/4") && Spaced("1/2*3/4") == "1 / 2 * 3 / 4" && Units("1/2*3/4", 0) == QuotientsUnits
  {
  }

  lemma NestQuotients()
    ensures InfixAt(QuotientsUnits) && Nest(QuotientsUnits) == Success(0)
  {
    var n1, n2, n3, n4 := Digit(0, '1'), Digit(4, '2'), Digit(8, '3'), Digit(12, '4');
    var o1, o2, o3 := Op(2, Rpn.Div, '/'), Op(6, Rpn.Mul, '*'), Op(10, Rpn.Div, '/');
    DigitNests(0, '1'); DigitNests(4, '2'); DigitNests(8, '3'); DigitNests(12, '4');
    NestJoin([n1], o1, [n2], 1, 2);
    NestJoin([n3], o3, [n4], 3, 4);
    NestJoin([n1] + [o1] + [n2], o2, [n3] + [o3] + [n4], 0, 0);
    Rpn.WrapInRange(0);
  }

  /** "8 / 4 / 2" is 8 / (4 / 2) = 4: operators of equal rank nest to the right. */
  lemma CalcDivideRight()
    ensures Calc("8 / 4 / 2") == Success(4)
  {
    UnitsDivideRight();
    NestDivideRight();
    CalcByNest("8/4/2", "8 / 4 / 2", DivideRightUnits, Success(4));
  }

  const DivideRightUnits := [Digit(0, '8')] + [Op(2, Rpn.Div, '/')] + ([Digit(4, '4')] + [Op(6, Rpn.Div, '/')] + [Digit(8, '2')])

  lemma UnitsDivideRight()
    ensures Glyphs("8/4/2") && Spaced("8/4/2") == "8 / 4 / 2" && Units("8/4/2", 0) == DivideRightUnits
  {
  }

  lemma NestDivideRight()
    ensures InfixAt(DivideRightUnits) && Nest(DivideRightUnits) == Success(4)
  {
    var n1, n2, n3 := Digit(0, '8'), Digit(4, '4'), Digit(8, '2');
    var o1, o2 := Op(2, Rpn.Div, '/'), Op(6, Rpn.Div, '/');
    DigitNests(0, '8'); DigitNests(4, '4'); DigitNests(8, '2');
    NestJoin([n2], o2, [n3], 4, 2);
    NestJoin([n1], o1, [n2] + [o2] + [n3], 8, 2);
  }

  /** "3 * 5 / 2" is 3 * (5 / 2) = 6: Div outranks Mul, so the division is applied first. */
  lemma CalcMulDivRight()
    ensures Calc("3 * 5 / 2") == Success(6)
  {
    UnitsMulDivRight();
    NestMulDivRight();
    CalcByNest("3*5/2", "3 * 5 / 2", MulDivRightUnits, Success(6));
  }

  const MulDivRightUnits := [Digit(0, '3')] + [Op(2, Rpn.Mul, '*')] + ([Digit(4, '5')] + [Op(6, Rpn.Div, '/')] + [Digit(8, '2')])

  lemma UnitsMulDivRight()
    ensures Glyphs("3*5/2") && Spaced("3*5/2") == "3 * 5 / 2" && Units("3*5/2", 0) == MulDivRightUnits
  {
  }

  lemma NestMulDivRight()
    ensures InfixAt(MulDivRightUnits) && Nest(MulDivRightUnits) == Success(6)
  {
    var n1, n2, n3 := Digit(0, '3'), Digit(4, '5'), Digit(8, '2');
    var o1, o2 := Op(2, Rpn.Mul, '*'), Op(6, Rpn.Div, '/');
    DigitNests(0, '3'); DigitNests(4, '5'); DigitNests(8, '2');
    NestJoin([n2], o2, [n3], 5, 2);
    NestJoin([n1], o1, [n2] + [o2] + [n3], 3, 2);
    Rpn.WrapInRange(6);
  }

  /** "8 / 2 * 2" is (8 / 2) * 2 = 8: Mul ranks below Div, so it pops the division and
      closes the chain on its left. */
  lemma CalcFallingLeft()
    ensures Calc("8 / 2 * 2") == Success(8)
  {
    UnitsFallingLeft();
    NestFallingLeft();
    CalcByNest("8/2*2", "8 / 2 * 2", FallingLeftUnits, Success(8));
  }

  const FallingLeftUnits := [Digit(0, '8')] + [Op(2, Rpn.Div, '/')] + [Digit(4, '2')] + [Op(6, Rpn.Mul, '*')] + [Digit(8, '2')]

  lemma UnitsFallingLeft()
    ensures Glyphs("8/2*2") && Spaced("8/2*2") == "8 / 2 * 2" && Units("8/2*2", 0) == FallingLeftUnits
  {
  }

  lemma NestFallingLeft()
    ensures InfixAt(FallingLeftUnits) && Nest(FallingLeftUnits) == Success(8)
  {
    var n1, n2, n3 := Digit(0, '8'), Digit(4, '2'), Digit(8, '2');
    var o1, o2 := Op(2, Rpn.Div, '/'), Op(6, Rpn.Mul, '*');
    DigitNests(0, '8'); DigitNests(4, '2'); DigitNests(8, '2');
    NestJoin([n1], o1, [n2], 8, 2);
    NestJoin([n1] + [o1] + [n2], o2, [n3], 4, 2);
    Rpn.WrapInRange(8);
  }

  /** "9 - 5 - 1" is 9 - (5 - 1) = 5, not 3. */
  lemma CalcSubtractRight()
    ensures Calc("9 - 5 - 1") == Success(5)
  {
    UnitsSubtractRight();
    NestSubtractRight();
    CalcByNest("9-5-1", "9 - 5 - 1", SubtractRightUnits, Success(5));
  }

  const SubtractRightUnits := [Digit(0, '9')] + [Op(2, Rpn.Sub, '-')] + ([Digit(4, '5')] + [Op(6, Rpn.Sub, '-')] + [Digit(8, '1')])

  lemma UnitsSubtractRight()
    ensures Glyphs("9-5-1") && Spaced("9-5-1") == "9 - 5 - 1" && Units("9-5-1", 0) == SubtractRightUnits
  {
  }

  lemma NestSubtractRight()
    ensures InfixAt(SubtractRightUnits) && Nest(SubtractRightUnits) == Success(5)
  {
    var n1, n2, n3 := Digit(0, '9'), Digit(4, '5'), Digit(8, '1');
    var o1, o2 := Op(2, Rpn.Sub, '-'), Op(6, Rpn.Sub, '-');
    DigitNests(0, '9'); DigitNests(4, '5'); DigitNests(8, '1');
    NestJoin([n2], o2, [n3], 5, 1);
    Rpn.WrapInRange(4);
    NestJoin([n1], o1, [n2] + [o2] + [n3], 9, 4);
    Rpn.WrapInRange(5);
  }

  /** "4 / 1 / 2" is 4 / (1 / 2) = 4 / 0, so it throws DivideByZeroException. */
  lemma CalcDivideByZeroRight()
    ensures Calc("4 / 1 / 2") == Failure(DivideByZero)
  {
    UnitsDivideByZeroRight();
    NestDivideByZeroRight();
    CalcByNest("4/1/2", "4 / 1 / 2", DivideByZeroRightUnits, Failure(DivideByZero));
  }

  const DivideByZeroRightUnits := [Digit(0, '4')] + [Op(2, Rpn.Div, '/')] + ([Digit(4, '1')] + [Op(6, Rpn.Div, '/')] + [Digit(8, '2')])

  lemma UnitsDivideByZeroRight()
    ensures Glyphs("4/1/2") && Spaced("4/1/2") == "4 / 1 / 2" && Units("4/1/2", 0) == DivideByZeroRightUnits
  {
  }

  lemma NestDivideByZeroRight()
    ensures InfixAt(DivideByZeroRightUnits) && Nest(DivideByZeroRightUnits) == Failure(DivideByZero)
  {
    var n1, n2, n3 := Digit(0, '4'), Digit(4, '1'), Digit(8, '2');
    var o1, o2 := Op(2, Rpn.Div, '/'), Op(6, Rpn.Div, '/');
    DigitNests(0, '4'); DigitNests(4, '1'); DigitNests(8, '2');
    NestJoin([n2], o2, [n3], 1, 2);
    NestJoin([n1], o1, [n2] + [o2] + [n3], 4, 0);
  }
}
