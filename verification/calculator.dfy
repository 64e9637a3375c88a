/** Calculator.Calc: parse an expression to postfix and evaluate it. */
module Calculator {
  import opened Wrappers
  import opened Exceptions
  import opened Tokenization
  import Rpn
  import opened GrammarScan
  import opened PostfixForm
  import opened Patterns
  import opened Precedence

  /** `Calculator.Calc`: the value of the expression, or the exception that parsing or
      evaluation throws. The value is a 32-bit integer; once parsing has succeeded, which it
      always does (CalcThrows), the only exceptions are a pop from an empty stack, a division
      by zero and an overflow. */
  function Calc(expression: string): (r: Result<int, Exception>)
    ensures r.Success? ==> Rpn.IsInt32(r.value)
    ensures Rpn.Parse(expression).Success? && r.Failure? ==> r.error in {InvalidOperation, DivideByZero, Overflow}
  {
    var notation :- Rpn.Parse(expression);
    ParsedDigits(expression);
    EvalThrows(notation, []);
    Rpn.Calc(notation)
  }

  /** Whatever the expression, Calc throws only on a pop from an empty stack (an operator
      short of operands), a division by zero or an overflow: never a format error, never a
      missing operator, and nothing from the tokenizer. */
  lemma CalcThrows(expression: string)
    ensures Calc(expression).Failure? ==> Calc(expression).error in {InvalidOperation, DivideByZero, Overflow}
  {
    ParsedDigits(expression);
  }

  /** Parse succeeds on every expression, its numbers are strings of digits, and it emits
      no white space. */
  lemma ParsedDigits(expression: string)
    ensures Rpn.Parse(expression).Success?
    ensures var out := Rpn.Parse(expression).value;
            DigitOperands(out) && forall i :: 0 <= i < |out| ==> out[i].kind != Rpn.Sp
  {
    ParseShape(expression);
    var lexed := Lex(expression, 0);
    var out := Rpn.Parse(expression).value;
    Rpn.WithoutSpacesKeeps(lexed);
    forall i | 0 <= i < |out| && out[i].kind == Rpn.Num
      ensures |out[i].value| > 0 && Rpn.AllDigits(out[i].value)
    {
      var t := out[i];
      assert t in multiset(out);
      assert t in multiset(lexed);
      var j :| 0 <= j < |lexed| && lexed[j] == t;
      LexTokens(expression, 0, j);
    }
  }

  /** Calc evaluates the postfix form of the expression's tokens, white space dropped. The
      tokenizer stops silently at the first character no pattern accepts, so the rest of the
      expression is ignored rather than rejected. */
  lemma CalcIsLex(expression: string)
    ensures Calc(expression) == Rpn.Calc(Rpn.ToPostfix(Rpn.WithoutSpaces(Lex(expression, 0))))
  {
    ParseIsLex(expression);
  }

  /** Characters that are each a whole token other than white space: a non-zero digit or
      one of the four operators. */
  predicate Glyphs(cs: string) {
    forall k :: 0 <= k < |cs| ==> IsGlyph(cs[k])
  }

  predicate IsGlyph(c: char) {
    Classify(c).Some? && Classify(c) != Some(Rpn.Sp)
  }

  /** At `i`, a glyph, a space and another glyph. */
  predicate GlyphSpaceGlyph(s: string, i: nat) {
    i + 2 < |s| && IsGlyph(s[i]) && s[i + 1] == ' ' && IsGlyph(s[i + 2])
  }

  /** The glyphs written out with one space between neighbours, as the repository's test
      expressions are: Spaced("1+2") is "1 + 2". */
  function Spaced(cs: string): (s: string)
    ensures |s| == if |cs| == 0 then 0 else 2 * |cs| - 1
  {
    if |cs| == 0 then []
    else seq(2 * |cs| - 1, j requires 0 <= j < 2 * |cs| - 1 => if j % 2 == 0 then cs[j / 2] else ' ')
  }

  /** The tokens of the glyphs from `k` on, each at its position in the spaced expression. */
  function Units(cs: string, k: nat): seq<Rpn.Tok>
    requires Glyphs(cs) && k <= |cs|
    decreases |cs| - k
  {
    if k == |cs| then [] else [Token(2 * k, Classify(cs[k]).value, [cs[k]])] + Units(cs, k + 1)
  }

  lemma SpacedAt(cs: string, j: nat)
    requires j < |Spaced(cs)|
    ensures Spaced(cs)[j] == if j % 2 == 0 then cs[j / 2] else ' '
  {
  }

  /** A glyph followed by a space or the end is a token of its own. */
  lemma LexGlyph(s: string, i: nat)
    requires i < |s| && Classify(s[i]).Some? && Classify(s[i]) != Some(Rpn.Sp)
    requires i + 1 == |s| || s[i + 1] == ' '
    ensures Lex(s, i) == [Token(i, Classify(s[i]).value, [s[i]])] + Lex(s, i + 1)
  {
    var k := Classify(s[i]).value;
    var w := Winner(Rpn.Ordinal(k), k, [s[i]]);
    assert LexStep(s, i) == Some(w) by {
      assert TokenLength(k, s, i) == 1;
      assert s[i..i + 1] == [s[i]];
    }
    LexUnfold(s, i, w);
  }

  /** A space followed by a glyph is a token of its own. */
  lemma LexSpace(s: string, i: nat)
    requires i + 1 < |s| && s[i] == ' ' && Classify(s[i + 1]).Some? && Classify(s[i + 1]) != Some(Rpn.Sp)
    ensures Lex(s, i) == [Token(i, Rpn.Sp, " ")] + Lex(s, i + 1)
  {
    var w := Winner(Rpn.Ordinal(Rpn.Sp), Rpn.Sp, " ");
    assert LexStep(s, i) == Some(w) by {
      assert !IsWhitespace(s[i + 1]);
      assert Run(Space, s, i + 1) == 0;
      assert TokenLength(Rpn.Sp, s, i) == 1;
      assert s[i..i + 1] == " ";
    }
    LexUnfold(s, i, w);
  }

  /** From the glyph at `k` on, the tokens of a spaced expression without white space are
      its glyphs. */
  lemma {:induction false} SpacedLexFrom(cs: string, k: nat)
    requires Glyphs(cs) && k < |cs|
    decreases |cs| - k
    ensures Rpn.WithoutSpaces(Lex(Spaced(cs), 2 * k)) == Units(cs, k)
  {
    if k + 1 == |cs| {
      SpacedLexLast(cs, k);
    } else {
      SpacedLexFrom(cs, k + 1);
      SpacedLexStep(cs, k);
    }
  }

  lemma SpacedLexLast(cs: string, k: nat)
    requires Glyphs(cs) && k + 1 == |cs|
    ensures Rpn.WithoutSpaces(Lex(Spaced(cs), 2 * k)) == Units(cs, k)
  {
    var s := Spaced(cs);
    var i := 2 * k;
    SpacedAt(cs, i);
    assert i / 2 == k;
    var t := Token(i, Classify(cs[k]).value, [cs[k]]);
    assert Rpn.WithoutSpaces([t]) == [t];
    LexGlyph(s, i);
    Rpn.WithoutSpacesAppend([t], []);
  }

  lemma SpacedLexStep(cs: string, k: nat)
    requires Glyphs(cs) && k + 1 < |cs|
    requires Rpn.WithoutSpaces(Lex(Spaced(cs), 2 * (k + 1))) == Units(cs, k + 1)
    ensures Rpn.WithoutSpaces(Lex(Spaced(cs), 2 * k)) == Units(cs, k)
  {
    SpacedGlyph(cs, k);
    UnitsUnfold(cs, k);
  }

  /** In a spaced expression, the glyph at `k` and the space after it contribute the glyph's
      token alone. */
  lemma SpacedGlyph(cs: string, k: nat)
    requires Glyphs(cs) && k + 1 < |cs|
    ensures 2 * (k + 1) < |Spaced(cs)|
    ensures Rpn.WithoutSpaces(Lex(Spaced(cs), 2 * k))
         == [Token(2 * k, Classify(cs[k]).value, [cs[k]])] + Rpn.WithoutSpaces(Lex(Spaced(cs), 2 * (k + 1)))
  {
    SpacedNeighbours(cs, k);
    GlyphThenSpace(Spaced(cs), 2 * k, 2 * (k + 1), cs[k]);
  }

  /** The glyph at `k`, the space after it and the next glyph. */
  lemma SpacedNeighbours(cs: string, k: nat)
    requires Glyphs(cs) && k + 1 < |cs|
    ensures GlyphSpaceGlyph(Spaced(cs), 2 * k) && Spaced(cs)[2 * k] == cs[k]
  {
    var i := 2 * k;
    SpacedAt(cs, i);
    SpacedAt(cs, i + 1);
    SpacedAt(cs, i + 2);
    assert i / 2 == k && (i + 2) / 2 == k + 1;
  }

  lemma UnitsUnfold(cs: string, k: nat)
    requires Glyphs(cs) && k < |cs|
    ensures Units(cs, k) == [Token(2 * k, Classify(cs[k]).value, [cs[k]])] + Units(cs, k + 1)
  {
  }

  /** A glyph and the space after it contribute the glyph's token alone. */
  lemma GlyphThenSpace(s: string, i: nat, next: nat, c: char)
    requires GlyphSpaceGlyph(s, i) && next == i + 2 && s[i] == c
    ensures Rpn.WithoutSpaces(Lex(s, i)) == [Token(i, Classify(c).value, [c])] + Rpn.WithoutSpaces(Lex(s, next))
  {
    var t := Token(i, Classify(s[i]).value, [s[i]]);
    var sp := Token(i + 1, Rpn.Sp, " ");
    var rest := Lex(s, i + 2);
    LexGlyph(s, i);
    LexSpace(s, i + 1);
    assert Lex(s, i) == [t] + ([sp] + rest);
    Rpn.WithoutSpacesAppend([t], [sp] + rest);
    Rpn.WithoutSpacesAppend([sp], rest);
    assert Rpn.WithoutSpaces([t]) == [t];
    assert Rpn.WithoutSpaces([sp]) == [];
  }

  /** Calc of a spaced expression converts and evaluates its glyphs. */
  lemma CalcSpaced(cs: string)
    requires Glyphs(cs)
    ensures Calc(Spaced(cs)) == Rpn.Calc(Rpn.ToPostfix(Units(cs, 0)))
  {
    CalcIsLex(Spaced(cs));
    if |cs| > 0 {
      SpacedLexFrom(cs, 0);
    }
  }

  /** Calc in terms of Nest: an expression whose tokens, white space dropped, alternate
      number and operator evaluates with its root at the leftmost operator of lowest rank:
      chains of equal or rising rank nest to the right, and a lower-ranked operator closes
      the chain on its left and is applied last. One with no token at all is 0. */
  lemma CalcIsNest(expression: string)
    ensures var ts := Rpn.WithoutSpaces(Lex(expression, 0));
            && (ts == [] ==> Calc(expression) == Success(0))
            && (InfixAt(ts) ==> Calc(expression) == Nest(ts))
  {
    var ts := Rpn.WithoutSpaces(Lex(expression, 0));
    CalcIsLex(expression);
    if ts == [] {
      assert Rpn.ToPostfix(ts) == [];
    } else if InfixAt(ts) {
      PostfixCalcIsNest(ts);
    }
  }

  /** The same for a spaced expression of glyphs. */
  lemma CalcSpacedIsNest(cs: string)
    requires Glyphs(cs) && InfixAt(Units(cs, 0))
    ensures Calc(Spaced(cs)) == Nest(Units(cs, 0))
  {
    CalcSpaced(cs);
    PostfixCalcIsNest(Units(cs, 0));
  }
}
