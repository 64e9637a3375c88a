/** What the calculator's tokenizer does to an expression, stated without regular
    expressions: the six patterns begin with disjoint character classes, so at each position
    the one class the character falls in decides the token, and the scan is the direct
    character-class lexer Lex. It never throws, because no pattern matches the empty string. */
module GrammarScan {
  import opened Wrappers
  import opened Tokenization
  import opened TokenizerEnumerator
  import opened Factory
  import opened Patterns
  import opened Rpn

  /** The type whose pattern can begin with `c`. */
  function Classify(c: char): Option<TokenType> {
    if '1' <= c <= '9' then Some(Num)
    else if c == '+' then Some(Add)
    else if c == '-' then Some(Sub)
    else if c == '*' then Some(Mul)
    else if c == '/' then Some(Div)
    else if IsWhitespace(c) then Some(Sp)
    else None
  }

  /** The length of the token of type `k` that begins at `i`: a number runs on over digits,
      white space over white space, and an operator is one character. */
  function TokenLength(k: TokenType, s: string, i: nat): (n: nat)
    requires i < |s| && Classify(s[i]) == Some(k)
    ensures 1 <= n && i + n <= |s|
  {
    match k
    case Num => 1 + Run(Digit, s, i + 1)
    case Sp => Run(Space, s, i)
    case _ => 1
  }

  /** One step of the lexer at `i`: the type of the character there, its position in the
      grammar, and the token's text; none when no type begins with that character. */
  function LexStep(s: string, i: nat): (r: Option<Winner<TokenType>>)
    requires i <= |s|
    ensures r.Some? ==> 1 <= |r.value.value| && i + |r.value.value| <= |s|
  {
    if i < |s| && Classify(s[i]).Some? then
      var k := Classify(s[i]).value;
      Some(Winner(Ordinal(k), k, s[i..i + TokenLength(k, s, i)]))
    else None
  }

  /** The lexer: a token per maximal number, per white-space run and per operator, stopping
      at the first character that begins none. */
  function Lex(s: string, i: nat): seq<Tok>
    requires i <= |s|
    decreases |s| - i
  {
    match LexStep(s, i)
    case None => []
    case Some(w) => [Token(i, w.kind, w.value)] + Lex(s, i + |w.value|)
  }

  /** Where Lex stops. */
  function LexEnd(s: string, i: nat): nat
    requires i <= |s|
    decreases |s| - i
  {
    match LexStep(s, i)
    case None => i
    case Some(w) => LexEnd(s, i + |w.value|)
  }

  /** Lex stops at the end of the text or at the first character that begins no token. */
  lemma {:induction false} LexEndStops(s: string, i: nat)
    requires i <= |s|
    decreases |s| - i
    ensures i <= LexEnd(s, i) <= |s|
    ensures LexEnd(s, i) == |s| || Classify(s[LexEnd(s, i)]).None?
  {
    match LexStep(s, i)
    case None =>
    case Some(w) =>
      LexEndStops(s, i + |w.value|);
  }

  /** The grammar's definition of type `k` matches at `i` exactly when the character there
      is classified as `k`, and then its value is the token Lex cuts. */
  lemma GrammarMatch(k: TokenType, s: string, i: nat)
    requires i <= |s|
    ensures Match(GrammarDefinition(k), s, i)
         == if i < |s| && Classify(s[i]) == Some(k) then Some(s[i..i + TokenLength(k, s, i)]) else None
  {
    AnchoredSearch(k, GrammarSource(k), GrammarPattern(k), s, i);
    GrammarPatternAt(k, s, i);
  }

  /** The pattern of type `k` matches at `i` exactly when the character there is classified as
      `k`, and then it matches the length of the token Lex cuts. */
  lemma GrammarPatternAt(k: TokenType, s: string, i: nat)
    requires i <= |s|
    ensures MatchAt(GrammarPattern(k), s, i)
         == if i < |s| && Classify(s[i]) == Some(k) then Some(TokenLength(k, s, i)) else None
  {
    if i < |s| {
      ClassifyHead(k, s[i]);
      if k == Sp && IsWhitespace(s[i]) {
        assert Run(Space, s, i) == 1 + Run(Space, s, i + 1);
      }
    }
  }

  /** A character is classified as `k` exactly when it is in the class that `k`'s pattern
      begins with. */
  lemma ClassifyHead(k: TokenType, c: char)
    ensures Classify(c) == Some(k) <==> InClass(GrammarPattern(k).Head(), c)
  {
    if k == Sp && IsWhitespace(c) {
      assert !('1' <= c <= '9') && c != '+' && c != '-' && c != '*' && c != '/';
    }
  }

  /** Definition `j` of the grammar matches at `i` exactly when the character there is
      classified as the `j`-th type. */
  lemma GrammarMatchAt(s: string, i: nat, j: nat)
    requires i <= |s| && j < 6
    ensures var k := GrammarOrder[j];
            && GrammarDefinitions[j].kind == k
            && Match(GrammarDefinitions[j], s, i)
               == if i < |s| && Classify(s[i]) == Some(k) then Some(s[i..i + TokenLength(k, s, i)]) else None
  {
    var k := GrammarOrder[j];
    assert GrammarDefinitions[j] == GrammarDefinition(k) by {
      GrammarLayout();
    }
    GrammarMatch(k, s, i);
  }

  /** The `j`-th type of the grammar is the one with ordinal `j`. */
  lemma OrderOrdinal(k: TokenType)
    ensures Ordinal(k) < |GrammarOrder| && GrammarOrder[Ordinal(k)] == k
  {
  }

  /** The winner of a scan step over the grammar is the definition of the classified type. */
  lemma GrammarFirstMatch(s: string, i: nat)
    requires i <= |s|
    ensures FirstMatch(GrammarDefinitions, s, i) == LexStep(s, i)
  {
    GrammarLayout();
    if i < |s| && Classify(s[i]).Some? {
      GrammarWinner(s, i);
    } else {
      forall j | 0 <= j < |GrammarDefinitions|
        ensures Match(GrammarDefinitions[j], s, i).None?
      {
        GrammarMatchAt(s, i, j);
      }
      FirstMatchNone(GrammarDefinitions, s, i, 0);
    }
  }

  lemma GrammarWinner(s: string, i: nat)
    requires i < |s| && Classify(s[i]).Some?
    ensures FirstMatch(GrammarDefinitions, s, i) == LexStep(s, i)
  {
    var k := Classify(s[i]).value;
    var j := Ordinal(k);
    OrderOrdinal(k);
    GrammarLayout();
    forall j' | 0 <= j' < j
      ensures Match(GrammarDefinitions[j'], s, i).None?
    {
      GrammarMatchAt(s, i, j');
      assert GrammarOrder[j'] != k;
    }
    GrammarMatchAt(s, i, j);
    FirstMatchFromIs(GrammarDefinitions, s, i, 0, j, s[i..i + TokenLength(k, s, i)]);
  }

  /** Any definitions whose scan steps are Lex's steps scan like Lex. */
  lemma {:induction false} ScansLikeLex(ds: seq<TokenDefinition<TokenType>>, s: string, i: nat)
    requires i <= |s|
    requires forall j :: i <= j <= |s| ==> FirstMatch(ds, s, j) == LexStep(s, j)
    decreases |s| - i
    ensures ScanFrom(ds, s, i) == Scan(Lex(s, i), Stopped(LexEnd(s, i)))
  {
    assert FirstMatch(ds, s, i) == LexStep(s, i);
    match LexStep(s, i)
    case None =>
      ScanFromNone(ds, s, i);
      LexStops(s, i);
    case Some(w) =>
      var t := Token(i, w.kind, w.value);
      var next := i + |w.value|;
      ScanFromStep(ds, s, i, w);
      ScansLikeLex(ds, s, next);
      LexUnfold(s, i, w);
      assert ScanFrom(ds, s, i) == Scan([t] + Lex(s, next), Stopped(LexEnd(s, next)));
  }

  /** Lex and LexEnd where no token begins. */
  lemma LexStops(s: string, i: nat)
    requires i <= |s| && LexStep(s, i).None?
    ensures Lex(s, i) == [] && LexEnd(s, i) == i
  {
  }

  /** One step of Lex and of LexEnd. */
  lemma LexUnfold(s: string, i: nat, w: Winner<TokenType>)
    requires i <= |s| && LexStep(s, i) == Some(w)
    ensures Lex(s, i) == [Token(i, w.kind, w.value)] + Lex(s, i + |w.value|)
    ensures LexEnd(s, i) == LexEnd(s, i + |w.value|)
  {
  }

  /** The tokenizer's scan of an expression is Lex's, and it stops where Lex stops. */
  lemma GrammarScansLikeLex(s: string)
    ensures ScanFrom(GrammarDefinitions, s, 0) == Scan(Lex(s, 0), Stopped(LexEnd(s, 0)))
  {
    forall j | 0 <= j <= |s|
      ensures FirstMatch(GrammarDefinitions, s, j) == LexStep(s, j)
    {
      GrammarFirstMatch(s, j);
    }
    ScansLikeLex(GrammarDefinitions, s, 0);
  }

  /** Draining the calculator's tokenizer yields Lex's tokens and never throws. */
  lemma GrammarTokenizes(expression: string)
    ensures Grammar().Success?
    ensures Tokenize(Grammar().value, Some(expression)).Success?
    ensures Drain(Tokenize(Grammar().value, Some(expression)).value) == Drained(Lex(expression, 0), None)
  {
    GrammarBuilds();
    TokenizeScansInOrder(TokenizerFactory(GrammarDefinitions), expression);
    GrammarScansLikeLex(expression);
  }

  /** Parse is the postfix conversion of Lex's tokens without white space; it never fails. */
  lemma ParseIsLex(expression: string)
    ensures Parse(expression) == Success(ToPostfix(WithoutSpaces(Lex(expression, 0))))
  {
    GrammarTokenizes(expression);
  }

  /** What Parse emits: no white space, every filtered token of the expression exactly once,
      and the numbers in the order they appear in the expression. */
  lemma ParseShape(expression: string)
    ensures Parse(expression).Success?
    ensures var filtered := WithoutSpaces(Lex(expression, 0));
            var out := Parse(expression).value;
            && (forall i :: 0 <= i < |out| ==> out[i].kind != Sp)
            && multiset(out) == multiset(filtered)
            && |out| == |filtered|
            && Operands(out) == Operands(filtered)
  {
    var filtered := WithoutSpaces(Lex(expression, 0));
    ParseIsLex(expression);
    var out := ToPostfix(filtered);
    ToPostfixPermutes(filtered);
    WithoutSpacesKeeps(Lex(expression, 0));
    forall i | 0 <= i < |out|
      ensures out[i].kind != Sp
    {
      assert out[i] in multiset(out);
    }
    assert |out| == |multiset(out)| == |multiset(filtered)| == |filtered|;
  }

  /** Every number Lex cuts is a string of digits with no leading zero, and every other token
      is an operator or white space. */
  lemma {:induction false} LexTokens(s: string, i: nat, j: nat)
    requires i <= |s| && j < |Lex(s, i)|
    decreases |s| - i
    ensures var t := Lex(s, i)[j];
            && |t.value| > 0 && (t.kind == Num ==> AllDigits(t.value) && t.value[0] != '0')
            && (t.kind != Num ==> IsOperator(t.kind) || t.kind == Sp)
  {
    var w := LexStep(s, i).value;
    if j == 0 {
      TokenShape(w.kind, s, i);
    } else {
      assert Lex(s, i)[j] == Lex(s, i + |w.value|)[j - 1];
      LexTokens(s, i + |w.value|, j - 1);
    }
  }

  /** The text of a token Lex cuts: a number is digits led by a non-zero one, and any other
      type is an operator or white space. */
  lemma TokenShape(k: TokenType, s: string, i: nat)
    requires i < |s| && Classify(s[i]) == Some(k)
    ensures var v := s[i..i + TokenLength(k, s, i)];
            && |v| > 0 && (k == Num ==> AllDigits(v) && v[0] != '0')
            && (k != Num ==> IsOperator(k) || k == Sp)
  {
    if k == Num {
      var v := s[i..i + TokenLength(k, s, i)];
      RunInClass(Digit, s, i + 1);
      assert forall q :: 0 <= q < |v| ==> v[q] == s[i + q];
    }
  }
}
