/** Calculator.Rpn: the token types and grammar of arithmetic expressions, the conversion of
    the token stream to Reverse Polish Notation, and the stack machine that evaluates it.

    Precedence is the enum's declaration order, Num < Add < Sub < Mul < Div < Sp, compared
    strictly in both tests of the conversion. An operator of the same type as the stack top is
    therefore pushed rather than popped, so chains of equal or rising rank nest to the right
    ("8 / 4 / 2" is 8 / (4 / 2)), while a lower-ranked operator pops the top and closes the
    chain on its left ("8 / 2 * 2" is (8 / 2) * 2). */
module Rpn {
  import opened Wrappers
  import opened Exceptions
  import opened Tokenization
  import opened TokenizerEnumerator
  import opened Factory
  import opened Patterns

  datatype TokenType = Num | Add | Sub | Mul | Div | Sp

  /** The enum's underlying value. */
  function Ordinal(k: TokenType): nat {
    match k
    case Num => 0
    case Add => 1
    case Sub => 2
    case Mul => 3
    case Div => 4
    case Sp => 5
  }

  /** The enum comparison `a < b`. */
  predicate Below(a: TokenType, b: TokenType) {
    Ordinal(a) < Ordinal(b)
  }

  /** The types the operator table has an entry for. */
  predicate IsOperator(k: TokenType) {
    k == Add || k == Sub || k == Mul || k == Div
  }

  type Tok = Token<TokenType>

  // ---------------------------------------------------------------------------------------
  // The grammar

  /** The pattern registered for each type. */
  function GrammarPattern(k: TokenType): Pattern {
    match k
    case Num => Plus(NonZeroDigit, Digit)
    case Add => Single(Literal('+'))
    case Sub => Single(Literal('-'))
    case Mul => Single(Literal('*'))
    case Div => Single(Literal('/'))
    case Sp => Plus(Space, Space)
  }

  function GrammarSource(k: TokenType): string {
    match k
    case Num => "[1-9][0-9]*"
    case Add => "[+]"
    case Sub => "[-]"
    case Mul => "[*]"
    case Div => "[/]"
    case Sp => "\\s+"
  }

  function GrammarDefinition(k: TokenType): TokenDefinition<TokenType> {
    TokenDefinition(k, GrammarSource(k), Compile(GrammarPattern(k)))
  }

  /** The fluent chain `.With(k, pattern)` for each type of `ks` in turn, on the factory so
      far; an exception thrown by one link skips the rest. */
  function Chain(f: Result<TokenizerFactory<TokenType>, Exception>, ks: seq<TokenType>)
    : Result<TokenizerFactory<TokenType>, Exception>
    decreases |ks|
  {
    if |ks| == 0 then f
    else
      var g :- f;
      Chain(With(g, Some(ks[0]), Some(GrammarSource(ks[0])), Compile(GrammarPattern(ks[0]))), ks[1..])
  }

  /** The types in the order the calculator registers them, which is also the enum's order. */
  const GrammarOrder: seq<TokenType> := [Num, Add, Sub, Mul, Div, Sp]

  /** The six With calls that build the calculator's tokenizer factory. */
  function Grammar(): Result<TokenizerFactory<TokenType>, Exception> {
    Chain(Success(NewFactory()), GrammarOrder)
  }

  /** The definitions of the types of `ks`, in order. */
  function Definitions(ks: seq<TokenType>): (ds: seq<TokenDefinition<TokenType>>)
    ensures |ds| == |ks| && forall j :: 0 <= j < |ks| ==> ds[j] == GrammarDefinition(ks[j])
  {
    if |ks| == 0 then [] else [GrammarDefinition(ks[0])] + Definitions(ks[1..])
  }

  const GrammarDefinitions: seq<TokenDefinition<TokenType>> :=
    [GrammarDefinition(Num), GrammarDefinition(Add), GrammarDefinition(Sub),
     GrammarDefinition(Mul), GrammarDefinition(Div), GrammarDefinition(Sp)]

  /** The chain succeeds, and definition `j` is the one of the type with ordinal `j`. */
  lemma GrammarBuilds()
    ensures Grammar() == Success(TokenizerFactory(GrammarDefinitions))
    ensures |GrammarDefinitions| == 6
    ensures forall j :: 0 <= j < 6 ==> GrammarDefinitions[j] == GrammarDefinition(GrammarOrder[j])
    ensures forall j :: 0 <= j < 6 ==> Ordinal(GrammarDefinitions[j].kind) == j
  {
    GrammarChain();
    GrammarLayout();
  }

  lemma GrammarLayout()
    ensures |GrammarDefinitions| == 6
    ensures forall j :: 0 <= j < 6 ==> GrammarDefinitions[j] == GrammarDefinition(GrammarOrder[j])
    ensures forall j :: 0 <= j < 6 ==> Ordinal(GrammarDefinitions[j].kind) == j
  {
  }

  lemma GrammarChain()
    ensures Grammar() == Success(TokenizerFactory(GrammarDefinitions))
  {
    GrammarOrderIncreases();
    ChainBuilds([], GrammarOrder, 0);
    GrammarOrderDefinitions();
    assert [] + GrammarDefinitions == GrammarDefinitions;
  }

  lemma GrammarOrderDefinitions()
    ensures Definitions(GrammarOrder) == GrammarDefinitions
  {
  }

  lemma GrammarOrderIncreases()
    ensures forall j :: 0 < j < |GrammarOrder| ==> Ordinal(GrammarOrder[j - 1]) < Ordinal(GrammarOrder[j])
  {
  }

  /** A chain of types in increasing order, all above the types already present, adds their
      definitions in that order. */
  lemma {:induction false} ChainBuilds(ds: seq<TokenDefinition<TokenType>>, ks: seq<TokenType>, floor: int)
    requires forall d | d in ds :: Ordinal(d.kind) < floor
    requires |ks| > 0 ==> floor <= Ordinal(ks[0])
    requires forall j :: 0 < j < |ks| ==> Ordinal(ks[j - 1]) < Ordinal(ks[j])
    decreases |ks|
    ensures Chain(Success(TokenizerFactory(ds)), ks) == Success(TokenizerFactory(ds + Definitions(ks)))
  {
    if |ks| == 0 {
      assert ds + Definitions(ks) == ds;
    } else {
      var k := ks[0];
      GrammarStep(ds, k);
      var next := ds + [GrammarDefinition(k)];
      assert forall d | d in next :: Ordinal(d.kind) < Ordinal(k) + 1;
      assert forall j :: 0 < j < |ks[1..]| ==> Ordinal(ks[1..][j - 1]) < Ordinal(ks[1..][j]) by {
        forall j | 0 < j < |ks[1..]| ensures Ordinal(ks[1..][j - 1]) < Ordinal(ks[1..][j]) {
          assert ks[1..][j - 1] == ks[j] && ks[1..][j] == ks[j + 1];
        }
      }
      ChainBuilds(next, ks[1..], Ordinal(k) + 1);
      assert Definitions(ks) == [GrammarDefinition(k)] + Definitions(ks[1..]);
      AppendAssociates(ds, [GrammarDefinition(k)], Definitions(ks[1..]));
    }
  }

  lemma AppendAssociates<X>(a: seq<X>, b: seq<X>, c: seq<X>)
    ensures (a + b) + c == a + (b + c)
  {
  }

  /** Adding the definition of a type above every type already present succeeds. */
  lemma GrammarStep(ds: seq<TokenDefinition<TokenType>>, k: TokenType)
    requires forall d | d in ds :: Ordinal(d.kind) < Ordinal(k)
    ensures With(TokenizerFactory(ds), Some(k), Some(GrammarSource(k)), Compile(GrammarPattern(k)))
         == Success(TokenizerFactory(ds + [GrammarDefinition(k)]))
  {
    assert !HasKey(ds, k) by {
      forall i | 0 <= i < |ds| ensures ds[i].kind != k {
        assert ds[i] in ds;
      }
    }
  }

  // ---------------------------------------------------------------------------------------
  // Dropping white space

  /** Drops the white-space tokens and keeps the others, in order. */
  function WithoutSpaces(ts: seq<Tok>): (r: seq<Tok>)
    ensures |r| <= |ts|
  {
    if |ts| == 0 then [] else (if ts[0].kind == Sp then [] else [ts[0]]) + WithoutSpaces(ts[1..])
  }

  /** The filter keeps every token that is not white space, as often as it occurs, and
      nothing else. */
  lemma {:induction false} WithoutSpacesKeeps(ts: seq<Tok>)
    ensures var r := WithoutSpaces(ts);
            && (forall i :: 0 <= i < |r| ==> r[i].kind != Sp)
            && (forall t :: multiset(r)[t] == if t.kind == Sp then 0 else multiset(ts)[t])
  {
    if |ts| > 0 {
      assert ts == [ts[0]] + ts[1..];
      WithoutSpacesKeeps(ts[1..]);
    }
  }

  /** The filter works token by token, so it keeps the order of what it keeps. */
  lemma {:induction false} WithoutSpacesAppend(a: seq<Tok>, b: seq<Tok>)
    decreases |a|
    ensures WithoutSpaces(a + b) == WithoutSpaces(a) + WithoutSpaces(b)
  {
    if |a| == 0 {
      assert a + b == b;
    } else {
      assert (a + b)[0] == a[0];
      assert (a + b)[1..] == a[1..] + b;
      WithoutSpacesAppend(a[1..], b);
    }
  }

  // ---------------------------------------------------------------------------------------
  // Conversion to postfix

  /** The state of the conversion: the tokens yielded so far and the operator stack, whose
      top is its last element. */
  datatype Shunt = Shunt(output: seq<Tok>, stack: seq<Tok>)

  /** The operator stack holds no operand, and its types do not decrease from bottom to top. */
  predicate StackOrdered(stack: seq<Tok>) {
    && NoOperand(stack)
    && (forall i, j :: 0 <= i < j < |stack| ==> Ordinal(stack[i].kind) <= Ordinal(stack[j].kind))
  }

  /** No token of `ts` is an operand. */
  predicate NoOperand(ts: seq<Tok>) {
    forall i :: 0 <= i < |ts| ==> ts[i].kind != Num
  }

  /** The number of tokens the inner while loop pops: the run at the top of the stack whose
      types are strictly above `t`'s. */
  function Tighter(stack: seq<Tok>, t: Tok): (n: nat)
    decreases |stack|
    ensures n <= |stack|
    ensures forall k :: |stack| - n <= k < |stack| ==> Below(t.kind, stack[k].kind)
    ensures n == |stack| || !Below(t.kind, stack[|stack| - n - 1].kind)
  {
    if |stack| > 0 && Below(t.kind, stack[|stack| - 1].kind) then 1 + Tighter(stack[..|stack| - 1], t)
    else 0
  }

  function Reverse(s: seq<Tok>): (r: seq<Tok>)
    ensures |r| == |s| && forall k :: 0 <= k < |s| ==> r[k] == s[|s| - 1 - k]
  {
    if |s| == 0 then [] else [s[|s| - 1]] + Reverse(s[..|s| - 1])
  }

  lemma {:induction false} ReverseMultiset(s: seq<Tok>)
    ensures multiset(Reverse(s)) == multiset(s)
  {
    if |s| > 0 {
      assert s == s[..|s| - 1] + [s[|s| - 1]];
      ReverseMultiset(s[..|s| - 1]);
    }
  }

  /** One pass of the foreach body. An operand goes to the output; an operator is pushed,
      after the run of strictly higher operators on top of the stack has gone to the output,
      top first. */
  function Feed(s: Shunt, t: Tok): Shunt {
    if t.kind == Num then Shunt(s.output + [t], s.stack)
    else if |s.stack| == 0 then Shunt(s.output, [t])
    else if Below(s.stack[|s.stack| - 1].kind, t.kind) then Shunt(s.output, s.stack + [t])
    else
      var n := Tighter(s.stack, t);
      Shunt(s.output + Reverse(s.stack[|s.stack| - n..]), s.stack[..|s.stack| - n] + [t])
  }

  /** What Feed does, whichever branch it takes: an operand is appended to the output; an
      operator ends up on top of the stack, and what it displaced is exactly the run of
      strictly higher types at the top, which went to the output top first. */
  lemma FeedPops(s: Shunt, t: Tok)
    ensures var r := Feed(s, t);
            && (t.kind == Num ==> r == Shunt(s.output + [t], s.stack))
            && (t.kind != Num ==>
                  var n := |s.stack| + 1 - |r.stack|;
                  && 0 <= n <= |s.stack|
                  && r.stack == s.stack[..|s.stack| - n] + [t]
                  && r.output == s.output + Reverse(s.stack[|s.stack| - n..])
                  && (forall k :: |s.stack| - n <= k < |s.stack| ==> Below(t.kind, s.stack[k].kind))
                  && (n == |s.stack| || !Below(t.kind, s.stack[|s.stack| - n - 1].kind)))
  {
    if t.kind != Num && |s.stack| > 0 && Below(s.stack[|s.stack| - 1].kind, t.kind) {
      assert s.stack[|s.stack|..] == [];
    }
  }

  /** Feed only moves tokens: what is in the output and on the stack afterwards is what was
      there before, plus `t`. */
  lemma FeedConserves(s: Shunt, t: Tok)
    ensures var r := Feed(s, t);
            multiset(r.output) + multiset(r.stack) == multiset(s.output) + multiset(s.stack) + multiset{t}
  {
    FeedPops(s, t);
    if t.kind != Num {
      PopConserves(s.output, s.stack, t, |Feed(s, t).stack| - 1);
    }
  }

  lemma PopConserves(output: seq<Tok>, stack: seq<Tok>, t: Tok, j: nat)
    requires j <= |stack|
    ensures multiset(output + Reverse(stack[j..])) + multiset(stack[..j] + [t])
         == multiset(output) + multiset(stack) + multiset{t}
  {
    assert stack == stack[..j] + stack[j..];
    ReverseMultiset(stack[j..]);
  }

  /** Feed keeps the stack free of operands and ordered from bottom to top. */
  lemma FeedOrdered(s: Shunt, t: Tok)
    requires StackOrdered(s.stack)
    ensures StackOrdered(Feed(s, t).stack)
  {
    FeedPops(s, t);
    if t.kind != Num {
      var j := |Feed(s, t).stack| - 1;
      PrefixOrdered(s.stack, j);
      assert j > 0 ==> !Below(t.kind, s.stack[j - 1].kind);
      PushOrdered(s.stack[..j], t);
    }
  }

  lemma PrefixOrdered(stack: seq<Tok>, j: nat)
    requires StackOrdered(stack) && j <= |stack|
    ensures StackOrdered(stack[..j])
  {
  }

  /** Pushing an operator no lower than the top keeps the stack ordered. */
  lemma PushOrdered(stack: seq<Tok>, t: Tok)
    requires StackOrdered(stack) && t.kind != Num
    requires |stack| > 0 ==> Ordinal(stack[|stack| - 1].kind) <= Ordinal(t.kind)
    ensures StackOrdered(stack + [t])
  {
    var r := stack + [t];
    forall i, j | 0 <= i < j < |r|
      ensures Ordinal(r[i].kind) <= Ordinal(r[j].kind)
    {
      if j == |stack| {
        assert Ordinal(stack[i].kind) <= Ordinal(stack[|stack| - 1].kind);
      }
    }
  }

  /** The operands of a token sequence, in order. */
  function Operands(ts: seq<Tok>): seq<Tok> {
    if |ts| == 0 then [] else (if ts[0].kind == Num then [ts[0]] else []) + Operands(ts[1..])
  }

  lemma {:induction false} OperandsAppend(a: seq<Tok>, b: seq<Tok>)
    ensures Operands(a + b) == Operands(a) + Operands(b)
  {
    if |a| > 0 {
      assert (a + b)[0] == a[0];
      assert (a + b)[1..] == a[1..] + b;
      OperandsAppend(a[1..], b);
    } else {
      assert a + b == b;
    }
  }

  lemma {:induction false} OperandsOfOperators(ts: seq<Tok>)
    requires NoOperand(ts)
    ensures Operands(ts) == []
  {
    if |ts| > 0 {
      OperandsOfOperators(ts[1..]);
    }
  }

  /** The foreach loop over the filtered tokens. */
  function FeedAll(s: Shunt, ts: seq<Tok>): (r: Shunt)
    decreases |ts|
    ensures |r.output| + |r.stack| == |s.output| + |s.stack| + |ts|
  {
    if |ts| == 0 then s else FeedAll(Feed(s, ts[0]), ts[1..])
  }

  /** The loop neither loses nor invents tokens. */
  lemma {:induction false} FeedAllConserves(s: Shunt, ts: seq<Tok>)
    decreases |ts|
    ensures var r := FeedAll(s, ts);
            multiset(r.output) + multiset(r.stack) == multiset(s.output) + multiset(s.stack) + multiset(ts)
  {
    if |ts| > 0 {
      assert ts == [ts[0]] + ts[1..];
      FeedConserves(s, ts[0]);
      FeedAllConserves(Feed(s, ts[0]), ts[1..]);
    }
  }

  /** The loop keeps the stack ordered. */
  lemma {:induction false} FeedAllOrdered(s: Shunt, ts: seq<Tok>)
    requires StackOrdered(s.stack)
    decreases |ts|
    ensures StackOrdered(FeedAll(s, ts).stack)
  {
    if |ts| > 0 {
      FeedOrdered(s, ts[0]);
      FeedAllOrdered(Feed(s, ts[0]), ts[1..]);
    }
  }

  /** An operand goes to the output, and what an operator pops holds no operand. */
  lemma FeedOperands(s: Shunt, t: Tok)
    requires NoOperand(s.stack)
    ensures Operands(Feed(s, t).output) == Operands(s.output) + Operands([t])
  {
    OperandsOne(t);
    if t.kind == Num {
      assert Feed(s, t).output == s.output + [t];
      OperandsAppend(s.output, [t]);
    } else {
      var j := |Feed(s, t).stack| - 1;
      assert 0 <= j <= |s.stack| && Feed(s, t).output == s.output + Reverse(s.stack[j..]) by {
        FeedPops(s, t);
      }
      PoppedOperands(s.output, s.stack, j);
    }
  }

  /** Popping operators adds no operand to the output. */
  lemma PoppedOperands(output: seq<Tok>, stack: seq<Tok>, j: nat)
    requires j <= |stack| && NoOperand(stack)
    ensures Operands(output + Reverse(stack[j..])) == Operands(output) + []
  {
    var popped := Reverse(stack[j..]);
    forall i | 0 <= i < |popped|
      ensures popped[i].kind != Num
    {
      assert popped[i] == stack[|stack| - 1 - i];
    }
    OperandsOfOperators(popped);
    OperandsAppend(output, popped);
  }

  lemma OperandsOne(t: Tok)
    ensures Operands([t]) == if t.kind == Num then [t] else []
  {
    assert [t][1..] == [];
  }

  /** The operands reach the output in input order. */
  lemma {:induction false} FeedAllOperands(s: Shunt, ts: seq<Tok>)
    requires NoOperand(s.stack)
    decreases |ts|
    ensures Operands(FeedAll(s, ts).output) == Operands(s.output) + Operands(ts)
  {
    if |ts| > 0 {
      var t := ts[0];
      FeedOperands(s, t);
      FeedKeepsOperators(s, t);
      FeedAllOperands(Feed(s, t), ts[1..]);
      assert ts == [t] + ts[1..];
      OperandsAppend([t], ts[1..]);
    }
  }

  /** Feed puts operators only on the stack. */
  lemma FeedKeepsOperators(s: Shunt, t: Tok)
    requires NoOperand(s.stack)
    ensures NoOperand(Feed(s, t).stack)
  {
    if t.kind != Num {
      var j := |Feed(s, t).stack| - 1;
      var stack := s.stack[..j] + [t];
      assert 0 <= j <= |s.stack| && Feed(s, t).stack == stack by {
        FeedPops(s, t);
      }
      forall i | 0 <= i < |stack|
        ensures stack[i].kind != Num
      {
        if i < j {
          assert stack[i] == s.stack[i];
        }
      }
    }
  }

  /** The final while loop: pop and yield everything left, top first. */
  function Flush(s: Shunt): (r: seq<Tok>)
    ensures s.output <= r && |r| == |s.output| + |s.stack|
    ensures |s.stack| > 0 ==> r[|r| - 1] == s.stack[0]
  {
    s.output + Reverse(s.stack)
  }

  /** The conversion of filtered tokens to postfix order. */
  function ToPostfix(ts: seq<Tok>): (r: seq<Tok>)
    ensures |r| == |ts|
  {
    Flush(FeedAll(Shunt([], []), ts))
  }

  /** The conversion is a permutation of its input that keeps the operands in their order. */
  lemma ToPostfixPermutes(ts: seq<Tok>)
    ensures multiset(ToPostfix(ts)) == multiset(ts)
    ensures Operands(ToPostfix(ts)) == Operands(ts)
  {
    var r := FeedAll(Shunt([], []), ts);
    FeedAllConserves(Shunt([], []), ts);
    FeedAllOrdered(Shunt([], []), ts);
    FeedAllOperands(Shunt([], []), ts);
    FlushPermutes(r);
  }

  /** The final loop moves the stack, which holds no operand, behind the output. */
  lemma FlushPermutes(s: Shunt)
    requires NoOperand(s.stack)
    ensures multiset(Flush(s)) == multiset(s.output) + multiset(s.stack)
    ensures Operands(Flush(s)) == Operands(s.output)
  {
    ReverseMultiset(s.stack);
    OperandsAppend(s.output, Reverse(s.stack));
    OperandsOfOperators(Reverse(s.stack));
  }

  /** `Rpn.Parse`: tokenize with the grammar, drop white space, convert. An exception from the
      tokenizer propagates. */
  function Parse(expression: string): (r: Result<seq<Tok>, Exception>)
    ensures r.Success? ==> forall i :: 0 <= i < |r.value| ==> r.value[i].kind != Sp
  {
    var factory :- Grammar();
    var tokenizer :- Tokenize(factory, Some(expression));
    var drained := Drain(tokenizer);
    if drained.error.Some? then Failure(drained.error.value)
    else
      var kept := WithoutSpaces(drained.tokens);
      WithoutSpacesKeeps(drained.tokens);
      PostfixKeeps(kept);
      Success(ToPostfix(kept))
  }

  /** The conversion introduces no token that was not in its input. */
  lemma PostfixKeeps(ts: seq<Tok>)
    ensures forall i :: 0 <= i < |ToPostfix(ts)| ==> ToPostfix(ts)[i] in ts
  {
    ToPostfixPermutes(ts);
    var r := ToPostfix(ts);
    forall i | 0 <= i < |r| ensures r[i] in ts {
      assert r[i] in multiset(r);
    }
  }

  // ---------------------------------------------------------------------------------------
  // Evaluation

  const Int32Max: int := 0x7FFF_FFFF

  predicate AllDigits(s: string) {
    forall i :: 0 <= i < |s| ==> '0' <= s[i] <= '9'
  }

  /** The number a string of decimal digits denotes. */
  function DecimalValue(s: string): nat
    requires AllDigits(s)
  {
    if |s| == 0 then 0 else 10 * DecimalValue(s[..|s| - 1]) + (s[|s| - 1] as int - '0' as int)
  }

  /** `Convert.ToInt32` on a string of decimal digits; anything else is a format error, and a
      number beyond the 32-bit range overflows. */
  function ToInt32(s: string): (r: Result<int, Exception>)
    ensures r.Success? ==> 0 <= r.value <= Int32Max && AllDigits(s) && r.value == DecimalValue(s)
    ensures r.Failure? ==> r.error == Format || r.error == Overflow
    ensures r.Failure? <==> |s| == 0 || !AllDigits(s) || DecimalValue(s) > Int32Max
  {
    if |s| == 0 || !AllDigits(s) then Failure(Format)
    else if DecimalValue(s) > Int32Max then Failure(Overflow)
    else Success(DecimalValue(s))
  }

  const Int32Min: int := -0x8000_0000

  predicate IsInt32(x: int) {
    Int32Min <= x <= Int32Max
  }

  /** Unchecked 32-bit arithmetic: the value in range that is congruent to `x` modulo 2^32. */
  function Wrap(x: int): (r: int)
    ensures IsInt32(r) && (x - r) % 0x1_0000_0000 == 0
  {
    (x - Int32Min) % 0x1_0000_0000 + Int32Min
  }

  /** Wrapping leaves a value that is already in range alone. */
  lemma WrapInRange(x: int)
    requires IsInt32(x)
    ensures Wrap(x) == x
  {
  }

  function Abs(x: int): nat {
    if x < 0 then -x else x
  }

  /** C#'s `n / m` on integers: the quotient of the magnitudes, negated when the signs
      differ, so it is truncated toward zero. */
  function Quotient(n: int, m: int): int
    requires m != 0
  {
    if (n < 0) == (m < 0) then Abs(n) / Abs(m) else -(Abs(n) / Abs(m))
  }

  /** The truncated quotient leaves a remainder smaller than the divisor with the sign of the
      dividend, and is never larger in magnitude than the exact quotient. */
  lemma QuotientSpec(n: int, m: int)
    requires m != 0
    ensures var q := Quotient(n, m);
            && Abs(n - q * m) < Abs(m)
            && (n - q * m == 0 || (n - q * m < 0 <==> n < 0))
            && Abs(q) * Abs(m) <= Abs(n)
            && (q > 0 ==> (n < 0 <==> m < 0))
  {
    var x: int, y: int := Abs(n), Abs(m);
    var a: int := x / y;
    QuotientBounds(x, y);
    var p := a * y;
    var q := Quotient(n, m);
    Negations(a, y);
    if n >= 0 && m > 0 {
      assert q * m == p by { assert q == a && m == y; }
      assert 0 <= n - q * m < y;
    } else if n >= 0 {
      assert q * m == p by { assert q == -a && m == -y; }
      assert 0 <= n - q * m < y;
    } else if m > 0 {
      assert q * m == -p by { assert q == -a && m == y; }
      assert -y < n - q * m <= 0;
    } else {
      assert q * m == -p by { assert q == a && m == -y; }
      assert -y < n - q * m <= 0;
    }
    assert Abs(q) == a by {
      if (n < 0) == (m < 0) { assert q == a; } else { assert q == -a; }
    }
    assert Abs(q) * Abs(m) == p;
  }

  /** Negating either factor negates the product. */
  lemma Negations(a: int, b: int)
    ensures (-a) * b == -(a * b) && a * (-b) == -(a * b) && (-a) * (-b) == a * b
  {
  }

  /** The Euclidean quotient of naturals leaves a remainder below the divisor. */
  lemma QuotientBounds(x: nat, y: nat)
    requires y > 0
    ensures 0 <= x / y && (x / y) * y <= x < (x / y) * y + y
  {
  }

  /** A truncated quotient of 32-bit operands is in range, except int.MinValue / -1. */
  lemma QuotientInRange(n: int, m: int)
    requires IsInt32(n) && IsInt32(m) && m != 0 && !(n == Int32Min && m == -1)
    ensures IsInt32(Quotient(n, m))
  {
    var q := Quotient(n, m);
    var a, y := Abs(q), Abs(m);
    QuotientSpec(n, m);
    assert a * y <= Abs(n);
    if y == 1 {
      assert a == a * y;
    } else {
      MulMonotone(a, 2, y);
    }
  }

  lemma MulMonotone(a: nat, k: nat, y: nat)
    requires k <= y
    ensures a * k <= a * y
  {
    assert a * y == a * k + a * (y - k);
  }

  /** The operator table: `n op m`, where `m` was on top of the stack, in unchecked 32-bit
      arithmetic. Division by zero throws, and so does the one quotient that overflows. */
  function Apply(op: TokenType, n: int, m: int): (r: Result<int, Exception>)
    requires IsOperator(op) && IsInt32(n) && IsInt32(m)
    ensures r.Failure? <==> op == Div && (m == 0 || (n == Int32Min && m == -1))
    ensures r.Failure? ==> r.error == (if m == 0 then DivideByZero else Overflow)
    ensures r.Success? ==> IsInt32(r.value)
    ensures op == Add ==> r == Success(Wrap(n + m))
    ensures op == Sub ==> r == Success(Wrap(n - m))
    ensures op == Mul ==> r == Success(Wrap(n * m))
    ensures op == Div && r.Success? ==> Abs(n - r.value * m) < Abs(m) && (n - r.value * m == 0 || (n - r.value * m < 0 <==> n < 0))
  {
    match op
    case Add => Success(Wrap(n + m))
    case Sub => Success(Wrap(n - m))
    case Mul => Success(Wrap(n * m))
    case Div =>
      if m == 0 then Failure(DivideByZero)
      else if n == Int32Min && m == -1 then Failure(Overflow)
      else
        QuotientSpec(n, m);
        QuotientInRange(n, m);
        Success(Quotient(n, m))
  }

  /** The foreach loop of `Rpn.Calc`, with the value stack's top as its last element. The
      operator lookup happens before either Pop, so a type with no operator fails first; a Pop
      from an empty stack throws. */
  function Eval(ts: seq<Tok>, stack: seq<int>): (r: Result<seq<int>, Exception>)
    requires forall i :: 0 <= i < |stack| ==> IsInt32(stack[i])
    decreases |ts|
    ensures r.Success? ==> |r.value| <= |stack| + |ts|
  {
    if |ts| == 0 then Success(stack)
    else
      var t := ts[0];
      if t.kind == Num then
        var v :- ToInt32(t.value);
        Eval(ts[1..], stack + [v])
      else if !IsOperator(t.kind) then Failure(KeyNotFound)
      else if |stack| < 2 then Failure(InvalidOperation)
      else
        var m, n := stack[|stack| - 1], stack[|stack| - 2];
        var v :- Apply(t.kind, n, m);
        Eval(ts[1..], stack[..|stack| - 2] + [v])
  }

  /** Every value evaluation leaves on the stack is a 32-bit integer. */
  lemma {:induction false} EvalInt32(ts: seq<Tok>, stack: seq<int>)
    requires forall i :: 0 <= i < |stack| ==> IsInt32(stack[i])
    decreases |ts|
    ensures Eval(ts, stack).Success? ==> forall i :: 0 <= i < |Eval(ts, stack).value| ==> IsInt32(Eval(ts, stack).value[i])
  {
    if |ts| > 0 {
      var t := ts[0];
      if t.kind == Num {
        if ToInt32(t.value).Success? {
          EvalInt32(ts[1..], stack + [ToInt32(t.value).value]);
        }
      } else if IsOperator(t.kind) && |stack| >= 2 {
        var m, n := stack[|stack| - 1], stack[|stack| - 2];
        if Apply(t.kind, n, m).Success? {
          EvalInt32(ts[1..], stack[..|stack| - 2] + [Apply(t.kind, n, m).value]);
        }
      }
    }
  }

  /** `Rpn.Calc`: the value on top of the stack at the end, or 0 when the stack is empty. */
  function Calc(notation: seq<Tok>): (r: Result<int, Exception>)
    ensures var e := Eval(notation, []);
            && (e.Failure? ==> r == Failure(e.error))
            && (e.Success? ==> r.Success? && IsInt32(r.value))
            && (e.Success? && |e.value| > 0 ==> r.value == e.value[|e.value| - 1])
            && (e.Success? && |e.value| == 0 ==> r.value == 0)
  {
    EvalInt32(notation, []);
    var stack :- Eval(notation, []);
    Success(if |stack| > 0 then stack[|stack| - 1] else 0)
  }
}
