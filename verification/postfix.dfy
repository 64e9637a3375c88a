/** When the conversion's output can be evaluated: the stack discipline of Reverse Polish
    Notation, the infix shape that the conversion turns into it, and what evaluation does
    with a sequence that keeps the discipline. */
module PostfixForm {
  import opened Exceptions
  import opened Tokenization
  import opened Rpn

  /** The change a token makes to the height of the value stack. */
  function Effect(k: TokenType): int {
    if k == Num then 1 else -1
  }

  /** Read with `h` values on the stack, every token of `ts` is an operand or an operator of
      the table, and every operator finds two values to pop. */
  predicate Fits(ts: seq<Tok>, h: int)
    decreases |ts|
  {
    |ts| == 0 || ((ts[0].kind == Num || (IsOperator(ts[0].kind) && h >= 2)) && Fits(ts[1..], h + Effect(ts[0].kind)))
  }

  /** The height of the value stack after `ts`, starting from `h`. */
  function Height(ts: seq<Tok>, h: int): int
    decreases |ts|
  {
    if |ts| == 0 then h else Height(ts[1..], h + Effect(ts[0].kind))
  }

  /** A postfix expression: it fits an empty stack and leaves exactly one value. */
  predicate WellFormed(ts: seq<Tok>) {
    Fits(ts, 0) && Height(ts, 0) == 1
  }

  lemma {:induction false} FitsAppend(a: seq<Tok>, b: seq<Tok>, h: int)
    decreases |a|
    ensures Fits(a + b, h) <==> Fits(a, h) && Fits(b, Height(a, h))
    ensures Height(a + b, h) == Height(b, Height(a, h))
  {
    if |a| == 0 {
      assert a + b == b;
    } else {
      assert (a + b)[0] == a[0];
      assert (a + b)[1..] == a[1..] + b;
      FitsAppend(a[1..], b, h + Effect(a[0].kind));
    }
  }

  /** Operators alone fit any stack tall enough to leave one value behind. */
  lemma {:induction false} OperatorsFit(ops: seq<Tok>, h: int)
    requires forall i :: 0 <= i < |ops| ==> IsOperator(ops[i].kind)
    requires h >= |ops| + 1
    decreases |ops|
    ensures Fits(ops, h) && Height(ops, h) == h - |ops|
  {
    if |ops| > 0 {
      OperatorsFit(ops[1..], h - 1);
    }
  }

  /** Operands and operators alternate, starting with an operand when `operand` holds, and
      the sequence ends after an operand: `n (op n)*`. */
  predicate Alternates(ts: seq<Tok>, operand: bool)
    decreases |ts|
  {
    if |ts| == 0 then !operand
    else
      && (ts[0].kind == Num) == operand
      && (ts[0].kind == Num || IsOperator(ts[0].kind))
      && Alternates(ts[1..], !operand)
  }

  predicate Infix(ts: seq<Tok>) {
    Alternates(ts, true)
  }

  /** Every token of `ts` is an operator of the table. */
  predicate AllOperators(ts: seq<Tok>) {
    forall i :: 0 <= i < |ts| ==> IsOperator(ts[i].kind)
  }

  /** The conversion's loop invariant on infix input: the stack is ordered and holds operators
      only, the output so far fits an empty stack, and it leaves one value per stacked
      operator, plus one when an operator is due next. */
  predicate Inv(s: Shunt, operand: bool) {
    && StackOrdered(s.stack)
    && AllOperators(s.stack)
    && Fits(s.output, 0)
    && Height(s.output, 0) == |s.stack| + (if operand then 0 else 1)
  }

  lemma FeedKeeps(s: Shunt, t: Tok, operand: bool)
    requires Inv(s, operand)
    requires (t.kind == Num) == operand && (t.kind == Num || IsOperator(t.kind))
    ensures Inv(Feed(s, t), !operand)
  {
    FeedOrdered(s, t);
    FeedStacksOperators(s, t);
    FeedFits(s, t, operand);
  }

  /** Feed pushes only the operator it is given. */
  lemma FeedStacksOperators(s: Shunt, t: Tok)
    requires AllOperators(s.stack) && (t.kind == Num || IsOperator(t.kind))
    ensures AllOperators(Feed(s, t).stack)
  {
    if t.kind != Num {
      var j := |Feed(s, t).stack| - 1;
      var stack := s.stack[..j] + [t];
      assert 0 <= j <= |s.stack| && Feed(s, t).stack == stack by {
        FeedPops(s, t);
      }
      forall i | 0 <= i < |stack|
        ensures IsOperator(stack[i].kind)
      {
        if i < j {
          assert stack[i] == s.stack[i];
        }
      }
    }
  }

  /** Feed keeps the output a prefix of a postfix expression whose height counts the operators
      still on the stack. */
  lemma FeedFits(s: Shunt, t: Tok, operand: bool)
    requires AllOperators(s.stack) && Fits(s.output, 0)
    requires Height(s.output, 0) == |s.stack| + (if operand then 0 else 1)
    requires (t.kind == Num) == operand && (t.kind == Num || IsOperator(t.kind))
    ensures Fits(Feed(s, t).output, 0)
    ensures Height(Feed(s, t).output, 0) == |Feed(s, t).stack| + (if operand then 1 else 0)
  {
    if t.kind == Num {
      assert Feed(s, t) == Shunt(s.output + [t], s.stack);
      FitsAppend(s.output, [t], 0);
    } else {
      var j := |Feed(s, t).stack| - 1;
      assert 0 <= j <= |s.stack| && Feed(s, t).output == s.output + Reverse(s.stack[j..]) by {
        FeedPops(s, t);
      }
      PopFits(s.output, s.stack, j);
    }
  }

  /** Appending popped operators to an output that leaves one value more than there are
      stacked operators still fits, leaving one value more than the operators kept. */
  lemma PopFits(output: seq<Tok>, stack: seq<Tok>, j: nat)
    requires j <= |stack| && AllOperators(stack)
    requires Fits(output, 0) && Height(output, 0) == |stack| + 1
    ensures Fits(output + Reverse(stack[j..]), 0) && Height(output + Reverse(stack[j..]), 0) == j + 1
  {
    var popped := Reverse(stack[j..]);
    forall i | 0 <= i < |popped|
      ensures IsOperator(popped[i].kind)
    {
      assert popped[i] == stack[|stack| - 1 - i];
    }
    OperatorsFit(popped, |stack| + 1);
    FitsAppend(output, popped, 0);
  }

  lemma {:induction false} FeedAllWellFormed(s: Shunt, ts: seq<Tok>, operand: bool)
    requires Inv(s, operand) && Alternates(ts, operand)
    decreases |ts|
    ensures WellFormed(Flush(FeedAll(s, ts)))
  {
    if |ts| == 0 {
      OperatorsFit(Reverse(s.stack), |s.stack| + 1);
      FitsAppend(s.output, Reverse(s.stack), 0);
    } else {
      FeedKeeps(s, ts[0], operand);
      FeedAllWellFormed(Feed(s, ts[0]), ts[1..], !operand);
    }
  }

  /** An infix sequence converts to a postfix expression. */
  lemma InfixToPostfix(ts: seq<Tok>)
    requires Infix(ts)
    ensures WellFormed(ToPostfix(ts))
  {
    FeedAllWellFormed(Shunt([], []), ts, true);
  }

  /** Every operand is a non-empty string of digits. */
  predicate DigitOperands(ts: seq<Tok>) {
    forall i :: 0 <= i < |ts| ==> ts[i].kind == Num ==> |ts[i].value| > 0 && AllDigits(ts[i].value)
  }

  /** Evaluation succeeds only on a sequence that fits the stack, leaving the height it
      predicts; on a sequence that fits, it fails only for arithmetic reasons: a division by
      zero, an overflow, or an operand that is not a number. */
  lemma {:induction false} EvalFits(ts: seq<Tok>, stack: seq<int>)
    requires forall i :: 0 <= i < |stack| ==> IsInt32(stack[i])
    decreases |ts|
    ensures Eval(ts, stack).Success? ==> Fits(ts, |stack|) && |Eval(ts, stack).value| == Height(ts, |stack|)
    ensures Eval(ts, stack).Success? ==> forall i :: 0 <= i < |Eval(ts, stack).value| ==> IsInt32(Eval(ts, stack).value[i])
    ensures Fits(ts, |stack|) && Eval(ts, stack).Failure? ==>
              Eval(ts, stack).error in {DivideByZero, Overflow, Format}
    ensures Fits(ts, |stack|) && DigitOperands(ts) && Eval(ts, stack).Failure? ==>
              Eval(ts, stack).error in {DivideByZero, Overflow}
  {
    if |ts| > 0 {
      var t := ts[0];
      assert DigitOperands(ts) ==> DigitOperands(ts[1..]) by {
        if DigitOperands(ts) {
          forall i | 0 <= i < |ts[1..]| && ts[1..][i].kind == Num
            ensures |ts[1..][i].value| > 0 && AllDigits(ts[1..][i].value)
          {
            assert ts[1..][i] == ts[i + 1];
          }
        }
      }
      if t.kind == Num {
        if ToInt32(t.value).Success? {
          EvalFits(ts[1..], stack + [ToInt32(t.value).value]);
        }
      } else if IsOperator(t.kind) && |stack| >= 2 {
        var m, n := stack[|stack| - 1], stack[|stack| - 2];
        if Apply(t.kind, n, m).Success? {
          EvalFits(ts[1..], stack[..|stack| - 2] + [Apply(t.kind, n, m).value]);
        }
      }
    }
  }

  /** On tokens whose operands are digit strings and which hold no white space, evaluation
      throws only on a pop from an empty stack, a division by zero or an overflow: never a
      format error and never a missing operator. */
  lemma {:induction false} EvalThrows(ts: seq<Tok>, stack: seq<int>)
    requires forall i :: 0 <= i < |stack| ==> IsInt32(stack[i])
    requires DigitOperands(ts) && forall i :: 0 <= i < |ts| ==> ts[i].kind != Sp
    decreases |ts|
    ensures Eval(ts, stack).Failure? ==> Eval(ts, stack).error in {InvalidOperation, DivideByZero, Overflow}
  {
    if |ts| > 0 {
      var t := ts[0];
      assert DigitOperands(ts[1..]) by {
        forall i | 0 <= i < |ts[1..]| && ts[1..][i].kind == Num
          ensures |ts[1..][i].value| > 0 && AllDigits(ts[1..][i].value)
        {
          assert ts[1..][i] == ts[i + 1];
        }
      }
      assert forall i :: 0 <= i < |ts[1..]| ==> ts[1..][i].kind != Sp by {
        forall i | 0 <= i < |ts[1..]| ensures ts[1..][i].kind != Sp {
          assert ts[1..][i] == ts[i + 1];
        }
      }
      if t.kind == Num {
        if ToInt32(t.value).Success? {
          EvalThrows(ts[1..], stack + [ToInt32(t.value).value]);
        }
      } else if |stack| >= 2 {
        assert IsOperator(t.kind);
        var m, n := stack[|stack| - 1], stack[|stack| - 2];
        if Apply(t.kind, n, m).Success? {
          EvalThrows(ts[1..], stack[..|stack| - 2] + [Apply(t.kind, n, m).value]);
        }
      }
    }
  }

  /** On a postfix expression, Calc pops the one value the stack is left with (the debug
      assertion holds), and only arithmetic can make it throw. */
  lemma WellFormedCalc(ts: seq<Tok>)
    requires WellFormed(ts)
    ensures Eval(ts, []).Success? ==> |Eval(ts, []).value| == 1
    ensures Calc(ts).Success? ==> IsInt32(Calc(ts).value)
    ensures Calc(ts).Failure? ==> Calc(ts).error in {DivideByZero, Overflow, Format}
    ensures DigitOperands(ts) && Calc(ts).Failure? ==> Calc(ts).error in {DivideByZero, Overflow}
  {
    EvalFits(ts, []);
  }
}
