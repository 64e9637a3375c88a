/** What the calculator computes, stated without a stack. Operators rank by their declaration
    order, and an expression's root is its leftmost operator of lowest rank: chains of equal
    or rising rank nest to the right (`a op b op c` is `a op (b op c)` when the two ranks are
    equal), and a lower-ranked operator closes the chain on its left and is applied last
    (`a * b / c` is `a * (b / c)`, `a / b * c` is `(a / b) * c`). Converting an infix
    sequence to postfix and evaluating it computes exactly this value, and throws exactly
    the exception met first in that order (left operand, right operand, then the operator). */
module Precedence {
  import opened Wrappers
  import opened Exceptions
  import opened Tokenization
  import opened Rpn

  // ---------------------------------------------------------------------------------------
  // Infix sequences and their root

  /** `n (op n)*`: operands at the even positions, operators of the table at the odd ones. */
  predicate InfixAt(ts: seq<Tok>) {
    && |ts| % 2 == 1
    && (forall j :: 0 <= j < |ts| ==> (ts[j].kind == Num <==> j % 2 == 0))
    && (forall j :: 0 <= j < |ts| ==> ts[j].kind == Num || IsOperator(ts[j].kind))
  }

  /** Every operator before `i` ranks strictly above the one at `i`, and none after it ranks
      strictly below: `i` is the leftmost operator of lowest rank. */
  predicate LowestAt(ts: seq<Tok>, i: nat)
    requires i < |ts|
  {
    && (forall k :: 0 <= k < i && ts[k].kind != Num ==> Below(ts[i].kind, ts[k].kind))
    && (forall k :: i < k < |ts| && ts[k].kind != Num ==> !Below(ts[k].kind, ts[i].kind))
  }

  /** The scan for the leftmost lowest operator: `best` is that operator among those before
      `j`, and the scan goes on over the operators from `j`. */
  function LowestFrom(ts: seq<Tok>, j: nat, best: nat): (i: nat)
    requires InfixAt(ts) && best % 2 == 1 && best < j <= |ts| && j % 2 == 1
    requires forall k :: 0 <= k < best && ts[k].kind != Num ==> Below(ts[best].kind, ts[k].kind)
    requires forall k :: best < k < j && ts[k].kind != Num ==> !Below(ts[k].kind, ts[best].kind)
    decreases |ts| - j
    ensures i % 2 == 1 && i < |ts| - 1 && LowestAt(ts, i)
  {
    if j == |ts| then best
    else if Below(ts[j].kind, ts[best].kind) then
      LowerBest(ts, j, best);
      LowestFrom(ts, j + 2, j)
    else LowestFrom(ts, j + 2, best)
  }

  /** An operator ranked strictly below the best so far is below every operator before it. */
  lemma LowerBest(ts: seq<Tok>, j: nat, best: nat)
    requires InfixAt(ts) && best < j < |ts| && j % 2 == 1
    requires forall k :: 0 <= k < best && ts[k].kind != Num ==> Below(ts[best].kind, ts[k].kind)
    requires forall k :: best < k < j && ts[k].kind != Num ==> !Below(ts[k].kind, ts[best].kind)
    requires Below(ts[j].kind, ts[best].kind)
    ensures forall k :: 0 <= k < j && ts[k].kind != Num ==> Below(ts[j].kind, ts[k].kind)
  {
    forall k | 0 <= k < j && ts[k].kind != Num
      ensures Below(ts[j].kind, ts[k].kind)
    {
      if k < best {
        assert Ordinal(ts[j].kind) < Ordinal(ts[best].kind) < Ordinal(ts[k].kind);
      }
    }
  }

  /** The root of an infix sequence with at least one operator. */
  function Root(ts: seq<Tok>): (i: nat)
    requires InfixAt(ts) && |ts| > 1
    ensures i % 2 == 1 && i < |ts| - 1 && LowestAt(ts, i)
  {
    LowestFrom(ts, 3, 1)
  }

  /** There is one leftmost operator of lowest rank. */
  lemma RootUnique(ts: seq<Tok>, i: nat)
    requires InfixAt(ts) && |ts| > 1 && i < |ts| && ts[i].kind != Num && LowestAt(ts, i)
    ensures Root(ts) == i
  {
    var r := Root(ts);
    var a, b := ts[r].kind, ts[i].kind;
    assert a != Num && b != Num;
    assert r < i ==> Below(b, a);
    assert r < i ==> !Below(b, a);
    assert i < r ==> Below(a, b);
    assert i < r ==> !Below(a, b);
  }

  /** Both sides of an operator of an infix sequence are infix. */
  lemma SplitInfix(ts: seq<Tok>, i: nat)
    requires InfixAt(ts) && i % 2 == 1 && i < |ts| - 1
    ensures InfixAt(ts[..i]) && InfixAt(ts[i + 1..])
  {
    var right := ts[i + 1..];
    forall j | 0 <= j < |right|
      ensures (right[j].kind == Num <==> j % 2 == 0)
    {
      assert right[j] == ts[i + 1 + j];
      assert (i + 1 + j) % 2 == j % 2;
    }
  }

  // ---------------------------------------------------------------------------------------
  // The reference value

  /** The value of an infix sequence: a lone operand is its number; otherwise the left side
      of the root, then its right side, then the root's operator. */
  function Nest(ts: seq<Tok>): (r: Result<int, Exception>)
    requires InfixAt(ts)
    decreases |ts|
    ensures r.Success? ==> IsInt32(r.value)
  {
    if |ts| == 1 then ToInt32(ts[0].value)
    else
      var i := Root(ts);
      SplitInfix(ts, i);
      var left :- Nest(ts[..i]);
      var right :- Nest(ts[i + 1..]);
      Apply(ts[i].kind, left, right)
  }

  /** Nest at a given operator known to be the root. */
  lemma NestAt(ts: seq<Tok>, i: nat)
    requires InfixAt(ts) && i % 2 == 1 && i < |ts| - 1 && LowestAt(ts, i)
    ensures InfixAt(ts[..i]) && InfixAt(ts[i + 1..])
    ensures Nest(ts) == match Nest(ts[..i])
                        case Failure(e) => Failure(e)
                        case Success(left) =>
                          match Nest(ts[i + 1..])
                          case Failure(e) => Failure(e)
                          case Success(right) => Apply(ts[i].kind, left, right)
  {
    RootUnique(ts, i);
    SplitInfix(ts, i);
  }

  /** Nest built up from its parts: an operator that ranks strictly below every operator on
      its left and at or below every operator on its right joins the two sides, and Nest of
      the whole applies it to the sides' values. */
  lemma NestJoin(left: seq<Tok>, op: Tok, right: seq<Tok>, l: int, r: int)
    requires InfixAt(left) && InfixAt(right) && IsOperator(op.kind)
    requires forall k :: 0 <= k < |left| && left[k].kind != Num ==> Below(op.kind, left[k].kind)
    requires forall k :: 0 <= k < |right| && right[k].kind != Num ==> !Below(right[k].kind, op.kind)
    requires Nest(left) == Success(l) && Nest(right) == Success(r)
    ensures IsInt32(l) && IsInt32(r)
    ensures InfixAt(left + [op] + right) && Nest(left + [op] + right) == Apply(op.kind, l, r)
  {
    var ts := left + [op] + right;
    var i := |left|;
    JoinInfix(left, op, right);
    JoinLowest(left, op, right);
    assert ts[..i] == left && ts[i + 1..] == right;
    NestAt(ts, i);
  }

  lemma JoinInfix(left: seq<Tok>, op: Tok, right: seq<Tok>)
    requires InfixAt(left) && InfixAt(right) && IsOperator(op.kind)
    ensures InfixAt(left + [op] + right)
  {
    var ts := left + [op] + right;
    var i := |left|;
    forall j | i < j < |ts|
      ensures (ts[j].kind == Num <==> j % 2 == 0)
      ensures ts[j].kind == Num || IsOperator(ts[j].kind)
    {
      assert ts[j] == right[j - i - 1];
      ShiftParity(i, j);
    }
    forall j | 0 <= j < i
      ensures ts[j] == left[j]
    {
    }
  }

  /** Past an odd offset, a position and its distance from the offset's successor have the
      same parity. */
  lemma ShiftParity(i: nat, j: nat)
    requires i % 2 == 1 && i < j
    ensures (j - i - 1) % 2 == j % 2
  {
  }

  lemma JoinLowest(left: seq<Tok>, op: Tok, right: seq<Tok>)
    requires forall k :: 0 <= k < |left| && left[k].kind != Num ==> Below(op.kind, left[k].kind)
    requires forall k :: 0 <= k < |right| && right[k].kind != Num ==> !Below(right[k].kind, op.kind)
    ensures |left| < |left + [op] + right| && LowestAt(left + [op] + right, |left|)
  {
    var ts := left + [op] + right;
    var i := |left|;
    forall k | 0 <= k < |ts| && ts[k].kind != Num
      ensures k < i ==> Below(ts[i].kind, ts[k].kind)
      ensures i < k ==> !Below(ts[k].kind, ts[i].kind)
    {
      if k < i {
        assert ts[k] == left[k];
      } else if i < k {
        assert ts[k] == right[k - i - 1];
      }
    }
  }

  /** A lone operand is infix, and its Nest is its number. */
  lemma NestOperand(t: Tok)
    requires t.kind == Num
    ensures InfixAt([t]) && Nest([t]) == ToInt32(t.value)
  {
  }

  // ---------------------------------------------------------------------------------------
  // The conversion splits at the root

  /** Feeding `a + b` is feeding `a`, then `b`. */
  lemma {:induction false} FeedAllAppend(s: Shunt, a: seq<Tok>, b: seq<Tok>)
    decreases |a|
    ensures FeedAll(s, a + b) == FeedAll(FeedAll(s, a), b)
  {
    if |a| == 0 {
      assert a + b == b;
    } else {
      assert (a + b)[0] == a[0] && (a + b)[1..] == a[1..] + b;
      FeedAllAppend(Feed(s, a[0]), a[1..], b);
    }
  }

  /** What is already in the output plays no part in Feed. */
  lemma FeedShift(o: seq<Tok>, s: Shunt, t: Tok)
    ensures Feed(Shunt(o + s.output, s.stack), t) == Shunt(o + Feed(s, t).output, Feed(s, t).stack)
  {
    if t.kind == Num {
      assert (o + s.output) + [t] == o + (s.output + [t]);
    } else if |s.stack| > 0 && !Below(s.stack[|s.stack| - 1].kind, t.kind) {
      var popped := Reverse(s.stack[|s.stack| - Tighter(s.stack, t)..]);
      assert (o + s.output) + popped == o + (s.output + popped);
    }
  }

  lemma {:induction false} FeedAllShift(o: seq<Tok>, s: Shunt, ts: seq<Tok>)
    decreases |ts|
    ensures FeedAll(Shunt(o + s.output, s.stack), ts) == Shunt(o + FeedAll(s, ts).output, FeedAll(s, ts).stack)
  {
    if |ts| > 0 {
      FeedShift(o, s, ts[0]);
      FeedAllShift(o, Feed(s, ts[0]), ts[1..]);
    }
  }

  /** Below an operator `b` that the incoming one does not outrank, the pop loop stops at
      `b` as it would at the bottom of the stack. */
  lemma {:induction false} TighterFloor(b: Tok, stack: seq<Tok>, t: Tok)
    requires !Below(t.kind, b.kind)
    decreases |stack|
    ensures Tighter([b] + stack, t) == Tighter(stack, t)
  {
    var full := [b] + stack;
    if |stack| == 0 {
      assert full == [b];
    } else {
      assert full[|full| - 1] == stack[|stack| - 1];
      assert full[..|full| - 1] == [b] + stack[..|stack| - 1];
      TighterFloor(b, stack[..|stack| - 1], t);
    }
  }

  /** With `b` at the bottom of the stack, a token that does not rank below `b` is fed as
      if `b` were absent, and `b` stays at the bottom. */
  lemma FeedFloor(b: Tok, s: Shunt, t: Tok)
    requires t.kind == Num || !Below(t.kind, b.kind)
    ensures Feed(Shunt(s.output, [b] + s.stack), t) == Shunt(Feed(s, t).output, [b] + Feed(s, t).stack)
  {
    if t.kind != Num {
      if |s.stack| == 0 {
        assert [b] + s.stack == [b];
        TighterFloor(b, s.stack, t);
        assert [b][1..] == [] && [b][..1] == [b];
      } else if Below(s.stack[|s.stack| - 1].kind, t.kind) {
        assert ([b] + s.stack) + [t] == [b] + (s.stack + [t]);
      } else {
        PopFloor(b, s, t);
      }
    }
  }

  /** The popping case of FeedFloor. */
  lemma PopFloor(b: Tok, s: Shunt, t: Tok)
    requires t.kind != Num && !Below(t.kind, b.kind)
    requires |s.stack| > 0 && !Below(s.stack[|s.stack| - 1].kind, t.kind)
    ensures Feed(Shunt(s.output, [b] + s.stack), t) == Shunt(Feed(s, t).output, [b] + Feed(s, t).stack)
  {
    var full := [b] + s.stack;
    TighterFloor(b, s.stack, t);
    var n := Tighter(s.stack, t);
    assert full[|full| - 1] == s.stack[|s.stack| - 1];
    assert full[|full| - n..] == s.stack[|s.stack| - n..];
    assert full[..|full| - n] + [t] == [b] + (s.stack[..|s.stack| - n] + [t]);
  }

  lemma {:induction false} FeedAllFloor(b: Tok, s: Shunt, ts: seq<Tok>)
    requires forall k :: 0 <= k < |ts| ==> ts[k].kind == Num || !Below(ts[k].kind, b.kind)
    decreases |ts|
    ensures FeedAll(Shunt(s.output, [b] + s.stack), ts) == Shunt(FeedAll(s, ts).output, [b] + FeedAll(s, ts).stack)
  {
    if |ts| > 0 {
      FeedFloor(b, s, ts[0]);
      FeedAllFloor(b, Feed(s, ts[0]), ts[1..]);
    }
  }

  /** An operator that every stacked operator outranks empties the stack onto the output,
      exactly as the final flush would, and is left alone on the stack. */
  lemma PopAll(s: Shunt, t: Tok)
    requires t.kind != Num
    requires forall k :: 0 <= k < |s.stack| ==> Below(t.kind, s.stack[k].kind)
    ensures Feed(s, t) == Shunt(Flush(s), [t])
  {
    if |s.stack| > 0 {
      var n := Tighter(s.stack, t);
      assert n == |s.stack|;
      assert s.stack[0..] == s.stack && s.stack[..0] == [];
    }
  }

  /** After the left side of the root, the stack holds only operators of that side, and the
      root ranks strictly below each of them. */
  lemma LeftStack(left: seq<Tok>, t: Tok)
    requires forall k :: 0 <= k < |left| && left[k].kind != Num ==> Below(t.kind, left[k].kind)
    ensures var stack := FeedAll(Shunt([], []), left).stack;
            forall k :: 0 <= k < |stack| ==> Below(t.kind, stack[k].kind)
  {
    var r := FeedAll(Shunt([], []), left);
    FeedAllConserves(Shunt([], []), left);
    FeedAllOrdered(Shunt([], []), left);
    forall k | 0 <= k < |r.stack|
      ensures Below(t.kind, r.stack[k].kind)
    {
      assert multiset(r.output) + multiset(r.stack) == multiset(left);
      assert r.stack[k] in multiset(r.stack);
      assert r.stack[k] in multiset(left);
      var j :| 0 <= j < |left| && left[j] == r.stack[k];
    }
  }

  lemma ReverseCons(b: Tok, s: seq<Tok>)
    ensures Reverse([b] + s) == Reverse(s) + [b]
  {
    var full := [b] + s;
    forall k | 0 <= k < |s|
      ensures Reverse(full)[k] == Reverse(s)[k]
    {
      assert full[|full| - 1 - k] == s[|s| - 1 - k];
    }
  }

  /** Feeding the root's left side and then the root leaves the left side's postfix form in
      the output and the root alone on the stack. */
  lemma LeftOfRoot(ts: seq<Tok>, i: nat)
    requires InfixAt(ts) && i % 2 == 1 && i < |ts| - 1 && LowestAt(ts, i)
    ensures FeedAll(Shunt([], []), ts[..i] + [ts[i]]) == Shunt(ToPostfix(ts[..i]), [ts[i]])
  {
    var left, op := ts[..i], ts[i];
    var empty := Shunt([], []);
    FeedAllAppend(empty, left, [op]);
    var sl := FeedAll(empty, left);
    forall k | 0 <= k < |left| && left[k].kind != Num
      ensures Below(op.kind, left[k].kind)
    {
      assert left[k] == ts[k];
    }
    LeftStack(left, op);
    PopAll(sl, op);
    assert [op][1..] == [];
  }

  /** Feeding the root's right side over the root: the root stays at the bottom of the stack,
      and the rest goes as it would with nothing stacked and nothing yielded yet. */
  lemma RightOverRoot(p: seq<Tok>, op: Tok, right: seq<Tok>)
    requires forall k :: 0 <= k < |right| ==> right[k].kind == Num || !Below(right[k].kind, op.kind)
    ensures var y := FeedAll(Shunt([], []), right);
            FeedAll(Shunt(p, [op]), right) == Shunt(p + y.output, [op] + y.stack)
  {
    var empty := Shunt([], []);
    FeedAllShift(p, empty, right);
    assert p + empty.output == p;
    FeedAllFloor(op, Shunt(p, []), right);
    assert [op] + [] == [op];
  }

  lemma FlushOverRoot(p: seq<Tok>, y: Shunt, op: Tok)
    ensures Flush(Shunt(p + y.output, [op] + y.stack)) == p + Flush(y) + [op]
  {
    ReverseCons(op, y.stack);
    assert (p + y.output) + (Reverse(y.stack) + [op]) == p + (y.output + Reverse(y.stack)) + [op];
  }

  /** Flushed, that is the right side's postfix form followed by the root. */
  lemma RightOfRoot(p: seq<Tok>, op: Tok, right: seq<Tok>)
    requires forall k :: 0 <= k < |right| ==> right[k].kind == Num || !Below(right[k].kind, op.kind)
    ensures Flush(FeedAll(Shunt(p, [op]), right)) == p + ToPostfix(right) + [op]
  {
    var y := FeedAll(Shunt([], []), right);
    RightOverRoot(p, op, right);
    FlushOverRoot(p, y, op);
  }

  /** The postfix form of an infix sequence with an operator is the postfix form of the
      root's left side, then of its right side, then the root. */
  lemma Decompose(ts: seq<Tok>)
    requires InfixAt(ts) && |ts| > 1
    ensures var i := Root(ts);
            ToPostfix(ts) == ToPostfix(ts[..i]) + ToPostfix(ts[i + 1..]) + [ts[i]]
  {
    var i := Root(ts);
    var left, op, right := ts[..i], ts[i], ts[i + 1..];
    assert ts == (left + [op]) + right;
    FeedAllAppend(Shunt([], []), left + [op], right);
    LeftOfRoot(ts, i);
    forall k | 0 <= k < |right|
      ensures right[k].kind == Num || !Below(right[k].kind, op.kind)
    {
      assert right[k] == ts[i + 1 + k];
    }
    RightOfRoot(ToPostfix(left), op, right);
  }

  // ---------------------------------------------------------------------------------------
  // Evaluation of the split

  /** Evaluating `a + b` is evaluating `a`, then `b` on the stack it leaves; a failure in `a`
      ends it. */
  lemma {:induction false} EvalAppend(a: seq<Tok>, b: seq<Tok>, stack: seq<int>)
    requires forall k :: 0 <= k < |stack| ==> IsInt32(stack[k])
    decreases |a|
    ensures Eval(a, stack).Failure? ==> Eval(a + b, stack) == Eval(a, stack)
    ensures Eval(a, stack).Success? ==>
              && (forall k :: 0 <= k < |Eval(a, stack).value| ==> IsInt32(Eval(a, stack).value[k]))
              && Eval(a + b, stack) == Eval(b, Eval(a, stack).value)
  {
    if |a| == 0 {
      assert a + b == b;
    } else {
      var t := a[0];
      assert (a + b)[0] == t && (a + b)[1..] == a[1..] + b;
      if t.kind == Num {
        if ToInt32(t.value).Success? {
          EvalAppend(a[1..], b, stack + [ToInt32(t.value).value]);
        }
      } else if IsOperator(t.kind) && |stack| >= 2 {
        var m, n := stack[|stack| - 1], stack[|stack| - 2];
        if Apply(t.kind, n, m).Success? {
          EvalAppend(a[1..], b, stack[..|stack| - 2] + [Apply(t.kind, n, m).value]);
        }
      }
    }
  }

  /** A lone operand converts to itself. */
  lemma PostfixOfOperand(ts: seq<Tok>)
    requires |ts| == 1 && ts[0].kind == Num
    ensures ToPostfix(ts) == ts
  {
    assert ts[1..] == [];
    assert FeedAll(Shunt([], []), ts) == FeedAll(Shunt(ts, []), []) == Shunt(ts, []);
    assert Reverse([]) == [];
  }

  /** Converting an infix sequence and evaluating it on any stack pushes its Nest value, or
      throws the exception Nest meets. */
  lemma {:induction false} EvaluatesNest(ts: seq<Tok>, stack: seq<int>)
    requires InfixAt(ts) && forall k :: 0 <= k < |stack| ==> IsInt32(stack[k])
    decreases |ts|
    ensures Nest(ts).Success? ==> Eval(ToPostfix(ts), stack) == Success(stack + [Nest(ts).value])
    ensures Nest(ts).Failure? ==> Eval(ToPostfix(ts), stack) == Failure(Nest(ts).error)
  {
    if |ts| == 1 {
      PostfixOfOperand(ts);
      assert ts[1..] == [];
    } else {
      var i := Root(ts);
      var left, op, right := ts[..i], ts[i], ts[i + 1..];
      SplitInfix(ts, i);
      Decompose(ts);
      var pl, pr := ToPostfix(left), ToPostfix(right);
      assert pl + pr + [op] == pl + (pr + [op]);
      EvalAppend(pl, pr + [op], stack);
      EvaluatesNest(left, stack);
      if Nest(left).Success? {
        var l := Nest(left).value;
        EvalAppend(pr, [op], stack + [l]);
        EvaluatesNest(right, stack + [l]);
        if Nest(right).Success? {
          var r := Nest(right).value;
          ApplyOnTop(op, stack, l, r);
        }
      }
    }
  }

  /** An operator on `stack + [l, r]` replaces the two values by `l op r`. */
  lemma ApplyOnTop(op: Tok, stack: seq<int>, l: int, r: int)
    requires IsOperator(op.kind) && IsInt32(l) && IsInt32(r)
    requires forall k :: 0 <= k < |stack| ==> IsInt32(stack[k])
    ensures var full := stack + [l] + [r];
            && (forall k :: 0 <= k < |full| ==> IsInt32(full[k]))
            && Eval([op], full) == match Apply(op.kind, l, r)
                                   case Failure(e) => Failure(e)
                                   case Success(v) => Success(stack + [v])
  {
    var full := stack + [l] + [r];
    assert full[..|full| - 2] == stack;
    assert [op][1..] == [];
  }

  /** On infix input, the calculator's conversion and evaluation compute Nest. */
  lemma PostfixCalcIsNest(ts: seq<Tok>)
    requires InfixAt(ts)
    ensures Rpn.Calc(ToPostfix(ts)) == Nest(ts)
  {
    EvaluatesNest(ts, []);
  }
}
