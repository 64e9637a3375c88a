# Ordered-definition tokenizer and RPN calculator, in Dafny

This project models two components of the `mik14a/Bits` repository:

- `System.Text.Tokenization`: a lexer driven by an ordered array of token definitions (a type tag plus a regular expression), and the fluent factory that builds that array.
- `System.Scripting.Calculator`: an integer calculator that tokenizes an expression with a fixed six-definition grammar, converts it to Reverse Polish Notation, and evaluates the result on a stack.

Modules and files:

| module | file | what it holds |
|---|---|---|
| `Wrappers` | wrappers.dfy | `Option` (a nullable reference) and `Result` (return or throw) |
| `Exceptions` | exceptions.dfy | the .NET exceptions the code raises, as one datatype |
| `Tokenization` | tokenization.dfy | token definitions, `Match`, tokens, one scan step (`FirstMatch`), and the whole scan (`ScanFrom`) with its characterisation `IsScanOf` |
| `TokenizerEnumerator` | enumerator.dfy | the `Tokenizer<T>` enumerator as a state machine (`MoveNext`, `Reset`, `Dispose`) and `Drain`, the sequence a `foreach` sees |
| `Factory` | factory.dfy | `TokenizerFactory<T>`: the keyed, ordered collection, `With` and `Tokenize` |
| `Patterns` | patterns.dfy | concrete matchers for the patterns the repository uses: `[1-9][0-9]*`, the one-character classes, `\s+` and `\w+` |
| `Rpn` | rpn.dfy | `TokenType` and its ordering, the grammar, `Parse` (the shunting conversion), the operator table, `Convert.ToInt32`, and `Calc` |
| `PostfixForm` | postfix.dfy | the stack discipline of postfix sequences: infix input converts to postfix that evaluates without an empty pop, leaving one value |
| `Precedence` | precedence.dfy | what the calculator computes, stated without a stack: `Nest` splits an infix sequence at its leftmost operator of lowest rank, and the conversion followed by evaluation computes exactly `Nest` |
| `GrammarScan` | grammar_scan.dfy | the grammar's scan stated without regular expressions (`Lex`); `Parse` is the conversion of `Lex`'s tokens |
| `Calculator` | calculator.dfy | `Calculator.Calc`, and the lexing of expressions written with single spaces between one-character operands and operators |
| `CalculatorExamples` | calculator_examples.dfy | the calculator's test expressions, and expressions that show how operators of equal, rising and falling rank nest, each worked out through `Nest` |
| `Sentences` | sentences.dfy | the word/space tokenizer on a sentence: the word tokens are the words split on `" "` |

How the source's behaviour is represented:

- **Null and exceptions.** A null argument is `None`. A thrown exception is a `Failure` carrying the `Exception` the code raises.
- **Regular expressions.** The engine is a search function `(input, startat) -> Option<Hit>`. It must satisfy the contract every engine keeps: a hit never begins before `startat`, and its value is the text found there. `Match`'s anchoring test (`match.Index == startat`) is modelled exactly.
- **Tokenizer state.** The enumerator's mutable fields become the fields of an immutable `Tokenizer` value, and each method returns the next value.
- **32-bit integers.** `Convert.ToInt32` rejects numbers above `int.MaxValue` with `Overflow`. Addition, subtraction and multiplication wrap modulo 2^32 (`Rpn.Wrap`), as unchecked C# arithmetic does. Division truncates toward zero (`Rpn.Quotient`). `int.MinValue / -1` raises `Overflow`, and a zero divisor raises `DivideByZero`.
- **Operator ranks.** Precedence is the enum's declaration order `Num < Add < Sub < Mul < Div < Sp`. Both comparisons in `Parse` are strict, so an operator of the same rank as the stack top is pushed, not popped. Chains of equal or rising rank therefore nest to the right: `"8 / 4 / 2"` is `8 / (4 / 2)` = 4, and `"9 - 5 - 1"` is 5, so chains of operators of equal rank are not evaluated left to right. An operator of lower rank than the stack top pops it first, so it closes the chain on its left: `"8 / 2 * 2"` is `(8 / 2) * 2` = 8. In general, an expression's root is its leftmost operator of lowest rank: `Precedence.PostfixCalcIsNest` proves that conversion followed by evaluation computes that nesting, and `CalculatorExamples` works out the values above.
- **Empty matches.** A pattern can match the empty string at the cursor. `Match` then returns `""`, which is not null. The `Token` constructor rejects it with an `ArgumentException`, so the enumeration throws. In the model the scan ends with `Threw(Argument("value"))`.
- **End of input.** `MoveNext` has no end-of-input test. At the end of the text the tokenizer goes dead (`index = -1`) when no definition matches there, and throws when some definition matches the empty string there, as described above.
- **Reset.** `Reset` sets the cursor back to 0. That revives a dead tokenizer, so it enumerates the text again from the start, but not a disposed one.

## Model

| member | source | states |
|---|---|---|
| Tokenization.NewTokenDefinition | Source/System.Text.Tokenization.Tokenizer.cs:81-88 | a null type fails first, then a null pattern, each with ArgumentNullException naming it; otherwise the definition keeps the type and the pattern |
| Tokenization.Match | Source/System.Text.Tokenization.Tokenizer.cs:96-102 | a value only when the engine's hit begins exactly at `startat`; the value is then the hit's text, which is the slice of the input at `startat` |
| Tokenization.NewToken | Source/System.Text.Tokenization.Tokenizer.cs:210-216 | succeeds exactly when the value is non-empty, keeping index, type and value; otherwise ArgumentException on `value` |
| Tokenization.FirstMatch | Source/System.Text.Tokenization.Tokenizer.cs:159-166 | a winner names a definition index and carries that definition's type, and its value is the text at the cursor |
| Tokenization.FirstMatchWins | Source/System.Text.Tokenization.Tokenizer.cs:159-166 | the winner's definition matches with the winner's value, and every earlier definition in array order does not match |
| Tokenization.FirstMatchFromIs | Source/System.Text.Tokenization.Tokenizer.cs:159-166 | if definitions before `j` fail and definition `j` matches, then `j` wins with its value, whatever later definitions would match |
| Tokenization.FirstMatchNone | Source/System.Text.Tokenization.Tokenizer.cs:159-168 | no winner exactly when no definition matches at the cursor |
| Tokenization.ScanFrom | Source/System.Text.Tokenization.Tokenizer.cs:154-169 | every token moves the cursor forward, so a scan yields at most one token per remaining character; it stops within the text, or throws only the ArgumentException of an empty match. ScanFromIsScan and ScanUnique state which tokens it yields, ScanFromStep and ScanFromNone each step |
| Tokenization.ScanFromIsScan | Source/System.Text.Tokenization.Tokenizer.cs:154-169 | the scan's tokens are contiguous from the cursor; each is the first-match winner at its index; their values concatenate to the text there; the scan stops where nothing matches, or throws where the winner is empty |
| Tokenization.ScanUnique | Source/System.Text.Tokenization.Tokenizer.cs:154-169 | any sequence of tokens and ending with those properties is the scan, so the scan is fully characterised by them |
| Tokenization.ScanFromStep | Source/System.Text.Tokenization.Tokenizer.cs:159-165 | a non-empty winner becomes a token at the cursor, and the scan continues from the cursor advanced by the value's length |
| Tokenization.ScanFromNone | Source/System.Text.Tokenization.Tokenizer.cs:167-168 | when no definition matches, the scan emits nothing more and stops at the cursor |
| Tokenization.TokensPrecedeStop | Source/System.Text.Tokenization.Tokenizer.cs:159-168 | every token of a scan that stops ends at or before the stopping point, so text after it is never tokenized |
| Tokenization.ValuesPrefix | Source/System.Text.Tokenization.Tokenizer.cs:162-163 | in contiguous tokens, the i-th begins where the values of those before it end, and ends within the values of all of them |
| Tokenization.NoTokensAtEnd | Source/System.Text.Tokenization.Tokenizer.cs:159-168 | a scan from the end of the text emits no token |
| TokenizerEnumerator.NewTokenizer | Source/System.Text.Tokenization.Tokenizer.cs:120-127 | null or empty definitions fail with ArgumentException; otherwise a null text fails with ArgumentNullException; otherwise a live tokenizer at index 0 with no current token |
| TokenizerEnumerator.MoveNext | Source/System.Text.Tokenization.Tokenizer.cs:154-169 | a finished tokenizer returns false and stays the same; advancing emits the first-match winner at the cursor and moves the cursor by its length; no match returns false and sets index -1; an empty winner throws |
| TokenizerEnumerator.Reset | Source/System.Text.Tokenization.Tokenizer.cs:175-178 | index 0 and no current token, with definitions and text kept |
| TokenizerEnumerator.Dispose | Source/System.Text.Tokenization.Tokenizer.cs:140-145 | definitions, text and the current token are dropped and the index is -1, so the tokenizer is finished whatever its state before |
| TokenizerEnumerator.Drain | Source/System.Text.Tokenization.Tokenizer.cs:154-169 | a finished tokenizer yields nothing and ends without an exception, and the only exception enumeration can end with is the ArgumentException of an empty match. DrainIsScan states what it yields (the scan from the cursor), DrainStep one step |
| TokenizerEnumerator.DrainStep | Source/System.Text.Tokenization.Tokenizer.cs:159-165 | one successful MoveNext puts its token in front of what the rest of the enumeration yields |
| TokenizerEnumerator.DrainIsScan | Source/System.Text.Tokenization.Tokenizer.cs:154-169 | enumerating until MoveNext returns false (or throws) yields exactly the scan from the cursor, and throws exactly when the scan throws |
| TokenizerEnumerator.FreshTokenizerScans | Source/System.Text.Tokenization.Tokenizer.cs:57-58 | the static `Tokenize` over non-empty definitions builds a tokenizer, and enumerating it yields the scan of the whole text |
| TokenizerEnumerator.StaysFinished | Source/System.Text.Tokenization.Tokenizer.cs:155-168 | after MoveNext returns false, every later MoveNext returns false and nothing more is yielded |
| TokenizerEnumerator.DisposedYieldsNothing | Source/System.Text.Tokenization.Tokenizer.cs:140-156 | after Dispose, MoveNext returns false and nothing is yielded, even after Reset |
| TokenizerEnumerator.ResetRestarts | Source/System.Text.Tokenization.Tokenizer.cs:175-178 | after Reset, enumeration yields the scan of the text from its start, even on a tokenizer that had gone dead |
| Factory.HasKey | Source/System.Text.Tokenization.TokenizerFactory.cs:87-92 | a type is present exactly when some definition in the collection has it as its key |
| Factory.NewFactory | Source/System.Text.Tokenization.TokenizerFactory.cs:46-49 | a new factory has an empty collection, which is trivially keyed |
| Factory.With | Source/System.Text.Tokenization.TokenizerFactory.cs:57-72 | a null pattern fails first, then a null type; a type already present fails with the duplicate-key error; otherwise exactly one definition is appended after the existing ones, and the collection stays keyed |
| Factory.Tokenize | Source/System.Text.Tokenization.TokenizerFactory.cs:79-83 | a null text fails with ArgumentNullException; an empty collection fails as the tokenizer constructor does; otherwise a live tokenizer over the definitions in insertion order |
| Factory.TokenizeScansInOrder | Source/System.Text.Tokenization.TokenizerFactory.cs:79-83 | enumerating the tokenizer a factory returns yields the scan over the definitions in insertion order |
| Factory.SnapshotIsolated | Source/System.Text.Tokenization.TokenizerFactory.cs:67-83 | a tokenizer returned before a later With still holds, and scans with, the definitions it was given; the later factory keeps them as a prefix (by construction here, since values cannot alias) |
| Patterns.Search | Source/System.Scripting.Calculator.cs:76-81 | the grammar's patterns find the leftmost position where the pattern matches, with no match between the start and that position, or report that there is none |
| Patterns.AnchoredSearch | Source/System.Text.Tokenization.Tokenizer.cs:99-101 | for these patterns, Match succeeds exactly when the pattern matches at the cursor, and its value is the longest run matched there |
| Rpn.Definitions | Source/System.Scripting.Calculator.cs:74-81 | the grammar's definitions are, position by position, the type and pattern of each With call |
| Rpn.GrammarBuilds | Source/System.Scripting.Calculator.cs:74-81 | the six chained With calls all succeed, in the order Num, Add, Sub, Mul, Div, Sp; the j-th definition's type has ordinal j |
| Rpn.WithoutSpacesKeeps | Source/System.Scripting.Calculator.cs:53 | the filter removes every Sp token and keeps every other token, with its multiplicity |
| Rpn.WithoutSpaces | Source/System.Scripting.Calculator.cs:53 | the filter never lengthens the sequence. WithoutSpacesKeeps states that it drops exactly the Sp tokens and keeps every other one as often as it occurs, WithoutSpacesAppend that it keeps their order |
| Rpn.WithoutSpacesAppend | Source/System.Scripting.Calculator.cs:53 | filtering `a + b` is filtering `a` followed by filtering `b`, so the filter keeps the order of the tokens it keeps |
| Rpn.Tighter | Source/System.Scripting.Calculator.cs:62-64 | the popped run is exactly the stack's top operators that rank strictly above the incoming one |
| Rpn.Feed | Source/System.Scripting.Calculator.cs:54-66 | one pass of the loop body. Its contract is stated by FeedPops (a number goes to the output; an operator pops the strictly higher-ranked run on top of the stack, top first, and is then pushed), FeedConserves, FeedOrdered and FeedOperands |
| Rpn.FeedPops | Source/System.Scripting.Calculator.cs:54-66 | a number goes to the output; an operator pops the strictly higher-ranked top of the stack to the output, top first, and is then pushed |
| Rpn.FeedOrdered | Source/System.Scripting.Calculator.cs:57-66 | each step keeps the operator stack free of numbers and non-decreasing in rank from bottom to top |
| Rpn.FeedAllOrdered | Source/System.Scripting.Calculator.cs:54-67 | the operator stack stays ordered throughout the conversion |
| Rpn.FeedConserves | Source/System.Scripting.Calculator.cs:54-66 | each step conserves the tokens: output and stack together gain exactly the incoming token |
| Rpn.FeedAllConserves | Source/System.Scripting.Calculator.cs:54-67 | over the whole loop, output and stack together hold exactly the input tokens |
| Rpn.FeedAllOperands | Source/System.Scripting.Calculator.cs:54-67 | the numbers reach the output immediately, in input order |
| Rpn.FeedAll | Source/System.Scripting.Calculator.cs:54-67 | output and stack together grow by exactly the number of tokens fed. FeedAllConserves, FeedAllOrdered and FeedAllOperands state which tokens, and in which order |
| Rpn.Flush | Source/System.Scripting.Calculator.cs:68-70 | the final loop puts the whole stack behind the output: the output so far is kept as a prefix, nothing is lost, and the bottom of the stack comes out last |
| Rpn.FlushPermutes | Source/System.Scripting.Calculator.cs:68-70 | flushing a stack that holds no number moves tokens only, and adds no number to the output |
| Rpn.ToPostfix | Source/System.Scripting.Calculator.cs:54-70 | the conversion yields as many tokens as it reads. ToPostfixPermutes states that they are the same tokens with the numbers in input order, Precedence.Decompose where the operators go |
| Rpn.ToPostfixPermutes | Source/System.Scripting.Calculator.cs:54-70 | the conversion's output is a permutation of its input, and its numbers are the input's numbers in input order |
| Rpn.PostfixKeeps | Source/System.Scripting.Calculator.cs:54-70 | every token the conversion yields is a token of its input |
| Rpn.Parse | Source/System.Scripting.Calculator.cs:51-71 | a successful parse emits no white-space token. GrammarScan.ParseIsLex states that Parse never fails and which tokens it converts, GrammarScan.ParseShape that it emits each of them once, numbers in input order |
| Rpn.ToInt32 | Source/System.Scripting.Calculator.cs:42 | a string of digits within the 32-bit range converts to its decimal value; an empty string or a non-digit is a format error; a value above int.MaxValue is an overflow |
| Rpn.Wrap | Source/System.Scripting.Calculator.cs:86-88 | the result is a 32-bit integer congruent to the exact value modulo 2^32 |
| Rpn.QuotientSpec | Source/System.Scripting.Calculator.cs:89 | division truncates toward zero: the remainder is smaller than the divisor in magnitude and has the sign of the dividend, and the quotient is no larger than the exact one in magnitude |
| Rpn.Apply | Source/System.Scripting.Calculator.cs:44-90 | applies `n op m` with m the top of the stack, wrapping add, subtract and multiply; division fails on a zero divisor or on int.MinValue / -1, and otherwise truncates |
| Rpn.Eval | Source/System.Scripting.Calculator.cs:40-46 | each token pushes at most one value, so the final stack is at most as tall as the initial stack plus the number of tokens. EvalInt32, PostfixForm.EvalFits, PostfixForm.EvalThrows and Precedence.EvalAppend state its values and exceptions |
| Rpn.EvalInt32 | Source/System.Scripting.Calculator.cs:40-46 | every value on the final stack is a 32-bit integer |
| Rpn.Calc | Source/System.Scripting.Calculator.cs:38-49 | an exception from the loop propagates; otherwise the result is the last value left on the stack, its top, or 0 when the stack is empty, and it is a 32-bit integer |
| PostfixForm.InfixToPostfix | Source/System.Scripting.Calculator.cs:51-70 | input of the form `Num (op Num)*` converts to a sequence that never pops an empty stack and leaves exactly one value |
| PostfixForm.FeedKeeps | Source/System.Scripting.Calculator.cs:54-66 | on alternating input, each step keeps the output a postfix prefix whose value count is one more than the stacked operators |
| PostfixForm.EvalFits | Source/System.Scripting.Calculator.cs:38-46 | evaluation succeeds only on a sequence that keeps the stack discipline, leaving 32-bit values; on such a sequence it fails only through division by zero, overflow or a malformed number |
| PostfixForm.EvalThrows | Source/System.Scripting.Calculator.cs:40-46 | on tokens whose numbers are digit strings and which hold no white space, evaluation throws only InvalidOperationException (a pop from an empty stack), DivideByZeroException or OverflowException |
| PostfixForm.WellFormedCalc | Source/System.Scripting.Calculator.cs:38-48 | on postfix input, the Debug.Assert condition holds, a success is a 32-bit value, and with digit operands only division by zero or overflow can fail |
| Precedence.Root | Source/System.Scripting.Calculator.cs:59-65 | the operator an infix sequence splits at: every operator before it ranks strictly higher and none after it ranks lower, so equal ranks split at the leftmost |
| Precedence.PopAll | Source/System.Scripting.Calculator.cs:61-65 | an operator ranked below every stacked operator pops the whole stack to the output, top first, exactly as the final loop would, and is left alone on the stack |
| Precedence.FeedAllFloor | Source/System.Scripting.Calculator.cs:54-66 | an operator at the bottom of the stack that no later operator ranks below stays there, and the loop runs above it as on an empty stack |
| Precedence.FeedAllAppend | Source/System.Scripting.Calculator.cs:54-67 | the conversion loop over `a + b` is the loop over `a`, continued over `b` |
| Precedence.Decompose | Source/System.Scripting.Calculator.cs:51-71 | the postfix form of an infix sequence is the postfix form of the root's left side, then of its right side, then the root |
| Precedence.EvalAppend | Source/System.Scripting.Calculator.cs:38-46 | evaluating `a + b` evaluates `a`, then `b` on the stack `a` leaves; a failure in `a` is the failure of the whole |
| Precedence.EvaluatesNest | Source/System.Scripting.Calculator.cs:38-90 | on any stack of 32-bit values, the converted infix sequence pushes exactly Nest's value, or throws the exception Nest meets first: left side, right side, then the root's operator |
| Precedence.PostfixCalcIsNest | Source/System.Scripting.Calculator.cs:38-71 | `Rpn.Calc` of the conversion of an infix sequence is Nest of that sequence |
| Precedence.NestJoin | Source/System.Scripting.Calculator.cs:59-65 | an operator ranked strictly below every operator on its left and not above any on its right joins the two sides, and Nest of the whole applies it to the sides' values |
| GrammarScan.GrammarMatch | Source/System.Scripting.Calculator.cs:76-81 | a grammar definition matches at a position exactly when the character there begins its type, and it matches the whole run |
| GrammarScan.GrammarFirstMatch | Source/System.Scripting.Calculator.cs:74-81 | the grammar's first-match winner at any position is the type that the character there begins, with that token's text |
| GrammarScan.LexEndStops | Source/System.Text.Tokenization.Tokenizer.cs:167-168 | the grammar's scan stops at the end of the text or at the first character that begins no token |
| GrammarScan.ScansLikeLex | Source/System.Text.Tokenization.Tokenizer.cs:154-169 | any definitions whose step agrees with the character-class lexer everywhere scan exactly like it |
| GrammarScan.GrammarTokenizes | Source/System.Scripting.Calculator.cs:53 | the grammar's tokenizer builds, and enumerating it on any expression yields the lexer's tokens and never throws |
| GrammarScan.ParseIsLex | Source/System.Scripting.Calculator.cs:51-71 | Parse never fails: it is the conversion of the lexed tokens with white space removed |
| GrammarScan.ParseShape | Source/System.Scripting.Calculator.cs:51-71 | Parse emits no Sp token, emits each filtered token exactly once, and emits the numbers in input order |
| GrammarScan.LexTokens | Source/System.Scripting.Calculator.cs:76-81 | every number token is digits with no leading zero, and every other token is an operator or white space |
| Calculator.Calc | Source/System.Scripting.Calculator.cs:26-29 | the result is a 32-bit integer, and once Parse has succeeded the only exceptions are InvalidOperation, DivideByZero and Overflow. CalcThrows drops that condition, CalcIsLex states the value |
| Calculator.ParsedDigits | Source/System.Scripting.Calculator.cs:51-81 | Parse succeeds on every expression; every number it emits is a string of digits, and it emits no white space |
| Calculator.CalcThrows | Source/System.Scripting.Calculator.cs:26-90 | on any expression, Calc throws only InvalidOperationException, DivideByZeroException or OverflowException: never a format error, a missing operator or a tokenizer exception |
| Calculator.CalcIsLex | Source/System.Scripting.Calculator.cs:26-29 | Calculator.Calc is the evaluation of the conversion of the expression's lexed tokens without white space |
| Calculator.CalcIsNest | Source/System.Scripting.Calculator.cs:26-90 | an expression with no token is 0, and one whose tokens without white space alternate number and operator evaluates to Nest of those tokens |
| Calculator.CalcSpacedIsNest | Source/System.Scripting.Calculator.cs:26-90 | a spaced expression of one-character units that alternate number and operator evaluates to Nest of its units |
| Calculator.CalcSpaced | Source/System.Scripting.Calculator.cs:26-71 | for one-character units separated by single spaces, the tokens Calc converts are the units themselves, each at its position |
| CalculatorExamples.CalcOperandOrder | Source/System.Scripting.Calculator.cs:44-87 | the postfix sequence `5 2 -` evaluates to 3: the first value popped is the right operand |
| CalculatorExamples.CalcEmpty | Test/CalculatorTests.cs:26 | `Calc("")` is 0 |
| CalculatorExamples.CalcOne | Test/CalculatorTests.cs:27 | `Calc("1")` is 1 |
| CalculatorExamples.CalcSum | Test/CalculatorTests.cs:28 | `Calc("1 + 2 + 3 + 4")` is 10 |
| CalculatorExamples.CalcProducts | Test/CalculatorTests.cs:29 | `Calc("1 * 2 + 3 * 4")` is 14 |
| CalculatorExamples.CalcInnerProduct | Test/CalculatorTests.cs:30 | `Calc("1 + 2 * 3 + 4")` is 11 |
| CalculatorExamples.CalcDifferences | Test/CalculatorTests.cs:31 | `Calc("1 - 2 + 3 - 4")` is -2 |
| CalculatorExamples.CalcQuotients | Test/CalculatorTests.cs:32 | `Calc("1 / 2 * 3 / 4")` is 0 |
| CalculatorExamples.CalcDivideRight | Source/System.Scripting.Calculator.cs:59-65 | `Calc("8 / 4 / 2")` is 4, because equal ranks nest to the right |
| CalculatorExamples.CalcMulDivRight | Source/System.Scripting.Calculator.cs:59-65 | `Calc("3 * 5 / 2")` is 6: Div outranks Mul, so the division is applied first |
| CalculatorExamples.CalcSubtractRight | Source/System.Scripting.Calculator.cs:59-65 | `Calc("9 - 5 - 1")` is 5, not 3 |
| CalculatorExamples.CalcFallingLeft | Source/System.Scripting.Calculator.cs:59-65 | `Calc("8 / 2 * 2")` is 8: Mul ranks below Div, so it pops the division and closes the chain on its left |
| CalculatorExamples.CalcDivideByZeroRight | Source/System.Scripting.Calculator.cs:59-89 | `Calc("4 / 1 / 2")` divides by `1 / 2` = 0, so it fails with DivideByZero |
| Sentences.DefinitionsStep | Test/TokenizerTests.cs:16-18 | with `\w+` before `\s+`, a step cuts a maximal run of word characters or of white space, and nothing elsewhere |
| Sentences.ScanSentence | Source/System.Text.Tokenization.Tokenizer.cs:154-169 | from the start of a sentence laid out in the text, the scan's word tokens are the sentence's words and it stops at the end of the text |
| Sentences.SentenceWords | Test/TokenizerTests.cs:15-24 | for any non-empty words of word characters joined by single spaces, enumeration ends without an error and the values of the "word" tokens are the words, that is, the sentence split on `" "` |

## Left out

- The .NET regular-expression engine, `RegexOptions` (including `RegexOptions.Compiled` and `IgnoreCase`) and pattern compilation errors. A definition's compiled form is a parameter. Concrete matchers exist only for the patterns the calculator and the sentence test use.
- Text positions. C# string indices, `startat`, `Token.Index` and `value.Length` count UTF-16 code units, while a Dafny `string` is a sequence of Unicode scalar values. For text with characters outside the Basic Multilingual Plane, each such character is one position here and two in C#, so every later `Token.index` differs from the source's; a pattern that matches a lone surrogate has no counterpart in the model.
- Patterns.IsWordChar: `\w` is restricted to ASCII letters, digits and `_`. The .NET class also includes other Unicode letters, digits and connector punctuation.
- Tokenization.Match: the ArgumentNullException for a null input is not modelled, because the tokenizer never passes a null text once its constructor has checked it. It also requires `startat <= |input|` where `Regex.Match` would throw ArgumentOutOfRangeException for a `startat` past the end; the tokenizer's cursor never passes the end of the text, so that exception cannot arise from it.
- The `IEnumerable`/`IEnumerator` protocol. `GetEnumerator` returning `this`, the `Current` property, laziness and the `yield` timing of `Parse` are not modelled. A consumer's `foreach` is `Drain`.
- Factory.With: the factory is a value, so "returns the same instance" is modelled as "returns the factory with the definition added". Reference identity and aliasing between a factory and the results of its calls are not modelled.
- TokenizerEnumerator.NewTokenizer: the definitions are a `seq`, an immutable value, so two things the C# array allows are not modelled. First, aliasing: the constructor stores the caller's array itself (System.Text.Tokenization.Tokenizer.cs:124), and the static `Tokenize` passes the caller's array straight in (lines 57-58), so writing to that array between MoveNext calls changes the tokens produced later; only the factory hands over a copy (`ToArray`, Source/System.Text.Tokenization.TokenizerFactory.cs:82). Second, null elements: the constructor checks only for a null or empty array (line 121), and a null element makes MoveNext throw NullReferenceException when it is reached (line 160).
- The `TokenDefinition.Create` overloads. They forward to the `TokenDefinition` constructor, which is modelled. (The static `Tokenizer.Tokenize` is `new Tokenizer(definitions, text)`; TokenizerEnumerator.FreshTokenizerScans states what it returns.)
- Rpn.ToInt32: only strings of ASCII digits convert. A leading sign (the culture-specific positive and negative sign symbols included) and surrounding white space, which `Convert.ToInt32` also accepts, fail with a format error here. This never matters in `Calc`, because the grammar's number tokens are always digit strings.
- Calculator.CalcIsLex: a null expression is not modelled. It would throw ArgumentNullException from `Tokenize`.
- `Debug.Assert` as a runtime check. Its condition is proved instead, in PostfixForm.WellFormedCalc, for every well-formed input.
- The test and benchmark runners, `Test/RandomBenchmark.cs`, and the factory test (it depends on `IgnoreCase`).
