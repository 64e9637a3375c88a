/** The tokenizer on a sentence: with a word definition `\w+` before a space definition `\s+`,
    a sentence of words separated by single spaces is cut into its words and the spaces
    between them, so the values of the "word" tokens are the sentence split on " ". */
module Sentences {
  import opened Wrappers
  import opened Tokenization
  import opened TokenizerEnumerator
  import opened Patterns

  const WordDefinition: TokenDefinition<string> := TokenDefinition("word", "\\w+", Compile(Plus(Word, Word)))
  const SpaceDefinition: TokenDefinition<string> := TokenDefinition("space", "\\s+", Compile(Plus(Space, Space)))
  const Definitions: seq<TokenDefinition<string>> := [WordDefinition, SpaceDefinition]

  /** A non-empty run of word characters. */
  predicate IsWord(w: string) {
    |w| > 0 && forall j :: 0 <= j < |w| ==> IsWordChar(w[j])
  }

  predicate AllWords(ws: seq<string>) {
    forall k :: 0 <= k < |ws| ==> IsWord(ws[k])
  }

  /** The words joined with single spaces. */
  function Sentence(ws: seq<string>): string
    requires |ws| > 0
    decreases |ws|
  {
    if |ws| == 1 then ws[0] else ws[0] + " " + Sentence(ws[1..])
  }

  /** The values of the tokens typed "word", in order. */
  function Words(ts: seq<Token<string>>): seq<string>
    decreases |ts|
  {
    if |ts| == 0 then [] else (if ts[0].kind == "word" then [ts[0].value] else []) + Words(ts[1..])
  }

  lemma WordsCons(t: Token<string>, ts: seq<Token<string>>)
    ensures Words([t] + ts) == (if t.kind == "word" then [t.value] else []) + Words(ts)
  {
    assert ([t] + ts)[1..] == ts;
  }

  /** A run of exactly `n` characters of `k` from `i`. */
  lemma {:induction false} RunExact(k: CharClass, s: string, i: nat, n: nat)
    requires i + n <= |s|
    requires forall j :: i <= j < i + n ==> InClass(k, s[j])
    requires i + n == |s| || !InClass(k, s[i + n])
    decreases n
    ensures Run(k, s, i) == n
  {
    if n > 0 {
      RunExact(k, s, i + 1, n - 1);
    }
  }

  /** Where the sentence of `ws` begins at `at`: the first word, then either the end of the
      text or a space followed by the sentence of the other words. */
  lemma SentenceAt(text: string, at: nat, ws: seq<string>)
    requires at <= |text| && |ws| > 0 && text[at..] == Sentence(ws)
    ensures var n := |ws[0]|;
            && at + n <= |text| && text[at..at + n] == ws[0]
            && (|ws| == 1 ==> at + n == |text|)
            && (|ws| > 1 ==> at + n < |text| && text[at + n] == ' ' && text[at + n + 1..] == Sentence(ws[1..]))
  {
    var n := |ws[0]|;
    if |ws| > 1 {
      var rest := Sentence(ws[1..]);
      assert text[at..] == ws[0] + " " + rest;
      assert text[at..][..n] == ws[0];
      assert text[at..][n] == ' ';
      assert text[at..][n + 1..] == rest;
    }
  }

  /** One scan step over the two definitions, without regular expressions: a word runs over
      word characters and white space over white space; nothing else begins a token. */
  function Step(text: string, j: nat): Option<Winner<string>>
    requires j <= |text|
  {
    if j < |text| && IsWordChar(text[j]) then Some(Winner(0, "word", text[j..j + 1 + Run(Word, text, j + 1)]))
    else if j < |text| && IsWhitespace(text[j]) then Some(Winner(1, "space", text[j..j + Run(Space, text, j)]))
    else None
  }

  /** The definitions' scan step is Step. */
  lemma DefinitionsStep(text: string, j: nat)
    requires j <= |text|
    ensures FirstMatch(Definitions, text, j) == Step(text, j)
  {
    AnchoredSearch("word", "\\w+", Plus(Word, Word), text, j);
    AnchoredSearch("space", "\\s+", Plus(Space, Space), text, j);
    if j < |text| && IsWordChar(text[j]) {
      FirstMatchFromIs(Definitions, text, j, 0, 0, text[j..j + 1 + Run(Word, text, j + 1)]);
    } else if j < |text| && IsWhitespace(text[j]) {
      assert Run(Space, text, j) == 1 + Run(Space, text, j + 1);
      FirstMatchFromIs(Definitions, text, j, 0, 1, text[j..j + Run(Space, text, j)]);
    } else {
      FirstMatchNone(Definitions, text, j, 0);
    }
  }

  /** Definitions whose steps are Step from `at` on. */
  ghost predicate StepsFrom(defs: seq<TokenDefinition<string>>, text: string, at: nat) {
    forall j :: at <= j <= |text| ==> FirstMatch(defs, text, j) == Step(text, j)
  }

  /** A word followed by a space or the end is a "word" step. */
  lemma WordStep(text: string, at: nat, w: string)
    requires IsWord(w) && at + |w| <= |text| && text[at..at + |w|] == w
    requires at + |w| == |text| || text[at + |w|] == ' '
    ensures Step(text, at) == Some(Winner(0, "word", w))
  {
    assert forall j :: at <= j < at + |w| ==> text[j] == w[j - at];
    RunExact(Word, text, at + 1, |w| - 1);
  }

  /** A single space before a word is a "space" step. */
  lemma SpaceStep(text: string, at: nat)
    requires at + 1 < |text| && text[at] == ' ' && IsWordChar(text[at + 1])
    ensures Step(text, at) == Some(Winner(1, "space", " "))
  {
    assert !IsWhitespace(text[at + 1]);
    RunExact(Space, text, at, 1);
    assert text[at..at + 1] == " ";
  }

  /** Definitions whose steps are Step from `at` on take Step's step at `j`. */
  lemma StepAt(defs: seq<TokenDefinition<string>>, text: string, at: nat, j: nat)
    requires StepsFrom(defs, text, at) && at <= j <= |text|
    ensures FirstMatch(defs, text, j) == Step(text, j)
  {
  }

  /** The sentence of `ws` laid out in `text` from `at` to the end: each word in place, a
      single space after every word but the last, and the last one ending the text. */
  ghost predicate SentenceFrom(text: string, at: nat, ws: seq<string>)
    decreases |ws|
  {
    && |ws| > 0 && IsWord(ws[0]) && at + |ws[0]| <= |text| && text[at..at + |ws[0]|] == ws[0]
    && if |ws| == 1 then at + |ws[0]| == |text|
       else at + |ws[0]| < |text| && text[at + |ws[0]|] == ' ' && SentenceFrom(text, at + |ws[0]| + 1, ws[1..])
  }

  /** A text that is the sentence of `ws` from `at` on has it laid out there. */
  lemma {:induction false} SentenceLaidOut(text: string, at: nat, ws: seq<string>)
    requires at <= |text| && |ws| > 0 && AllWords(ws) && text[at..] == Sentence(ws)
    decreases |ws|
    ensures SentenceFrom(text, at, ws)
  {
    SentenceAt(text, at, ws);
    assert IsWord(ws[0]);
    if |ws| > 1 {
      SentenceTail(text, at, ws);
      SentenceLaidOut(text, at + |ws[0]| + 1, ws[1..]);
    }
  }

  /** After the first word and its space comes the sentence of the other words. */
  lemma SentenceTail(text: string, at: nat, ws: seq<string>)
    requires at <= |text| && |ws| > 1 && AllWords(ws) && text[at..] == Sentence(ws)
    ensures var next := at + |ws[0]| + 1;
            next <= |text| && text[next..] == Sentence(ws[1..]) && AllWords(ws[1..])
  {
    SentenceAt(text, at, ws);
    assert forall k :: 0 <= k < |ws[1..]| ==> ws[1..][k] == ws[k + 1];
  }

  /** Steps that are Step's from `at` on are Step's from any later position on. */
  lemma StepsLater(defs: seq<TokenDefinition<string>>, text: string, at: nat, next: nat)
    requires StepsFrom(defs, text, at) && at <= next
    ensures StepsFrom(defs, text, next)
  {
  }

  /** From the start of a laid-out sentence of `ws`, the scan yields the words of `ws` and
      stops at the end of the text. */
  lemma {:induction false} ScanSentence(defs: seq<TokenDefinition<string>>, text: string, at: nat, ws: seq<string>)
    requires SentenceFrom(text, at, ws) && StepsFrom(defs, text, at)
    decreases |ws|
    ensures Words(ScanFrom(defs, text, at).tokens) == ws
    ensures ScanFrom(defs, text, at).ending == Stopped(|text|)
  {
    var w := ws[0];
    if |ws| == 1 {
      LastWordSteps(defs, text, at, ws);
      ScanLastWord(defs, text, at, w);
      assert ws == [w];
    } else {
      var next := at + |w| + 1;
      WordSpaceSteps(defs, text, at, ws);
      StepsLater(defs, text, at, next);
      ScanSentence(defs, text, next, ws[1..]);
      ScanWordSpace(defs, text, at, next, ws);
    }
  }

  /** The sentence of one word: its "word" step runs to the end, where nothing matches. */
  lemma LastWordSteps(defs: seq<TokenDefinition<string>>, text: string, at: nat, ws: seq<string>)
    requires SentenceFrom(text, at, ws) && |ws| == 1 && StepsFrom(defs, text, at)
    ensures ws[0] != "" && at + |ws[0]| == |text|
    ensures FirstMatch(defs, text, at) == Some(Winner(0, "word", ws[0]))
    ensures FirstMatch(defs, text, |text|).None?
  {
    WordStep(text, at, ws[0]);
    StepAt(defs, text, at, at);
    StepAt(defs, text, at, |text|);
  }

  /** One "word" step to the end of the text, and then the scan stops there. */
  lemma ScanLastWord(defs: seq<TokenDefinition<string>>, text: string, at: nat, w: string)
    requires w != "" && at + |w| == |text|
    requires FirstMatch(defs, text, at) == Some(Winner(0, "word", w))
    requires FirstMatch(defs, text, |text|).None?
    ensures Words(ScanFrom(defs, text, at).tokens) == [w]
    ensures ScanFrom(defs, text, at).ending == Stopped(|text|)
  {
    ScanFromStep(defs, text, at, Winner(0, "word", w));
    ScanFromNone(defs, text, |text|);
    WordsCons(Token(at, "word", w), []);
  }

  /** At the start of a laid-out sentence of several words: its first word, then a space. */
  lemma WordThenSpace(text: string, at: nat, ws: seq<string>)
    requires SentenceFrom(text, at, ws) && |ws| > 1
    ensures at + |ws[0]| < |text|
    ensures Step(text, at) == Some(Winner(0, "word", ws[0]))
    ensures Step(text, at + |ws[0]|) == Some(Winner(1, "space", " "))
  {
    var w := ws[0];
    var next := at + |w|;
    WordStep(text, at, w);
    assert SentenceFrom(text, next + 1, ws[1..]);
    assert text[next + 1] == ws[1..][0][0] by {
      assert text[next + 1..next + 1 + |ws[1..][0]|] == ws[1..][0];
    }
    assert IsWordChar(text[next + 1]);
    SpaceStep(text, next);
    assert Step(text, next) == Some(Winner(1, "space", " "));
  }

  /** The definitions' steps at the start of a laid-out sentence of several words. */
  lemma WordSpaceSteps(defs: seq<TokenDefinition<string>>, text: string, at: nat, ws: seq<string>)
    requires SentenceFrom(text, at, ws) && |ws| > 1 && StepsFrom(defs, text, at)
    ensures ws[0] != "" && at + |ws[0]| + 1 <= |text|
    ensures SentenceFrom(text, at + |ws[0]| + 1, ws[1..])
    ensures FirstMatch(defs, text, at) == Some(Winner(0, "word", ws[0]))
    ensures FirstMatch(defs, text, at + |ws[0]|) == Some(Winner(1, "space", " "))
  {
    var next := at + |ws[0]|;
    WordThenSpace(text, at, ws);
    StepAt(defs, text, at, at);
    StepAt(defs, text, at, next);
  }

  /** A "word" step and a "space" step put the word before the words of the scan that
      follows, and the scan ends where that one ends. */
  lemma ScanWordSpace(defs: seq<TokenDefinition<string>>, text: string, at: nat, next: nat, ws: seq<string>)
    requires |ws| > 1 && ws[0] != "" && next == at + |ws[0]| + 1 && next <= |text|
    requires FirstMatch(defs, text, at) == Some(Winner(0, "word", ws[0]))
    requires FirstMatch(defs, text, at + |ws[0]|) == Some(Winner(1, "space", " "))
    requires Words(ScanFrom(defs, text, next).tokens) == ws[1..]
    requires ScanFrom(defs, text, next).ending == Stopped(|text|)
    ensures Words(ScanFrom(defs, text, at).tokens) == ws
    ensures ScanFrom(defs, text, at).ending == Stopped(|text|)
  {
    var mid := at + |ws[0]|;
    ScanStepTo(defs, text, at, Winner(0, "word", ws[0]), Token(at, "word", ws[0]), mid);
    ScanStepTo(defs, text, mid, Winner(1, "space", " "), Token(mid, "space", " "), next);
    WordSpaceScans(ScanFrom(defs, text, at), ScanFrom(defs, text, mid), ScanFrom(defs, text, next), at, mid, ws, |text|);
  }

  /** One step of the scan, with the token it emits and the position it moves to named. */
  lemma ScanStepTo(defs: seq<TokenDefinition<string>>, text: string, cursor: nat, w: Winner<string>, t: Token<string>, next: nat)
    requires cursor <= |text| && FirstMatch(defs, text, cursor) == Some(w) && w.value != ""
    requires t == Token(cursor, w.kind, w.value) && next == cursor + |w.value|
    ensures next <= |text|
    ensures ScanFrom(defs, text, cursor).tokens == [t] + ScanFrom(defs, text, next).tokens
    ensures ScanFrom(defs, text, cursor).ending == ScanFrom(defs, text, next).ending
  {
    ScanFromStep(defs, text, cursor, w);
  }

  /** A scan that is a word token, then a space token, then a scan of the other words, is a
      scan of all the words that ends where the last one ends. */
  lemma WordSpaceScans(first: Scan<string>, second: Scan<string>, third: Scan<string>, at: nat, mid: nat, ws: seq<string>, end: nat)
    requires |ws| > 0
    requires first.tokens == [Token(at, "word", ws[0])] + second.tokens && first.ending == second.ending
    requires second.tokens == [Token(mid, "space", " ")] + third.tokens && second.ending == third.ending
    requires Words(third.tokens) == ws[1..] && third.ending == Stopped(end)
    ensures Words(first.tokens) == ws && first.ending == Stopped(end)
  {
    WordsCons(Token(at, "word", ws[0]), second.tokens);
    WordsCons(Token(mid, "space", " "), third.tokens);
    assert ws == [ws[0]] + ws[1..];
  }

  /** The word tokens of a sentence are its words, and enumeration ends without an error:
      the values of the "word" tokens are the sentence split on " ". */
  lemma SentenceWords(ws: seq<string>)
    requires |ws| > 0 && AllWords(ws)
    ensures var tz := NewTokenizer(Some(Definitions), Some(Sentence(ws)));
            && tz.Success?
            && Drain(tz.value).error.None?
            && Words(Drain(tz.value).tokens) == ws
  {
    var text := Sentence(ws);
    FreshTokenizerScans(Definitions, text);
    forall j | 0 <= j <= |text|
      ensures FirstMatch(Definitions, text, j) == Step(text, j)
    {
      DefinitionsStep(text, j);
    }
    assert text[0..] == text;
    SentenceLaidOut(text, 0, ws);
    ScanSentence(Definitions, text, 0, ws);
  }
}
