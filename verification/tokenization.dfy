/** Token definitions, tokens and the ordered, anchored scan of System.Text.Tokenization.

    The regular-expression engine is not modelled; a compiled pattern is any search
    function that keeps the contract every engine keeps (`Sound`). The scan itself is
    modelled as a materialised sequence of tokens plus the way it ended; the enumerator
    that produces the same tokens one at a time is in module TokenizerEnumerator. */
module Tokenization {
  import opened Wrappers
  import opened Exceptions

  /** A regular-expression hit: where the leftmost match begins and the text it matched. */
  datatype Hit = Hit(index: nat, value: string)

  /** `value` is the slice of `input` that begins at `at`. */
  predicate OccursAt(input: string, at: int, value: string) {
    0 <= at && at + |value| <= |input| && input[at..at + |value|] == value
  }

  /** What `Regex.Match(input, startat)` promises whatever the pattern: a hit never begins
      before `startat`, and its value is the text of `input` found at the hit. */
  ghost predicate Sound(search: (string, nat) -> Option<Hit>) {
    forall input: string, startat: nat ::
      startat <= |input| && search(input, startat).Some? ==>
        startat <= search(input, startat).value.index &&
        OccursAt(input, search(input, startat).value.index, search(input, startat).value.value)
  }

  /** A compiled pattern. */
  type Regex = search: (string, nat) -> Option<Hit> | Sound(search)
    witness (input: string, startat: nat) => None

  /** A type tag paired with a pattern and its compiled form. */
  datatype TokenDefinition<T> = TokenDefinition(kind: T, pattern: string, regex: Regex)

  /** The definition constructor: a null type or a null pattern is rejected, type first.
      `regex` is what the engine compiles `pattern` to. */
  function NewTokenDefinition<T>(kind: Option<T>, pattern: Option<string>, regex: Regex)
    : (r: Result<TokenDefinition<T>, Exception>)
    ensures kind.None? ==> r == Failure(ArgumentNull("type"))
    ensures kind.Some? && pattern.None? ==> r == Failure(ArgumentNull("pattern"))
    ensures r.Success? <==> kind.Some? && pattern.Some?
    ensures r.Success? ==> r.value.kind == kind.value && r.value.pattern == pattern.value
  {
    if kind.None? then Failure(ArgumentNull("type"))
    else if pattern.None? then Failure(ArgumentNull("pattern"))
    else Success(TokenDefinition(kind.value, pattern.value, regex))
  }

  /** The anchored match: the engine's leftmost hit from `startat` counts only when it
      begins exactly at `startat`; its value is then the text of `input` at `startat`. */
  function Match<T>(d: TokenDefinition<T>, input: string, startat: nat): (r: Option<string>)
    requires startat <= |input|
    ensures r.Some? <==> d.regex(input, startat).Some? && d.regex(input, startat).value.index == startat
    ensures r.Some? ==> r.value == d.regex(input, startat).value.value
    ensures r.Some? ==> OccursAt(input, startat, r.value)
  {
    match d.regex(input, startat)
    case Some(hit) => if hit.index == startat then Some(hit.value) else None
    case None => None
  }

  /** An emitted token. The constructor rejects empty text. */
  datatype Token<T> = Token(index: int, kind: T, value: string)

  function NewToken<T>(index: int, kind: T, value: string): (r: Result<Token<T>, Exception>)
    ensures r.Success? <==> |value| > 0
    ensures r.Success? ==> r.value.index == index && r.value.kind == kind && r.value.value == value
    ensures r.Failure? ==> r.error == Argument("value")
  {
    if |value| == 0 then Failure(Argument("value")) else Success(Token(index, kind, value))
  }

  /** The winner of one scan step: the position of the definition in the array, its type and
      the value it matched. */
  datatype Winner<T> = Winner(def: nat, kind: T, value: string)

  /** The first definition at or after `from`, in array order, whose anchored match
      succeeds at `cursor`; the ones after it are not consulted. Which definition wins
      is stated by FirstMatchWins and FirstMatchNone. */
  function FirstMatchFrom<T>(defs: seq<TokenDefinition<T>>, text: string, cursor: nat, from: nat)
    : (r: Option<Winner<T>>)
    requires cursor <= |text| && from <= |defs|
    decreases |defs| - from
    ensures r.Some? ==> from <= r.value.def < |defs| && r.value.kind == defs[r.value.def].kind
    ensures r.Some? ==> OccursAt(text, cursor, r.value.value)
  {
    if from == |defs| then None
    else match Match(defs[from], text, cursor)
      case Some(v) => Some(Winner(from, defs[from].kind, v))
      case None => FirstMatchFrom(defs, text, cursor, from + 1)
  }

  /** One scan step at `cursor`: the first definition in array order that matches there. */
  function FirstMatch<T>(defs: seq<TokenDefinition<T>>, text: string, cursor: nat): (r: Option<Winner<T>>)
    requires cursor <= |text|
    ensures r.Some? ==> r.value.def < |defs| && r.value.kind == defs[r.value.def].kind
    ensures r.Some? ==> OccursAt(text, cursor, r.value.value)
  {
    FirstMatchFrom(defs, text, cursor, 0)
  }

  /** The winner matches, and every definition before it in array order does not. */
  lemma {:induction false} FirstMatchWins<T>(defs: seq<TokenDefinition<T>>, text: string, cursor: nat, from: nat)
    requires cursor <= |text| && from <= |defs|
    requires FirstMatchFrom(defs, text, cursor, from).Some?
    ensures var w := FirstMatchFrom(defs, text, cursor, from).value;
            && Match(defs[w.def], text, cursor) == Some(w.value)
            && forall j :: from <= j < w.def ==> Match(defs[j], text, cursor).None?
    decreases |defs| - from
  {
    if Match(defs[from], text, cursor).None? {
      FirstMatchWins(defs, text, cursor, from + 1);
    }
  }

  /** Conversely, a definition that matches after definitions that all fail is the winner. */
  lemma {:induction false} FirstMatchFromIs<T>(defs: seq<TokenDefinition<T>>, text: string, cursor: nat, from: nat, j: nat, v: string)
    requires cursor <= |text| && from <= j < |defs|
    requires forall i :: from <= i < j ==> Match(defs[i], text, cursor).None?
    requires Match(defs[j], text, cursor) == Some(v)
    decreases j - from
    ensures FirstMatchFrom(defs, text, cursor, from) == Some(Winner(j, defs[j].kind, v))
  {
    if from < j {
      FirstMatchFromIs(defs, text, cursor, from + 1, j, v);
    }
  }

  /** There is no winner exactly when no definition matches. */
  lemma {:induction false} FirstMatchNone<T>(defs: seq<TokenDefinition<T>>, text: string, cursor: nat, from: nat)
    requires cursor <= |text| && from <= |defs|
    ensures FirstMatchFrom(defs, text, cursor, from).None?
        <==> forall j :: from <= j < |defs| ==> Match(defs[j], text, cursor).None?
    decreases |defs| - from
  {
    if from < |defs| {
      FirstMatchNone(defs, text, cursor, from + 1);
    }
  }

  /** How a scan ended: no definition matched at `at` (the dead state), or a definition
      matched the empty string and the token constructor threw. */
  datatype Ending = Stopped(at: nat) | Threw(error: Exception)

  /** The tokens a scan produced, in order, and how it ended. */
  datatype Scan<T> = Scan(tokens: seq<Token<T>>, ending: Ending)

  /** The concatenated text of a token sequence. */
  function Values<T>(ts: seq<Token<T>>): string {
    if |ts| == 0 then "" else ts[0].value + Values(ts[1..])
  }

  /** Each token begins where the previous one ended; the first begins at `cursor`. */
  predicate Contiguous<T>(ts: seq<Token<T>>, cursor: int) {
    |ts| == 0 || (ts[0].index == cursor && Contiguous(ts[1..], cursor + |ts[0].value|))
  }

  /** `t` is what one scan step emits at `t.index`: the type and value of the first
      definition that matches there, with non-empty value. */
  ghost predicate Emitted<T>(defs: seq<TokenDefinition<T>>, text: string, t: Token<T>) {
    && 0 <= t.index <= |text|
    && var w := FirstMatch(defs, text, t.index);
    && w.Some? && t.kind == w.value.kind && t.value == w.value.value && |t.value| > 0
  }

  /** Every token of `ts` is what a scan step emits at its position. */
  ghost predicate AllEmitted<T>(defs: seq<TokenDefinition<T>>, text: string, ts: seq<Token<T>>) {
    |ts| == 0 || (Emitted(defs, text, ts[0]) && AllEmitted(defs, text, ts[1..]))
  }

  /** `s` is a scan of `text` from `cursor`: contiguous emitted tokens covering a prefix of
      the remaining text, followed by a step at which nothing matched, or at which the
      first match was empty. */
  ghost predicate IsScanOf<T>(defs: seq<TokenDefinition<T>>, text: string, cursor: nat, s: Scan<T>) {
    && OccursAt(text, cursor, Values(s.tokens))
    && Contiguous(s.tokens, cursor)
    && AllEmitted(defs, text, s.tokens)
    && var at := cursor + |Values(s.tokens)|;
    && match s.ending
       case Stopped(stop) => stop == at && FirstMatch(defs, text, at).None?
       case Threw(e) =>
         && e == Argument("value")
         && FirstMatch(defs, text, at).Some? && FirstMatch(defs, text, at).value.value == ""
  }

  lemma OccursAtConcat(text: string, at: int, a: string, b: string)
    requires OccursAt(text, at, a) && OccursAt(text, at + |a|, b)
    ensures OccursAt(text, at, a + b)
  {
    assert text[at..at + |a + b|] == text[at..at + |a|] + text[at + |a|..at + |a| + |b|];
  }

  /** A token emitted at `cursor` followed by a scan from where it ends is a scan from `cursor`. */
  lemma ScanCons<T>(defs: seq<TokenDefinition<T>>, text: string, cursor: nat, t: Token<T>, rest: Scan<T>, s: Scan<T>)
    requires cursor <= |text| && t.index == cursor && Emitted(defs, text, t)
    requires cursor + |t.value| <= |text|
    requires IsScanOf(defs, text, cursor + |t.value|, rest)
    requires s.tokens == [t] + rest.tokens && s.ending == rest.ending
    ensures IsScanOf(defs, text, cursor, s)
  {
    var ts := s.tokens;
    assert ts[1..] == rest.tokens;
    assert Values(ts) == t.value + Values(rest.tokens);
    OccursAtConcat(text, cursor, t.value, Values(rest.tokens));
    assert forall i :: 0 < i < |ts| ==> ts[i] == rest.tokens[i - 1];
  }

  /** The scan from `cursor`: at each step the first matching definition in array order
      supplies a token at the cursor, and the cursor advances by the token's length. */
  function ScanFrom<T>(defs: seq<TokenDefinition<T>>, text: string, cursor: nat): (r: Scan<T>)
    requires cursor <= |text|
    decreases |text| - cursor
    ensures |r.tokens| <= |text| - cursor
    ensures r.ending.Stopped? ==> cursor <= r.ending.at <= |text|
    ensures r.ending.Threw? ==> r.ending.error == Argument("value")
  {
    match FirstMatch(defs, text, cursor)
    case None => Scan([], Stopped(cursor))
    case Some(w) =>
      match NewToken(cursor, w.kind, w.value)
      case Failure(e) => Scan([], Threw(e))
      case Success(t) =>
        var rest := ScanFrom(defs, text, cursor + |w.value|);
        Scan([t] + rest.tokens, rest.ending)
  }

  /** What ScanFrom computes is a scan: contiguous emitted tokens, then a dead step or an
      empty match. */
  lemma {:induction false} ScanFromIsScan<T>(defs: seq<TokenDefinition<T>>, text: string, cursor: nat)
    requires cursor <= |text|
    decreases |text| - cursor
    ensures IsScanOf(defs, text, cursor, ScanFrom(defs, text, cursor))
  {
    match FirstMatch(defs, text, cursor)
    case None =>
      ScanEndsIsScan(defs, text, cursor);
    case Some(w) =>
      if w.value == "" {
        ScanEndsIsScan(defs, text, cursor);
      } else {
        assert OccursAt(text, cursor, w.value);
        ScanFromIsScan(defs, text, cursor + |w.value|);
        ScanStepIsScan(defs, text, cursor, w);
      }
  }

  /** A step that emits a token, followed by a scan, is a scan. */
  lemma ScanStepIsScan<T>(defs: seq<TokenDefinition<T>>, text: string, cursor: nat, w: Winner<T>)
    requires cursor <= |text| && FirstMatch(defs, text, cursor) == Some(w) && w.value != ""
    requires cursor + |w.value| <= |text|
    requires IsScanOf(defs, text, cursor + |w.value|, ScanFrom(defs, text, cursor + |w.value|))
    ensures IsScanOf(defs, text, cursor, ScanFrom(defs, text, cursor))
  {
    ScanFromStep(defs, text, cursor, w);
    WinnerEmitted(defs, text, cursor, w);
    ScanCons(defs, text, cursor, Token(cursor, w.kind, w.value), ScanFrom(defs, text, cursor + |w.value|), ScanFrom(defs, text, cursor));
  }

  /** The winner of a step with a non-empty value is the token the step emits. */
  lemma WinnerEmitted<T>(defs: seq<TokenDefinition<T>>, text: string, cursor: nat, w: Winner<T>)
    requires cursor <= |text| && FirstMatch(defs, text, cursor) == Some(w) && w.value != ""
    ensures Emitted(defs, text, Token(cursor, w.kind, w.value))
  {
  }

  /** A scan that ends at its first step, with nothing matching or an empty match, is a scan. */
  lemma ScanEndsIsScan<T>(defs: seq<TokenDefinition<T>>, text: string, cursor: nat)
    requires cursor <= |text|
    requires FirstMatch(defs, text, cursor).None? || FirstMatch(defs, text, cursor).value.value == ""
    ensures IsScanOf(defs, text, cursor, ScanFrom(defs, text, cursor))
  {
    var empty: seq<Token<T>> := [];
    assert Values(empty) == "";
    if FirstMatch(defs, text, cursor).None? {
      assert ScanFrom(defs, text, cursor) == Scan(empty, Stopped(cursor));
    } else {
      assert ScanFrom(defs, text, cursor) == Scan(empty, Threw(Argument("value")));
    }
  }

  /** Dropping the first token of a scan leaves a scan from where that token ends. */
  lemma ScanTail<T>(defs: seq<TokenDefinition<T>>, text: string, cursor: nat, s: Scan<T>)
    requires cursor <= |text| && IsScanOf(defs, text, cursor, s) && |s.tokens| > 0
    ensures cursor + |s.tokens[0].value| <= |text|
    ensures IsScanOf(defs, text, cursor + |s.tokens[0].value|, Scan(s.tokens[1..], s.ending))
  {
    var t := s.tokens[0];
    var rest := s.tokens[1..];
    var next := cursor + |t.value|;
    assert Values(s.tokens) == t.value + Values(rest);
    assert text[next..next + |Values(rest)|] == text[cursor..cursor + |Values(s.tokens)|][|t.value|..];
    assert forall i :: 0 <= i < |rest| ==> rest[i] == s.tokens[i + 1];
  }

  /** One step of the scan, unfolded. */
  lemma ScanFromStep<T>(defs: seq<TokenDefinition<T>>, text: string, cursor: nat, w: Winner<T>)
    requires cursor <= |text| && FirstMatch(defs, text, cursor) == Some(w) && w.value != ""
    ensures cursor + |w.value| <= |text|
    ensures ScanFrom(defs, text, cursor).tokens
         == [Token(cursor, w.kind, w.value)] + ScanFrom(defs, text, cursor + |w.value|).tokens
    ensures ScanFrom(defs, text, cursor).ending == ScanFrom(defs, text, cursor + |w.value|).ending
  {
  }

  /** A step at which nothing matches ends the scan there. */
  lemma ScanFromNone<T>(defs: seq<TokenDefinition<T>>, text: string, cursor: nat)
    requires cursor <= |text| && FirstMatch(defs, text, cursor).None?
    ensures ScanFrom(defs, text, cursor) == Scan([], Stopped(cursor))
  {
  }

  lemma ScanFromCons<T>(defs: seq<TokenDefinition<T>>, text: string, cursor: nat, w: Winner<T>, s: Scan<T>)
    requires cursor <= |text| && FirstMatch(defs, text, cursor) == Some(w) && w.value != ""
    requires |s.tokens| > 0 && s.tokens[0] == Token(cursor, w.kind, w.value)
    requires Scan(s.tokens[1..], s.ending) == ScanFrom(defs, text, cursor + |w.value|)
    ensures s == ScanFrom(defs, text, cursor)
  {
    ScanFromStep(defs, text, cursor, w);
    assert s.tokens == [s.tokens[0]] + s.tokens[1..];
  }

  /** An empty scan is the one ScanFrom computes. */
  lemma ScanUniqueEmpty<T>(defs: seq<TokenDefinition<T>>, text: string, cursor: nat, s: Scan<T>)
    requires cursor <= |text| && IsScanOf(defs, text, cursor, s) && |s.tokens| == 0
    ensures s == ScanFrom(defs, text, cursor)
  {
    assert Values(s.tokens) == "";
    match s.ending
    case Stopped(at) =>
      assert s == Scan([], Stopped(cursor));
    case Threw(e) =>
      var w := FirstMatch(defs, text, cursor).value;
      assert NewToken(cursor, w.kind, w.value) == Failure(e);
      assert s == Scan([], Threw(e));
  }

  /** The first token of a non-empty scan is the winner of the first step. */
  lemma ScanHead<T>(defs: seq<TokenDefinition<T>>, text: string, cursor: nat, s: Scan<T>) returns (w: Winner<T>)
    requires cursor <= |text| && IsScanOf(defs, text, cursor, s) && |s.tokens| > 0
    ensures FirstMatch(defs, text, cursor) == Some(w) && w.value != ""
    ensures s.tokens[0] == Token(cursor, w.kind, w.value)
    ensures cursor + |w.value| <= |text|
    ensures IsScanOf(defs, text, cursor + |w.value|, Scan(s.tokens[1..], s.ending))
  {
    assert Emitted(defs, text, s.tokens[0]);
    w := FirstMatch(defs, text, cursor).value;
    ScanTail(defs, text, cursor, s);
  }

  /** The scan is the only one: any scan of `text` from `cursor` is the one ScanFrom computes. */
  lemma {:induction false} ScanUnique<T>(defs: seq<TokenDefinition<T>>, text: string, cursor: nat, s: Scan<T>)
    requires cursor <= |text|
    requires IsScanOf(defs, text, cursor, s)
    ensures s == ScanFrom(defs, text, cursor)
    decreases |text| - cursor
  {
    if |s.tokens| == 0 {
      ScanUniqueEmpty(defs, text, cursor, s);
    } else {
      var w := ScanHead(defs, text, cursor, s);
      ScanUnique(defs, text, cursor + |w.value|, Scan(s.tokens[1..], s.ending));
      ScanFromCons(defs, text, cursor, w, s);
    }
  }

  /** Text past the point where the scan stopped is never tokenized: every token lies
      wholly before the stop. */
  lemma TokensPrecedeStop<T>(defs: seq<TokenDefinition<T>>, text: string, cursor: nat, i: nat)
    requires cursor <= |text|
    requires ScanFrom(defs, text, cursor).ending.Stopped?
    requires i < |ScanFrom(defs, text, cursor).tokens|
    ensures var s := ScanFrom(defs, text, cursor);
            s.tokens[i].index + |s.tokens[i].value| <= s.ending.at
  {
    var s := ScanFrom(defs, text, cursor);
    ScanFromIsScan(defs, text, cursor);
    ValuesPrefix(s.tokens, cursor, i);
  }

  /** In a contiguous sequence, token `i` begins after all earlier values and ends before the rest. */
  lemma {:induction false} ValuesPrefix<T>(ts: seq<Token<T>>, cursor: int, i: nat)
    requires Contiguous(ts, cursor) && i < |ts|
    ensures ts[i].index == cursor + |Values(ts[..i])|
    ensures ts[i].index + |ts[i].value| <= cursor + |Values(ts)|
  {
    assert Values(ts) == ts[0].value + Values(ts[1..]);
    if i == 0 {
      assert ts[..0] == [];
    } else {
      ValuesPrefix(ts[1..], cursor + |ts[0].value|, i - 1);
      assert ts[..i][1..] == ts[1..][..i - 1];
      assert Values(ts[..i]) == ts[0].value + Values(ts[1..][..i - 1]);
    }
  }

  /** At the end of the text no token is emitted: a scan of empty text yields no tokens. */
  lemma NoTokensAtEnd<T>(defs: seq<TokenDefinition<T>>, text: string)
    ensures ScanFrom(defs, text, |text|).tokens == []
  {
  }
}
