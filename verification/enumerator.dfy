/** The Tokenizer<T> enumerator: a cursor over the text that yields one token per MoveNext.

    The fields mirror the class: `definitions` and `text` become null on Dispose,
    `index` is the cursor and becomes -1 once no definition matches (the dead state),
    `current` is the last token produced. Drain runs MoveNext until it returns false,
    which is what a consumer's foreach does; DrainIsScan ties it to ScanFrom. */
module TokenizerEnumerator {
  import opened Wrappers
  import opened Exceptions
  import opened Tokenization

  datatype Tokenizer<T> = Tokenizer(
    definitions: Option<seq<TokenDefinition<T>>>,
    text: Option<string>,
    index: int,
    current: Option<Token<T>>)

  /** The cursor stays within the text, or is -1. */
  predicate Valid<T>(tz: Tokenizer<T>) {
    -1 <= tz.index && (tz.text.Some? ==> tz.index <= |tz.text.value|)
  }

  /** MoveNext returns false at once: the tokenizer is dead or disposed. */
  predicate Finished<T>(tz: Tokenizer<T>) {
    tz.index == -1 || tz.definitions.None? || tz.text.None?
  }

  /** The constructor: null or empty definitions are rejected, then a null text. */
  function NewTokenizer<T>(definitions: Option<seq<TokenDefinition<T>>>, text: Option<string>)
    : (r: Result<Tokenizer<T>, Exception>)
    ensures r.Success? <==> definitions.Some? && |definitions.value| > 0 && text.Some?
    ensures definitions.None? || |definitions.value| == 0 ==> r == Failure(Argument("definitions"))
    ensures definitions.Some? && |definitions.value| > 0 && text.None? ==> r == Failure(ArgumentNull("text"))
    ensures r.Success? ==> Valid(r.value) && !Finished(r.value) && r.value.index == 0
    ensures r.Success? ==> r.value.definitions == definitions && r.value.text == text && r.value.current.None?
  {
    if definitions.None? || |definitions.value| == 0 then Failure(Argument("definitions"))
    else if text.None? then Failure(ArgumentNull("text"))
    else Success(Tokenizer(definitions, text, 0, None))
  }

  /** The result of MoveNext: whether it advanced, and the tokenizer afterwards. */
  datatype Moved<T> = Moved(advanced: bool, next: Tokenizer<T>)

  /** One step: the first definition that matches at the cursor supplies `current` and the
      cursor moves past it; when none matches the tokenizer goes dead. */
  function MoveNext<T>(tz: Tokenizer<T>): (r: Result<Moved<T>, Exception>)
    requires Valid(tz)
    ensures r.Success? ==> Valid(r.value.next)
    ensures Finished(tz) ==> r == Success(Moved(false, tz))
    ensures r.Success? && !r.value.advanced ==> Finished(r.value.next)
    ensures r.Success? && !r.value.advanced && !Finished(tz) ==>
              FirstMatch(tz.definitions.value, tz.text.value, tz.index).None? &&
              r.value.next == tz.(index := -1)
    ensures r.Success? && r.value.advanced ==>
              && !Finished(tz) && !Finished(r.value.next)
              && r.value.next.definitions == tz.definitions && r.value.next.text == tz.text
              && r.value.next.current.Some?
              && var t := r.value.next.current.value;
              && t.index == tz.index
              && Emitted(tz.definitions.value, tz.text.value, t)
              && r.value.next.index == tz.index + |t.value|
    ensures r.Failure? ==>
              && !Finished(tz) && r.error == Argument("value")
              && FirstMatch(tz.definitions.value, tz.text.value, tz.index).Some?
              && FirstMatch(tz.definitions.value, tz.text.value, tz.index).value.value == ""
  {
    if Finished(tz) then Success(Moved(false, tz))
    else
      match FirstMatch(tz.definitions.value, tz.text.value, tz.index)
      case None => Success(Moved(false, tz.(index := -1)))
      case Some(w) =>
        match NewToken(tz.index, w.kind, w.value)
        case Failure(e) => Failure(e)
        case Success(t) => Success(Moved(true, tz.(current := Some(t), index := tz.index + |t.value|)))
  }

  /** Sets the cursor back to the start of the text. A dead tokenizer comes back to life;
      a disposed one stays disposed, because its text is gone. */
  function Reset<T>(tz: Tokenizer<T>): (r: Tokenizer<T>)
    ensures Valid(r) && r.index == 0 && r.current.None?
    ensures r.definitions == tz.definitions && r.text == tz.text
  {
    tz.(index := 0, current := None)
  }

  /** Drops the definitions and the text and kills the cursor. */
  function Dispose<T>(tz: Tokenizer<T>): (r: Tokenizer<T>)
    ensures Valid(r) && Finished(r)
    ensures r.definitions.None? && r.text.None? && r.index == -1 && r.current.None?
  {
    Tokenizer(None, None, -1, None)
  }

  /** What a consumer sees: the tokens produced, and the exception that ended the
      enumeration, if one did. */
  datatype Drained<T> = Drained(tokens: seq<Token<T>>, error: Option<Exception>)

  /** The same information read off a scan. */
  function Observed<T>(s: Scan<T>): Drained<T> {
    match s.ending
    case Stopped(_) => Drained(s.tokens, None)
    case Threw(e) => Drained(s.tokens, Some(e))
  }

  function Remaining<T>(tz: Tokenizer<T>): nat
    requires Valid(tz)
  {
    if Finished(tz) then 0 else |tz.text.value| - tz.index + 1
  }

  /** Calls MoveNext until it returns false or throws, collecting `current` after each advance. */
  function Drain<T>(tz: Tokenizer<T>): (r: Drained<T>)
    requires Valid(tz)
    decreases Remaining(tz)
    ensures Finished(tz) ==> r == Drained([], None)
    ensures r.error.Some? ==> r.error.value == Argument("value")
  {
    match MoveNext(tz)
    case Failure(e) => Drained([], Some(e))
    case Success(m) =>
      if !m.advanced then Drained([], None)
      else
        var rest := Drain(m.next);
        Drained([m.next.current.value] + rest.tokens, rest.error)
  }

  /** One advancing step of Drain, unfolded. */
  lemma DrainStep<T>(tz: Tokenizer<T>, w: Winner<T>) returns (next: Tokenizer<T>)
    requires Valid(tz) && !Finished(tz)
    requires FirstMatch(tz.definitions.value, tz.text.value, tz.index) == Some(w) && w.value != ""
    ensures next == tz.(current := Some(Token(tz.index, w.kind, w.value)), index := tz.index + |w.value|)
    ensures Valid(next) && !Finished(next)
    ensures Drain(tz) == Drained([Token(tz.index, w.kind, w.value)] + Drain(next).tokens, Drain(next).error)
  {
    next := tz.(current := Some(Token(tz.index, w.kind, w.value)), index := tz.index + |w.value|);
    assert MoveNext(tz) == Success(Moved(true, next));
  }

  /** Enumerating a live tokenizer whose cursor is at `index` yields exactly the scan from `index`. */
  lemma {:induction false} DrainIsScan<T>(tz: Tokenizer<T>)
    requires Valid(tz) && !Finished(tz)
    ensures Drain(tz) == Observed(ScanFrom(tz.definitions.value, tz.text.value, tz.index))
    decreases Remaining(tz)
  {
    var defs, text := tz.definitions.value, tz.text.value;
    match FirstMatch(defs, text, tz.index)
    case None =>
      assert MoveNext(tz) == Success(Moved(false, tz.(index := -1)));
    case Some(w) =>
      if w.value == "" {
        assert MoveNext(tz) == Failure(Argument("value"));
      } else {
        ScanFromStep(defs, text, tz.index, w);
        var next := DrainStep(tz, w);
        DrainIsScan(next);
      }
  }

  /** A fresh tokenizer, as the static `Tokenize` builds it, enumerates the scan of the whole
      text from position 0. */
  lemma FreshTokenizerScans<T>(definitions: seq<TokenDefinition<T>>, text: string)
    requires |definitions| > 0
    ensures NewTokenizer(Some(definitions), Some(text)).Success?
    ensures Drain(NewTokenizer(Some(definitions), Some(text)).value) == Observed(ScanFrom(definitions, text, 0))
  {
    DrainIsScan(NewTokenizer(Some(definitions), Some(text)).value);
  }

  /** Once MoveNext has returned false it keeps returning false and changes nothing. */
  lemma StaysFinished<T>(tz: Tokenizer<T>)
    requires Valid(tz) && MoveNext(tz).Success? && !MoveNext(tz).value.advanced
    ensures var next := MoveNext(tz).value.next;
            MoveNext(next) == Success(Moved(false, next)) && Drain(next) == Drained([], None)
  {
  }

  /** After Dispose, MoveNext always returns false, even after a Reset. */
  lemma DisposedYieldsNothing<T>(tz: Tokenizer<T>)
    ensures MoveNext(Dispose(tz)) == Success(Moved(false, Dispose(tz)))
    ensures Drain(Dispose(tz)) == Drained([], None)
    ensures Drain(Reset(Dispose(tz))) == Drained([], None)
  {
  }

  /** Reset restarts the scan from the beginning of the text, whatever state the cursor was
      in, the dead state included. */
  lemma ResetRestarts<T>(tz: Tokenizer<T>)
    requires tz.definitions.Some? && tz.text.Some?
    ensures Drain(Reset(tz)) == Observed(ScanFrom(tz.definitions.value, tz.text.value, 0))
  {
    DrainIsScan(Reset(tz));
  }
}
