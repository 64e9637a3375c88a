/** TokenizerFactory<T>: a fluent builder of a keyed, insertion-ordered collection of
    definitions, and the entry point that hands a snapshot of it to a new tokenizer.

    The factory is a value here: With returns the factory with the definition added, which
    is what the chained calls of the class see, and a tokenizer holds its own copy of the
    definitions, so later additions cannot reach it. */
module Factory {
  import opened Wrappers
  import opened Exceptions
  import opened Tokenization
  import opened TokenizerEnumerator

  datatype TokenizerFactory<T> = TokenizerFactory(definitions: seq<TokenDefinition<T>>)

  /** The collection is keyed by type: no two definitions share one. */
  ghost predicate Keyed<T>(defs: seq<TokenDefinition<T>>) {
    forall i, j :: 0 <= i < j < |defs| ==> defs[i].kind != defs[j].kind
  }

  /** Whether a definition of type `kind` is already in the collection. */
  predicate HasKey<T(==)>(defs: seq<TokenDefinition<T>>, kind: T)
    ensures HasKey(defs, kind) <==> exists i :: 0 <= i < |defs| && defs[i].kind == kind
  {
    if |defs| == 0 then false
    else defs[|defs| - 1].kind == kind || HasKey(defs[..|defs| - 1], kind)
  }

  function NewFactory<T>(): (f: TokenizerFactory<T>)
    ensures |f.definitions| == 0 && Keyed(f.definitions)
  {
    TokenizerFactory([])
  }

  /** Adds one definition at the end of the collection. A null pattern is rejected first, then
      the definition constructor's checks apply, then the key must be new; on any failure the
      collection is left as it was. */
  function With<T(==)>(f: TokenizerFactory<T>, kind: Option<T>, pattern: Option<string>, regex: Regex)
    : (r: Result<TokenizerFactory<T>, Exception>)
    ensures pattern.None? ==> r == Failure(ArgumentNull("pattern"))
    ensures pattern.Some? && kind.None? ==> r == Failure(ArgumentNull("type"))
    ensures kind.Some? && pattern.Some? ==>
              (r == Failure(DuplicateKey) <==> exists i :: 0 <= i < |f.definitions| && f.definitions[i].kind == kind.value)
    ensures r.Success? <==> kind.Some? && pattern.Some? && !HasKey(f.definitions, kind.value)
    ensures r.Success? ==> r.value.definitions == f.definitions + [TokenDefinition(kind.value, pattern.value, regex)]
    ensures r.Success? && Keyed(f.definitions) ==> Keyed(r.value.definitions)
  {
    if pattern.None? then Failure(ArgumentNull("pattern"))
    else match NewTokenDefinition(kind, pattern, regex)
      case Failure(e) => Failure(e)
      case Success(d) =>
        if HasKey(f.definitions, d.kind) then Failure(DuplicateKey)
        else Success(TokenizerFactory(f.definitions + [d]))
  }

  /** A new tokenizer over the definitions, in insertion order, and `text`. */
  function Tokenize<T>(f: TokenizerFactory<T>, text: Option<string>): (r: Result<Tokenizer<T>, Exception>)
    ensures text.None? ==> r == Failure(ArgumentNull("text"))
    ensures text.Some? && |f.definitions| == 0 ==> r == Failure(Argument("definitions"))
    ensures r.Success? <==> text.Some? && |f.definitions| > 0
    ensures r.Success? ==> r.value.definitions == Some(f.definitions) && r.value.text == text
    ensures r.Success? ==> r.value.index == 0 && Valid(r.value) && !Finished(r.value)
  {
    if text.None? then Failure(ArgumentNull("text"))
    else NewTokenizer(Some(f.definitions), text)
  }

  /** The tokens a factory's tokenizer yields are the scan of the text with the definitions
      tried in insertion order. */
  lemma TokenizeScansInOrder<T>(f: TokenizerFactory<T>, text: string)
    requires |f.definitions| > 0
    ensures Tokenize(f, Some(text)).Success?
    ensures Drain(Tokenize(f, Some(text)).value) == Observed(ScanFrom(f.definitions, text, 0))
  {
    FreshTokenizerScans(f.definitions, text);
  }

  /** A tokenizer already handed out still yields the scan with the definitions of the moment
      it was made, while the grown factory's tokenizers try the new definition last. Here
      this holds by construction: factories and tokenizers are values, so nothing can alias,
      and the lemma records the outcome that `Tokenize`'s copying of the collection secures
      in the source rather than modelling the copy itself. */
  lemma SnapshotIsolated<T>(f: TokenizerFactory<T>, text: string, kind: T, pattern: string, regex: Regex)
    requires |f.definitions| > 0
    requires With(f, Some(kind), Some(pattern), regex).Success?
    ensures var tz := Tokenize(f, Some(text)).value;
            var g := With(f, Some(kind), Some(pattern), regex).value;
            && tz.definitions == Some(f.definitions)
            && Drain(tz) == Observed(ScanFrom(f.definitions, text, 0))
            && g.definitions[..|f.definitions|] == f.definitions
            && Tokenize(g, Some(text)).value.definitions == Some(f.definitions + [TokenDefinition(kind, pattern, regex)])
  {
    TokenizeScansInOrder(f, text);
  }
}
