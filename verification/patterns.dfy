/** Concrete patterns for the grammars in the repository: `[1-9][0-9]*`, `[+]`, `[-]`, `[*]`,
    `[/]`, `\s+` and `\w+`.

    Each is a character class followed, optionally, by a greedy run of a second class; for
    such a pattern the engine's leftmost match from `startat` is found by trying each position
    in turn and taking, at the first one where the first class matches, the longest run.
    Compile turns a pattern into the engine-level search that a TokenDefinition holds. */
module Patterns {
  import opened Wrappers
  import opened Tokenization

  datatype CharClass = NonZeroDigit | Digit | Literal(c: char) | Space | Word

  /** `\s`: the white-space characters, with the separator categories of Unicode. */
  predicate IsWhitespace(c: char) {
    || 9 <= c as int <= 13 || c == ' ' || c as int == 0x85 || c as int == 0xA0
    || c as int == 0x1680 || 0x2000 <= c as int <= 0x200A || c as int == 0x2028
    || c as int == 0x2029 || c as int == 0x202F || c as int == 0x205F || c as int == 0x3000
  }

  /** `\w` restricted to ASCII: letters, digits and the underscore. */
  predicate IsWordChar(c: char) {
    'a' <= c <= 'z' || 'A' <= c <= 'Z' || '0' <= c <= '9' || c == '_'
  }

  predicate InClass(k: CharClass, c: char) {
    match k
    case NonZeroDigit => '1' <= c <= '9'
    case Digit => '0' <= c <= '9'
    case Literal(l) => c == l
    case Space => IsWhitespace(c)
    case Word => IsWordChar(c)
  }

  /** `Single(k)` is one character of `k`; `Plus(first, rest)` is one character of `first`
      followed by a greedy run of `rest`, so `\s+` is Plus(Space, Space). */
  datatype Pattern = Single(k: CharClass) | Plus(first: CharClass, rest: CharClass) {
    function Head(): CharClass {
      match this
      case Single(k) => k
      case Plus(first, _) => first
    }
  }

  /** The length of the longest run of `k` characters in `s` from `i`; the character after
      the run, if any, is not in `k`. */
  function Run(k: CharClass, s: string, i: nat): (n: nat)
    requires i <= |s|
    decreases |s| - i
    ensures i + n <= |s|
    ensures i + n == |s| || !InClass(k, s[i + n])
  {
    if i < |s| && InClass(k, s[i]) then 1 + Run(k, s, i + 1) else 0
  }

  /** Every character of the run is in `k`, so the run is the longest one. */
  lemma {:induction false} RunInClass(k: CharClass, s: string, i: nat)
    requires i <= |s|
    decreases |s| - i
    ensures forall j :: i <= j < i + Run(k, s, i) ==> InClass(k, s[j])
  {
    if i < |s| && InClass(k, s[i]) {
      RunInClass(k, s, i + 1);
    }
  }

  /** The length of the match that begins at `i`, if one does. */
  function MatchAt(p: Pattern, s: string, i: nat): (r: Option<nat>)
    requires i <= |s|
    ensures r.Some? <==> i < |s| && InClass(p.Head(), s[i])
    ensures r.Some? ==> 1 <= r.value && i + r.value <= |s|
    ensures r.Some? && p.Single? ==> r.value == 1
    ensures r.Some? && p.Plus? ==> i + r.value == |s| || !InClass(p.rest, s[i + r.value])
  {
    if i < |s| && InClass(p.Head(), s[i]) then
      match p
      case Single(_) => Some(1)
      case Plus(_, rest) => Some(1 + Run(rest, s, i + 1))
    else None
  }

  /** A match of `Plus(first, rest)` is a `first` character followed by `rest` characters up to
      the first character that is not one. */
  lemma MatchAtPlus(p: Pattern, s: string, i: nat)
    requires i <= |s| && p.Plus? && MatchAt(p, s, i).Some?
    ensures var n := MatchAt(p, s, i).value;
            && InClass(p.first, s[i])
            && (forall j :: i < j < i + n ==> InClass(p.rest, s[j]))
            && (i + n == |s| || !InClass(p.rest, s[i + n]))
  {
    RunInClass(p.rest, s, i + 1);
  }

  /** The leftmost match at or after `start`. */
  function Search(p: Pattern, s: string, start: nat): (r: Option<Hit>)
    decreases |s| - start
    ensures r.Some? ==> start <= r.value.index <= |s|
    ensures r.Some? ==> MatchAt(p, s, r.value.index) == Some(|r.value.value|)
    ensures r.Some? ==> OccursAt(s, r.value.index, r.value.value)
    ensures r.Some? ==> forall q :: start <= q < r.value.index ==> MatchAt(p, s, q).None?
    ensures r.None? ==> forall q :: start <= q <= |s| ==> MatchAt(p, s, q).None?
  {
    if start > |s| then None
    else match MatchAt(p, s, start)
      case Some(n) => Some(Hit(start, s[start..start + n]))
      case None => if start == |s| then None else Search(p, s, start + 1)
  }

  /** The compiled form of a pattern. */
  function Compile(p: Pattern): Regex {
    (input: string, startat: nat) => Search(p, input, startat)
  }

  /** Under the anchoring of Match, the leftmost search reduces to the match at the start:
      the definition's value is the text of the match beginning at `i`, and there is none
      when the pattern does not match there, however it matches later. */
  lemma {:induction false} AnchoredSearch<T>(kind: T, pattern: string, p: Pattern, s: string, i: nat)
    requires i <= |s|
    ensures var d := TokenDefinition(kind, pattern, Compile(p));
            && (Match(d, s, i).Some? <==> MatchAt(p, s, i).Some?)
            && (Match(d, s, i).Some? ==> Match(d, s, i).value == s[i..i + MatchAt(p, s, i).value])
  {
    var d := TokenDefinition(kind, pattern, Compile(p));
    assert d.regex(s, i) == Search(p, s, i);
    match MatchAt(p, s, i)
    case Some(n) =>
      assert Search(p, s, i) == Some(Hit(i, s[i..i + n]));
    case None =>
  }
}
