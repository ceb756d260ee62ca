/** Python's text primitives used by the trigram service: `str.lower`, the
    character classes `\w`, `\d` and `\s` of the `re` module, and `unidecode`.
    Their behaviour on ASCII characters is written out; on every other
    character it is read from the Unicode tables in `CharTables`, which are a
    parameter of the model. */
module PyText {

  predicate IsAscii(c: char) { (c as int) < 128 }

  predicate IsAsciiText(s: string) { forall i :: 0 <= i < |s| ==> IsAscii(s[i]) }

  /** Every character of `s` satisfies `P`. */
  predicate AllChars(P: char -> bool, s: string) { forall i :: 0 <= i < |s| ==> P(s[i]) }

  /** What `unidecode` returns: a string of ASCII characters. */
  type AsciiString = s: string | IsAsciiText(s)

  predicate IsAsciiUpper(c: char) { 'A' <= c <= 'Z' }

  predicate IsAsciiLowerLetter(c: char) { 'a' <= c <= 'z' }

  predicate IsAsciiDigit(c: char) { '0' <= c <= '9' }

  /** `\s` on ASCII: the space, \t \n \v \f \r, and the separators \x1c to \x1f
      (the ASCII characters for which `str.isspace` holds). */
  predicate IsAsciiSpace(c: char) { c == ' ' || '\t' <= c <= '\r' || '\U{1c}' <= c <= '\U{1f}' }

  /** ASCII with no capital letter: what a lowered ASCII string is made of. */
  predicate IsFoldedAscii(c: char) { IsAscii(c) && !IsAsciiUpper(c) }

  /** `str.lower` on one ASCII character. */
  function AsciiLower(c: char): char
  {
    if IsAsciiUpper(c) then (c as int + 32) as char else c
  }

  /** The Unicode data Python and `unidecode` consult for characters outside
      ASCII: the lower-case mapping of `str.lower`, the membership of the
      regular-expression classes `\w`, `\d` and `\s`, and the transliteration
      table of `unidecode`, whose entries are ASCII by construction. */
  datatype CharTables = CharTables(
    lowerOther: char -> string,
    isWordOther: char -> bool,
    isDigitOther: char -> bool,
    isSpaceOther: char -> bool,
    transliterate: char -> AsciiString)

  /** Replace every character `c` of `s` by the string `f(c)`. */
  function FlatMap(f: char -> string, s: string): string
  {
    if s == [] then [] else f(s[0]) + FlatMap(f, s[1..])
  }

  lemma {:induction false} FlatMapAppend(f: char -> string, a: string, b: string)
    ensures FlatMap(f, a + b) == FlatMap(f, a) + FlatMap(f, b)
  {
    if a == [] {
      assert a + b == b;
    } else {
      assert (a + b)[1..] == a[1..] + b;
      FlatMapAppend(f, a[1..], b);
    }
  }

  /** If every character of `s` is replaced by characters satisfying `P`, the
      whole result satisfies `P`. */
  lemma {:induction false} FlatMapAllChars(f: char -> string, P: char -> bool, s: string)
    requires forall i :: 0 <= i < |s| ==> AllChars(P, f(s[i]))
    ensures AllChars(P, FlatMap(f, s))
  {
    if s != [] {
      assert AllChars(P, f(s[0]));
      FlatMapAllChars(f, P, s[1..]);
    }
  }

  /** A function that leaves every character of `s` alone leaves `s` alone. */
  lemma {:induction false} FlatMapIdentity(f: char -> string, s: string)
    requires forall i :: 0 <= i < |s| ==> f(s[i]) == [s[i]]
    ensures FlatMap(f, s) == s
  {
    if s != [] {
      FlatMapIdentity(f, s[1..]);
    }
  }

  /** A one-for-one replacement keeps the length and works position by position. */
  lemma {:induction false} FlatMapPointwise(f: char -> string, g: char -> char, s: string)
    requires forall i :: 0 <= i < |s| ==> f(s[i]) == [g(s[i])]
    ensures |FlatMap(f, s)| == |s|
    ensures forall i :: 0 <= i < |s| ==> FlatMap(f, s)[i] == g(s[i])
  {
    if s != [] {
      FlatMapPointwise(f, g, s[1..]);
    }
  }

  function LowerChar(t: CharTables, c: char): string
  {
    if IsAscii(c) then [AsciiLower(c)] else t.lowerOther(c)
  }

  /** `text.lower()` */
  function Lower(t: CharTables, s: string): string
  {
    FlatMap(c => LowerChar(t, c), s)
  }

  /** On ASCII text `str.lower` lowers each capital letter and nothing else. */
  lemma LowerAscii(t: CharTables, s: string)
    requires IsAsciiText(s)
    ensures |Lower(t, s)| == |s|
    ensures forall i :: 0 <= i < |s| ==> Lower(t, s)[i] == AsciiLower(s[i])
  {
    FlatMapPointwise(c => LowerChar(t, c), AsciiLower, s);
  }

  /** `\w` */
  predicate IsWordChar(t: CharTables, c: char)
  {
    if IsAscii(c) then IsAsciiUpper(c) || IsAsciiLowerLetter(c) || IsAsciiDigit(c) || c == '_'
    else t.isWordOther(c)
  }

  /** `\d` */
  predicate IsDigitChar(t: CharTables, c: char)
  {
    if IsAscii(c) then IsAsciiDigit(c) else t.isDigitOther(c)
  }

  /** `\s` */
  predicate IsSpaceChar(t: CharTables, c: char)
  {
    if IsAscii(c) then IsAsciiSpace(c) else t.isSpaceOther(c)
  }

  /** The class `[\W\d\s]`: not a word character, or a digit, or whitespace. */
  predicate InStripClass(t: CharTables, c: char)
  {
    !IsWordChar(t, c) || IsDigitChar(t, c) || IsSpaceChar(t, c)
  }

  /** `re.sub('[\W\d\s]', '', s)` */
  function StripClass(t: CharTables, s: string): string
  {
    FlatMap(c => if InStripClass(t, c) then [] else [c], s)
  }

  /** What `unidecode` puts in place of one character: ASCII is kept, anything
      else is looked up in the table. */
  function TransliterateChar(t: CharTables, c: char): AsciiString
  {
    if IsAscii(c) then [c] else t.transliterate(c)
  }

  /** `unidecode(s)`: its result is plain ASCII whatever `s` holds. */
  function Unidecode(t: CharTables, s: string): (r: string)
    ensures IsAsciiText(r)
  {
    FlatMapAllChars(c => TransliterateChar(t, c), IsAscii, s);
    FlatMap(c => TransliterateChar(t, c), s)
  }

  /** Two texts whose characters are replaced alike, position by position, are
      replaced alike as a whole. */
  lemma {:induction false} FlatMapCongruent(f: char -> string, a: string, b: string)
    requires |a| == |b|
    requires forall i :: 0 <= i < |a| ==> f(a[i]) == f(b[i])
    ensures FlatMap(f, a) == FlatMap(f, b)
  {
    if a != [] {
      FlatMapCongruent(f, a[1..], b[1..]);
    }
  }

  /** Text made only of characters of the class is deleted entirely. */
  lemma {:induction false} StripWholeText(t: CharTables, s: string)
    requires forall i :: 0 <= i < |s| ==> InStripClass(t, s[i])
    ensures StripClass(t, s) == []
  {
    if s != [] {
      StripWholeText(t, s[1..]);
    }
  }

  /** `str.lower`, the stripping substitution and `unidecode` all work one
      character at a time, so each of them distributes over concatenation. */
  lemma CharwiseAppend(t: CharTables, a: string, b: string)
    ensures Lower(t, a + b) == Lower(t, a) + Lower(t, b)
    ensures StripClass(t, a + b) == StripClass(t, a) + StripClass(t, b)
    ensures Unidecode(t, a + b) == Unidecode(t, a) + Unidecode(t, b)
  {
    FlatMapAppend(c => LowerChar(t, c), a, b);
    FlatMapAppend(c => if InStripClass(t, c) then [] else [c], a, b);
    FlatMapAppend(c => TransliterateChar(t, c), a, b);
  }

  /** On a single character each of them is its per-character replacement. */
  lemma CharwiseSingle(t: CharTables, c: char)
    ensures Lower(t, [c]) == LowerChar(t, c)
    ensures StripClass(t, [c]) == if InStripClass(t, c) then [] else [c]
    ensures Unidecode(t, [c]) == TransliterateChar(t, c)
  {
    FlatMapSingle(c => LowerChar(t, c), c);
    FlatMapSingle(c => if InStripClass(t, c) then [] else [c], c);
    FlatMapSingle(c => TransliterateChar(t, c), c);
  }

  lemma FlatMapSingle(f: char -> string, c: char)
    ensures FlatMap(f, [c]) == f(c)
  {
  }
}
