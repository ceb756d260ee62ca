/** The part of scikit-learn's `CountVectorizer(ngram_range=(3, 3),
    lowercase=True, analyzer='char')` that the trigram service relies on:
    fitting it on a single document and reading its feature names. The counts
    it also produces are discarded by the service and are not modelled. */
module CharVectorizer {
  import opened PyText
  import opened StringOrder
  import opened Results

  /** `ngram_range=(3, 3)`: only windows of exactly this many characters. */
  const NgramSize := 3

  /** `fit_transform` raises `ValueError("empty vocabulary; ...")` when the
      document yields no n-gram at all. */
  datatype FitError = EmptyVocabulary

  /** `s` without its leading run of whitespace. */
  function SkipSpaces(t: CharTables, s: string): (r: string)
    ensures |r| <= |s| && r == s[|s| - |r|..]
    ensures s != [] && IsSpaceChar(t, s[0]) ==> |r| < |s|
  {
    if s != [] && IsSpaceChar(t, s[0]) then SkipSpaces(t, s[1..]) else s
  }

  /** `re.sub(r"\s\s+", " ", s)`: every run of two or more whitespace
      characters becomes one space; a lone whitespace character is kept. */
  function CollapseWhitespace(t: CharTables, s: string): (r: string)
    ensures |r| <= |s|
    decreases |s|
  {
    if |s| >= 2 && IsSpaceChar(t, s[0]) && IsSpaceChar(t, s[1]) then
      " " + CollapseWhitespace(t, SkipSpaces(t, s))
    else if s == [] then []
    else [s[0]] + CollapseWhitespace(t, s[1..])
  }

  /** Text without whitespace has nothing to collapse. */
  lemma {:induction false} CollapseWithoutWhitespace(t: CharTables, s: string)
    requires forall i :: 0 <= i < |s| ==> !IsSpaceChar(t, s[i])
    ensures CollapseWhitespace(t, s) == s
  {
    if s != [] {
      CollapseWithoutWhitespace(t, s[1..]);
    }
  }

  /** Collapsing only ever writes a space or a character of its input, so a
      property of all those characters holds of its output. */
  lemma {:induction false} CollapseAllChars(t: CharTables, P: char -> bool, s: string)
    requires AllChars(P, s) && P(' ')
    ensures AllChars(P, CollapseWhitespace(t, s))
    decreases |s|
  {
    if |s| >= 2 && IsSpaceChar(t, s[0]) && IsSpaceChar(t, s[1]) {
      var rest := SkipSpaces(t, s);
      assert forall i :: 0 <= i < |rest| ==> rest[i] == s[|s| - |rest| + i];
      CollapseAllChars(t, P, rest);
    } else if s != [] {
      CollapseAllChars(t, P, s[1..]);
    }
  }

  /** The text the windows are cut from: the document lowered
      (`lowercase=True`), then its whitespace runs collapsed as the `char`
      analyzer does before cutting. */
  function Analyze(t: CharTables, doc: string): string
  {
    CollapseWhitespace(t, Lower(t, doc))
  }

  /** Every window of `NgramSize` consecutive characters, left to right. */
  function CharNgrams(s: string): (r: seq<string>)
    ensures |r| == if |s| < NgramSize then 0 else |s| - NgramSize + 1
    ensures forall i :: 0 <= i < |r| ==> r[i] == Window(s, i)
    ensures forall w :: w in r <==> IsWindowOf(w, s)
  {
    var r := seq(if |s| < NgramSize then 0 else |s| - NgramSize + 1, i requires 0 <= i <= |s| - NgramSize => Window(s, i));
    assert forall w :: IsWindowOf(w, s) ==> w in r by {
      forall w | IsWindowOf(w, s) ensures w in r {
        var i :| 0 <= i <= |s| - NgramSize && Window(s, i) == w;
        assert r[i] == w;
      }
    }
    r
  }

  /** The `NgramSize` characters of `s` starting at `i`. */
  function Window(s: string, i: int): string
    requires 0 <= i <= |s| - NgramSize
  {
    s[i..i + NgramSize]
  }

  /** `w` is `NgramSize` consecutive characters of `s`. */
  predicate IsWindowOf(w: string, s: string)
  {
    exists i :: 0 <= i <= |s| - NgramSize && Window(s, i) == w
  }

  /** The set of distinct trigrams of `s`: the fitted vocabulary. */
  function Vocabulary(s: string): set<string>
  {
    Members(CharNgrams(s))
  }

  /** `fit_transform([doc])` followed by `get_feature_names()`: the distinct
      character trigrams of the analyzed document in ascending order, or the
      error raised for an empty vocabulary. */
  function FitFeatureNames(t: CharTables, doc: string): (r: Result<seq<string>, FitError>)
    ensures r.Ok? ==> r.value != [] && StrictlyAscending(r.value)
  {
    var names := SortedDistinct(CharNgrams(Analyze(t, doc)));
    if names == [] then Err(EmptyVocabulary) else Ok(names)
  }

  /** Fitting fails exactly when the analyzed text is shorter than a trigram;
      otherwise the feature names are the whole vocabulary, each name a window
      of the analyzed text, strictly ascending and one per distinct window. */
  lemma FitFeatureNamesSpec(t: CharTables, doc: string)
    ensures FitFeatureNames(t, doc).Err? <==> |Analyze(t, doc)| < NgramSize
    ensures FitFeatureNames(t, doc).Err? ==> FitFeatureNames(t, doc).error == EmptyVocabulary
    ensures FitFeatureNames(t, doc).Ok? ==>
      var names := FitFeatureNames(t, doc).value;
      && StrictlyAscending(names)
      && (forall w :: w in names <==> IsWindowOf(w, Analyze(t, doc)))
      && |names| == |Vocabulary(Analyze(t, doc))|
  {
    var s := Analyze(t, doc);
    var names := SortedDistinct(CharNgrams(s));
    if |s| >= NgramSize {
      assert Window(s, 0) in CharNgrams(s);
    }
    AscendingLength(names);
    assert Members(names) == Vocabulary(s);
  }

  /** A window is made of characters of the text it is cut from. */
  lemma WindowAllChars(P: char -> bool, w: string, s: string)
    requires IsWindowOf(w, s) && AllChars(P, s)
    ensures AllChars(P, w)
  {
    var i :| 0 <= i <= |s| - NgramSize && Window(s, i) == w;
    assert forall k :: 0 <= k < |w| ==> w[k] == s[i + k];
  }
}
